/**
 * Byte-level helpers shared by the model: bytes, little-endian fields,
 * the 8-bit checksum used by ACPI and SMBIOS, character classes of the
 * boot loader's C library, and NUL-terminated C strings held in a `string`.
 */
module Bytes {

  type byte = x: int | 0 <= x < 256

  const TWO16: nat := 0x1_0000
  const TWO32: nat := 0x1_0000_0000

  /** The character at `i` of a C string buffer, NUL once past its end. */
  function At(s: string, i: nat): char
  {
    if i < |s| then s[i] else '\0'
  }

  /** Byte `i` of a buffer, 0 once past its end. */
  function ByteAt(b: seq<byte>, i: nat): byte
  {
    if i < |b| then b[i] else 0
  }

  /** Little-endian 16-bit field at `off`. */
  function LE16(b: seq<byte>, off: nat): (r: nat)
    requires off + 2 <= |b|
    ensures r < TWO16
    ensures r % 256 == b[off] && r / 256 == b[off + 1]
  {
    b[off] as int + 256 * (b[off + 1] as int)
  }

  /** Little-endian 32-bit field at `off`. */
  function LE32(b: seq<byte>, off: nat): (r: nat)
    requires off + 4 <= |b|
    ensures r < TWO32
    ensures r % TWO16 == LE16(b, off) && r / TWO16 == LE16(b, off + 2)
  {
    LE16(b, off) + TWO16 * LE16(b, off + 2)
  }

  /** Little-endian 64-bit field at `off`. */
  function LE64(b: seq<byte>, off: nat): nat
    requires off + 8 <= |b|
  {
    LE32(b, off) + TWO32 * LE32(b, off + 4)
  }

  /** A 16-bit field reads the same from its own two bytes. */
  lemma LE16Slice(b: seq<byte>, off: nat)
    requires off + 2 <= |b|
    ensures LE16(b, off) == LE16(b[off..off + 2], 0)
  {
  }

  /** A 32-bit field reads the same from its own four bytes. */
  lemma LE32Slice(b: seq<byte>, off: nat)
    requires off + 4 <= |b|
    ensures LE32(b, off) == LE32(b[off..off + 4], 0)
  {
    LE16Slice(b, off);
    LE16Slice(b, off + 2);
    LE16Slice(b[off..off + 4], 2);
    assert b[off..off + 4][2..4] == b[off + 2..off + 4];
  }

  /** A 64-bit field reads the same from its own eight bytes. */
  lemma LE64Slice(b: seq<byte>, off: nat)
    requires off + 8 <= |b|
    ensures LE64(b, off) == LE64(b[off..off + 8], 0)
  {
    var e := b[off..off + 8];
    LE32Slice(b, off);
    LE32Slice(b, off + 4);
    LE32Slice(e, 0);
    LE32Slice(e, 4);
    assert e[0..4] == b[off..off + 4];
    assert e[4..8] == b[off + 4..off + 8];
  }

  /** n zero bytes. */
  function Zeros(n: nat): (r: seq<byte>)
    ensures |r| == n && forall i :: 0 <= i < n ==> r[i] == 0
  {
    if n == 0 then [] else [0] + Zeros(n - 1)
  }

  /** Little-endian encodings of 16 and 32-bit values. */
  function EncLE16(x: nat): (r: seq<byte>)
    requires x < TWO16
    ensures |r| == 2 && LE16(r, 0) == x
  {
    [x % 256, x / 256]
  }

  function EncLE32(x: nat): (r: seq<byte>)
    requires x < TWO32
    ensures |r| == 4 && LE32(r, 0) == x
  {
    EncLE16(x % TWO16) + EncLE16(x / TWO16)
  }

  function EncLE64(x: nat): (r: seq<byte>)
    requires x < TWO32 * TWO32
    ensures |r| == 8 && LE64(r, 0) == x
  {
    var lo := EncLE32(x % TWO32);
    var hi := EncLE32(x / TWO32);
    assert LE32(lo + hi, 0) == LE32(lo, 0) by { assert (lo + hi)[..4] == lo; }
    assert LE32(lo + hi, 4) == LE32(hi, 0) by { assert (lo + hi)[4..] == hi; }
    lo + hi
  }

  /** Writes `v` over `b[off..off+|v|]`. */
  function Splice(b: seq<byte>, off: nat, v: seq<byte>): (r: seq<byte>)
    requires off + |v| <= |b|
    ensures |r| == |b|
    ensures r[..off] == b[..off] && r[off..off + |v|] == v && r[off + |v|..] == b[off + |v|..]
  {
    b[..off] + v + b[off + |v|..]
  }

  /** Sum of the bytes of a buffer. */
  function Sum(b: seq<byte>): nat
  {
    if b == [] then 0 else Sum(b[..|b| - 1]) + b[|b| - 1]
  }

  /** The C `checksum8`: the byte sum modulo 256. */
  function Checksum8(b: seq<byte>): byte
  {
    Sum(b) % 256
  }

  lemma {:induction false} SumAppend(a: seq<byte>, c: seq<byte>)
    ensures Sum(a + c) == Sum(a) + Sum(c)
  {
    if c == [] {
      assert a + c == a;
    } else {
      var ac := a + c;
      assert ac[..|ac| - 1] == a + c[..|c| - 1];
      SumAppend(a, c[..|c| - 1]);
    }
  }

  lemma SumSingle(x: byte)
    ensures Sum([x]) == x
  {
    assert [x][..0] == [];
  }

  lemma SumReplace(b: seq<byte>, i: nat, x: byte)
    requires i < |b|
    ensures Sum(b[i := x]) + b[i] == Sum(b) + x
  {
    assert b == b[..i] + [b[i]] + b[i + 1..];
    assert b[i := x] == b[..i] + [x] + b[i + 1..];
    SumAppend(b[..i] + [b[i]], b[i + 1..]);
    SumAppend(b[..i], [b[i]]);
    SumAppend(b[..i] + [x], b[i + 1..]);
    SumAppend(b[..i], [x]);
    SumSingle(x);
    SumSingle(b[i]);
  }

  /**
   * The fix-up every table patcher performs: zero the checksum byte, then
   * store `256 - checksum8(table)` truncated to a byte.
   */
  function FixChecksum(b: seq<byte>, idx: nat): (r: seq<byte>)
    requires idx < |b|
    ensures |r| == |b|
    ensures forall k :: 0 <= k < |b| && k != idx ==> r[k] == b[k]
    ensures Checksum8(r) == 0
  {
    var z := b[idx := 0];
    var c: byte := (256 - Checksum8(z)) % 256;
    SumReplace(z, idx, c);
    ModComplement(Sum(z));
    z[idx := c]
  }

  /** Adding the byte complement of a sum's low byte clears it. */
  lemma ModComplement(x: nat)
    ensures (x + (256 - x % 256) % 256) % 256 == 0
  {
    var q, r := x / 256, x % 256;
    var c := (256 - r) % 256;
    if r == 0 {
      assert c == 0;
    } else {
      assert c == 256 - r;
      assert x + c == (q + 1) * 256;
    }
  }

  // Character classes of the boot loader's C library (ASCII only).

  predicate IsDigit(c: char) { '0' <= c <= '9' }

  predicate IsHexDigit(c: char)
  {
    '0' <= c <= '9' || 'a' <= c <= 'f' || 'A' <= c <= 'F'
  }

  predicate IsSpace(c: char)
  {
    c == ' ' || c == '\t' || c == '\n' || c == '\r' || c == 11 as char || c == 12 as char
  }

  function DigitVal(c: char): (r: nat)
    requires IsDigit(c)
    ensures r < 10
  {
    (c - '0') as nat
  }

  function HexVal(c: char): (r: nat)
    requires IsHexDigit(c)
    ensures r < 16
  {
    if '0' <= c <= '9' then (c - '0') as nat
    else if 'a' <= c <= 'f' then (c - 'a') as nat + 10
    else (c - 'A') as nat + 10
  }

  /** Value of a run of decimal digits. */
  function DecValue(s: string): nat
    requires forall k :: 0 <= k < |s| ==> IsDigit(s[k])
  {
    if s == [] then 0 else 10 * DecValue(s[..|s| - 1]) + DigitVal(s[|s| - 1])
  }

  /** Value of a run of hexadecimal digits. */
  function HexValue(s: string): nat
    requires forall k :: 0 <= k < |s| ==> IsHexDigit(s[k])
  {
    if s == [] then 0 else 16 * HexValue(s[..|s| - 1]) + HexVal(s[|s| - 1])
  }

  /** An upper-case hexadecimal digit. */
  function HexDigit(d: nat): (c: char)
    requires d < 16
    ensures IsHexDigit(c) && !('a' <= c <= 'f') && HexVal(c) == d
  {
    if d < 10 then ('0' as int + d) as char else ('A' as int + d - 10) as char
  }

  /** The last `n` hexadecimal digits of `x`, upper case, most significant first. */
  function Hex(x: nat, n: nat): (s: string)
    ensures |s| == n && forall k :: 0 <= k < n ==> IsHexDigit(s[k]) && !('a' <= s[k] <= 'f')
  {
    if n == 0 then [] else Hex(x / 16, n - 1) + [HexDigit(x % 16)]
  }

  function Pow16(n: nat): (r: nat)
    ensures r >= 1
  {
    if n == 0 then 1 else 16 * Pow16(n - 1)
  }

  /** Reading the digits back gives the number, when it has at most `n` digits. */
  lemma {:induction false} HexRoundTrip(x: nat, n: nat)
    requires x < Pow16(n)
    ensures HexValue(Hex(x, n)) == x
  {
    if n > 0 {
      HexRoundTrip(x / 16, n - 1);
      var s := Hex(x, n);
      assert s[..n - 1] == Hex(x / 16, n - 1);
      assert s[n - 1] == HexDigit(x % 16);
    }
  }

  /** Number of consecutive characters from `i` satisfying the class. */
  function DigitRun(s: string, i: nat): (n: nat)
    ensures i + n <= |s| || (i >= |s| && n == 0)
    ensures forall k :: i <= k < i + n ==> IsDigit(s[k])
    ensures !IsDigit(At(s, i + n))
    decreases |s| - i
  {
    if i < |s| && IsDigit(s[i]) then 1 + DigitRun(s, i + 1) else 0
  }

  function HexRun(s: string, i: nat): (n: nat)
    ensures i + n <= |s| || (i >= |s| && n == 0)
    ensures forall k :: i <= k < i + n ==> IsHexDigit(s[k])
    ensures !IsHexDigit(At(s, i + n))
    decreases |s| - i
  {
    if i < |s| && IsHexDigit(s[i]) then 1 + HexRun(s, i + 1) else 0
  }

  /** The C string that starts at `i`: everything up to the first NUL. */
  function CStr(s: string, i: nat): (r: string)
    ensures forall k :: 0 <= k < |r| ==> r[k] != '\0' && i + k < |s| && r[k] == s[i + k]
    ensures At(s, i + |r|) == '\0'
    ensures |r| == 0 || i + |r| <= |s|
    decreases |s| - i
  {
    if i < |s| && s[i] != '\0' then [s[i]] + CStr(s, i + 1) else ""
  }

  /** A string value as the bytes of its characters (the boot loader is ASCII). */
  function Latin1(s: string): (r: seq<byte>)
    requires forall k :: 0 <= k < |s| ==> s[k] as int < 256
    ensures |r| == |s| && forall k :: 0 <= k < |s| ==> r[k] == s[k] as int
  {
    seq(|s|, k requires 0 <= k < |s| => s[k] as int)
  }
}
