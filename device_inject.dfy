/**
 * EFI device properties as the boot loader builds them: the hex text to
 * binary conversion of a property string, the property string with its
 * devices (each found from a "PciRoot(0x..)/Pci(0x..,0x..)" device path),
 * the name/value records appended to a device, and the "built-in" marker
 * that only the first non-Atheros network device receives.
 */
module DeviceInject {
  import opened Wrappers
  import opened Bytes
  import opened CLib

  // ---------------------------------------------------------------------
  // convertHexStr2Binary
  // ---------------------------------------------------------------------

  /** The hexadecimal digits of `s` in order; every other character is skipped. */
  function HexDigitsOf(s: string): (d: string)
    ensures |d| <= |s|
    ensures forall k :: 0 <= k < |d| ==> IsHexDigit(d[k])
  {
    if s == [] then []
    else HexDigitsOf(s[..|s| - 1]) + (if IsHexDigit(s[|s| - 1]) then [s[|s| - 1]] else [])
  }

  /** The byte two hexadecimal digits stand for, the first one being the high nibble. */
  function PairByte(hi: char, lo: char): byte
    requires IsHexDigit(hi) && IsHexDigit(lo)
  {
    16 * HexVal(hi) + HexVal(lo)
  }

  /** Digits taken two at a time into bytes; an unpaired last digit is dropped. */
  function PackPairs(d: string): seq<byte>
    requires forall k :: 0 <= k < |d| ==> IsHexDigit(d[k])
  {
    if |d| < 2 then [] else [PairByte(d[0], d[1])] + PackPairs(d[2..])
  }

  /** What `convertHexStr2Binary` yields: no buffer for text of length 0 or 1, else the packed digits. */
  function HexToBinary(hexStr: string): Option<seq<byte>>
  {
    if |hexStr| <= 1 then None else Some(PackPairs(HexDigitsOf(hexStr)))
  }

  /** The C's digit value: the chain of `<= '9'`, `<= 'F'`, `<= 'f'` tests. */
  function CNibble(c: char): int
  {
    if c <= '9' then c as int - '0' as int
    else if c <= 'F' then c as int - ('A' as int - 10)
    else if c <= 'f' then c as int - ('a' as int - 10)
    else 0
  }

  /** `binChar`: the first nibble added, shifted left by four within a byte, the second added. */
  function CombineNibbles(hi: char, lo: char): byte
  {
    (((CNibble(hi) % 256) * 16) % 256 + CNibble(lo)) % 256
  }

  /** For the characters the filter lets through, the C arithmetic is the pair's value. */
  lemma CombineIsPairByte(hi: char, lo: char)
    requires IsHexDigit(hi) && IsHexDigit(lo)
    ensures CombineNibbles(hi, lo) == PairByte(hi, lo)
  {
    assert CNibble(hi) == HexVal(hi) && CNibble(lo) == HexVal(lo);
    NibbleArithmetic(CNibble(hi), CNibble(lo));
  }

  lemma NibbleArithmetic(a: int, b: int)
    requires 0 <= a < 16 && 0 <= b < 16
    ensures (((a % 256) * 16) % 256 + b) % 256 == 16 * a + b
  {
    assert a % 256 == a;
    assert (a * 16) % 256 == a * 16;
    assert (a * 16 + b) % 256 == a * 16 + b;
  }

  lemma HexDigitsStep(s: string, i: nat)
    requires i < |s|
    ensures IsHexDigit(s[i]) ==> HexDigitsOf(s[..i + 1]) == HexDigitsOf(s[..i]) + [s[i]]
    ensures !IsHexDigit(s[i]) ==> HexDigitsOf(s[..i + 1]) == HexDigitsOf(s[..i])
  {
    assert s[..i + 1][..i] == s[..i];
  }

  /** One more digit either waits for its partner or completes a byte. */
  lemma {:induction false} PackStep(d: string, pairs: nat, odd: nat, c: char)
    requires forall k :: 0 <= k < |d| ==> IsHexDigit(d[k])
    requires IsHexDigit(c) && odd <= 1 && |d| == 2 * pairs + odd
    ensures odd == 0 ==> PackPairs(d + [c]) == PackPairs(d)
    ensures odd == 1 ==> PackPairs(d + [c]) == PackPairs(d) + [PairByte(d[|d| - 1], c)]
    decreases pairs
  {
    var e := d + [c];
    if pairs == 0 {
      if odd == 1 {
        assert e[2..] == [];
      }
    } else {
      var r := d[2..];
      assert e[2..] == r + [c];
      assert e[0] == d[0] && e[1] == d[1];
      PackStep(r, pairs - 1, odd, c);
      if odd == 1 {
        assert r[|r| - 1] == d[|d| - 1];
      }
    }
  }

  /**
   * The conversion loop after `i` characters: the digits seen so far are the
   * pairs `paired`, packed into `out`, then the digit `pending` (if any)
   * waiting for its partner.
   */
  ghost predicate Converted(s: string, i: nat, paired: string, out: seq<byte>, pending: Option<char>)
  {
    i <= |s| && (forall k :: 0 <= k < |paired| ==> IsHexDigit(paired[k])) &&
    HexDigitsOf(s[..i]) == paired + (if pending.Some? then [pending.value] else []) &&
    |paired| == 2 * |out| && out == PackPairs(paired)
  }

  lemma ConvertSkip(s: string, i: nat, paired: string, out: seq<byte>, pending: Option<char>)
    requires i < |s| && !IsHexDigit(s[i]) && Converted(s, i, paired, out, pending)
    ensures Converted(s, i + 1, paired, out, pending)
  {
    HexDigitsStep(s, i);
  }

  lemma ConvertFirst(s: string, i: nat, paired: string, out: seq<byte>)
    requires i < |s| && IsHexDigit(s[i]) && Converted(s, i, paired, out, None)
    ensures Converted(s, i + 1, paired, out, Some(s[i]))
  {
    HexDigitsStep(s, i);
    assert paired + [] == paired;
  }

  lemma ConvertSecond(s: string, i: nat, paired: string, out: seq<byte>, h: char)
    requires i < |s| && IsHexDigit(s[i]) && Converted(s, i, paired, out, Some(h))
    ensures IsHexDigit(h) && Converted(s, i + 1, paired + [h, s[i]], out + [PairByte(h, s[i])], None)
  {
    HexDigitsStep(s, i);
    var d := HexDigitsOf(s[..i]);
    assert d[|d| - 1] == h;
    PackStep(paired, |out|, 0, h);
    PackStep(paired + [h], |out|, 1, s[i]);
    assert paired + [h] + [s[i]] == paired + [h, s[i]];
    assert paired + [h, s[i]] + [] == paired + [h, s[i]];
  }

  /** At the end an unpaired digit is left over unused. */
  lemma ConvertDone(s: string, paired: string, out: seq<byte>, pending: Option<char>)
    requires Converted(s, |s|, paired, out, pending)
    ensures out == PackPairs(HexDigitsOf(s))
  {
    assert s[..|s|] == s;
    if pending.Some? {
      PackStep(paired, |out|, 0, pending.value);
    } else {
      assert paired + [] == paired;
    }
  }

  /**
   * `convertHexStr2Binary`: a buffer of half the text's length (NULL when the
   * text has at most one character) and the number of bytes written to it.
   */
  method ConvertHexStr2Binary(hexStr: string) returns (binStr: array?<byte>, outLength: nat)
    ensures |hexStr| <= 1 ==> binStr == null && outLength == 0
    ensures |hexStr| > 1 ==> binStr != null && fresh(binStr) && binStr.Length == |hexStr| / 2
    ensures |hexStr| > 1 ==> outLength <= binStr.Length && binStr[..outLength] == HexToBinary(hexStr).value
  {
    var len := |hexStr|;
    if len <= 1 {
      return null, 0;
    }
    var buf := new byte[len / 2];
    var binStrIdx := 0;
    var hexNibbleIdx := 0;
    var hexByte0 := '0';
    ghost var paired: string := [];
    var i := 0;
    assert hexStr[..0] == [];
    while i < len
      invariant i <= len && 2 * buf.Length <= len <= 2 * buf.Length + 1
      invariant hexNibbleIdx <= 1 && 2 * binStrIdx + hexNibbleIdx <= i
      invariant Converted(hexStr, i, paired, buf[..binStrIdx], if hexNibbleIdx == 1 then Some(hexByte0) else None)
    {
      var hexNibble := hexStr[i];
      if !IsHexDigit(hexNibble) {
        ConvertSkip(hexStr, i, paired, buf[..binStrIdx], if hexNibbleIdx == 1 then Some(hexByte0) else None);
      } else if hexNibbleIdx == 0 {
        ConvertFirst(hexStr, i, paired, buf[..binStrIdx]);
        hexByte0 := hexNibble;
        hexNibbleIdx := 1;
      } else {
        ConvertSecond(hexStr, i, paired, buf[..binStrIdx], hexByte0);
        CombineIsPairByte(hexByte0, hexNibble);
        ghost var written := buf[..binStrIdx];
        buf[binStrIdx] := CombineNibbles(hexByte0, hexNibble);
        assert buf[..binStrIdx + 1] == written + [PairByte(hexByte0, hexNibble)];
        binStrIdx := binStrIdx + 1;
        hexNibbleIdx := 0;
        paired := paired + [hexByte0, hexNibble];
      }
      i := i + 1;
    }
    ConvertDone(hexStr, paired, buf[..binStrIdx], if hexNibbleIdx == 1 then Some(hexByte0) else None);
    return buf, binStrIdx;
  }

  /** One byte per pair: a trailing unpaired digit adds nothing. */
  lemma {:induction false} PackPairsLength(d: string)
    requires forall k :: 0 <= k < |d| ==> IsHexDigit(d[k])
    ensures |PackPairs(d)| == |d| / 2
    decreases |d|
  {
    if |d| >= 2 {
      PackPairsLength(d[2..]);
    }
  }

  /** Byte k comes from digits 2k (high nibble) and 2k+1 (low nibble). */
  lemma {:induction false} PackPairsAt(d: string, k: nat)
    requires forall j :: 0 <= j < |d| ==> IsHexDigit(d[j])
    requires k < |d| / 2
    ensures |PackPairs(d)| == |d| / 2
    ensures PackPairs(d)[k] == PairByte(d[2 * k], d[2 * k + 1])
    decreases k
  {
    PackPairsLength(d);
    if k > 0 {
      var r := d[2..];
      PackPairsAt(r, k - 1);
      assert r[2 * (k - 1)] == d[2 * k] && r[2 * (k - 1) + 1] == d[2 * k + 1];
    }
  }

  /** A character that is not a hexadecimal digit can be inserted anywhere without effect. */
  lemma {:induction false} HexDigitsIgnore(a: string, c: char, b: string)
    requires !IsHexDigit(c)
    ensures HexDigitsOf(a + [c] + b) == HexDigitsOf(a + b)
    decreases |b|
  {
    if b == [] {
      assert (a + [c] + b)[..|a + [c] + b| - 1] == a;
      assert a + b == a;
    } else {
      var b' := b[..|b| - 1];
      var x := b[|b| - 1];
      HexDigitsIgnore(a, c, b');
      assert (a + [c] + b)[..|a + [c] + b| - 1] == a + [c] + b';
      assert (a + b)[..|a + b| - 1] == a + b';
    }
  }

  /** So the conversion of a text longer than one character ignores inserted non-hex characters. */
  lemma ConversionIgnoresNonHex(a: string, c: char, b: string)
    requires !IsHexDigit(c) && |a + b| > 1
    ensures HexToBinary(a + [c] + b) == HexToBinary(a + b)
  {
    HexDigitsIgnore(a, c, b);
  }

  /** Text made only of hexadecimal digits passes the filter unchanged. */
  lemma {:induction false} AllHexKept(s: string)
    requires forall k :: 0 <= k < |s| ==> IsHexDigit(s[k])
    ensures HexDigitsOf(s) == s
    decreases |s|
  {
    if s != [] {
      AllHexKept(s[..|s| - 1]);
    }
  }

  /** The digit `printf("%x")` writes for a nibble. */
  function LowerHexDigit(d: nat): (c: char)
    requires d < 16
    ensures IsHexDigit(c) && HexVal(c) == d
  {
    if d < 10 then ('0' as int + d) as char else ('a' as int + d - 10) as char
  }

  /** A byte written with `%02x`. */
  function HexPair(x: byte): (h: string)
    ensures |h| == 2 && IsHexDigit(h[0]) && IsHexDigit(h[1])
    ensures PairByte(h[0], h[1]) == x
  {
    [LowerHexDigit(x / 16), LowerHexDigit(x % 16)]
  }

  /** Bytes written one after another with `%02x`, as a property string is generated. */
  function HexText(b: seq<byte>): (t: string)
    ensures |t| == 2 * |b|
    ensures forall k :: 0 <= k < |t| ==> IsHexDigit(t[k])
  {
    if b == [] then [] else HexPair(b[0]) + HexText(b[1..])
  }

  /** Converting the hexadecimal text of some bytes gives the bytes back. */
  lemma {:induction false} HexTextRoundTrip(b: seq<byte>)
    requires |b| >= 1
    ensures HexToBinary(HexText(b)) == Some(b)
  {
    AllHexKept(HexText(b));
    PackHexText(b);
  }

  lemma {:induction false} PackHexText(b: seq<byte>)
    ensures PackPairs(HexText(b)) == b
    decreases |b|
  {
    if b != [] {
      var t := HexText(b);
      var h := HexPair(b[0]);
      assert t[0] == h[0] && t[1] == h[1] && t[2..] == HexText(b[1..]);
      PackHexText(b[1..]);
      assert b == [b[0]] + b[1..];
    }
  }

  // ---------------------------------------------------------------------
  // Device paths: "PciRoot(0x..)/Pci(0x..,0x..)/..."
  // ---------------------------------------------------------------------

  const MAX_PCI_DEV_PATHS: nat := 4

  const ACPI_DP_TYPE: byte := 0x02
  const ACPI_DP_SUBTYPE: byte := 0x01
  const ACPI_DP_LENGTH: nat := 0x0c
  const PCI_ROOT_HID: nat := 0xd041030a
  const PCI_DP_TYPE: byte := 0x01
  const PCI_DP_SUBTYPE: byte := 0x01
  const PCI_DP_LENGTH: nat := 0x06
  const END_DP_TYPE: byte := 0x7f
  const END_DP_SUBTYPE: byte := 0xff
  const END_DP_LENGTH: nat := 0x04

  /** `struct ACPIDevPath`. */
  datatype AcpiDevPath = AcpiDevPath(kind: byte, subtype: byte, length: nat, hid: nat, uid: nat)

  /** `struct PCIDevPath`. */
  datatype PciDevPath = PciDevPath(kind: byte, subtype: byte, length: nat, func: byte, device: byte)

  /** `struct DevicePathEnd`. */
  datatype PathEnd = PathEnd(kind: byte, subtype: byte, length: nat)

  /** A PCI node with its fixed header. */
  function PciNode(device: byte, func: byte): PciDevPath
  {
    PciDevPath(PCI_DP_TYPE, PCI_DP_SUBTYPE, PCI_DP_LENGTH, func, device)
  }

  /** `strncmp(path, "PciRoot(0x", 10) == 0`. */
  predicate PciRootAtStart(s: string)
  {
    At(s, 0) == 'P' && At(s, 1) == 'c' && At(s, 2) == 'i' && At(s, 3) == 'R' && At(s, 4) == 'o' &&
    At(s, 5) == 'o' && At(s, 6) == 't' && At(s, 7) == '(' && At(s, 8) == '0' && At(s, 9) == 'x'
  }

  /** `strncmp(&path[x], "Pci(0x", 6) == 0`. */
  predicate PciAt(s: string, x: nat)
  {
    At(s, x) == 'P' && At(s, x + 1) == 'c' && At(s, x + 2) == 'i' &&
    At(s, x + 3) == '(' && At(s, x + 4) == '0' && At(s, x + 5) == 'x'
  }

  /**
   * How many characters lie between `curr` and the next `stop` when that is
   * one or two (the search starts at `curr + 1`); 0 stands for the C's parse
   * error, and also for the case where the C would search past the string.
   */
  function NumberLen(s: string, curr: nat, stop: char): (n: nat)
    requires stop != '\0'
    ensures n <= 2 && (n > 0 ==> curr + n < |s| && s[curr + n] == stop)
  {
    if At(s, curr + 1) == stop then 1 else if At(s, curr + 2) == stop then 2 else 0
  }

  /** The two buffers copied to `buff` for one "Pci(0x..,0x..)" component. */
  datatype PciNumbers = PciNumbers(device: string, func: string)

  /** `strtoul(buff, NULL, 16)` stored in a byte field. */
  function BuffValue(buff: string): byte
  {
    StrToUL(buff, 0, 16).value % 256
  }

  /** The node the C fills in from the two buffers of a component. */
  function NodeOf(t: PciNumbers): PciDevPath
  {
    PciNode(BuffValue(t.device), BuffValue(t.func))
  }

  function NodesOf(ts: seq<PciNumbers>): (nodes: seq<PciDevPath>)
    ensures |nodes| == |ts|
  {
    seq(|ts|, i requires 0 <= i < |ts| => NodeOf(ts[i]))
  }

  /**
   * The scan loop of `devprop_add_device` from position `x`, with the number
   * buffers `found` of the components read so far: None when a component is
   * malformed.
   */
  function ScanPci(s: string, x: nat, found: seq<PciNumbers>): Option<seq<PciNumbers>>
    decreases |s| - x
  {
    if x >= |s| then Some(found)
    else if !PciAt(s, x) then ScanPci(s, x + 1, found)
    else
      var curr := x + 6;
      var dn := NumberLen(s, curr, ',');
      if dn == 0 then None
      else
        var fcurr := curr + dn + 3;
        var fn := NumberLen(s, fcurr, ')');
        if fn == 0 then None
        else ScanPci(s, fcurr + fn + 1, found + [PciNumbers(s[curr..curr + dn], s[fcurr..fcurr + fn])])
  }

  /** The PCI nodes of a device path, or None where `devprop_add_device` returns NULL. */
  function ParsePciPath(path: Option<string>): Option<seq<PciDevPath>>
  {
    if path.None? || !PciRootAtStart(path.value) then None
    else match ScanPci(path.value, 0, []) {
      case None => None
      case Some(ts) => if ts == [] then None else Some(NodesOf(ts))
    }
  }

  /** Positions that do not start "Pci(0x" are passed over. */
  lemma {:induction false} SkipNonPci(s: string, x: nat, y: nat, found: seq<PciNumbers>)
    requires x <= y <= |s|
    requires forall k :: x <= k < y ==> !PciAt(s, k)
    ensures ScanPci(s, x, found) == ScanPci(s, y, found)
    decreases y - x
  {
    if x < y {
      SkipNonPci(s, x + 1, y, found);
    }
  }

  /** A path without any "Pci(0x" gives no device. */
  lemma NoPciNoDevice(s: string)
    requires forall k :: 0 <= k < |s| ==> !PciAt(s, k)
    ensures ParsePciPath(Some(s)) == None
  {
    SkipNonPci(s, 0, |s|, []);
  }

  /** A device number of more than two characters (no ',' one or two places on) gives no device. */
  lemma LongDeviceNumberRejected(s: string, x: nat)
    requires x < |s| && PciAt(s, x)
    requires forall k :: 0 <= k < x ==> !PciAt(s, k)
    requires At(s, x + 7) != ',' && At(s, x + 8) != ','
    ensures ParsePciPath(Some(s)) == None
  {
    SkipNonPci(s, 0, x, []);
  }

  /** A function number of more than two characters gives no device either. */
  lemma LongFunctionNumberRejected(s: string, x: nat)
    requires x < |s| && PciAt(s, x)
    requires forall k :: 0 <= k < x ==> !PciAt(s, k)
    requires NumberLen(s, x + 6, ',') > 0
    requires var f := x + 6 + NumberLen(s, x + 6, ',') + 3; At(s, f + 1) != ')' && At(s, f + 2) != ')'
    ensures ParsePciPath(Some(s)) == None
  {
    SkipNonPci(s, 0, x, []);
  }

  /** A PCI device or function number written with `%x`: one digit below 16, else two. */
  function HexNumber(v: byte): (t: string)
    ensures 1 <= |t| <= 2 && forall k :: 0 <= k < |t| ==> IsHexDigit(t[k])
  {
    if v < 16 then [LowerHexDigit(v)] else [LowerHexDigit(v / 16), LowerHexDigit(v % 16)]
  }

  /** One "/Pci(0x%x,0x%x)" component of a device path. */
  function PciText(n: PciDevPath): string
  {
    "/Pci(0x" + HexNumber(n.device) + ",0x" + HexNumber(n.func) + ")"
  }

  function PciTexts(nodes: seq<PciDevPath>): string
  {
    if nodes == [] then "" else PciText(nodes[0]) + PciTexts(nodes[1..])
  }

  /** The text of a device path below the PCI root bridge, as the PCI scan writes it. */
  function DevicePathText(nodes: seq<PciDevPath>): string
  {
    "PciRoot(0x0)" + PciTexts(nodes)
  }

  /** `strtoul(.., 16)` reads a number written with `%x` back. */
  lemma HexNumberValue(v: byte)
    ensures StrToUL(HexNumber(v), 0, 16).value == v
  {
    ReadHexText(HexNumber(v));
    HexNumberDigits(v);
  }

  lemma HexNumberDigits(v: byte)
    ensures HexValue(HexNumber(v)) == v
  {
    var t := HexNumber(v);
    if v < 16 {
      assert t[..0] == [];
    } else {
      var c0 := t[0];
      assert t[..1] == [c0];
      assert [c0][..0] == [];
      assert HexValue([c0]) == v / 16;
    }
  }

  /** A short run of hexadecimal digits, alone in its buffer, is read as its value. */
  lemma ReadHexText(t: string)
    requires 1 <= |t| <= 2 && forall k :: 0 <= k < |t| ==> IsHexDigit(t[k])
    ensures StrToUL(t, 0, 16).value == HexValue(t)
  {
    ScanHex(t, 0, |t|);
    MagnitudeHex(t, 0, |t|);
    HexBound(t, 0, |t|);
    assert t[0..|t|] == t;
  }

  /** Where the characters of one component sit. */
  lemma PciTextLayout(n: PciDevPath)
    ensures var t := PciText(n); var l1 := |HexNumber(n.device)|; var l2 := |HexNumber(n.func)|;
      |t| == 11 + l1 + l2 &&
      t[0] == '/' && t[1] == 'P' && t[2] == 'c' && t[3] == 'i' && t[4] == '(' && t[5] == '0' && t[6] == 'x' &&
      t[7..7 + l1] == HexNumber(n.device) && t[7 + l1] == ',' && (l1 == 2 ==> IsHexDigit(t[8])) &&
      t[10 + l1..10 + l1 + l2] == HexNumber(n.func) && t[10 + l1 + l2] == ')' &&
      (l2 == 2 ==> IsHexDigit(t[11 + l1]))
  {
    var d, f := HexNumber(n.device), HexNumber(n.func);
    var t := PciText(n);
    assert t == "/Pci(0x" + d + ",0x" + f + ")";
    assert t[7..7 + |d|] == d;
    assert t[10 + |d|..10 + |d| + |f|] == f;
  }

  /** The text `t` stands in `s` from position `x` on. */
  ghost predicate TextAt(s: string, x: nat, t: string)
  {
    x + |t| <= |s| && forall k :: 0 <= k < |t| ==> s[x + k] == t[k]
  }

  lemma TextAtSuffix(s: string, a: string, b: string)
    requires s == a + b
    ensures TextAt(s, |a|, b)
  {
    forall k | 0 <= k < |b|
      ensures s[|a| + k] == b[k]
    {
    }
  }

  lemma TextAtSplit(s: string, x: nat, a: string, b: string)
    requires TextAt(s, x, a + b)
    ensures TextAt(s, x, a) && TextAt(s, x + |a|, b)
  {
    forall k | 0 <= k < |a|
      ensures s[x + k] == a[k]
    {
      assert (a + b)[k] == a[k];
    }
    forall k | 0 <= k < |b|
      ensures s[x + |a| + k] == b[k]
    {
      assert (a + b)[|a| + k] == b[k];
    }
  }

  lemma TextAtSlice(s: string, x: nat, t: string, i: nat, j: nat)
    requires TextAt(s, x, t) && i <= j <= |t|
    ensures s[x + i..x + j] == t[i..j]
  {
    var u := s[x + i..x + j];
    forall k | 0 <= k < j - i
      ensures u[k] == t[i..j][k]
    {
      assert u[k] == s[x + (i + k)];
    }
  }

  /** One scan step over a well-formed "Pci(0x..,0x..)" at `y`. */
  lemma ReadComponent(s: string, y: nat, c1: nat, c2: nat, e: nat, found: seq<PciNumbers>)
    requires y < |s| && PciAt(s, y)
    requires c1 == y + 6 && NumberLen(s, c1, ',') > 0
    requires c2 == c1 + NumberLen(s, c1, ',') + 3 && NumberLen(s, c2, ')') > 0
    requires e == c2 + NumberLen(s, c2, ')') + 1
    ensures ScanPci(s, y, found)
         == ScanPci(s, e, found + [PciNumbers(s[c1..c1 + NumberLen(s, c1, ',')], s[c2..c2 + NumberLen(s, c2, ')')])])
  {
  }

  /** The fixed characters of a component placed at `x` frame its two numbers. */
  lemma ComponentChars(s: string, x: nat, n: PciDevPath)
    requires TextAt(s, x, PciText(n))
    ensures x + 11 + |HexNumber(n.device)| + |HexNumber(n.func)| == x + |PciText(n)| <= |s|
    ensures !PciAt(s, x) && PciAt(s, x + 1)
    ensures NumberLen(s, x + 7, ',') == |HexNumber(n.device)|
    ensures NumberLen(s, x + 10 + |HexNumber(n.device)|, ')') == |HexNumber(n.func)|
    ensures s[x + 7..x + 7 + |HexNumber(n.device)|] == HexNumber(n.device)
    ensures s[x + 10 + |HexNumber(n.device)|..x + 10 + |HexNumber(n.device)| + |HexNumber(n.func)|] == HexNumber(n.func)
  {
    var t := PciText(n);
    var l1, l2 := |HexNumber(n.device)|, |HexNumber(n.func)|;
    PciTextLayout(n);
    assert s[x] == t[0];
    assert s[x + 1] == t[1] && s[x + 2] == t[2] && s[x + 3] == t[3];
    assert s[x + 4] == t[4] && s[x + 5] == t[5] && s[x + 6] == t[6];
    assert s[x + 7 + l1] == t[7 + l1];
    assert l1 == 2 ==> s[x + 8] == t[8];
    assert s[x + 10 + l1 + l2] == t[10 + l1 + l2];
    assert l2 == 2 ==> s[x + 11 + l1] == t[11 + l1];
    TextAtSlice(s, x, t, 7, 7 + l1);
    TextAtSlice(s, x, t, 10 + l1, 10 + l1 + l2);
  }

  /** One scan step over a character that does not start "Pci(0x". */
  lemma SkipOne(s: string, x: nat, found: seq<PciNumbers>)
    requires x < |s| && !PciAt(s, x)
    ensures ScanPci(s, x, found) == ScanPci(s, x + 1, found)
  {
  }

  /** The buffers a node's component text yields. */
  function NumbersOf(n: PciDevPath): PciNumbers
  {
    PciNumbers(HexNumber(n.device), HexNumber(n.func))
  }

  /** A component whose characters are at `x` is read as its two numbers. */
  lemma ComponentAt(s: string, x: nat, l1: nat, l2: nat, e: nat, n: PciDevPath, found: seq<PciNumbers>)
    requires l1 == |HexNumber(n.device)| && l2 == |HexNumber(n.func)| && e == x + 11 + l1 + l2 <= |s|
    requires !PciAt(s, x) && PciAt(s, x + 1)
    requires NumberLen(s, x + 7, ',') == l1
    requires NumberLen(s, x + 10 + l1, ')') == l2
    requires s[x + 7..x + 7 + l1] == HexNumber(n.device)
    requires s[x + 10 + l1..x + 10 + l1 + l2] == HexNumber(n.func)
    ensures ScanPci(s, x, found) == ScanPci(s, e, found + [NumbersOf(n)])
  {
    SkipOne(s, x, found);
    ReadComponent(s, x + 1, x + 7, x + 10 + l1, e, found);
  }

  /** Reading one component at `x` yields its numbers and moves past it. */
  lemma CompStep(s: string, x: nat, n: PciDevPath, found: seq<PciNumbers>)
    requires TextAt(s, x, PciText(n))
    ensures ScanPci(s, x, found) == ScanPci(s, x + |PciText(n)|, found + [NumbersOf(n)])
  {
    ComponentChars(s, x, n);
    ComponentAt(s, x, |HexNumber(n.device)|, |HexNumber(n.func)|, x + |PciText(n)|, n, found);
  }

  /** The "PciRoot(0x0)" prefix holds no PCI component. */
  lemma RootSkipped(s: string, rest: string)
    requires s == "PciRoot(0x0)" + rest
    ensures PciRootAtStart(s)
    ensures ScanPci(s, 0, []) == ScanPci(s, 12, [])
  {
    var r := "PciRoot(0x0)";
    assert s[0] == 'P' && s[1] == 'c' && s[2] == 'i' && s[3] == 'R' && s[4] == 'o' && s[5] == 'o';
    assert s[6] == 't' && s[7] == '(' && s[8] == '0' && s[9] == 'x' && s[10] == '0' && s[11] == ')';
    forall k | 0 <= k < 12
      ensures !PciAt(s, k)
    {
      if k == 0 {
        assert At(s, 3) == 'R';
      } else {
        assert At(s, k) != 'P';
      }
    }
    SkipNonPci(s, 0, 12, []);
  }

  function NumbersOfAll(nodes: seq<PciDevPath>): (ts: seq<PciNumbers>)
    ensures |ts| == |nodes|
  {
    if nodes == [] then [] else [NumbersOf(nodes[0])] + NumbersOfAll(nodes[1..])
  }

  lemma {:induction false} ScanPciTexts(s: string, x: nat, nodes: seq<PciDevPath>, found: seq<PciNumbers>)
    requires TextAt(s, x, PciTexts(nodes)) && x + |PciTexts(nodes)| == |s|
    ensures ScanPci(s, x, found) == Some(found + NumbersOfAll(nodes))
    decreases |nodes|
  {
    if nodes == [] {
      assert found + NumbersOfAll(nodes) == found;
    } else {
      var n := nodes[0];
      var rest := nodes[1..];
      TextAtSplit(s, x, PciText(n), PciTexts(rest));
      CompStep(s, x, n, found);
      ScanPciTexts(s, x + |PciText(n)|, rest, found + [NumbersOf(n)]);
      assert found + [NumbersOf(n)] + NumbersOfAll(rest) == found + NumbersOfAll(nodes);
    }
  }

  /** Reading back the buffers of a well-formed node gives the node. */
  lemma NodeOfNumbers(n: PciDevPath)
    requires n == PciNode(n.device, n.func)
    ensures NodeOf(NumbersOf(n)) == n
  {
    BuffHexNumber(n.device);
    BuffHexNumber(n.func);
  }

  lemma BuffHexNumber(v: byte)
    ensures BuffValue(HexNumber(v)) == v
  {
    HexNumberValue(v);
  }

  lemma {:induction false} NumbersOfAllAt(nodes: seq<PciDevPath>, i: nat)
    requires i < |nodes|
    ensures NumbersOfAll(nodes)[i] == NumbersOf(nodes[i])
    decreases i
  {
    if i > 0 {
      NumbersOfAllAt(nodes[1..], i - 1);
    }
  }

  /** Reading back the buffers of well-formed nodes gives the nodes. */
  lemma NodesOfNumbers(nodes: seq<PciDevPath>)
    requires forall i :: 0 <= i < |nodes| ==> nodes[i] == PciNode(nodes[i].device, nodes[i].func)
    ensures NodesOf(NumbersOfAll(nodes)) == nodes
  {
    var ts := NumbersOfAll(nodes);
    forall i | 0 <= i < |ts|
      ensures NodeOf(ts[i]) == nodes[i]
    {
      NumbersOfAllAt(nodes, i);
      NodeOfNumbers(nodes[i]);
    }
  }

  /** The device path text of some PCI nodes parses back to those nodes. */
  lemma DevicePathRoundTrip(nodes: seq<PciDevPath>)
    requires |nodes| >= 1
    requires forall i :: 0 <= i < |nodes| ==> nodes[i] == PciNode(nodes[i].device, nodes[i].func)
    ensures ParsePciPath(Some(DevicePathText(nodes))) == Some(nodes)
  {
    var s := DevicePathText(nodes);
    RootSkipped(s, PciTexts(nodes));
    TextAtSuffix(s, "PciRoot(0x0)", PciTexts(nodes));
    ScanPciTexts(s, 12, nodes, []);
    assert [] + NumbersOfAll(nodes) == NumbersOfAll(nodes);
    NodesOfNumbers(nodes);
  }

  /**
   * Nothing bounds the number of PCI nodes: a path of five components is
   * accepted with five nodes, where `pci_dev_path` has room for four.
   */
  lemma FivePciNodesAccepted()
    ensures var nodes := seq(5, _ => PciNode(1, 0));
      ParsePciPath(Some(DevicePathText(nodes))) == Some(nodes) && |nodes| > MAX_PCI_DEV_PATHS
  {
    DevicePathRoundTrip(seq(5, _ => PciNode(1, 0)));
  }

  // ---------------------------------------------------------------------
  // devprop_add_value: one name/value record
  // ---------------------------------------------------------------------

  /** A property name written as UTF-16LE: each character stored as a byte, then a zero byte. */
  function Utf16(nm: string): (u: seq<byte>)
    ensures |u| == 2 * |nm|
  {
    if nm == [] then [] else [(nm[0] as int) % 256, 0] + Utf16(nm[1..])
  }

  lemma {:induction false} Utf16At(nm: string, k: nat)
    requires k < |nm|
    ensures Utf16(nm)[2 * k] == (nm[k] as int) % 256 && Utf16(nm)[2 * k + 1] == 0
    decreases k
  {
    if k > 0 {
      Utf16At(nm[1..], k - 1);
      assert Utf16(nm) == [(nm[0] as int) % 256, 0] + Utf16(nm[1..]);
    }
  }

  /**
   * The record `devprop_add_value` builds for name `nm` (the characters before
   * its NUL) and value bytes `value`: the name-field size 2n+6 in the first
   * two bytes, the UTF-16 name with its NUL, the value-field size and the value.
   */
  function Record(nm: string, value: seq<byte>): (r: seq<byte>)
    ensures |r| == 2 * |nm| + |value| + 10
  {
    NameSize(2 * |nm| + 6) + (Utf16(nm) + [0, 0]) + (EncLE32((|value| + 4) % TWO32) + value)
  }

  /**
   * The first four bytes of a record: the C stores only the low 16 bits of
   * the name-field size `h`, into bytes 0 and 1, and leaves bytes 2 and 3 zero.
   */
  function NameSize(h: nat): (b: seq<byte>)
    ensures |b| == 4
  {
    [h % 256, (h / 256) % 256, 0, 0]
  }

  /** The middle and the last part of a three-part sequence. */
  lemma ThreeParts<T>(a: seq<T>, b: seq<T>, c: seq<T>)
    ensures (a + b + c)[|a|..|a| + |b|] == b && (a + b + c)[|a| + |b|..] == c
  {
  }

  /** Where each part of a record sits. */
  lemma RecordLayout(nm: string, value: seq<byte>)
    ensures var r := Record(nm, value); var n := |nm|;
      r[0] == (2 * n + 6) % 256 && r[1] == ((2 * n + 6) / 256) % 256 && r[2] == 0 && r[3] == 0 &&
      (forall k :: 0 <= k < n ==> r[4 + 2 * k] == (nm[k] as int) % 256 && r[5 + 2 * k] == 0) &&
      r[4 + 2 * n] == 0 && r[5 + 2 * n] == 0 &&
      r[6 + 2 * n..10 + 2 * n] == EncLE32((|value| + 4) % TWO32) &&
      r[10 + 2 * n..] == value
  {
    var n := |nm|;
    var u := Utf16(nm);
    var h := 2 * n + 6;
    var head := NameSize(h);
    var e := EncLE32((|value| + 4) % TWO32);
    var r := Record(nm, value);
    assert r == head + (u + [0, 0]) + (e + value);
    forall k | 0 <= k < n
      ensures r[4 + 2 * k] == (nm[k] as int) % 256 && r[5 + 2 * k] == 0
    {
      Utf16At(nm, k);
      assert r[4 + 2 * k] == u[2 * k];
      assert r[5 + 2 * k] == u[2 * k + 1];
    }
    assert r[6 + 2 * n..10 + 2 * n] == e;
    assert r[10 + 2 * n..] == value;
  }

  /** The two fields of a record, as EFI firmware reads them. */
  datatype Property = Property(nameField: seq<byte>, value: seq<byte>)

  /**
   * Reads a record: a 32-bit name-field size (counting itself), the name
   * field, then a 32-bit value-field size (counting itself) and the value.
   */
  function ParseRecord(r: seq<byte>): Option<Property>
  {
    if |r| < 4 then None
    else
      var nl := LE32(r, 0);
      if nl < 4 || nl + 4 > |r| then None
      else
        var vl := LE32(r, nl);
        if vl < 4 || nl + vl != |r| then None
        else Some(Property(r[4..nl], r[nl + 4..]))
  }

  /** The name-field size a record starts with. */
  lemma RecordNameSize(nm: string, value: seq<byte>)
    requires 2 * |nm| + 6 < TWO16
    ensures LE32(Record(nm, value), 0) == 2 * |nm| + 6
  {
    var r := Record(nm, value);
    var h := 2 * |nm| + 6;
    assert r[0] == h % 256 && r[1] == (h / 256) % 256 && r[2] == 0 && r[3] == 0;
    assert LE16(r, 0) == h;
    assert LE16(r, 2) == 0;
  }

  /** The value-field size that follows the name field. */
  lemma RecordValueSize(nm: string, value: seq<byte>)
    requires |value| + 4 < TWO32
    ensures LE32(Record(nm, value), 2 * |nm| + 6) == |value| + 4
  {
    var r := Record(nm, value);
    var h := 2 * |nm| + 6;
    var e := EncLE32((|value| + 4) % TWO32);
    RecordLayout(nm, value);
    assert (|value| + 4) % TWO32 == |value| + 4;
    assert r[h] == e[0] && r[h + 1] == e[1] && r[h + 2] == e[2] && r[h + 3] == e[3];
    assert LE32(r, h) == LE32(e, 0);
  }

  /** The name field and the value a record holds. */
  lemma RecordFields(nm: string, value: seq<byte>)
    ensures var r := Record(nm, value); var h := 2 * |nm| + 6;
      r[4..h] == Utf16(nm) + [0, 0] && r[h + 4..] == value
  {
    var h := 2 * |nm| + 6;
    var e := EncLE32((|value| + 4) % TWO32);
    var mid := Utf16(nm) + [0, 0];
    ThreeParts(NameSize(h), mid, e + value);
    TwoParts(e, value);
  }

  lemma TwoParts<T>(a: seq<T>, b: seq<T>)
    ensures (a + b)[|a|..] == b
  {
  }

  /**
   * A record parses back into the UTF-16 name with its NUL and the value,
   * as long as the name-field size fits the 16 bits the record stores.
   */
  lemma RecordRoundTrip(nm: string, value: seq<byte>)
    requires 2 * |nm| + 6 < TWO16 && |value| + 4 < TWO32
    ensures ParseRecord(Record(nm, value)) == Some(Property(Utf16(nm) + [0, 0], value))
  {
    RecordNameSize(nm, value);
    RecordValueSize(nm, value);
    RecordFields(nm, value);
  }

  /** The first `off` bytes of `d` are those of the record `r`; the rest are still zero. */
  ghost predicate BuiltUpTo(d: seq<byte>, r: seq<byte>, off: nat)
  {
    |d| == |r| && off <= |r| && forall k :: 0 <= k < |d| ==> d[k] == (if k < off then r[k] else 0)
  }

  /** Storing the record's next byte extends the built prefix. */
  lemma BuiltStore(d: seq<byte>, r: seq<byte>, off: nat, x: byte)
    requires BuiltUpTo(d, r, off) && off < |r| && r[off] == x
    ensures BuiltUpTo(d[off := x], r, off + 1)
  {
  }

  /** A zero byte of the record is already in place. */
  lemma BuiltZero(d: seq<byte>, r: seq<byte>, off: nat)
    requires BuiltUpTo(d, r, off) && off < |r| && r[off] == 0
    ensures BuiltUpTo(d, r, off + 1)
  {
  }

  lemma RecordHead(nm: string, value: seq<byte>)
    ensures var r := Record(nm, value); var h := 2 * |nm| + 6;
      r[0] == h % 256 && r[1] == (h / 256) % 256 && r[2] == 0 && r[3] == 0
  {
    var r := Record(nm, value);
    assert r[..4] == NameSize(2 * |nm| + 6);
  }

  lemma RecordNameAt(nm: string, value: seq<byte>, i: nat)
    requires i < |nm|
    ensures Record(nm, value)[4 + 2 * i] == (nm[i] as int) % 256 && Record(nm, value)[5 + 2 * i] == 0
  {
    var r := Record(nm, value);
    var u := Utf16(nm);
    Utf16At(nm, i);
    ThreeParts(NameSize(2 * |nm| + 6), u + [0, 0], EncLE32((|value| + 4) % TWO32) + value);
    assert r[4 + 2 * i] == (u + [0, 0])[2 * i];
    assert r[5 + 2 * i] == (u + [0, 0])[2 * i + 1];
  }

  lemma RecordTailAt(nm: string, value: seq<byte>)
    ensures var r := Record(nm, value); var n := |nm|; var e := EncLE32((|value| + 4) % TWO32);
      r[4 + 2 * n] == 0 && r[5 + 2 * n] == 0 &&
      r[6 + 2 * n] == e[0] && r[7 + 2 * n] == e[1] && r[8 + 2 * n] == e[2] && r[9 + 2 * n] == e[3] &&
      r[10 + 2 * n..] == value
  {
    RecordLayout(nm, value);
    var r := Record(nm, value);
    var n := |nm|;
    assert r[6 + 2 * n..10 + 2 * n][0] == r[6 + 2 * n];
    assert r[6 + 2 * n..10 + 2 * n][3] == r[9 + 2 * n];
  }

  /** The name loop of `devprop_add_value`: one character every other byte from offset 4. */
  method StoreName(data: array<byte>, nm: string, ghost value: seq<byte>)
    requires BuiltUpTo(data[..], Record(nm, value), 4)
    modifies data
    ensures BuiltUpTo(data[..], Record(nm, value), 4 + 2 * |nm|)
  {
    ghost var r := Record(nm, value);
    var off := 4;
    var i := 0;
    while i < |nm|
      invariant 0 <= i <= |nm| && off == 4 + 2 * i
      invariant BuiltUpTo(data[..], r, off)
    {
      RecordNameAt(nm, value, i);
      BuiltStore(data[..], r, off, (nm[i] as int) % 256);
      data[off] := (nm[i] as int) % 256;
      BuiltZero(data[..], r, off + 1);
      i, off := i + 1, off + 2;
    }
  }

  /** The value loop of `devprop_add_value`: the value bytes from offset `off` on. */
  method StoreValue(data: array<byte>, value: seq<byte>, off: nat, ghost nm: string)
    requires off == 2 * |nm| + 10 && BuiltUpTo(data[..], Record(nm, value), off)
    modifies data
    ensures data[..] == Record(nm, value)
  {
    ghost var r := Record(nm, value);
    RecordTailAt(nm, value);
    var o := off;
    var i := 0;
    while i < |value|
      invariant 0 <= i <= |value| && o == off + i
      invariant BuiltUpTo(data[..], r, o)
    {
      assert r[o] == value[i] by { assert r[off..][i] == value[i]; }
      BuiltStore(data[..], r, o, value[i]);
      data[o] := value[i];
      i, o := i + 1, o + 1;
    }
    assert data[..] == r;
  }

  /** The NUL after the name, then the value-field size stored as a little-endian 32-bit word. */
  method StoreValueSize(data: array<byte>, off: nat, nm: string, value: seq<byte>)
    requires off == 4 + 2 * |nm| && BuiltUpTo(data[..], Record(nm, value), off)
    modifies data
    ensures BuiltUpTo(data[..], Record(nm, value), off + 6)
  {
    ghost var r := Record(nm, value);
    RecordTailAt(nm, value);
    BuiltZero(data[..], r, off);
    BuiltZero(data[..], r, off + 1);
    var o := off + 2;
    var enc := EncLE32((|value| + 4) % TWO32);
    BuiltStore(data[..], r, o, enc[0]);
    data[o] := enc[0];
    BuiltStore(data[..], r, o + 1, enc[1]);
    data[o + 1] := enc[1];
    BuiltStore(data[..], r, o + 2, enc[2]);
    data[o + 2] := enc[2];
    BuiltStore(data[..], r, o + 3, enc[3]);
    data[o + 3] := enc[3];
  }

  /** `devprop_add_value` filling a zeroed buffer with the record. */
  method BuildRecord(nm: string, value: seq<byte>) returns (data: array<byte>)
    ensures fresh(data) && data[..] == Record(nm, value)
  {
    var n := |nm|;
    data := new byte[2 * n + |value| + 10](_ => 0);
    var h := 2 * n + 6;
    RecordHead(nm, value);
    assert BuiltUpTo(data[..], Record(nm, value), 0);
    data[1] := (h / 256) % 256;
    data[0] := h % 256;
    assert BuiltUpTo(data[..], Record(nm, value), 2);
    BuiltZero(data[..], Record(nm, value), 2);
    BuiltZero(data[..], Record(nm, value), 3);
    StoreName(data, nm, value);
    StoreValueSize(data, 4 + 2 * n, nm, value);
    StoreValue(data, value, 2 * n + 10, nm);
  }

  // ---------------------------------------------------------------------
  // The property string and its devices
  // ---------------------------------------------------------------------

  /** `struct DevPropDevice`; `data` is None while the C pointer is NULL. */
  datatype Device = Device(length: nat, numentries: nat, acpi: AcpiDevPath, pci: seq<PciDevPath>,
                           pathEnd: PathEnd, data: Option<seq<byte>>)

  /** The device `devprop_add_device` fills in for the PCI nodes `pci` below root bridge `uid`. */
  function NewDevice(uid: nat, pci: seq<PciDevPath>): Device
  {
    Device(24 + 6 * |pci|, 0, AcpiDevPath(ACPI_DP_TYPE, ACPI_DP_SUBTYPE, ACPI_DP_LENGTH, PCI_ROOT_HID, uid),
           pci, PathEnd(END_DP_TYPE, END_DP_SUBTYPE, END_DP_LENGTH), None)
  }

  function DataOf(d: Device): seq<byte>
  {
    if d.data.Some? then d.data.value else []
  }

  /**
   * What every device in a property string satisfies: its length counts the
   * fixed header, its path nodes and its records; it has records exactly when
   * its data pointer is set, and then at least one record of 11 bytes or more.
   */
  ghost predicate WellFormed(d: Device)
  {
    |d.pci| > 0 && d.length == 24 + 6 * |d.pci| + |DataOf(d)| &&
    (d.data.None? <==> d.numentries == 0) && (d.data.Some? ==> |d.data.value| >= 11)
  }

  /**
   * The device after `devprop_add_value` appends record `rec`: the old data
   * is copied only when the pointer is set and its size `offset` exceeds 1.
   */
  function AddRecord(d: Device, rec: seq<byte>): Device
    requires d.length >= 24 + 6 * |d.pci|
  {
    var offset := d.length - (24 + 6 * |d.pci|);
    var kept := if d.data.Some? && offset > 1 && offset <= |d.data.value| then d.data.value[..offset] else [];
    d.(length := d.length + |rec|, numentries := d.numentries + 1, data := Some(kept + rec))
  }

  /**
   * On a well-formed device the guard of the copy never drops data: the new
   * data is the old data followed by the record, and the device stays well formed.
   */
  lemma AddRecordAppends(d: Device, rec: seq<byte>)
    requires WellFormed(d) && |rec| >= 11
    ensures AddRecord(d, rec).data == Some(DataOf(d) + rec)
    ensures AddRecord(d, rec).length == d.length + |rec|
    ensures WellFormed(AddRecord(d, rec))
  {
    if d.data.Some? {
      assert d.data.value[..|d.data.value|] == d.data.value;
    } else {
      assert [] + rec == rec;
    }
  }

  ghost predicate AllWellFormed(es: seq<Device>)
  {
    forall i :: 0 <= i < |es| ==> WellFormed(es[i])
  }

  lemma AllWellFormedAppend(es: seq<Device>, d: Device)
    requires AllWellFormed(es) && WellFormed(d)
    ensures AllWellFormed(es + [d])
  {
    assert forall i :: 0 <= i < |es| ==> (es + [d])[i] == es[i];
  }

  lemma AllWellFormedReplace(es: seq<Device>, i: nat, d: Device)
    requires AllWellFormed(es) && i < |es| && WellFormed(d)
    ensures AllWellFormed(es[i := d])
  {
  }

  /** The sum of the device lengths. */
  function TotalLength(es: seq<Device>): nat
  {
    if es == [] then 0 else TotalLength(es[..|es| - 1]) + es[|es| - 1].length
  }

  lemma TotalLengthAppend(es: seq<Device>, d: Device)
    ensures TotalLength(es + [d]) == TotalLength(es) + d.length
  {
    assert (es + [d])[..|es|] == es;
  }

  /** Replacing one device changes the total by the change in its length. */
  lemma {:induction false} TotalLengthReplace(es: seq<Device>, i: nat, d: Device)
    requires i < |es|
    ensures TotalLength(es[i := d]) + es[i].length == TotalLength(es) + d.length
    decreases |es|
  {
    var last := |es| - 1;
    if i == last {
      assert es[i := d][..last] == es[..last];
    } else {
      TotalLengthReplace(es[..last], i, d);
      assert es[i := d][..last] == es[..last][i := d];
    }
  }

  /** The nodes the scan of a device path yields: none when a component is malformed. */
  function ScanResult(s: string): seq<PciDevPath>
  {
    match ScanPci(s, 0, []) {
      case None => []
      case Some(ts) => NodesOf(ts)
    }
  }

  /** `devprop_add_device` accepts exactly the paths with a PCI root prefix and a non-empty scan result. */
  lemma ParseByScan(s: string)
    ensures ParsePciPath(Some(s)) == if PciRootAtStart(s) && ScanResult(s) != [] then Some(ScanResult(s)) else None
  {
  }

  lemma NodesOfAppend(ts: seq<PciNumbers>, t: PciNumbers)
    ensures NodesOf(ts + [t]) == NodesOf(ts) + [NodeOf(t)]
  {
    var a, b := NodesOf(ts + [t]), NodesOf(ts) + [NodeOf(t)];
    forall i | 0 <= i < |a|
      ensures a[i] == b[i]
    {
      if i < |ts| {
        assert (ts + [t])[i] == ts[i];
      }
    }
  }

  lemma BadDeviceNumber(s: string, x: nat, found: seq<PciNumbers>)
    requires x < |s| && PciAt(s, x) && NumberLen(s, x + 6, ',') == 0
    ensures ScanPci(s, x, found) == None
  {
  }

  lemma BadFunctionNumber(s: string, x: nat, found: seq<PciNumbers>)
    requires x < |s| && PciAt(s, x) && NumberLen(s, x + 6, ',') > 0
    requires NumberLen(s, x + 6 + NumberLen(s, x + 6, ',') + 3, ')') == 0
    ensures ScanPci(s, x, found) == None
  {
  }

  /**
   * The loop of `devprop_add_device` over the characters of the path: each
   * "Pci(0x" starts a component whose two numbers, found before the next ','
   * and ')', are read with `strtoul`; a malformed component empties the result.
   */
  method ScanPath(s: string) returns (paths: seq<PciDevPath>)
    ensures paths == ScanResult(s)
  {
    paths := [];
    ghost var texts: seq<PciNumbers> := [];
    ghost var result := ScanPci(s, 0, []);
    var x := 0;
    while x < |s|
      invariant ScanInv(s, x, texts, paths, result)
      decreases |s| - x
    {
      if PciAt(s, x) {
        var ok, node, close, t := ReadPciComponent(s, x, texts, paths, result);
        if !ok {
          ScanInvFail(s, x, texts, paths, result);
          paths := [];
          return;
        }
        texts := texts + [t];
        paths := paths + [node];
        x := close;
      } else {
        SkipOne(s, x, texts);
      }
      x := x + 1;
    }
    ScanInvDone(s, x, texts, paths, result);
  }

  /**
   * The body of the scan loop at a "Pci(0x": the device number runs to the
   * next ',', the function number from three places on to the next ')'; each
   * is copied to `buff` (one or two characters, else an error) and read with
   * `strtoul`. `close` is the position of the ')'.
   */
  method ReadPciComponent(s: string, x: nat, ghost texts: seq<PciNumbers>, ghost paths: seq<PciDevPath>,
                          ghost result: Option<seq<PciNumbers>>)
    returns (ok: bool, node: PciDevPath, close: nat, ghost t: PciNumbers)
    requires ScanInv(s, x, texts, paths, result) && x < |s| && PciAt(s, x)
    ensures ok ==> x <= close < |s| && ScanInv(s, close + 1, texts + [t], paths + [node], result)
    ensures !ok ==> ScanPci(s, x, texts) == None
  {
    var curr := x + 6;
    var dn := NumberLen(s, curr, ',');
    if dn == 0 {
      BadDeviceNumber(s, x, texts);
      return false, PciNode(0, 0), 0, PciNumbers("", "");
    }
    var device := BuffValue(s[curr..curr + dn]);
    var fcurr := curr + dn + 3;
    var fn := NumberLen(s, fcurr, ')');
    if fn == 0 {
      BadFunctionNumber(s, x, texts);
      return false, PciNode(0, 0), 0, PciNumbers("", "");
    }
    var func := BuffValue(s[fcurr..fcurr + fn]);
    ScanInvRead(s, x, curr, dn, fcurr, fn, texts, paths, result);
    ok, node, close := true, PciNode(device, func), fcurr + fn;
    t := PciNumbers(s[curr..curr + dn], s[fcurr..fcurr + fn]);
  }

  /** The invariant of the scan loop: what is left to scan decides the `result` of the whole scan. */
  ghost predicate ScanInv(s: string, x: nat, texts: seq<PciNumbers>, paths: seq<PciDevPath>,
                          result: Option<seq<PciNumbers>>)
  {
    x <= |s| && result == ScanPci(s, x, texts) && paths == NodesOf(texts)
  }

  lemma ScanInvRead(s: string, x: nat, c1: nat, dn: nat, c2: nat, fn: nat,
                    texts: seq<PciNumbers>, paths: seq<PciDevPath>, result: Option<seq<PciNumbers>>)
    requires ScanInv(s, x, texts, paths, result) && x < |s| && PciAt(s, x)
    requires c1 == x + 6 && dn == NumberLen(s, c1, ',') > 0
    requires c2 == c1 + dn + 3 && fn == NumberLen(s, c2, ')') > 0
    ensures ScanInv(s, c2 + fn + 1, texts + [PciNumbers(s[c1..c1 + dn], s[c2..c2 + fn])],
                    paths + [PciNode(BuffValue(s[c1..c1 + dn]), BuffValue(s[c2..c2 + fn]))], result)
  {
    var t := PciNumbers(s[c1..c1 + dn], s[c2..c2 + fn]);
    ReadComponent(s, x, c1, c2, c2 + fn + 1, texts);
    NodesOfAppend(texts, t);
  }

  lemma ScanInvFail(s: string, x: nat, texts: seq<PciNumbers>, paths: seq<PciDevPath>,
                    result: Option<seq<PciNumbers>>)
    requires ScanInv(s, x, texts, paths, result) && result == ScanPci(s, 0, []) && ScanPci(s, x, texts) == None
    ensures ScanResult(s) == []
  {
  }

  lemma ScanInvDone(s: string, x: nat, texts: seq<PciNumbers>, paths: seq<PciDevPath>,
                    result: Option<seq<PciNumbers>>)
    requires ScanInv(s, x, texts, paths, result) && result == ScanPci(s, 0, []) && x >= |s|
    ensures paths == ScanResult(s)
  {
  }

  /** `struct DevPropString`; `entries` holds the devices, `slots` the pointers allocated for them. */
  class DevPropString {
    var length: nat
    var what2: nat
    var numentries: nat
    var what3: nat
    var entries: seq<Device>
    var slots: nat

    /** The string's length covers its 12-byte header and every device. */
    ghost predicate Valid()
      reads this
    {
      numentries == |entries| && length == 12 + TotalLength(entries) && AllWellFormed(entries)
    }

    /** `devprop_create_string`. */
    constructor ()
      ensures Valid()
      ensures length == 12 && what2 == 0x01000000 && numentries == 0 && what3 == 0
      ensures entries == [] && slots == 0
    {
      length, what2, numentries, what3 := 12, 0x01000000, 0, 0;
      entries, slots := [], 0;
    }

    /**
     * `devprop_add_device`: the device for `path`, returned as its index in
     * `entries`, or None where the C returns NULL. The pointer array is
     * allocated with one slot when there is none and never grown.
     */
    method AddDevice(path: Option<string>, uid: nat) returns (dev: Option<nat>)
      requires Valid()
      modifies this
      ensures Valid() && what2 == old(what2) && what3 == old(what3)
      ensures ParsePciPath(path).None? ==>
        dev.None? && entries == old(entries) && length == old(length) && slots == old(slots)
      ensures ParsePciPath(path).Some? ==>
        var pci := ParsePciPath(path).value;
        dev == Some(old(|entries|)) && entries == old(entries) + [NewDevice(uid, pci)] &&
        length == old(length) + 24 + 6 * |pci| && slots == (if old(slots) == 0 then 1 else old(slots))
    {
      if path.None? {
        return None;
      }
      var s := path.value;
      if !PciRootAtStart(s) {
        return None;
      }
      var paths := ScanPath(s);
      ParseByScan(s);
      if |paths| == 0 {
        return None;
      }
      var d := NewDevice(uid, paths);
      TotalLengthAppend(entries, d);
      AllWellFormedAppend(entries, d);
      length := length + d.length;
      if slots == 0 {
        slots := 1;
      }
      entries := entries + [d];
      numentries := numentries + 1;
      dev := Some(|entries| - 1);
    }

    /**
     * `devprop_add_value` on the device at index `dev`: fails for a NULL name,
     * a NULL value or an empty value; otherwise appends the record and adds
     * its size to the device and to the string.
     */
    method AddValue(dev: nat, name: Option<string>, value: Option<seq<byte>>) returns (ok: bool)
      requires Valid() && dev < |entries|
      modifies this
      ensures Valid() && what2 == old(what2) && what3 == old(what3) && slots == old(slots)
      ensures name.None? || value.None? || value.value == [] ==>
        !ok && entries == old(entries) && length == old(length)
      ensures name.Some? && value.Some? && value.value != [] ==>
        var rec := Record(CStr(name.value, 0), value.value);
        ok && entries == old(entries)[dev := AddRecord(old(entries)[dev], rec)] &&
        length == old(length) + |rec|
    {
      if name.None? || value.None? || |value.value| == 0 {
        return false;
      }
      var nm := CStr(name.value, 0);
      var data := BuildRecord(nm, value.value);
      var d := entries[dev];
      var d' := AddRecord(d, data[..]);
      AddRecordAppends(d, data[..]);
      TotalLengthReplace(entries, dev, d');
      AllWellFormedReplace(entries, dev, d');
      entries := entries[dev := d'];
      length := length + data.Length;
      ok := true;
    }
  }

  // ---------------------------------------------------------------------
  // devprop_add_network_template
  // ---------------------------------------------------------------------

  /** The name of the property that marks a network device as built in. */
  const BUILT_IN: string := "built-in"

  lemma BuiltInIsCString()
    ensures CStr(BUILT_IN, 0) == BUILT_IN
  {
    CStrWhole(BUILT_IN, 0);
  }

  /** PCI vendor id of Atheros, whose network devices are never marked built-in. */
  const ATHEROS_VENDOR: nat := 0x168c

  /** The "built-in" byte given to a network device of `vendor` when `builtin_set` is `flag`. */
  function BuiltinByte(flag: bool, vendor: nat): byte
  {
    if vendor != ATHEROS_VENDOR && !flag then 1 else 0
  }

  /** `builtin_set` after a network device of `vendor`. */
  function NextBuiltinSet(flag: bool, vendor: nat): bool
  {
    flag || vendor != ATHEROS_VENDOR
  }

  /** The "built-in" bytes given to network devices of `vendors` in turn, starting from `builtin_set` equal to `flag`. */
  function BuiltinFlags(vendors: seq<nat>, flag: bool): (flags: seq<byte>)
    ensures |flags| == |vendors|
  {
    if vendors == [] then [] else [BuiltinByte(flag, vendors[0])] + BuiltinFlags(vendors[1..], NextBuiltinSet(flag, vendors[0]))
  }

  /**
   * Starting from `builtin_set` equal to `flag`, device `i` is marked built-in exactly when the
   * flag is clear, its vendor is not Atheros and every earlier device is Atheros.
   */
  lemma {:induction false} BuiltinFlagAt(vendors: seq<nat>, flag: bool, i: nat)
    requires i < |vendors|
    ensures BuiltinFlags(vendors, flag)[i] == 1 <==>
      !flag && vendors[i] != ATHEROS_VENDOR && forall j :: 0 <= j < i ==> vendors[j] == ATHEROS_VENDOR
    ensures BuiltinFlags(vendors, flag)[i] in {0, 1}
    decreases i
  {
    if i > 0 {
      var v := vendors[0];
      BuiltinFlagAt(vendors[1..], NextBuiltinSet(flag, v), i - 1);
      assert BuiltinFlags(vendors, flag)[i] == BuiltinFlags(vendors[1..], NextBuiltinSet(flag, v))[i - 1];
      if !flag && v == ATHEROS_VENDOR && vendors[i] != ATHEROS_VENDOR &&
         (forall j :: 0 <= j < i - 1 ==> vendors[1..][j] == ATHEROS_VENDOR) {
        forall j | 0 <= j < i
          ensures vendors[j] == ATHEROS_VENDOR
        {
          if j > 0 {
            assert vendors[j] == vendors[1..][j - 1];
          }
        }
      }
      if forall j :: 0 <= j < i ==> vendors[j] == ATHEROS_VENDOR {
        assert v == ATHEROS_VENDOR;
        forall j | 0 <= j < i - 1
          ensures vendors[1..][j] == ATHEROS_VENDOR
        {
          assert vendors[1..][j] == vendors[j + 1];
        }
      }
    }
  }

  /** A C string without NUL is all of its characters. */
  lemma {:induction false} CStrWhole(s: string, i: nat)
    requires i <= |s| && forall k :: i <= k < |s| ==> s[k] != '\0'
    ensures CStr(s, i) == s[i..]
    decreases |s| - i
  {
    if i < |s| {
      CStrWhole(s, i + 1);
      assert s[i..] == [s[i]] + s[i + 1..];
    }
  }

  /** At most one network device is marked built-in. */
  lemma AtMostOneBuiltin(vendors: seq<nat>, i: nat, k: nat)
    requires i < k < |vendors|
    ensures BuiltinFlags(vendors, false)[i] == 0 || BuiltinFlags(vendors, false)[k] == 0
  {
    BuiltinFlagAt(vendors, false, i);
    BuiltinFlagAt(vendors, false, k);
  }

  /** The globals `devices_number` and `builtin_set` of the device injection code. */
  class InjectGlobals {
    var devicesNumber: nat
    var builtinSet: bool

    constructor ()
      ensures devicesNumber == 1 && !builtinSet
    {
      devicesNumber, builtinSet := 1, false;
    }

    /**
     * `devprop_add_network_template` on the device at index `dev` (None for
     * NULL): adds the one-byte "built-in" property, 1 for the first
     * non-Atheros device and 0 otherwise, and counts the device.
     */
    method AddNetworkTemplate(str: DevPropString, dev: Option<nat>, vendorId: nat) returns (ok: bool)
      requires str.Valid() && (dev.Some? ==> dev.value < |str.entries|)
      modifies this, str
      ensures str.Valid()
      ensures dev.None? ==>
        !ok && devicesNumber == old(devicesNumber) && builtinSet == old(builtinSet) &&
        str.entries == old(str.entries) && str.length == old(str.length)
      ensures dev.Some? ==>
        var rec := Record(BUILT_IN, [BuiltinByte(old(builtinSet), vendorId)]);
        ok && devicesNumber == old(devicesNumber) + 1 && builtinSet == NextBuiltinSet(old(builtinSet), vendorId) &&
        str.entries == old(str.entries)[dev.value := AddRecord(old(str.entries)[dev.value], rec)] &&
        str.length == old(str.length) + |rec|
    {
      if dev.None? {
        return false;
      }
      ghost var flag := builtinSet;
      var builtin: byte := 0;
      if vendorId != ATHEROS_VENDOR && !builtinSet {
        builtinSet := true;
        builtin := 1;
      }
      assert builtin == BuiltinByte(flag, vendorId) && builtinSet == NextBuiltinSet(flag, vendorId);
      BuiltInIsCString();
      var added := str.AddValue(dev.value, Some(BUILT_IN), Some([builtin]));
      assert added;
      devicesNumber := devicesNumber + 1;
      ok := true;
    }
  }
}
