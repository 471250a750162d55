/**
 * The ext2 probe of `ext2fs.c`: the superblock sits at byte 1024 of the
 * volume, so within the 2048-byte probe buffer its magic is at 0x438, its
 * revision word at 0x44C and its 16-byte volume name at 0x478.
 */
module Ext2Fs {
  import opened Bytes

  const PROBE_SIZE: nat := 2048
  const MAGIC_OFFSET: nat := 0x438
  const REVISION_OFFSET: nat := 0x44C
  const NAME_OFFSET: nat := 0x478
  const NAME_SIZE: nat := 16
  const EXT2_MAGIC: nat := 0xEF53

  /** `EX2Probe`: the little-endian magic word of the superblock. */
  function Probe(buf: seq<byte>): (r: bool)
    requires |buf| >= MAGIC_OFFSET + 2
    ensures r <==> buf[MAGIC_OFFSET] == 0x53 && buf[MAGIC_OFFSET + 1] == 0xEF
  {
    LE16(buf, MAGIC_OFFSET) == EXT2_MAGIC
  }

  /** Length of the run of non-zero bytes of `src` among its first `n`. */
  function NonZeroRun(src: seq<byte>, n: nat): (k: nat)
    ensures k <= n && k <= |src|
    ensures forall i :: 0 <= i < k ==> src[i] != 0
    ensures k < n && k < |src| ==> src[k] == 0
  {
    if n == 0 || src == [] || src[0] == 0 then 0 else 1 + NonZeroRun(src[1..], n - 1)
  }

  /**
   * The C `strncpy(dst, src, n)`: the bytes of `src` up to its first NUL,
   * at most `n` of them, then NUL padding up to `n` bytes.
   */
  function StrNCpy(src: seq<byte>, n: nat): (r: seq<byte>)
    requires n <= |src|
  {
    var k := NonZeroRun(src, n);
    src[..k] + Zeros(n - k)
  }

  /** strncpy's result is a NUL-padded prefix of the source. */
  lemma StrNCpyShape(src: seq<byte>, n: nat)
    requires n <= |src|
    ensures |StrNCpy(src, n)| == n
    ensures forall i :: 0 <= i < n ==> StrNCpy(src, n)[i] == src[i] || StrNCpy(src, n)[i] == 0
    ensures forall i :: 0 <= i < n && StrNCpy(src, n)[i] == 0 ==> forall j :: i <= j < n ==> StrNCpy(src, n)[j] == 0
    ensures (forall i :: 0 <= i < n ==> src[i] != 0) ==> StrNCpy(src, n) == src[..n]
  {
    var k := NonZeroRun(src, n);
    var r := StrNCpy(src, n);
    assert forall i :: 0 <= i < k ==> r[i] == src[i] && src[i] != 0;
    assert forall i :: k <= i < n ==> r[i] == 0;
    if forall i :: 0 <= i < n ==> src[i] != 0 {
      assert k == n;
    }
  }

  /** `strncpy` into `dst`: copies then pads, touching exactly `n` bytes. */
  method StrNCopy(dst: array<byte>, src: seq<byte>, n: nat)
    requires n <= dst.Length && n <= |src|
    modifies dst
    ensures dst[..n] == StrNCpy(src, n)
    ensures dst[n..] == old(dst[n..])
  {
    var i := 0;
    while i < n && src[i] != 0
      invariant i <= n
      invariant dst[..i] == src[..i]
      invariant forall j :: 0 <= j < i ==> src[j] != 0
      invariant dst[n..] == old(dst[n..])
    {
      dst[i] := src[i];
      i := i + 1;
    }
    assert i == NonZeroRun(src, n) by { RunIsFirstNul(src, n, i); }
    var k := i;
    while i < n
      invariant k <= i <= n
      invariant dst[..k] == src[..k]
      invariant forall j :: k <= j < i ==> dst[j] == 0
      invariant dst[n..] == old(dst[n..])
    {
      dst[i] := 0;
      i := i + 1;
    }
    assert dst[..n] == src[..k] + Zeros(n - k);
  }

  /** The copy loop stops where `NonZeroRun` does. */
  lemma {:induction false} RunIsFirstNul(src: seq<byte>, n: nat, i: nat)
    requires i <= n <= |src|
    requires forall j :: 0 <= j < i ==> src[j] != 0
    requires i == n || src[i] == 0
    ensures NonZeroRun(src, n) == i
  {
    if i > 0 {
      assert i - 1 < n - 1 ==> src[1..][i - 1] == src[i];
      RunIsFirstNul(src[1..], n - 1, i - 1);
    }
  }

  /** Whether `EX2GetDescription` finds an ext2 volume with a name field. */
  predicate Describable(allocOk: bool, buf: seq<byte>)
    requires |buf| == PROBE_SIZE
  {
    allocOk && Probe(buf) && LE32(buf, REVISION_OFFSET) >= 1
  }

  /**
   * `EX2GetDescription`. `allocOk` says whether the 2048-byte buffer could
   * be allocated and `buf` is what the read left in it. `str` must have room
   * for `strMaxLen + 1` bytes.
   */
  method GetDescription(allocOk: bool, buf: seq<byte>, str: array<byte>, strMaxLen: nat)
    requires |buf| == PROBE_SIZE
    requires strMaxLen < str.Length
    modifies str
    ensures !Describable(allocOk, buf) ==> str[0] == 0 && str[1..] == old(str[1..])
    ensures Describable(allocOk, buf) ==>
      var n := if strMaxLen < NAME_SIZE then strMaxLen else NAME_SIZE;
      str[..n] == StrNCpy(buf[NAME_OFFSET..NAME_OFFSET + NAME_SIZE], n) &&
      str[strMaxLen] == 0 &&
      (forall j :: n <= j < str.Length && j != strMaxLen && j != 0 ==> str[j] == old(str[j]))
  {
    str[0] := 0;
    if !allocOk {
      return;
    }
    if !Probe(buf) {
      return;
    }
    // the revision is an unsigned 32-bit field, so "< 1" means zero
    if LE32(buf, REVISION_OFFSET) < 1 {
      return;
    }
    str[strMaxLen] := 0;
    var n := if strMaxLen < NAME_SIZE then strMaxLen else NAME_SIZE;
    ghost var before := str[..];
    StrNCopy(str, buf[NAME_OFFSET..NAME_OFFSET + NAME_SIZE], n);
    assert forall j :: n <= j < str.Length ==> str[j] == before[j] by {
      assert forall j :: n <= j < str.Length ==> str[n..][j - n] == str[j] && before[n..][j - n] == before[j];
    }
  }

  /** A volume whose name has no NUL in its first `n` bytes is reported whole. */
  lemma FullNameCopied(buf: seq<byte>, n: nat)
    requires |buf| == PROBE_SIZE && n <= NAME_SIZE
    requires forall i :: NAME_OFFSET <= i < NAME_OFFSET + n ==> buf[i] != 0
    ensures StrNCpy(buf[NAME_OFFSET..NAME_OFFSET + NAME_SIZE], n) == buf[NAME_OFFSET..NAME_OFFSET + n]
  {
    var src := buf[NAME_OFFSET..NAME_OFFSET + NAME_SIZE];
    assert forall i :: 0 <= i < n ==> src[i] == buf[NAME_OFFSET + i];
    StrNCpyShape(src, n);
  }
}
