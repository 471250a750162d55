/**
 * The NVIDIA video-BIOS patcher: it locates the display configuration
 * block (DCB) of a 64 KiB ROM image, collects its output records, groups
 * the outputs into the two display channels that the NVCAP property
 * describes, and writes each output's channel back into the ROM.
 *
 * The ROM is the boot loader's 64 KiB buffer (an `array<byte>`), NVCAP is
 * the global 20-byte `default_NVCAP` array. A channel bitmask of the C code
 * (`uint8_t`, grown by `|= 1 << index`) is held as the set of output indices
 * ORed into it; `MaskByte` gives the byte the C keeps, which drops every
 * index from 8 up.
 */
module Nvidia {
  import opened Wrappers
  import opened Bytes

  const ROM_SIZE: nat := 0x1_0000
  const NVCAP_SIZE: nat := 20

  const PATCH_ROM_FAILED: nat := 0
  const PATCH_ROM_SUCCESS: nat := 1
  const PATCH_ROM_SUCCESS_HAS_LVDS: nat := 2
  const MAX_NUM_DCB_ENTRIES: nat := 16
  const DCB_SIGNATURE: nat := 0x4edc_bdcb

  /** Output types of a DCB record (its low nibble) and the "already grouped" mark. */
  const ANALOG: int := 0
  const TV: int := 1
  const TMDS: int := 2
  const LVDS: int := 3
  const GROUPED: int := 0xff

  // ---------------------------------------------------------------------
  // swap16 / read16
  // ---------------------------------------------------------------------

  /** `swap16`: exchange the two bytes of a 16-bit value. */
  function Swap16(x: nat): (r: nat)
    requires x < TWO16
    ensures r < TWO16
    ensures r % 256 == x / 256 && r / 256 == x % 256
  {
    (x % 256) * 256 + x / 256
  }

  lemma Swap16Involutive(x: nat)
    requires x < TWO16
    ensures Swap16(Swap16(x)) == x
  {
  }

  /**
   * `read16`: the bytes at `off + 1` and `off` stored, in that order, into a
   * little-endian `uint16_t`, i.e. the big-endian 16-bit field at `off`.
   */
  function Read16(b: seq<byte>, off: nat): (r: nat)
    requires off + 2 <= |b|
    ensures r < TWO16
    ensures r / 256 == b[off] && r % 256 == b[off + 1]
  {
    b[off + 1] as int + 256 * (b[off] as int)
  }

  /** The DCB pointer `swap16(read16(rom, 0x36))` is the little-endian word at 0x36. */
  lemma DcbPointerIsLE16(rom: seq<byte>)
    requires 0x38 <= |rom|
    ensures Swap16(Read16(rom, 0x36)) == LE16(rom, 0x36)
  {
    var r := Read16(rom, 0x36);
    assert Swap16(r) == (r % 256) * 256 + r / 256;
  }

  // ---------------------------------------------------------------------
  // Locating the DCB
  // ---------------------------------------------------------------------

  /**
   * Position of the table, header length, number of records to visit
   * (already clamped to 16) and record length.
   */
  datatype Dcb = Dcb(table: nat, header: nat, count: nat, record: nat)

  /** Offset of record `i`. */
  function RecordAt(d: Dcb, i: nat): nat
  {
    d.table + d.header + d.record * i
  }

  /** Every record the patcher reads lies inside the ROM buffer. */
  predicate RecordsFit(rom: seq<byte>, d: Dcb)
  {
    forall i :: 0 <= i < d.count ==> RecordAt(d, i) + 4 <= |rom|
  }

  /**
   * The ROM signature test exactly as the C writes it: the image is refused
   * only when BOTH bytes are wrong.
   */
  predicate SignatureRejected(rom: seq<byte>)
    requires 2 <= |rom|
  {
    rom[0] != 0x55 && rom[1] != 0xAA
  }

  /** The seven bytes "DEV_REC" at `p`. */
  predicate DevRecAt(rom: seq<byte>, p: nat)
    requires p + 7 <= |rom|
  {
    rom[p] == 0x44 && rom[p + 1] == 0x45 && rom[p + 2] == 0x56 && rom[p + 3] == 0x5F
    && rom[p + 4] == 0x52 && rom[p + 5] == 0x45 && rom[p + 6] == 0x43
  }

  function Min(a: nat, b: nat): nat { if a <= b then a else b }

  /**
   * The header checks of `patch_nvidia_rom`. A read the C would make outside
   * the 64 KiB buffer (a table or record too close to its end, a "DEV_REC"
   * tag before its start) is a failure here.
   */
  function ParseDcb(rom: seq<byte>): (r: Option<Dcb>)
    requires |rom| == ROM_SIZE
    ensures r.Some? ==> r.value.count <= MAX_NUM_DCB_ENTRIES && RecordsFit(rom, r.value)
  {
    if SignatureRejected(rom) then None
    else
      var ptr := Swap16(Read16(rom, 0x36));
      if ptr == 0 then None
      else
        var version := rom[ptr];
        if version >= 0x30 then
          if ptr + 10 > |rom| || LE32(rom, ptr + 6) != DCB_SIGNATURE then None
          else
            var d := Dcb(ptr, rom[ptr + 1], Min(rom[ptr + 2], MAX_NUM_DCB_ENTRIES), rom[ptr + 3]);
            if RecordsFit(rom, d) then Some(d) else None
        else if version >= 0x20 then
          if ptr + 8 > |rom| || LE32(rom, ptr + 4) != DCB_SIGNATURE then None
          else Some(Dcb(ptr, 8, 0, 0))
        else if version >= 0x14 then
          if ptr < 7 || !DevRecAt(rom, ptr - 7) then None
          else Some(Dcb(ptr, 0, 0, 10))
        else None
  }

  /**
   * The failure cases of the header checks, and the clamp: only a version
   * 3.0 or later table has records to visit, and at most 16 of them.
   */
  lemma DcbAcceptance(rom: seq<byte>)
    requires |rom| == ROM_SIZE
    ensures SignatureRejected(rom) ==> ParseDcb(rom) == None
    ensures LE16(rom, 0x36) == 0 ==> ParseDcb(rom) == None
    ensures rom[LE16(rom, 0x36)] < 0x14 ==> ParseDcb(rom) == None
    ensures ParseDcb(rom).Some? ==>
              var ptr := LE16(rom, 0x36);
              var d := ParseDcb(rom).value;
              d.table == ptr &&
              (rom[ptr] >= 0x20 ==> ptr + 8 <= |rom| && LE32(rom, ptr + (if rom[ptr] >= 0x30 then 6 else 4)) == DCB_SIGNATURE) &&
              (0x14 <= rom[ptr] < 0x20 ==> 7 <= ptr && DevRecAt(rom, ptr - 7)) &&
              (d.count > 0 ==> rom[ptr] >= 0x30) &&
              (rom[ptr] >= 0x30 ==> d.count == Min(rom[ptr + 2], MAX_NUM_DCB_ENTRIES))
  {
    DcbPointerIsLE16(rom);
  }

  /**
   * The test is weaker than a signature check: one correct byte suffices,
   * so a ROM starting 0x55 0x00 (or 0x00 0xAA) is accepted.
   */
  lemma HalfSignatureAccepted(rom: seq<byte>)
    requires |rom| == ROM_SIZE
    requires rom[0] == 0x55 || rom[1] == 0xAA
    ensures !SignatureRejected(rom)
  {
  }

  /** The evidently intended test: both signature bytes must be right. */
  predicate SignatureValid(rom: seq<byte>)
    requires 2 <= |rom|
  {
    rom[0] == 0x55 && rom[1] == 0xAA
  }

  /**
   * The header checks with the intended signature test: a ROM lacking
   * either signature byte is refused, and a signed ROM is parsed exactly as
   * by `ParseDcb`.
   */
  function ParseDcbIntended(rom: seq<byte>): (r: Option<Dcb>)
    requires |rom| == ROM_SIZE
    ensures r.Some? ==> SignatureValid(rom) && r == ParseDcb(rom)
    ensures SignatureValid(rom) ==> r == ParseDcb(rom)
  {
    if !SignatureValid(rom) then None else ParseDcb(rom)
  }

  /**
   * The two tests differ on exactly the half-signed ROMs: the written one
   * accepts them, the intended one refuses them.
   */
  lemma SignatureTestsDiffer(rom: seq<byte>)
    requires |rom| == ROM_SIZE
    ensures (!SignatureRejected(rom) && !SignatureValid(rom)) <==>
            ((rom[0] == 0x55) != (rom[1] == 0xAA))
    ensures (rom[0] == 0x55) != (rom[1] == 0xAA) ==> ParseDcbIntended(rom) == None
  {
  }

  // ---------------------------------------------------------------------
  // Output records
  // ---------------------------------------------------------------------

  /** An output: its type and the ROM offset of its record's "heads" byte. */
  datatype Output = Output(kind: int, heads: nat)

  /** Records that are not outputs: end marker (low nibble 0xF), empty, or type 6. */
  predicate Skipped(conn: nat)
  {
    conn % 16 == 0xF || conn == 0 || conn % 16 == 6
  }

  /** The outputs among the first `n` records, in record order. */
  function OutputsUpTo(rom: seq<byte>, d: Dcb, n: nat): (outs: seq<Output>)
    requires RecordsFit(rom, d) && n <= d.count
    ensures |outs| <= n
    ensures forall k :: 0 <= k < |outs| ==> 0 <= outs[k].kind < 16 && outs[k].kind != 6 && outs[k].heads < |rom|
  {
    if n == 0 then []
    else
      var prev := OutputsUpTo(rom, d, n - 1);
      var conn := LE32(rom, RecordAt(d, n - 1));
      if Skipped(conn) then prev else prev + [Output(conn % 16, RecordAt(d, n - 1) + 1)]
  }

  function Outputs(rom: seq<byte>, d: Dcb): seq<Output>
    requires RecordsFit(rom, d)
  {
    OutputsUpTo(rom, d, d.count)
  }

  function Kinds(outs: seq<Output>): (ts: seq<int>)
    ensures |ts| == |outs| && forall k :: 0 <= k < |outs| ==> ts[k] == outs[k].kind
  {
    seq(|outs|, k requires 0 <= k < |outs| => outs[k].kind)
  }

  /**
   * With a nonzero record length the heads bytes of the collected outputs
   * lie at strictly increasing offsets (so patching one never touches
   * another), all below the offset of record `n`.
   */
  lemma {:induction false} OutputsIncreasing(rom: seq<byte>, d: Dcb, n: nat)
    requires RecordsFit(rom, d) && n <= d.count && d.record > 0
    ensures Increasing(OutputsUpTo(rom, d, n)) && HeadsAtMost(OutputsUpTo(rom, d, n), RecordAt(d, n))
  {
    if n > 0 {
      OutputsIncreasing(rom, d, n - 1);
      var r0, r1 := RecordAt(d, n - 1), RecordAt(d, n);
      RecordAtStep(d, n);
      var prev := OutputsUpTo(rom, d, n - 1);
      var conn := LE32(rom, r0);
      if !Skipped(conn) {
        assert OutputsUpTo(rom, d, n) == prev + [Output(conn % 16, r0 + 1)];
        Extend(prev, Output(conn % 16, r0 + 1), r0, r1);
      } else {
        assert OutputsUpTo(rom, d, n) == prev;
        Weaken(prev, r0, r1);
      }
    }
  }

  predicate Increasing(outs: seq<Output>)
  {
    forall a, b :: 0 <= a < b < |outs| ==> outs[a].heads < outs[b].heads
  }

  predicate HeadsAtMost(outs: seq<Output>, bound: nat)
  {
    forall a :: 0 <= a < |outs| ==> outs[a].heads <= bound
  }

  lemma Extend(prev: seq<Output>, last: Output, b0: nat, b1: nat)
    requires Increasing(prev) && HeadsAtMost(prev, b0) && b0 < last.heads <= b1
    ensures Increasing(prev + [last]) && HeadsAtMost(prev + [last], b1)
  {
  }

  lemma Weaken(outs: seq<Output>, b0: nat, b1: nat)
    requires HeadsAtMost(outs, b0) && b0 <= b1
    ensures HeadsAtMost(outs, b1)
  {
  }

  lemma RecordAtStep(d: Dcb, n: nat)
    requires n > 0
    ensures RecordAt(d, n) == RecordAt(d, n - 1) + d.record
  {
    assert d.record * n == d.record * (n - 1) + d.record;
  }

  // ---------------------------------------------------------------------
  // Grouping outputs into two channels
  // ---------------------------------------------------------------------

  /** The first index `>= i` holding an (ungrouped) TMDS output, or `|ts|`. */
  function TmdsFrom(ts: seq<int>, i: nat): (j: nat)
    decreases |ts| - i
    ensures j <= |ts|
    ensures j < |ts| ==> i <= j && ts[j] == TMDS
    ensures forall k :: i <= k < j ==> ts[k] != TMDS
  {
    if i >= |ts| then |ts|
    else if ts[i] == TMDS then i
    else TmdsFrom(ts, i + 1)
  }

  /** The types after a grouping step and the outputs it put on the channel. */
  datatype PassResult = PassResult(ts: seq<int>, members: set<nat>)

  /**
   * Group the TMDS output `i` with the analog output just before it and a
   * TV output just after it.
   */
  function GroupAround(ts: seq<int>, i: nat): (p: PassResult)
    requires 1 <= i < |ts| && ts[i] == TMDS
    ensures |p.ts| == |ts|
    ensures i in p.members
    ensures (i - 1 in p.members) <==> ts[i - 1] == ANALOG
    ensures (i + 1 in p.members) <==> i + 1 < |ts| && ts[i + 1] == TV
    ensures forall k :: k in p.members ==> k == i - 1 || k == i || k == i + 1
    ensures forall k :: 0 <= k < |ts| ==> p.ts[k] == (if k in p.members then GROUPED else ts[k])
  {
    var t1 := ts[i := GROUPED];
    var p1 := if ts[i - 1] == ANALOG then PassResult(t1[i - 1 := GROUPED], {i, i - 1}) else PassResult(t1, {i});
    if i + 1 < |ts| && ts[i + 1] == TV then PassResult(p1.ts[i + 1 := GROUPED], p1.members + {i + 1})
    else p1
  }

  /** One pass of the TMDS loop: group around the first TMDS output past index 0. */
  function Pass(ts: seq<int>): (p: PassResult)
    ensures |p.ts| == |ts|
    ensures forall k :: 0 <= k < |ts| ==> p.ts[k] == (if k in p.members then GROUPED else ts[k])
    ensures forall k :: k in p.members ==> k < |ts| && ts[k] != GROUPED
  {
    var j := TmdsFrom(ts, 1);
    if j >= |ts| then PassResult(ts, {}) else GroupAround(ts, j)
  }

  predicate HasLvds(ts: seq<int>)
  {
    exists k :: 0 <= k < |ts| && ts[k] == LVDS
  }

  /** Outputs not grouped yet. */
  function Ungrouped(ts: seq<int>): set<nat>
  {
    set k: nat | k < |ts| && ts[k] != GROUPED
  }

  /**
   * The channels as index sets: with an LVDS output, the LVDS outputs form
   * channel 1 and the others channel 2; otherwise two TMDS passes fill
   * channel 1 and channel 2, and the leftovers join channel 2.
   */
  function Channels(ts: seq<int>): (c: (set<nat>, set<nat>))
  {
    if HasLvds(ts) then
      (set k: nat | k < |ts| && ts[k] == LVDS, set k: nat | k < |ts| && ts[k] != LVDS && ts[k] != GROUPED)
    else
      var p1 := Pass(ts);
      var p2 := Pass(p1.ts);
      (p1.members, p2.members + Ungrouped(p2.ts))
  }

  predicate NoneGrouped(ts: seq<int>)
  {
    forall k :: 0 <= k < |ts| ==> ts[k] != GROUPED
  }

  /** Every output ends up on exactly one of the two channels. */
  lemma ChannelsPartition(ts: seq<int>)
    requires NoneGrouped(ts)
    ensures Channels(ts).0 * Channels(ts).1 == {}
    ensures forall k :: k in Channels(ts).0 || k in Channels(ts).1 <==> 0 <= k < |ts|
  {
    if !HasLvds(ts) {
      var p1 := Pass(ts);
      var p2 := Pass(p1.ts);
      var c1, c2 := p1.members, p2.members + Ungrouped(p2.ts);
      forall k | k in c1 ensures k !in c2 {
        assert p1.ts[k] == GROUPED;
      }
      forall k: nat | k < |ts| ensures k in c1 || k in c2 {
        if k !in c1 && k !in p2.members {
          assert p2.ts[k] == ts[k];
        }
      }
    }
  }

  /** With an LVDS output, channel 1 is exactly the LVDS outputs. */
  lemma LvdsChannels(ts: seq<int>)
    requires NoneGrouped(ts) && HasLvds(ts)
    ensures forall k :: 0 <= k < |ts| ==> (k in Channels(ts).0 <==> ts[k] == LVDS)
    ensures forall k :: 0 <= k < |ts| ==> (k in Channels(ts).1 <==> ts[k] != LVDS)
  {
  }

  /**
   * Without LVDS, the first TMDS output past index 0 goes to channel 1 with
   * its preceding analog and following TV output, and the next TMDS output
   * after it goes to channel 2.
   */
  lemma TmdsChannels(ts: seq<int>)
    requires NoneGrouped(ts) && !HasLvds(ts)
    ensures var j := TmdsFrom(ts, 1);
            j < |ts| ==>
              j in Channels(ts).0 &&
              (ts[j - 1] == ANALOG ==> j - 1 in Channels(ts).0) &&
              (j + 1 < |ts| && ts[j + 1] == TV ==> j + 1 in Channels(ts).0) &&
              (TmdsFrom(ts, j + 1) < |ts| ==> TmdsFrom(ts, j + 1) in Channels(ts).1)
  {
    var j := TmdsFrom(ts, 1);
    if j < |ts| {
      var p1 := Pass(ts);
      assert p1 == GroupAround(ts, j);
      forall k | 1 <= k < |ts| ensures p1.ts[k] == TMDS <==> j < k && ts[k] == TMDS {
        if k in p1.members {
          assert p1.ts[k] == GROUPED;
          assert k == j - 1 || k == j || k == j + 1;
        }
      }
      TmdsFromSkips(p1.ts, ts, 1, j);
    }
  }

  /**
   * After grouping around the TMDS output `j`, the first TMDS output seen
   * from index `i <= j + 1` is the first one of the original types past `j`.
   */
  lemma {:induction false} TmdsFromSkips(t: seq<int>, ts: seq<int>, i: nat, j: nat)
    requires |t| == |ts| && i <= j + 1 && j < |ts|
    requires forall k :: i <= k < |ts| ==> (t[k] == TMDS <==> j < k && ts[k] == TMDS)
    ensures TmdsFrom(t, i) == TmdsFrom(ts, j + 1)
    decreases |ts| - i
  {
    if i <= j {
      TmdsFromSkips(t, ts, i + 1, j);
    } else {
      TmdsFromSame(t, ts, i);
    }
  }

  lemma {:induction false} TmdsFromSame(t: seq<int>, ts: seq<int>, i: nat)
    requires |t| == |ts|
    requires forall k :: i <= k < |ts| ==> (t[k] == TMDS <==> ts[k] == TMDS)
    ensures TmdsFrom(t, i) == TmdsFrom(ts, i)
    decreases |ts| - i
  {
    if i < |ts| {
      TmdsFromSame(t, ts, i + 1);
    }
  }

  // ---------------------------------------------------------------------
  // Channel bytes
  // ---------------------------------------------------------------------

  function TwoTo(n: nat): nat
  {
    if n == 0 then 1 else 2 * TwoTo(n - 1)
  }

  /** Bits `k..7` of a channel byte: bit `k + j` is set iff `k + j` is in `s`. */
  function MaskFrom(s: set<nat>, k: nat): (r: nat)
    requires k <= 8
    decreases 8 - k
    ensures r < TwoTo(8 - k)
  {
    if k == 8 then 0 else (if k in s then 1 else 0) + 2 * MaskFrom(s, k + 1)
  }

  /** The `uint8_t` channel mask built by ORing `1 << i` for every `i` in `s`. */
  function MaskByte(s: set<nat>): byte
  {
    assert TwoTo(8) == 256;
    MaskFrom(s, 0)
  }

  /** The test `m & (1 << i)`. */
  predicate BitOf(m: nat, i: nat)
  {
    if i == 0 then m % 2 == 1 else BitOf(m / 2, i - 1)
  }

  lemma {:induction false} BitOfZero(i: nat)
    ensures !BitOf(0, i)
  {
    if i > 0 {
      BitOfZero(i - 1);
    }
  }

  lemma {:induction false} MaskFromBit(s: set<nat>, k: nat, i: nat)
    requires k <= 8
    ensures BitOf(MaskFrom(s, k), i) <==> k + i < 8 && k + i in s
    decreases 8 - k
  {
    if k == 8 {
      BitOfZero(i);
    } else {
      var rest := MaskFrom(s, k + 1);
      HalfStep(if k in s then 1 else 0, rest);
      if i > 0 {
        MaskFromBit(s, k + 1, i - 1);
      }
    }
  }

  lemma HalfStep(bit: nat, rest: nat)
    requires bit < 2
    ensures (bit + 2 * rest) / 2 == rest && (bit + 2 * rest) % 2 == bit
  {
  }

  /** Bit `i` of a channel byte is set iff `i < 8` and output `i` is on that channel. */
  lemma MaskBit(s: set<nat>, i: nat)
    ensures BitOf(MaskByte(s), i) <==> i < 8 && i in s
  {
    MaskFromBit(s, 0, i);
  }

  /** The two NVCAP channel bytes, smaller first (the final swap). */
  function ChannelBytes(ts: seq<int>): (r: (byte, byte))
    ensures r.0 <= r.1
    ensures multiset{r.0, r.1} == multiset{MaskByte(Channels(ts).0), MaskByte(Channels(ts).1)}
  {
    var m1, m2 := MaskByte(Channels(ts).0), MaskByte(Channels(ts).1);
    if m1 > m2 then (m2, m1) else (m1, m2)
  }

  /** With at most 8 outputs, each output's bit is set in exactly one channel byte. */
  lemma EachOutputOneChannel(ts: seq<int>)
    requires NoneGrouped(ts) && |ts| <= 8
    ensures forall i :: 0 <= i < |ts| ==> BitOf(ChannelBytes(ts).0, i) != BitOf(ChannelBytes(ts).1, i)
  {
    var c := Channels(ts);
    ChannelsPartition(ts);
    forall i | 0 <= i < |ts| ensures BitOf(ChannelBytes(ts).0, i) != BitOf(ChannelBytes(ts).1, i) {
      MaskBit(c.0, i);
      MaskBit(c.1, i);
      assert i in c.0 + c.1;
    }
  }

  /** Outputs from index 8 up fit in no channel byte. */
  lemma HighOutputsUnassigned(ts: seq<int>, i: nat)
    requires 8 <= i
    ensures !BitOf(ChannelBytes(ts).0, i) && !BitOf(ChannelBytes(ts).1, i)
  {
    MaskBit(Channels(ts).0, i);
    MaskBit(Channels(ts).1, i);
  }

  // ---------------------------------------------------------------------
  // Patching the heads bytes and the whole patcher
  // ---------------------------------------------------------------------

  /** The heads value written for output `i`: 1 or 2 by channel, 0 for none. */
  function HeadValue(b1: byte, b2: byte, i: nat): nat
  {
    if BitOf(b1, i) then 1 else if BitOf(b2, i) then 2 else 0
  }

  /** The ROM after the heads bytes of the first `n` outputs are patched. */
  function HeadsPatched(rom: seq<byte>, outs: seq<Output>, b1: byte, b2: byte, n: nat): (r: seq<byte>)
    requires n <= |outs| && forall k :: 0 <= k < |outs| ==> outs[k].heads < |rom|
    ensures |r| == |rom|
  {
    if n == 0 then rom
    else
      var r := HeadsPatched(rom, outs, b1, b2, n - 1);
      var v := HeadValue(b1, b2, n - 1);
      if v == 0 then r else r[outs[n - 1].heads := v]
  }

  /**
   * With distinct heads offsets, output `k`'s heads byte holds its channel
   * (or is untouched when it is on neither), and every byte that is no
   * heads byte is unchanged.
   */
  lemma {:induction false} HeadsPatchedAt(rom: seq<byte>, outs: seq<Output>, b1: byte, b2: byte, n: nat)
    requires n <= |outs| && forall k :: 0 <= k < |outs| ==> outs[k].heads < |rom|
    requires forall a, b :: 0 <= a < b < |outs| ==> outs[a].heads < outs[b].heads
    ensures var r := HeadsPatched(rom, outs, b1, b2, n);
            (forall k :: 0 <= k < n ==>
               r[outs[k].heads] == (if HeadValue(b1, b2, k) == 0 then rom[outs[k].heads] else HeadValue(b1, b2, k))) &&
            (forall p :: 0 <= p < |rom| && (forall k :: 0 <= k < n ==> outs[k].heads != p) ==> r[p] == rom[p])
  {
    if n > 0 {
      HeadsPatchedAt(rom, outs, b1, b2, n - 1);
    }
  }

  /** Status, ROM and NVCAP after `patch_nvidia_rom`. */
  datatype Patched = Patched(status: nat, rom: seq<byte>, nvcap: seq<byte>)

  function PatchSpec(rom: seq<byte>, nvcap: seq<byte>): (p: Patched)
    requires |rom| == ROM_SIZE && |nvcap| == NVCAP_SIZE
  {
    match ParseDcb(rom)
    case None => Patched(PATCH_ROM_FAILED, rom, nvcap)
    case Some(d) => PatchWith(rom, nvcap, d)
  }

  /** The patcher once the DCB `d` is located. */
  function PatchWith(rom: seq<byte>, nvcap: seq<byte>, d: Dcb): (p: Patched)
    requires RecordsFit(rom, d) && |nvcap| == NVCAP_SIZE
  {
    var outs := Outputs(rom, d);
    var b := ChannelBytes(Kinds(outs));
    Patched(if HasLvds(Kinds(outs)) then PATCH_ROM_SUCCESS_HAS_LVDS else PATCH_ROM_SUCCESS,
            HeadsPatched(rom, outs, b.0, b.1, |outs|),
            nvcap[6 := b.0][8 := b.1])
  }

  /** The patcher fails exactly when the header checks fail, and then changes nothing. */
  lemma PatchOutcome(rom: seq<byte>, nvcap: seq<byte>)
    requires |rom| == ROM_SIZE && |nvcap| == NVCAP_SIZE
    ensures PatchSpec(rom, nvcap).status == PATCH_ROM_FAILED <==> ParseDcb(rom).None?
    ensures PatchSpec(rom, nvcap).status == PATCH_ROM_FAILED ==>
              PatchSpec(rom, nvcap).rom == rom && PatchSpec(rom, nvcap).nvcap == nvcap
  {
    if ParseDcb(rom).Some? {
      PatchWithFacts(rom, nvcap, ParseDcb(rom).value);
    }
  }

  /**
   * Once the DCB is found: the patcher reports an LVDS output exactly when
   * one was collected, and changes only NVCAP bytes 6 and 8, smaller
   * channel first.
   */
  lemma PatchWithFacts(rom: seq<byte>, nvcap: seq<byte>, d: Dcb)
    requires RecordsFit(rom, d) && |nvcap| == NVCAP_SIZE
    ensures var p := PatchWith(rom, nvcap, d);
            p.status != PATCH_ROM_FAILED &&
            (p.status == PATCH_ROM_SUCCESS_HAS_LVDS <==>
               exists k :: 0 <= k < |Outputs(rom, d)| && Outputs(rom, d)[k].kind == LVDS) &&
            |p.rom| == |rom| && |p.nvcap| == NVCAP_SIZE && p.nvcap[6] <= p.nvcap[8] &&
            (forall k :: 0 <= k < NVCAP_SIZE && k != 6 && k != 8 ==> p.nvcap[k] == nvcap[k])
  {
    var outs := Outputs(rom, d);
    var ts := Kinds(outs);
    var b := ChannelBytes(ts);
    var p := PatchWith(rom, nvcap, d);
    assert p.nvcap == nvcap[6 := b.0][8 := b.1];
    assert p.status == PATCH_ROM_SUCCESS_HAS_LVDS <==> HasLvds(ts);
    if HasLvds(ts) {
      var k :| 0 <= k < |ts| && ts[k] == LVDS;
      assert outs[k].kind == LVDS;
    }
  }

  /**
   * A table with no records to visit (every table before version 3.0, by
   * `DcbAcceptance`) sets both channel bytes to 0 and leaves the ROM as it is.
   */
  lemma NoRecordsClearChannels(rom: seq<byte>, nvcap: seq<byte>, d: Dcb)
    requires RecordsFit(rom, d) && |nvcap| == NVCAP_SIZE && d.count == 0
    ensures PatchWith(rom, nvcap, d) == Patched(PATCH_ROM_SUCCESS, rom, nvcap[6 := 0][8 := 0])
  {
    assert Outputs(rom, d) == [];
    var ts := Kinds([]);
    assert !HasLvds(ts);
    assert Channels(ts).0 == {} && Channels(ts).1 == {};
    assert MaskByte({}) == 0 by {
      assert TwoTo(8) == 256;
      MaskFromZero(0);
    }
  }

  lemma {:induction false} MaskFromZero(k: nat)
    requires k <= 8
    ensures MaskFrom({}, k) == 0
    decreases 8 - k
  {
    if k < 8 {
      MaskFromZero(k + 1);
    }
  }

  /** The record loop: collect the outputs in record order. */
  method CollectOutputs(rom: array<byte>, d: Dcb) returns (outs: seq<Output>)
    requires RecordsFit(rom[..], d)
    ensures outs == Outputs(rom[..], d)
  {
    var image := rom[..];
    outs := [];
    var i := 0;
    while i < d.count
      invariant i <= d.count
      invariant outs == OutputsUpTo(image, d, i)
    {
      var conn := LE32(image, RecordAt(d, i));
      if conn % 16 == 0xF {
      } else if conn == 0 {
      } else if conn % 16 == 6 {
      } else {
        outs := outs + [Output(conn % 16, RecordAt(d, i) + 1)];
      }
      i := i + 1;
    }
  }

  /** One case of the TMDS `switch`: group output `i` and its neighbours. */
  method GroupTmds(kinds: array<int>, i: nat) returns (m: set<nat>)
    requires 1 <= i < kinds.Length && kinds[i] == TMDS
    modifies kinds
    ensures PassResult(kinds[..], m) == GroupAround(old(kinds[..]), i)
  {
    m := {i};
    kinds[i] := GROUPED;
    if kinds[i - 1] == ANALOG {
      m := m + {i - 1};
      kinds[i - 1] := GROUPED;
    }
    if i + 1 < kinds.Length && kinds[i + 1] == TV {
      m := m + {i + 1};
      kinds[i + 1] := GROUPED;
    }
    ghost var t := old(kinds[..]);
    ghost var g := GroupAround(t, i);
    assert g.members == m;
    assert kinds[..] == g.ts;
  }

  /** The inner loop of one TMDS pass; it stops after the first group. */
  method RunPass(kinds: array<int>) returns (m: set<nat>)
    modifies kinds
    ensures PassResult(kinds[..], m) == Pass(old(kinds[..]))
  {
    ghost var t := kinds[..];
    m := {};
    var i := 0;
    while i < kinds.Length
      invariant i <= kinds.Length && kinds[..] == t
      invariant 1 <= i ==> TmdsFrom(t, 1) == TmdsFrom(t, i)
    {
      if kinds[i] == GROUPED {
        i := i + 1;
        continue;
      }
      if i > 0 && kinds[i] == TMDS {
        assert TmdsFrom(t, 1) == i;
        m := GroupTmds(kinds, i);
        break;
      }
      i := i + 1;
    }
  }

  /** Loop invariant of the LVDS scan. */
  ghost predicate LvdsScanned(t: seq<int>, kinds: seq<int>, i: nat, ch1: set<nat>, hasLvds: bool)
  {
    |kinds| == |t| && i <= |t| &&
    (forall k :: 0 <= k < |t| ==> kinds[k] == (if k < i && t[k] == LVDS then GROUPED else t[k])) &&
    ch1 == (set k: nat | k < i && t[k] == LVDS) &&
    (hasLvds <==> exists k :: 0 <= k < i && t[k] == LVDS)
  }

  /** Loop invariant of the loops that group every remaining output onto channel 2. */
  ghost predicate RestGrouped(t: seq<int>, kinds: seq<int>, i: nat, ch2: set<nat>, ch2Start: set<nat>)
  {
    |kinds| == |t| && i <= |t| &&
    (forall k :: 0 <= k < |t| ==> kinds[k] == (if k < i then GROUPED else t[k])) &&
    ch2 == ch2Start + (set k: nat | k < i && t[k] != GROUPED)
  }

  /** Group every still-ungrouped output onto channel 2. */
  method GroupRest(kinds: array<int>, ch2Start: set<nat>) returns (ch2: set<nat>)
    modifies kinds
    ensures ch2 == ch2Start + Ungrouped(old(kinds[..]))
    ensures forall k :: 0 <= k < kinds.Length ==> kinds[k] == GROUPED
  {
    ghost var t := kinds[..];
    ch2 := ch2Start;
    for i := 0 to kinds.Length
      invariant RestGrouped(t, kinds[..], i, ch2, ch2Start)
    {
      if kinds[i] != GROUPED {
        ch2 := ch2 + {i};
        kinds[i] := GROUPED;
      }
    }
  }

  /** The three grouping loops of `patch_nvidia_rom`. */
  method GroupOutputs(kinds: array<int>) returns (ch1: set<nat>, ch2: set<nat>, hasLvds: bool)
    modifies kinds
    ensures (ch1, ch2) == Channels(old(kinds[..]))
    ensures hasLvds == HasLvds(old(kinds[..]))
  {
    ghost var t := kinds[..];
    ch1, ch2, hasLvds := {}, {}, false;
    for i := 0 to kinds.Length
      invariant LvdsScanned(t, kinds[..], i, ch1, hasLvds)
    {
      if kinds[i] == LVDS {
        hasLvds := true;
        ch1 := ch1 + {i};
        kinds[i] := GROUPED;
      }
    }
    if hasLvds {
      ghost var tl := kinds[..];
      ch2 := GroupRest(kinds, {});
      assert Ungrouped(tl) == set k: nat | k < |t| && t[k] != LVDS && t[k] != GROUPED;
      assert HasLvds(t);
      assert ch2 == Ungrouped(tl);
      assert ch1 == Channels(t).0;
      assert ch2 == Channels(t).1;
    } else {
      assert kinds[..] == t;
      for x := 0 to 2
        invariant x == 0 ==> kinds[..] == t && ch1 == {} && ch2 == {}
        invariant x == 1 ==> kinds[..] == Pass(t).ts && ch1 == Pass(t).members && ch2 == {}
        invariant x == 2 ==> kinds[..] == Pass(Pass(t).ts).ts && ch1 == Pass(t).members && ch2 == Pass(Pass(t).ts).members
      {
        var m := RunPass(kinds);
        if x == 0 {
          ch1 := ch1 + m;
        } else {
          ch2 := ch2 + m;
        }
      }
    }
    ghost var ch2Before := ch2;
    ghost var tBefore := kinds[..];
    ch2 := GroupRest(kinds, ch2);
    if hasLvds {
      assert Ungrouped(tBefore) == {};
      assert ch2 == ch2Before;
    } else {
      assert !HasLvds(t);
      assert tBefore == Pass(Pass(t).ts).ts;
      assert ch2 == Channels(t).1;
    }
  }

  /** The heads loop: write each output's channel into its DCB record. */
  method PatchHeads(rom: array<byte>, outs: seq<Output>, b1: byte, b2: byte)
    requires forall k :: 0 <= k < |outs| ==> outs[k].heads < rom.Length
    modifies rom
    ensures rom[..] == HeadsPatched(old(rom[..]), outs, b1, b2, |outs|)
  {
    for i := 0 to |outs|
      invariant rom[..] == HeadsPatched(old(rom[..]), outs, b1, b2, i)
    {
      if BitOf(b1, i) {
        rom[outs[i].heads] := 1;
      } else if BitOf(b2, i) {
        rom[outs[i].heads] := 2;
      }
    }
  }

  /** Order the two channel bytes and store them as NVCAP bytes 6 and 8. */
  method StoreChannels(nvcap: array<byte>, ghost ts: seq<int>, ch1: set<nat>, ch2: set<nat>)
    returns (channel1: byte, channel2: byte)
    requires nvcap.Length == NVCAP_SIZE && (ch1, ch2) == Channels(ts)
    modifies nvcap
    ensures (channel1, channel2) == ChannelBytes(ts)
    ensures nvcap[..] == old(nvcap[..])[6 := channel1][8 := channel2]
  {
    channel1, channel2 := MaskByte(ch1), MaskByte(ch2);
    if channel1 > channel2 {
      channel1, channel2 := channel2, channel1;
    }
    nvcap[6] := channel1;
    nvcap[8] := channel2;
  }

  /** `patch_nvidia_rom`, with `nvcap` the global `default_NVCAP`. */
  method PatchNvidiaRom(rom: array<byte>, nvcap: array<byte>) returns (status: nat)
    requires rom.Length == ROM_SIZE && nvcap.Length == NVCAP_SIZE
    modifies rom, nvcap
    ensures Patched(status, rom[..], nvcap[..]) == PatchSpec(old(rom[..]), old(nvcap[..]))
  {
    var dcb := ParseDcb(rom[..]);
    if dcb.None? {
      return PATCH_ROM_FAILED;
    }
    status := PatchTable(rom, nvcap, dcb.value);
  }

  /** The record, grouping and heads loops for the located DCB `d`. */
  method PatchTable(rom: array<byte>, nvcap: array<byte>, d: Dcb) returns (status: nat)
    requires rom.Length == ROM_SIZE && nvcap.Length == NVCAP_SIZE && RecordsFit(rom[..], d)
    modifies rom, nvcap
    ensures Patched(status, rom[..], nvcap[..]) == PatchWith(old(rom[..]), old(nvcap[..]), d)
  {
    ghost var rom0, nvcap0 := rom[..], nvcap[..];
    var outs := CollectOutputs(rom, d);
    var kinds := new int[|outs|](k requires 0 <= k < |outs| => outs[k].kind);
    ghost var ts := Kinds(outs);
    assert kinds[..] == ts;
    var ch1, ch2, hasLvds := GroupOutputs(kinds);
    var channel1, channel2 := StoreChannels(nvcap, ts, ch1, ch2);
    PatchHeads(rom, outs, channel1, channel2);
    status := if hasLvds then PATCH_ROM_SUCCESS_HAS_LVDS else PATCH_ROM_SUCCESS;
    assert PatchWith(rom0, nvcap0, d) == Patched(status, HeadsPatched(rom0, outs, channel1, channel2, |outs|), nvcap0[6 := channel1][8 := channel2]);
  }

  // ---------------------------------------------------------------------
  // get_nvidia_model
  // ---------------------------------------------------------------------

  /** A row of the known-chipset table: PCI vendor/device id and marketing name. */
  datatype Chipset = Chipset(device: nat, name: string)

  /** Index of the first row from `i` on whose id matches, or 0 when none does. */
  function MatchFrom(table: seq<Chipset>, id: nat, i: nat): (k: nat)
    decreases |table| - i
    ensures k == 0 || (i <= k < |table| && table[k].device == id)
  {
    if i >= |table| then 0
    else if table[i].device == id then i
    else MatchFrom(table, id, i + 1)
  }

  /**
   * The row whose name the lookup returns: the first match past row 0,
   * and row 0 ("Unknown") exactly when no row past it matches.
   */
  lemma ModelLookup(table: seq<Chipset>, id: nat)
    requires |table| > 0
    ensures var k := MatchFrom(table, id, 1);
            (k == 0 <==> forall j :: 1 <= j < |table| ==> table[j].device != id) &&
            (k > 0 ==> table[k].device == id && forall j :: 1 <= j < k ==> table[j].device != id)
  {
    MatchFromFirst(table, id, 1);
  }

  lemma {:induction false} MatchFromFirst(table: seq<Chipset>, id: nat, i: nat)
    requires 1 <= i
    ensures var k := MatchFrom(table, id, i);
            (k == 0 ==> forall j :: i <= j < |table| ==> table[j].device != id) &&
            (forall j :: i <= j < |table| && (k == 0 || j < k) ==> table[j].device != id)
    decreases |table| - i
  {
    if i < |table| && table[i].device != id {
      MatchFromFirst(table, id, i + 1);
    }
  }

  /** `get_nvidia_model`: search the table from row 1, falling back to row 0. */
  method GetNvidiaModel(table: seq<Chipset>, id: nat) returns (name: string)
    requires |table| > 0
    ensures name == table[MatchFrom(table, id, 1)].name
  {
    var i := 1;
    while i < |table|
      invariant 1 <= i <= |table|
      invariant MatchFrom(table, id, 1) == MatchFrom(table, id, i)
    {
      if table[i].device == id {
        return table[i].name;
      }
      i := i + 1;
    }
    return table[0].name;
  }
}
