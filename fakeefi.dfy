/**
 * The EFI emulation of `fake_efi.c`: the 64-bit virtual alias of a
 * physical address, configuration-table registration, the system-table
 * CRC fix-up, UUID text parsing, the SMBIOS Type 1 UUID lookup and the
 * choice of the platform values exported to the kernel (system type,
 * system id, serial number and model).
 */
module FakeEfi {
  import opened Bytes
  import opened Wrappers
  import StringTable
  import CLib

  const TWO64: nat := 0x1_0000_0000_0000_0000
  /** The kernel's virtual alias of the low 4 GB. */
  const KERNEL_ALIAS_BASE: nat := 0xFFFF_FF80_0000_0000
  const UUID_LEN: nat := 16
  const MAX_SERIAL_LEN: nat := 32
  const MAX_MODEL_LEN: nat := 32
  const MAX_CONFIGURATION_TABLE_ENTRIES: nat := 10

  // EFI status codes of the 32-bit boot loader
  const EFI_SUCCESS: nat := 0
  const EFI_INVALID_PARAMETER: nat := 0x8000_0002
  const EFI_UNSUPPORTED: nat := 0x8000_0003

  /** The built-in System-ID. */
  const SYSTEM_ID_DEFAULT: seq<byte> :=
    [0x41, 0x73, 0x65, 0x72, 0x65, 0x42, 0x4c, 0x4e, 0x66, 0x75, 0x63, 0x6b, 0x45, 0x46, 0x49, 0x58]

  // -------------------------------------------------------------------
  // Addresses

  /**
   * `ptov64`: the address ORed with 0xFFFFFF8000000000. The mask has its
   * low 39 bits clear, so for a 32-bit address the OR is an addition.
   */
  function Ptov64(addr: nat): (r: nat)
    requires addr < TWO32
    ensures r < TWO64
    ensures r % TWO32 == addr && r / TWO32 == KERNEL_ALIAS_BASE / TWO32
  {
    KERNEL_ALIAS_BASE + addr
  }

  // -------------------------------------------------------------------
  // Configuration tables

  /** A child of /efi/configuration-table: the GUID, the table address and an optional alias. */
  datatype TableNode = TableNode(guid: seq<byte>, table: nat, alias: Option<string>)

  datatype AddResult = Status(code: nat) | Stopped

  /** The configuration-table count of the system table and the device-tree children. */
  class ConfigTables {
    var numberOfTableEntries: nat
    var nodes: seq<TableNode>

    /** The system table is created with no entries. */
    constructor()
      ensures numberOfTableEntries == 0 && nodes == []
    {
      numberOfTableEntries := 0;
      nodes := [];
    }

    /**
     * `addConfigurationTable`: only adds a device-tree node. The system
     * table's own entry count is never incremented (that code is disabled),
     * so the capacity check depends only on the count the table started with.
     */
    method AddConfigurationTable(guid: Option<seq<byte>>, table: Option<nat>, alias: Option<string>)
        returns (r: AddResult)
      modifies this
      ensures numberOfTableEntries == old(numberOfTableEntries)
      ensures r == Stopped <==> old(numberOfTableEntries) >= MAX_CONFIGURATION_TABLE_ENTRIES
      ensures r == Status(EFI_INVALID_PARAMETER) <==> r != Stopped && guid.None?
      ensures r == Status(EFI_UNSUPPORTED) <==> r != Stopped && guid.Some? && table.None?
      ensures r == Status(EFI_SUCCESS) <==> r != Stopped && guid.Some? && table.Some?
      ensures r == Status(EFI_SUCCESS) ==> nodes == old(nodes) + [TableNode(guid.value, table.value, alias)]
      ensures r != Status(EFI_SUCCESS) ==> nodes == old(nodes)
    {
      if numberOfTableEntries >= MAX_CONFIGURATION_TABLE_ENTRIES {
        return Stopped;
      }
      if guid.None? {
        return Status(EFI_INVALID_PARAMETER);
      }
      if table.Some? {
        nodes := nodes + [TableNode(guid.value, table.value, alias)];
        return Status(EFI_SUCCESS);
      }
      return Status(EFI_UNSUPPORTED);
    }
  }

  /** Since the count stays 0, any number of registrations succeed. */
  method AddMany(t: ConfigTables, guids: seq<seq<byte>>, table: nat)
    requires t.numberOfTableEntries == 0
    modifies t
    ensures |t.nodes| == |old(t.nodes)| + |guids|
  {
    var i := 0;
    while i < |guids|
      invariant i <= |guids| && t.numberOfTableEntries == 0
      invariant |t.nodes| == |old(t.nodes)| + i
    {
      var r := t.AddConfigurationTable(Some(guids[i]), Some(table), None);
      i := i + 1;
    }
  }

  // -------------------------------------------------------------------
  // System table CRC (section 4.2 of the UEFI Specification)

  /** EFI table header: HeaderSize at 12, CRC32 at 16. */
  const HEADER_SIZE_OFFSET: nat := 12
  const CRC_OFFSET: nat := 16

  /** The header bytes with the CRC32 field zeroed, as far as HeaderSize reaches. */
  function CrcInput(t: seq<byte>): seq<byte>
    requires |t| >= 24 && LE32(t, HEADER_SIZE_OFFSET) <= |t|
  {
    Splice(t, CRC_OFFSET, [0, 0, 0, 0])[..LE32(t, HEADER_SIZE_OFFSET)]
  }

  /** What a consumer checks: the stored CRC is the CRC of the header with the field zeroed. */
  predicate CrcValid(t: seq<byte>, crc32: seq<byte> -> nat)
    requires |t| >= 24 && LE32(t, HEADER_SIZE_OFFSET) <= |t|
  {
    LE32(t, CRC_OFFSET) == crc32(CrcInput(t)) % TWO32
  }

  /** `fixupEfiSystemTableCRC32`; `crc32` is the CRC routine of the library. */
  method FixupCrc(table: array<byte>, crc32: seq<byte> -> nat)
    requires table.Length >= 24 && LE32(table[..], HEADER_SIZE_OFFSET) <= table.Length
    modifies table
    ensures table[..] == Splice(old(table[..]), CRC_OFFSET, EncLE32(crc32(CrcInput(old(table[..]))) % TWO32))
  {
    ghost var prev := table[..];
    table[16], table[17], table[18], table[19] := 0, 0, 0, 0;
    assert table[..] == Splice(prev, CRC_OFFSET, [0, 0, 0, 0]);
    assert table[12] == prev[12] && table[13] == prev[13] && table[14] == prev[14] && table[15] == prev[15];
    var hs := LE32(table[..], HEADER_SIZE_OFFSET);
    assert hs == LE32(prev, HEADER_SIZE_OFFSET);
    var c := EncLE32(crc32(table[..hs]) % TWO32);
    ghost var zeroed := table[..];
    table[16], table[17], table[18], table[19] := c[0], c[1], c[2], c[3];
    assert table[..] == Splice(zeroed, CRC_OFFSET, c);
  }

  /** After the fix-up the header checks out, and a second fix-up changes nothing. */
  lemma FixupMakesValid(t: seq<byte>, crc32: seq<byte> -> nat)
    requires |t| >= 24 && LE32(t, HEADER_SIZE_OFFSET) <= |t|
    ensures var f := Splice(t, CRC_OFFSET, EncLE32(crc32(CrcInput(t)) % TWO32));
            LE32(f, HEADER_SIZE_OFFSET) == LE32(t, HEADER_SIZE_OFFSET) && CrcInput(f) == CrcInput(t) && CrcValid(f, crc32)
  {
    var v := EncLE32(crc32(CrcInput(t)) % TWO32);
    var f := Splice(t, CRC_OFFSET, v);
    assert f[12..16] == t[12..16];
    assert LE32(f, HEADER_SIZE_OFFSET) == LE32(t, HEADER_SIZE_OFFSET) by {
      assert f[12] == t[12] && f[13] == t[13] && f[14] == t[14] && f[15] == t[15];
    }
    assert Splice(f, CRC_OFFSET, [0, 0, 0, 0]) == Splice(t, CRC_OFFSET, [0, 0, 0, 0]);
    assert f[16..20] == v;
    assert LE32(f, CRC_OFFSET) == LE32(v, 0) by {
      assert f[16] == v[0] && f[17] == v[1] && f[18] == v[2] && f[19] == v[3];
    }
  }

  // -------------------------------------------------------------------
  // UUID text

  /** What `stringToUUID` returns and the bytes it has stored into `uuid` by then. */
  datatype UuidParse = UuidParse(status: int, bytes: seq<byte>)

  /** Two characters at `p`, both present and hex digits. */
  predicate HexPair(s: string, p: nat)
  {
    At(s, p) != '\0' && At(s, p + 1) != '\0' && IsHexDigit(At(s, p)) && IsHexDigit(At(s, p + 1))
  }

  /** The byte two hex digits at `p` stand for. */
  function PairValue(s: string, p: nat): (b: byte)
    requires HexPair(s, p)
    ensures b == 16 * HexVal(At(s, p)) + HexVal(At(s, p + 1))
  {
    16 * HexVal(At(s, p)) + HexVal(At(s, p + 1))
  }

  /** Where byte `i + 1` starts: past the two digits, and past a '-' that follows an odd byte other than the last. */
  function NextPos(s: string, p: nat, i: nat): (q: nat)
    ensures q == p + 2 || (q == p + 3 && At(s, p + 2) == '-' && i % 2 == 1 && i < UUID_LEN - 1)
  {
    if At(s, p + 2) == '-' && i % 2 == 1 && i < UUID_LEN - 1 then p + 3 else p + 2
  }

  /** How far the first `n` pairs take the parse: the position reached and the bytes stored, or where it stopped. */
  datatype Progress = Progress(ok: bool, pos: nat, bytes: seq<byte>)

  /** The loop of `stringToUUID` after `n` rounds. */
  function ParsePairs(s: string, n: nat): (c: Progress)
    requires n <= UUID_LEN
    ensures |c.bytes| <= n && (c.ok ==> |c.bytes| == n)
  {
    if n == 0 then Progress(true, 0, [])
    else
      var c := ParsePairs(s, n - 1);
      if !c.ok then c
      else if !HexPair(s, c.pos) then Progress(false, c.pos, c.bytes)
      else Progress(true, NextPos(s, c.pos, n - 1), c.bytes + [PairValue(s, c.pos)])
  }

  /**
   * `stringToUUID`: sixteen pairs of hex digits, a '-' allowed after each
   * odd byte but the last; -1 for a missing or non-hex digit, -2 for text
   * after the sixteenth byte, 0 otherwise.
   */
  function ParseUuid(s: string): (r: UuidParse)
    ensures r.status == 0 || r.status == -1 || r.status == -2
    ensures |r.bytes| <= UUID_LEN && (r.status != -1 ==> |r.bytes| == UUID_LEN)
  {
    var c := ParsePairs(s, UUID_LEN);
    if !c.ok then UuidParse(-1, c.bytes)
    else if At(s, c.pos) != '\0' then UuidParse(-2, c.bytes)
    else UuidParse(0, c.bytes)
  }

  /** Once a pair is missing, later rounds change nothing. */
  lemma {:induction false} ParsePairsStuck(s: string, m: nat, n: nat)
    requires m <= n <= UUID_LEN && !ParsePairs(s, m).ok
    ensures ParsePairs(s, n) == ParsePairs(s, m)
    decreases n
  {
    if n > m {
      ParsePairsStuck(s, m, n - 1);
    }
  }

  /** One round of the loop, from a state where every earlier pair was present. */
  lemma ParsePairsStep(s: string, n: nat)
    requires n < UUID_LEN && ParsePairs(s, n).ok
    ensures var c := ParsePairs(s, n);
            ParsePairs(s, n + 1) ==
              if HexPair(s, c.pos) then Progress(true, NextPos(s, c.pos, n), c.bytes + [PairValue(s, c.pos)])
              else Progress(false, c.pos, c.bytes)
  {
  }

  /** A string that gets past the digit check starts with a hex digit. */
  lemma ParseUuidFirstDigit(s: string)
    requires ParseUuid(s).status != -1
    ensures IsHexDigit(At(s, 0))
  {
    assert ParsePairs(s, 0) == Progress(true, 0, []);
    if !ParsePairs(s, 1).ok {
      ParsePairsStuck(s, 1, UUID_LEN);
      assert !ParsePairs(s, UUID_LEN).ok;
    } else {
      assert HexPair(s, 0);
    }
  }

  /** `stringToUUID`, writing the parsed bytes into `uuid` as it goes. */
  method StringToUuid(source: string, uuid: array<byte>) returns (status: int)
    requires uuid.Length == UUID_LEN
    modifies uuid
    ensures status == ParseUuid(source).status
    ensures uuid[..|ParseUuid(source).bytes|] == ParseUuid(source).bytes
    ensures forall k :: |ParseUuid(source).bytes| <= k < UUID_LEN ==> uuid[k] == old(uuid[k])
  {
    var p: nat := 0;
    var i: nat := 0;
    ghost var c := ParsePairs(source, 0);
    while i < UUID_LEN
      invariant i <= UUID_LEN
      invariant c == ParsePairs(source, i) && c.ok && c.pos == p && |c.bytes| == i
      invariant forall k :: 0 <= k < i ==> uuid[k] == c.bytes[k]
      invariant forall k :: i <= k < UUID_LEN ==> uuid[k] == old(uuid[k])
    {
      ParsePairsStep(source, i);
      if !HexPair(source, p) {
        ParsePairsStuck(source, i + 1, UUID_LEN);
        assert uuid[..i] == c.bytes;
        return -1;
      }
      var b := PairValue(source, p);
      uuid[i] := b;
      p := NextPos(source, p, i);
      c := Progress(true, p, c.bytes + [b]);
      i := i + 1;
    }
    assert uuid[..] == ParsePairs(source, UUID_LEN).bytes;
    if At(source, p) != '\0' {
      return -2;
    }
    return 0;
  }

  /** Two upper-case hex digits of a byte. */
  function HexByte(x: byte): (s: string)
    ensures |s| == 2 && IsHexDigit(s[0]) && IsHexDigit(s[1])
    ensures 16 * HexVal(s[0]) + HexVal(s[1]) == x
  {
    [HexDigit(x / 16), HexDigit(x % 16)]
  }

  /** The text of byte `i`: two hex digits, and a '-' when `i` is in `dashes`. */
  function Group(u: seq<byte>, dashes: set<nat>, i: nat): (g: string)
    requires i < |u|
    ensures |g| == if i in dashes then 3 else 2
    ensures g[0] == HexByte(u[i])[0] && g[1] == HexByte(u[i])[1]
    ensures i in dashes ==> g[2] == '-'
  {
    HexByte(u[i]) + (if i in dashes then "-" else "")
  }

  /** The first `n` strings of `gs`, one after the other. */
  function Join(gs: seq<string>, n: nat): string
    requires n <= |gs|
  {
    if n == 0 then "" else Join(gs, n - 1) + gs[n - 1]
  }

  /** The groups of a UUID's text, one per byte. */
  function Groups(u: seq<byte>, dashes: set<nat>): (gs: seq<string>)
    requires |u| == UUID_LEN
    ensures |gs| == UUID_LEN && forall i :: 0 <= i < UUID_LEN ==> gs[i] == Group(u, dashes, i)
  {
    seq(UUID_LEN, i requires 0 <= i < UUID_LEN => Group(u, dashes, i))
  }

  /** UUID text with a '-' after each byte whose index is in `dashes`. */
  function FormatUuid(u: seq<byte>, dashes: set<nat>): string
    requires |u| == UUID_LEN
  {
    Join(Groups(u, dashes), UUID_LEN)
  }

  /** The layout of section 3 of RFC 4122: 4-2-2-2-6 bytes. */
  const RFC4122_DASHES: set<nat> := {3, 5, 7, 9}

  /** Dashes `stringToUUID` accepts: after an odd byte index below 15. */
  predicate AcceptedDashes(dashes: set<nat>)
  {
    forall d :: d in dashes ==> d % 2 == 1 && d < UUID_LEN - 1
  }

  /** A shorter join is a prefix of a longer one. */
  lemma {:induction false} JoinGrows(gs: seq<string>, m: nat, n: nat)
    requires m <= n <= |gs|
    ensures |Join(gs, m)| <= |Join(gs, n)| && Join(gs, n)[..|Join(gs, m)|] == Join(gs, m)
    decreases n
  {
    if m < n {
      JoinGrows(gs, m, n - 1);
      var a := Join(gs, n - 1);
      assert (a + gs[n - 1])[..|Join(gs, m)|] == a[..|Join(gs, m)|];
    }
  }

  /** Character `j` of string `i` inside the whole join. */
  lemma JoinAt(gs: seq<string>, i: nat, j: nat)
    requires i < |gs| && j < |gs[i]|
    ensures |Join(gs, i)| + j < |Join(gs, |gs|)|
    ensures At(Join(gs, |gs|), |Join(gs, i)| + j) == gs[i][j]
  {
    JoinGrows(gs, i + 1, |gs|);
    var a := Join(gs, i);
    assert Join(gs, i + 1) == a + gs[i];
    assert (a + gs[i])[|a| + j] == gs[i][j];
  }

  /** The two digits of a byte, wherever they stand, read back as that byte. */
  lemma HexBytePair(t: string, pos: nat, x: byte)
    requires At(t, pos) == HexByte(x)[0] && At(t, pos + 1) == HexByte(x)[1]
    ensures HexPair(t, pos) && PairValue(t, pos) == x
  {
  }

  /** Group `i` of the text starts with the two digits of byte `i`. */
  lemma PairAtGroup(u: seq<byte>, dashes: set<nat>, i: nat)
    requires |u| == UUID_LEN && i < UUID_LEN
    ensures var pos := |Join(Groups(u, dashes), i)|;
            HexPair(FormatUuid(u, dashes), pos) && PairValue(FormatUuid(u, dashes), pos) == u[i]
  {
    var gs := Groups(u, dashes);
    JoinAt(gs, i, 0);
    JoinAt(gs, i, 1);
    HexBytePair(FormatUuid(u, dashes), |Join(gs, i)|, u[i]);
  }

  /** The parse steps from group `i` to group `i + 1`, over the dash when there is one. */
  lemma NextAtGroup(u: seq<byte>, dashes: set<nat>, i: nat)
    requires |u| == UUID_LEN && i < UUID_LEN && AcceptedDashes(dashes)
    ensures NextPos(FormatUuid(u, dashes), |Join(Groups(u, dashes), i)|, i) == |Join(Groups(u, dashes), i + 1)|
  {
    var gs := Groups(u, dashes);
    var t := FormatUuid(u, dashes);
    var pos := |Join(gs, i)|;
    assert |Join(gs, i + 1)| == pos + |gs[i]|;
    if i in dashes {
      JoinAt(gs, i, 2);
    } else if i + 1 < UUID_LEN {
      JoinAt(gs, i + 1, 0);
      assert At(t, pos + 2) == HexByte(u[i + 1])[0];
    } else {
      assert pos + 2 == |t|;
    }
  }

  lemma TakeSnoc(u: seq<byte>, i: nat)
    requires i < |u|
    ensures u[..i] + [u[i]] == u[..i + 1]
  {
  }

  /** After `n` rounds on formatted text the parse sits at group `n`, holding the first `n` bytes. */
  lemma {:induction false} FormatParsesPairs(u: seq<byte>, dashes: set<nat>, n: nat)
    requires |u| == UUID_LEN && n <= UUID_LEN && AcceptedDashes(dashes)
    ensures ParsePairs(FormatUuid(u, dashes), n) == Progress(true, |Join(Groups(u, dashes), n)|, u[..n])
  {
    if n > 0 {
      FormatParsesPairs(u, dashes, n - 1);
      PairAtGroup(u, dashes, n - 1);
      NextAtGroup(u, dashes, n - 1);
      TakeSnoc(u, n - 1);
    }
  }

  /** Formatted UUID text parses back to the bytes, with or without the RFC 4122 dashes. */
  lemma UuidRoundTrip(u: seq<byte>, dashes: set<nat>)
    requires |u| == UUID_LEN && AcceptedDashes(dashes)
    ensures ParseUuid(FormatUuid(u, dashes)) == UuidParse(0, u)
  {
    FormatParsesPairs(u, dashes, UUID_LEN);
    assert u[..UUID_LEN] == u;
  }

  /** The RFC 4122 text of a UUID. */
  lemma Rfc4122Parses(u: seq<byte>)
    requires |u| == UUID_LEN
    ensures ParseUuid(FormatUuid(u, RFC4122_DASHES)) == UuidParse(0, u)
  {
    UuidRoundTrip(u, RFC4122_DASHES);
  }

  /** A dash after byte 0 is a syntax error. */
  lemma EvenDashRejected(x: byte, t: string)
    ensures ParseUuid(HexByte(x) + "-" + t).status == -1
  {
    var s := HexByte(x) + "-" + t;
    assert At(s, 0) == HexByte(x)[0] && At(s, 1) == HexByte(x)[1] && At(s, 2) == '-';
    assert ParsePairs(s, 1) == Progress(true, 2, [x]);
    assert !ParsePairs(s, 2).ok;
    ParsePairsStuck(s, 2, UUID_LEN);
  }

  // -------------------------------------------------------------------
  // SMBIOS Type 1 UUID (section 3.3.2 of the SMBIOS Reference Specification v2.5)

  /** The position after the string-set of a structure: past its first double NUL, or the end. */
  function StringsEnd(dmi: seq<byte>, p: nat): (q: nat)
    ensures q >= p
    decreases |dmi| - p
  {
    if p + 1 < |dmi| && (dmi[p] != 0 || dmi[p + 1] != 0) then StringsEnd(dmi, p + 1) else p
  }

  /**
   * Offset of the System Information structure the walk settles on: the
   * walk stops at `count` structures, at the end of the table, at a length
   * below 4, at type 127 or at the first type 1, which counts only with a
   * length of at least 0x19.
   */
  function Type1From(dmi: seq<byte>, count: nat, i: nat, p: nat): (r: Option<nat>)
    ensures r.Some? ==> r.value + 4 <= |dmi| && dmi[r.value] == 1 && dmi[r.value + 1] >= 0x19
    decreases count - i
  {
    if i < count && p + 4 <= |dmi| then
      var len := dmi[p + 1];
      if len < 4 || dmi[p] == 127 then None
      else if dmi[p] == 1 then (if len >= 0x19 then Some(p) else None)
      else Type1From(dmi, count, i + 1, StringsEnd(dmi, p + len) + 2)
    else None
  }

  const ZERO16: seq<byte> := [0, 0, 0, 0, 0, 0, 0, 0, 0, 0, 0, 0, 0, 0, 0, 0]

  /** The 16 bytes at offset 8 of the structure at `p` (zero past the table). */
  function UuidBytes(dmi: seq<byte>, p: nat): (u: seq<byte>)
    ensures |u| == UUID_LEN
    ensures forall k :: 0 <= k < UUID_LEN && p + 8 + k < |dmi| ==> u[k] == dmi[p + 8 + k]
    ensures forall k :: 0 <= k < UUID_LEN && |dmi| <= p + 8 + k ==> u[k] == 0
    ensures p + 8 + UUID_LEN <= |dmi| ==> u == dmi[p + 8..p + 8 + UUID_LEN]
  {
    var tail := if p + 8 <= |dmi| then dmi[p + 8..] else [];
    (tail + ZERO16)[..UUID_LEN]
  }

  /** All 0x00 or all 0xFF means no UUID is set. */
  predicate UuidUnset(u: seq<byte>)
  {
    (forall k :: 0 <= k < |u| ==> u[k] == 0x00) || (forall k :: 0 <= k < |u| ==> u[k] == 0xFF)
  }

  /** `getSMBIOSUUID`: the UUID of the first usable System Information structure. */
  function SmbiosUuid(dmiAnchorOk: bool, dmi: seq<byte>, count: nat): (r: Option<seq<byte>>)
    ensures r.Some? ==> |r.value| == UUID_LEN && !UuidUnset(r.value)
    ensures r.Some? ==> dmiAnchorOk && Type1From(dmi, count, 0, 0).Some? &&
                        r.value == UuidBytes(dmi, Type1From(dmi, count, 0, 0).value)
  {
    if !dmiAnchorOk then None
    else
      var t := Type1From(dmi, count, 0, 0);
      if t.None? then None
      else
        var u := UuidBytes(dmi, t.value);
        if UuidUnset(u) then None else Some(u)
  }

  /**
   * `getSMBIOSUUID` as the loop over the structure table. `dmi` holds the
   * `tableLength` bytes of the table; `dmiAnchorOk` is the `_DMI_` anchor test.
   */
  method GetSmbiosUuid(dmiAnchorOk: bool, dmi: seq<byte>, count: nat) returns (found: bool, uuid: seq<byte>)
    ensures found <==> SmbiosUuid(dmiAnchorOk, dmi, count).Some?
    ensures found ==> uuid == SmbiosUuid(dmiAnchorOk, dmi, count).value
  {
    uuid := [];
    if !dmiAnchorOk {
      return false, uuid;
    }
    var p;
    found, p := FindType1(dmi, count);
    if !found {
      return false, uuid;
    }
    uuid := UuidBytes(dmi, p);
    var unset := IsUnset(uuid);
    if unset {
      return false, uuid;
    }
  }

  /** The structure walk of `getSMBIOSUUID`. */
  method FindType1(dmi: seq<byte>, count: nat) returns (found: bool, p: nat)
    ensures found <==> Type1From(dmi, count, 0, 0).Some?
    ensures found ==> p == Type1From(dmi, count, 0, 0).value
  {
    var i: nat := 0;
    p := 0;
    found := false;
    while i < count && p + 4 <= |dmi|
      invariant Type1From(dmi, count, 0, 0) == Type1From(dmi, count, i, p)
      invariant !found
      decreases count - i
    {
      var len := dmi[p + 1];
      if len < 4 || dmi[p] == 127 {
        return false, p;
      }
      if dmi[p] == 1 {
        found := len >= 0x19;
        return;
      }
      p := p + len;
      ghost var start := p;
      while p + 1 < |dmi| && (dmi[p] != 0 || dmi[p + 1] != 0)
        invariant StringsEnd(dmi, start) == StringsEnd(dmi, p)
        decreases |dmi| - p
      {
        p := p + 1;
      }
      p := p + 2;
      i := i + 1;
    }
  }

  /** The all-0x00 / all-0xFF test of `getSMBIOSUUID`. */
  method IsUnset(uuid: seq<byte>) returns (unset: bool)
    requires |uuid| == UUID_LEN
    ensures unset == UuidUnset(uuid)
  {
    var isZero := true;
    var isOnes := true;
    var k := 0;
    while k < UUID_LEN
      invariant k <= UUID_LEN
      invariant isZero <==> forall j :: 0 <= j < k ==> uuid[j] == 0x00
      invariant isOnes <==> forall j :: 0 <= j < k ==> uuid[j] == 0xFF
    {
      if uuid[k] != 0x00 {
        isZero := false;
      }
      if uuid[k] != 0xFF {
        isOnes := false;
      }
      k := k + 1;
    }
    unset := isZero || isOnes;
  }

  /** A table whose first structure is a usable System Information structure yields its UUID. */
  lemma FirstStructureType1(dmi: seq<byte>, count: nat)
    requires count >= 1 && |dmi| >= 4 && dmi[0] == 1 && dmi[1] >= 0x19
    requires !UuidUnset(UuidBytes(dmi, 0))
    ensures SmbiosUuid(true, dmi, count) == Some(UuidBytes(dmi, 0))
  {
  }

  // -------------------------------------------------------------------
  // Platform values

  /** `(unsigned char) strtoul(value, NULL, 10)`, kept only when 1 or 2. */
  function SystemType(key: Option<StringTable.Value>): (t: nat)
    ensures t == 1 || t == 2
    ensures t == 2 <==> key.Some? && CLib.StrToUL(key.value.rest, 0, 10).value % 256 == 2
  {
    if key.None? then 1
    else
      var v := CLib.StrToUL(key.value.rest, 0, 10).value % 256;
      if v == 1 || v == 2 then v else 1
  }

  /** A key value read as a UUID by `stringToUUID`, when that succeeds. */
  function KeyUuid(key: Option<StringTable.Value>): Option<seq<byte>>
  {
    if key.Some? && ParseUuid(key.value.rest).status == 0 then Some(ParseUuid(key.value.rest).bytes) else None
  }

  /** A SystemId value not starting with N or n. */
  predicate SystemIdUsable(key: Option<StringTable.Value>)
  {
    key.Some? && At(key.value.rest, 0) != 'N' && At(key.value.rest, 0) != 'n'
  }

  /**
   * The System-ID: SMUUID from smbios.plist, else SystemId from the boot
   * configuration (unless it starts with N/n), else the SMBIOS UUID, else
   * the value already held.
   */
  function ChooseSystemId(current: seq<byte>, smuuid: Option<StringTable.Value>, systemId: Option<StringTable.Value>,
                          smbios: Option<seq<byte>>): (id: seq<byte>)
    ensures KeyUuid(smuuid).Some? ==> id == KeyUuid(smuuid).value
    ensures KeyUuid(smuuid).None? && SystemIdUsable(systemId) && KeyUuid(systemId).Some? ==> id == KeyUuid(systemId).value
    ensures KeyUuid(smuuid).None? && !(SystemIdUsable(systemId) && KeyUuid(systemId).Some?) && smbios.Some? ==> id == smbios.value
    ensures KeyUuid(smuuid).None? && !(SystemIdUsable(systemId) && KeyUuid(systemId).Some?) && smbios.None? ==> id == current
  {
    if KeyUuid(smuuid).Some? then KeyUuid(smuuid).value
    else if SystemIdUsable(systemId) && KeyUuid(systemId).Some? then KeyUuid(systemId).value
    else if smbios.Some? then smbios.value
    else current
  }

  /** An RFC 4122 SMUUID overrides everything else. */
  lemma SmuuidWins(u: seq<byte>, rest: string, systemId: Option<StringTable.Value>, smbios: Option<seq<byte>>, current: seq<byte>)
    requires |u| == UUID_LEN
    ensures ChooseSystemId(current, Some(StringTable.Value(rest, FormatUuid(u, RFC4122_DASHES))), systemId, smbios) == u
  {
    Rfc4122Parses(u);
  }

  /** A SystemId starting with 'N' never replaces the SMBIOS UUID. */
  lemma SystemIdNoKeepsSmbios(smuuid: Option<StringTable.Value>, text: string, rest: string, u: seq<byte>, current: seq<byte>)
    requires KeyUuid(smuuid).None? && At(rest, 0) == 'N'
    ensures ChooseSystemId(current, smuuid, Some(StringTable.Value(text, rest)), Some(u)) == u
  {
  }

  /** `EFI_CHAR16` from a C `char`: signed, so bytes from 0x80 are sign-extended. */
  function Char16(c: char): (w: nat)
    ensures w < TWO16
    ensures (c as int) % 256 < 128 ==> w == (c as int) % 256
  {
    var b := (c as int) % 256;
    if b < 128 then b else 0xFF00 + b
  }

  /** The UTF-16 buffer of SMserial/SMproductname: the characters and a NUL. */
  function Utf16Field(text: string, prev: seq<nat>): (f: seq<nat>)
    requires |text| < |prev|
    ensures |f| == |prev| && f[|text|] == 0
    ensures forall k :: 0 <= k < |text| ==> f[k] == Char16(text[k])
    ensures f[|text| + 1..] == prev[|text| + 1..]
  {
    seq(|text|, k requires 0 <= k < |text| => Char16(text[k])) + [0] + prev[|text| + 1..]
  }

  /** Whether the SystemId key, read as a boolean, leaves the system-id export on. */
  function ExportSystemIdAsWritten(systemId: Option<StringTable.Value>): (doit: bool)
    ensures doit <==> systemId.None? || (|systemId.value.text| >= 1 && systemId.value.text[0] in {'Y', 'y'})
  {
    if systemId.None? then true
    else |systemId.value.text| >= 1 && (systemId.value.text[0] == 'Y' || systemId.value.text[0] == 'y')
  }

  /** A SystemId holding a UUID is adopted as System-ID, yet turns off its export. */
  lemma UuidSystemIdNotExported(t: string, smbios: Option<seq<byte>>, current: seq<byte>)
    requires ParseUuid(t).status == 0
    ensures ChooseSystemId(current, None, Some(StringTable.Value(t, t)), smbios) == ParseUuid(t).bytes
    ensures !ExportSystemIdAsWritten(Some(StringTable.Value(t, t)))
  {
    ParseUuidFirstDigit(t);
    assert t[0] == At(t, 0);
  }

  /** Any UUID written in the RFC 4122 layout shows it. */
  lemma Rfc4122SystemIdNotExported(u: seq<byte>)
    requires |u| == UUID_LEN
    ensures var t := FormatUuid(u, RFC4122_DASHES);
            ParseUuid(t) == UuidParse(0, u) && !ExportSystemIdAsWritten(Some(StringTable.Value(t, t)))
  {
    Rfc4122Parses(u);
    UuidSystemIdNotExported(FormatUuid(u, RFC4122_DASHES), None, u);
  }

  /** Export decision as intended: only a value starting with N or n turns it off. */
  function ExportSystemId(systemId: Option<StringTable.Value>): (doit: bool)
    ensures doit <==> !(systemId.Some? && |systemId.value.text| >= 1 && systemId.value.text[0] in {'N', 'n'})
  {
    !(systemId.Some? && |systemId.value.text| >= 1 && (systemId.value.text[0] == 'N' || systemId.value.text[0] == 'n'))
  }

  /** With the intended rule, an adopted SystemId UUID is also exported. */
  lemma AdoptedSystemIdExported(t: string, smbios: Option<seq<byte>>, current: seq<byte>)
    requires ParseUuid(t).status == 0
    ensures ChooseSystemId(current, None, Some(StringTable.Value(t, t)), smbios) == ParseUuid(t).bytes
    ensures ExportSystemId(Some(StringTable.Value(t, t)))
  {
    ParseUuidFirstDigit(t);
    assert t[0] == At(t, 0);
  }

  /** The System-ID branch of `setupEfiGetOverrideConfig`, starting from `current`. */
  method SelectSystemId(current: seq<byte>, smuuid: Option<StringTable.Value>, systemIdKey: Option<StringTable.Value>,
                        dmiAnchorOk: bool, dmi: seq<byte>, count: nat) returns (id: seq<byte>)
    ensures id == ChooseSystemId(current, smuuid, systemIdKey, SmbiosUuid(dmiAnchorOk, dmi, count))
  {
    var uuid := new byte[UUID_LEN];
    if smuuid.Some? {
      var st := StringToUuid(smuuid.value.rest, uuid);
      if st == 0 {
        return uuid[..];
      }
    }
    if systemIdKey.Some? && At(systemIdKey.value.rest, 0) != 'N' && At(systemIdKey.value.rest, 0) != 'n' {
      var st := StringToUuid(systemIdKey.value.rest, uuid);
      if st == 0 {
        return uuid[..];
      }
    }
    var found, u := GetSmbiosUuid(dmiAnchorOk, dmi, count);
    if found {
      return u;
    }
    return current;
  }

  /** The platform values `fake_efi.c` exports. */
  class EfiPlatform {
    var systemId: seq<byte>
    var serial: seq<nat>
    var serialLength: nat
    var model: seq<nat>
    var modelLength: nat

    predicate Valid()
      reads this
    {
      |systemId| == UUID_LEN && |serial| == MAX_SERIAL_LEN && |model| == MAX_MODEL_LEN
    }

    constructor()
      ensures Valid() && systemId == SYSTEM_ID_DEFAULT && serialLength == 0 && modelLength == 0
    {
      systemId := SYSTEM_ID_DEFAULT;
      serial := seq(MAX_SERIAL_LEN, _ => 0);
      serialLength := 0;
      model := seq(MAX_MODEL_LEN, _ => 0);
      modelLength := 0;
    }

    /**
     * `setupEfiGetOverrideConfig`. The keys are the lookups in smbios.plist
     * (SMUUID, SMserial, SMproductname) and in the boot configuration
     * (SystemId); the DMI arguments are those of `getSMBIOSUUID`.
     */
    method SetupOverrideConfig(smuuid: Option<StringTable.Value>, systemIdKey: Option<StringTable.Value>,
                               dmiAnchorOk: bool, dmi: seq<byte>, count: nat,
                               smSerial: Option<StringTable.Value>, smProduct: Option<StringTable.Value>)
      requires Valid()
      modifies this
      ensures Valid()
      ensures systemId == ChooseSystemId(old(systemId), smuuid, systemIdKey, SmbiosUuid(dmiAnchorOk, dmi, count))
      ensures smSerial.Some? && |smSerial.value.text| < MAX_SERIAL_LEN ==>
                serial == Utf16Field(smSerial.value.text, old(serial)) && serialLength == (|smSerial.value.text| + 1) * 2
      ensures !(smSerial.Some? && |smSerial.value.text| < MAX_SERIAL_LEN) ==> serial == old(serial) && serialLength == old(serialLength)
      ensures smProduct.Some? && |smProduct.value.text| < MAX_MODEL_LEN ==>
                model == Utf16Field(smProduct.value.text, old(model)) && modelLength == (|smProduct.value.text| + 1) * 2
      ensures !(smProduct.Some? && |smProduct.value.text| < MAX_MODEL_LEN) ==> model == old(model) && modelLength == old(modelLength)
    {
      systemId := SelectSystemId(systemId, smuuid, systemIdKey, dmiAnchorOk, dmi, count);
      if smSerial.Some? && |smSerial.value.text| < MAX_SERIAL_LEN {
        serial := Utf16Field(smSerial.value.text, serial);
        serialLength := (|smSerial.value.text| + 1) * 2;
      }
      if smProduct.Some? && |smProduct.value.text| < MAX_MODEL_LEN {
        model := Utf16Field(smProduct.value.text, model);
        modelLength := (|smProduct.value.text| + 1) * 2;
      }
    }
  }
}
