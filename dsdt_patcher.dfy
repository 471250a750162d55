/**
 * The ACPI set-up of the boot loader: finding the ACPI 1.0 and 2.0 Root
 * System Description Pointers in the BIOS area, and, when a replacement
 * DSDT is available, copying the RSDP, RSDT, XSDT and FADT into kernel
 * memory with SSDTs dropped, the DSDT pointers redirected to the
 * replacement, the restart fix applied to the FADT and every checksum
 * recomputed; then registering the tables with the EFI configuration table.
 *
 * Firmware memory is a byte sequence indexed by physical address (bytes
 * beyond it read as 0); kernel memory is a `Heap` of allocated blocks.
 */
module DsdtPatcher {
  import opened Wrappers
  import opened Bytes
  import StringTable
  import FakeEfi

  const ACPI_RANGE_START: nat := 0xE0000
  const ACPI_RANGE_END: nat := 0xFFFFF

  /** "RSD PTR " */
  const RSDP_SIGNATURE: seq<byte> := [0x52, 0x53, 0x44, 0x20, 0x50, 0x54, 0x52, 0x20]
  const SSDT_SIGNATURE: seq<byte> := [0x53, 0x53, 0x44, 0x54]
  const DSDT_SIGNATURE: seq<byte> := [0x44, 0x53, 0x44, 0x54]
  const FACP_SIGNATURE: seq<byte> := [0x46, 0x41, 0x43, 0x50]

  /** The part of the RSDP that ACPI 1.0 defines, and `sizeof(struct acpi_2_rsdp)`. */
  const RSDP_V1_LENGTH: nat := 20
  const RSDP_LENGTH: nat := 36

  // RSDP field offsets
  const RSDP_CHECKSUM: nat := 8
  const RSDP_REVISION: nat := 15
  const RSDP_RSDT_ADDRESS: nat := 16
  const RSDP_LENGTH_FIELD: nat := 20
  const RSDP_XSDT_ADDRESS: nat := 24
  const RSDP_EXT_CHECKSUM: nat := 32

  // System description table header
  const SDT_LENGTH_FIELD: nat := 4
  const SDT_CHECKSUM: nat := 9
  const SDT_HEADER_LENGTH: nat := 36
  const SDT_MAX_LENGTH: nat := 0x10000

  // FADT field offsets
  const FADT_DSDT: nat := 40
  const FADT_PM_PROFILE: nat := 45
  const FADT_FLAGS: nat := 112
  const FADT_RESET_REG: nat := 116
  const FADT_RESET_VALUE: nat := 128
  const FADT_X_DSDT: nat := 140
  const FADT_RESTART_LENGTH: nat := 0x81

  /** The 32-bit all-ones address the patcher treats as "no table". */
  const NO_TABLE32: nat := 0xFFFF_FFFF
  /** The XsdtAddress written when the XSDT is dropped. */
  const NO_TABLE64: nat := 0xFFFF_FFFF_FFFF_FFFF
  const TWO64: nat := 0x1_0000_0000_0000_0000

  /** A pointer stored in a 32-bit field. */
  function U32(a: nat): (r: nat)
    ensures r < TWO32
  {
    a % TWO32
  }

  // ---------------------------------------------------------------------
  // Memory

  /** `n` bytes of firmware memory from address `a`. */
  function Read(mem: seq<byte>, a: nat, n: nat): (r: seq<byte>)
    ensures |r| == n
    ensures forall k :: 0 <= k < n ==> r[k] == ByteAt(mem, a + k)
  {
    if n == 0 then [] else Read(mem, a, n - 1) + [ByteAt(mem, a + n - 1)]
  }

  function Mem32(mem: seq<byte>, a: nat): (r: nat)
    ensures r < TWO32
  {
    LE32(Read(mem, a, 4), 0)
  }

  function Mem64(mem: seq<byte>, a: nat): nat
  {
    LE64(Read(mem, a, 8), 0)
  }

  /** The Length field of the table at `t`. */
  function TableLength(mem: seq<byte>, t: nat): nat
  {
    Mem32(mem, t + SDT_LENGTH_FIELD)
  }

  /** A store of `v` at `off` into a copied block; bytes that would fall past the block are dropped. */
  function Store(b: seq<byte>, off: nat, v: seq<byte>): (r: seq<byte>)
    ensures |r| == |b|
    ensures forall k :: 0 <= k < |b| ==> r[k] == if off <= k < off + |v| then v[k - off] else b[k]
  {
    seq(|b|, k requires 0 <= k < |b| => if off <= k < off + |v| then v[k - off] else b[k])
  }

  /**
   * The checksum fix-up of a copied table: clear byte `idx`, then store the
   * byte complement of the sum of the first `n` bytes there.
   */
  function SetChecksum(b: seq<byte>, idx: nat, n: nat): (r: seq<byte>)
    requires n <= |b|
    ensures |r| == |b|
    ensures forall k :: 0 <= k < |b| && k != idx ==> r[k] == b[k]
    ensures idx < n ==> Checksum8(r[..n]) == 0
  {
    if idx >= |b| then b
    else if idx < n then
      var f := FixChecksum(b[..n], idx);
      assert (f + b[n..])[..n] == f;
      f + b[n..]
    else b[idx := (256 - Checksum8(b[..n])) % 256]
  }

  // ---------------------------------------------------------------------
  // getAddressOfAcpiTable, getAddressOfAcpi20Table

  function Revision(mem: seq<byte>, a: nat): byte
  {
    ByteAt(mem, a + RSDP_REVISION)
  }

  /**
   * An RSDP of the wanted kind at `a`: the signature and a zero sum over
   * the first 20 bytes; for 1.0 Revision 0, for 2.0 a Revision above 0 and
   * a zero sum over the whole 36-byte structure.
   */
  predicate IsRsdpAt(mem: seq<byte>, v2: bool, a: nat)
  {
    Read(mem, a, 8) == RSDP_SIGNATURE && Checksum8(Read(mem, a, RSDP_V1_LENGTH)) == 0 &&
    if v2 then Revision(mem, a) > 0 && Checksum8(Read(mem, a, RSDP_LENGTH)) == 0
    else Revision(mem, a) == 0
  }

  /** The first address from `a` in steps of 16, up to `end`, that satisfies `p`. */
  function FirstAligned(p: nat -> bool, a: nat, end: nat): Option<nat>
    decreases end + 1 - a
  {
    if a > end then None
    else if p(a) then Some(a)
    else FirstAligned(p, a + 16, end)
  }

  /** The aligned search finds the first satisfying address, and none only when there is none. */
  lemma {:induction false} FirstAlignedMeaning(p: nat -> bool, a: nat, end: nat)
    ensures var r := FirstAligned(p, a, end);
            r.Some? ==> a <= r.value <= end && (r.value - a) % 16 == 0 && p(r.value)
    ensures var r := FirstAligned(p, a, end);
            r.Some? ==> forall b :: a <= b < r.value && (b - a) % 16 == 0 ==> !p(b)
    ensures FirstAligned(p, a, end).None? ==> forall b :: a <= b <= end && (b - a) % 16 == 0 ==> !p(b)
    decreases end + 1 - a
  {
    if a <= end && !p(a) {
      var r := FirstAligned(p, a + 16, end);
      assert FirstAligned(p, a, end) == r;
      FirstAlignedMeaning(p, a + 16, end);
      var hi := if r.Some? then r.value else end + 1;
      forall b | a <= b < hi && (b - a) % 16 == 0
        ensures !p(b)
      {
        if b != a {
          assert a + 16 <= b && (b - (a + 16)) % 16 == 0;
        }
      }
      if r.Some? {
        assert (r.value - a) % 16 == 0;
      }
    }
  }

  /** The aligned search stays within its range. */
  lemma {:induction false} FirstAlignedRange(p: nat -> bool, a: nat, end: nat)
    ensures FirstAligned(p, a, end).Some? ==> a <= FirstAligned(p, a, end).value <= end
    decreases end + 1 - a
  {
    if a <= end && !p(a) {
      FirstAlignedRange(p, a + 16, end);
    }
  }

  /** The RSDP test as a predicate on addresses. */
  function RsdpTest(mem: seq<byte>, v2: bool): nat -> bool
  {
    (b: nat) => IsRsdpAt(mem, v2, b)
  }

  /** The first 16-byte aligned RSDP from `a` up to the end of the BIOS area. */
  function FirstRsdp(mem: seq<byte>, v2: bool, a: nat): Option<nat>
  {
    FirstAligned(RsdpTest(mem, v2), a, ACPI_RANGE_END)
  }

  /**
   * The search from `a` finds an RSDP of the wanted kind in 16-byte steps
   * within the BIOS area, with none at an earlier step, and finds none only
   * when there is none.
   */
  lemma FirstRsdpMeaning(mem: seq<byte>, v2: bool, a: nat)
    ensures var r := FirstRsdp(mem, v2, a);
            r.Some? ==> a <= r.value <= ACPI_RANGE_END && (r.value - a) % 16 == 0 && IsRsdpAt(mem, v2, r.value)
    ensures var r := FirstRsdp(mem, v2, a);
            r.Some? ==> forall b :: a <= b < r.value && (b - a) % 16 == 0 ==> !IsRsdpAt(mem, v2, b)
    ensures FirstRsdp(mem, v2, a).None? ==>
              forall b :: a <= b <= ACPI_RANGE_END && (b - a) % 16 == 0 ==> !IsRsdpAt(mem, v2, b)
  {
    var p := RsdpTest(mem, v2);
    FirstAlignedMeaning(p, a, ACPI_RANGE_END);
    assert forall b: nat :: p(b) == IsRsdpAt(mem, v2, b);
  }

  /** `getAddressOfAcpiTable` (v2 false) and `getAddressOfAcpi20Table` (v2 true). */
  method FindRsdp(mem: seq<byte>, v2: bool) returns (r: Option<nat>)
    ensures r == FirstRsdp(mem, v2, ACPI_RANGE_START)
  {
    var a := ACPI_RANGE_START;
    while a <= ACPI_RANGE_END
      invariant ACPI_RANGE_START <= a && FirstRsdp(mem, v2, a) == FirstRsdp(mem, v2, ACPI_RANGE_START)
      decreases ACPI_RANGE_END + 1 - a
    {
      var signed := Read(mem, a, 8) == RSDP_SIGNATURE;
      var csum := Checksum8(Read(mem, a, RSDP_V1_LENGTH));
      var found := if !v2 then signed && csum == 0 && Revision(mem, a) == 0
                   else signed && csum == 0 && Revision(mem, a) > 0 && Checksum8(Read(mem, a, RSDP_LENGTH)) == 0;
      assert found == IsRsdpAt(mem, v2, a);
      if found {
        return Some(a);
      }
      assert FirstRsdp(mem, v2, a) == FirstRsdp(mem, v2, a + 16);
      a := a + 16;
    }
    return None;
  }

  /** The two searches never return the same structure: Revision 0 against Revision above 0. */
  lemma RsdpVersionsDisjoint(mem: seq<byte>)
    ensures FirstRsdp(mem, false, ACPI_RANGE_START).Some? && FirstRsdp(mem, true, ACPI_RANGE_START).Some? ==>
              FirstRsdp(mem, false, ACPI_RANGE_START) != FirstRsdp(mem, true, ACPI_RANGE_START)
  {
    FirstRsdpMeaning(mem, false, ACPI_RANGE_START);
    FirstRsdpMeaning(mem, true, ACPI_RANGE_START);
  }

  // ---------------------------------------------------------------------
  // The FADT copy

  /**
   * The reset register and value the restart fix installs: system I/O
   * space, 8 bits wide at bit 0, byte access, port 0xCF9, then value 6.
   */
  const RESET_FIX: seq<byte> := [0x01, 0x08, 0x00, 0x01, 0xF9, 0x0C, 0, 0, 0, 0, 0, 0, 0x06]

  /** `Flags |= 0x400` on the byte of Flags that holds bit 10. */
  function SetResetSupported(x: byte): (r: byte)
    ensures (r / 4) % 2 == 1
    ensures (x / 4) % 2 == 1 ==> r == x
    ensures (x / 4) % 2 == 0 ==> r == x + 4
  {
    if (x / 4) % 2 == 1 then x else x + 4
  }

  /** Whether the restart fix makes the FADT copy longer than the original. */
  predicate Grown(mem: seq<byte>, t: nat, fix: bool)
  {
    fix && TableLength(mem, t) < FADT_RESTART_LENGTH
  }

  /**
   * The block allocated for the FADT copy: the original's Length bytes, in
   * a 0x81-byte block with Length 0x81 when the restart fix needs the room
   * (kernel memory is taken to be zero past the copied bytes).
   */
  function FadtCopy(mem: seq<byte>, t: nat, fix: bool): (r: seq<byte>)
    ensures |r| == if Grown(mem, t, fix) then FADT_RESTART_LENGTH else TableLength(mem, t)
    ensures Grown(mem, t, fix) ==> LE32(r, SDT_LENGTH_FIELD) == FADT_RESTART_LENGTH
    ensures forall k :: 0 <= k < |r| && !(Grown(mem, t, fix) && SDT_LENGTH_FIELD <= k < SDT_LENGTH_FIELD + 4) ==>
              r[k] == if k < TableLength(mem, t) then ByteAt(mem, t + k) else 0
  {
    var len := TableLength(mem, t);
    if Grown(mem, t, fix) then
      var r := Store(Read(mem, t, len) + Zeros(FADT_RESTART_LENGTH - len), SDT_LENGTH_FIELD, EncLE32(FADT_RESTART_LENGTH));
      assert r[SDT_LENGTH_FIELD..SDT_LENGTH_FIELD + 4] == EncLE32(FADT_RESTART_LENGTH);
      r
    else Read(mem, t, len)
  }

  /** The restart fix: Flags bit 10 (reset register supported) and the reset register itself. */
  function RestartFix(b: seq<byte>): (r: seq<byte>)
    ensures |r| == |b|
    ensures |b| >= FADT_RESTART_LENGTH ==>
              r[FADT_FLAGS + 1] == SetResetSupported(b[FADT_FLAGS + 1]) &&
              r[FADT_RESET_REG..FADT_RESET_VALUE + 1] == RESET_FIX
    ensures forall k :: 0 <= k < |b| && k != FADT_FLAGS + 1 && !(FADT_RESET_REG <= k <= FADT_RESET_VALUE) ==>
              r[k] == b[k]
  {
    var r := Store(Store(b, FADT_FLAGS + 1, [SetResetSupported(ByteAt(b, FADT_FLAGS + 1))]), FADT_RESET_REG, RESET_FIX);
    assert |b| >= FADT_RESTART_LENGTH ==> r[FADT_RESET_REG..FADT_RESET_VALUE + 1] == RESET_FIX;
    r
  }

  /** DSDT, and X_DSDT when its 8 bytes lie within the table, pointed at `dsdt`. */
  function PointAtDsdt(b: seq<byte>, dsdt: nat): (r: seq<byte>)
    requires dsdt < TWO32
    ensures |r| == |b|
    ensures |b| >= FADT_DSDT + 4 ==> r[FADT_DSDT..FADT_DSDT + 4] == EncLE32(dsdt)
    ensures |b| >= FADT_X_DSDT + 8 ==> r[FADT_X_DSDT..FADT_X_DSDT + 8] == EncLE64(dsdt)
    ensures forall k :: 0 <= k < |b| && !(FADT_DSDT <= k < FADT_DSDT + 4) &&
                        !(|b| >= FADT_X_DSDT + 8 && FADT_X_DSDT <= k < FADT_X_DSDT + 8) ==>
              r[k] == b[k]
  {
    var b1 := Store(b, FADT_DSDT, EncLE32(dsdt));
    assert |b| >= FADT_DSDT + 4 ==> b1[FADT_DSDT..FADT_DSDT + 4] == EncLE32(dsdt);
    if |b| >= FADT_X_DSDT + 8 then
      var r := Store(b1, FADT_X_DSDT, EncLE64(dsdt));
      assert r[FADT_X_DSDT..FADT_X_DSDT + 8] == EncLE64(dsdt);
      assert r[FADT_DSDT..FADT_DSDT + 4] == b1[FADT_DSDT..FADT_DSDT + 4];
      r
    else b1
  }

  /**
   * The edits to the FADT copy `b`: the restart fix, the DSDT pointers,
   * PM_Profile when one is given (the XSDT's FADT), and the checksum.
   */
  function PatchFadt(b: seq<byte>, fix: bool, dsdt: nat, profile: Option<byte>): (r: seq<byte>)
    requires dsdt < TWO32
    ensures |r| == |b|
  {
    var b1 := if fix then RestartFix(b) else b;
    var b2 := PointAtDsdt(b1, dsdt);
    var b3 := if profile.Some? then Store(b2, FADT_PM_PROFILE, [profile.value]) else b2;
    SetChecksum(b3, SDT_CHECKSUM, |b3|)
  }

  /** The patched FADT sums to 0, and only the edited fields differ from the copy. */
  lemma PatchFadtSum(b: seq<byte>, fix: bool, dsdt: nat, profile: Option<byte>)
    requires dsdt < TWO32
    ensures |b| > SDT_CHECKSUM ==> Checksum8(PatchFadt(b, fix, dsdt, profile)) == 0
    ensures forall k :: 0 <= k < |b| && k != SDT_CHECKSUM && !(FADT_DSDT <= k < FADT_DSDT + 4) &&
                        !(profile.Some? && k == FADT_PM_PROFILE) &&
                        !(fix && (k == FADT_FLAGS + 1 || FADT_RESET_REG <= k <= FADT_RESET_VALUE)) &&
                        !(|b| >= FADT_X_DSDT + 8 && FADT_X_DSDT <= k < FADT_X_DSDT + 8) ==>
              PatchFadt(b, fix, dsdt, profile)[k] == b[k]
  {
    var b1 := if fix then RestartFix(b) else b;
    var b2 := PointAtDsdt(b1, dsdt);
    var b3 := if profile.Some? then Store(b2, FADT_PM_PROFILE, [profile.value]) else b2;
    var r := SetChecksum(b3, SDT_CHECKSUM, |b3|);
    assert r == PatchFadt(b, fix, dsdt, profile);
    assert r[..|b3|] == r;
  }

  /** The FADT edits before the checksum. */
  function FadtEdits(b: seq<byte>, fix: bool, dsdt: nat, profile: Option<byte>): (r: seq<byte>)
    requires dsdt < TWO32
    ensures |r| == |b|
    ensures SetChecksum(r, SDT_CHECKSUM, |r|) == PatchFadt(b, fix, dsdt, profile)
  {
    var b1 := if fix then RestartFix(b) else b;
    var b2 := PointAtDsdt(b1, dsdt);
    if profile.Some? then Store(b2, FADT_PM_PROFILE, [profile.value]) else b2
  }

  /** Away from the checksum and PM_Profile, the patched FADT is the repointed copy. */
  lemma PatchFadtRepointed(b: seq<byte>, fix: bool, dsdt: nat, profile: Option<byte>)
    requires dsdt < TWO32
    ensures var p := PointAtDsdt(if fix then RestartFix(b) else b, dsdt);
      forall k :: 0 <= k < |b| && k != SDT_CHECKSUM && k != FADT_PM_PROFILE ==> PatchFadt(b, fix, dsdt, profile)[k] == p[k]
  {
    var b3 := FadtEdits(b, fix, dsdt, profile);
    assert PatchFadt(b, fix, dsdt, profile) == SetChecksum(b3, SDT_CHECKSUM, |b3|);
  }

  /** The DSDT field of the patched FADT points at the new DSDT. */
  lemma PatchFadtPointers(b: seq<byte>, fix: bool, dsdt: nat, profile: Option<byte>)
    requires dsdt < TWO32
    ensures |b| >= FADT_DSDT + 4 ==> LE32(PatchFadt(b, fix, dsdt, profile), FADT_DSDT) == dsdt
  {
    if |b| >= FADT_DSDT + 4 {
      var p := PointAtDsdt(if fix then RestartFix(b) else b, dsdt);
      var r := PatchFadt(b, fix, dsdt, profile);
      assert r[FADT_DSDT..FADT_DSDT + 4] == p[FADT_DSDT..FADT_DSDT + 4] by {
        PatchFadtRepointed(b, fix, dsdt, profile);
      }
      LE32Slice(r, FADT_DSDT);
    }
  }

  /** The X_DSDT field, when the FADT is long enough to have one, points at the new DSDT too. */
  lemma PatchFadtXPointer(b: seq<byte>, fix: bool, dsdt: nat, profile: Option<byte>)
    requires dsdt < TWO32
    ensures |b| >= FADT_X_DSDT + 8 ==> LE64(PatchFadt(b, fix, dsdt, profile), FADT_X_DSDT) == dsdt
  {
    if |b| >= FADT_X_DSDT + 8 {
      var p := PointAtDsdt(if fix then RestartFix(b) else b, dsdt);
      var r := PatchFadt(b, fix, dsdt, profile);
      var x := r[FADT_X_DSDT..FADT_X_DSDT + 8];
      assert x == p[FADT_X_DSDT..FADT_X_DSDT + 8] by {
        PatchFadtRepointed(b, fix, dsdt, profile);
        assert forall k :: 0 <= k < 8 ==> x[k] == r[FADT_X_DSDT + k] == p[FADT_X_DSDT + k];
      }
      assert x == EncLE64(dsdt);
      LE64Slice(r, FADT_X_DSDT);
    }
  }

  /** PM_Profile of the patched FADT is the given profile. */
  lemma PatchFadtProfile(b: seq<byte>, fix: bool, dsdt: nat, p: byte)
    requires dsdt < TWO32 && |b| > FADT_PM_PROFILE
    ensures PatchFadt(b, fix, dsdt, Some(p))[FADT_PM_PROFILE] == p
  {
    var b3 := FadtEdits(b, fix, dsdt, Some(p));
    assert b3[FADT_PM_PROFILE] == p;
  }

  /** With the restart fix on, the patched FADT (at least 0x81 bytes) supports and describes the reset register. */
  lemma PatchFadtRestart(b: seq<byte>, dsdt: nat, profile: Option<byte>)
    requires dsdt < TWO32 && |b| >= FADT_RESTART_LENGTH
    ensures PatchFadt(b, true, dsdt, profile)[FADT_FLAGS + 1] == SetResetSupported(b[FADT_FLAGS + 1])
    ensures PatchFadt(b, true, dsdt, profile)[FADT_RESET_REG..FADT_RESET_VALUE + 1] == RESET_FIX
  {
    var b1 := RestartFix(b);
    var b2 := PointAtDsdt(b1, dsdt);
    var b3 := if profile.Some? then Store(b2, FADT_PM_PROFILE, [profile.value]) else b2;
    var r := SetChecksum(b3, SDT_CHECKSUM, |b3|);
    assert r == PatchFadt(b, true, dsdt, profile);
    assert r[FADT_RESET_REG..FADT_RESET_VALUE + 1] == b1[FADT_RESET_REG..FADT_RESET_VALUE + 1];
  }
  // ---------------------------------------------------------------------
  // Kernel memory

  /** Kernel memory: the allocation cursor of `AllocateKernelMemory` and the blocks handed out, by address. */
  datatype Heap = Heap(top: nat, blocks: map<nat, seq<byte>>)

  /** A new block at the cursor holding `bytes`. */
  function Allocate(h: Heap, bytes: seq<byte>): (r: Heap)
    ensures r.top == h.top + |bytes| && r.blocks == h.blocks[h.top := bytes]
  {
    Heap(h.top + |bytes|, h.blocks[h.top := bytes])
  }

  /** The block at `a` rewritten. */
  function Put(h: Heap, a: nat, bytes: seq<byte>): (r: Heap)
    ensures r.top == h.top && r.blocks == h.blocks[a := bytes]
  {
    h.(blocks := h.blocks[a := bytes])
  }

  // ---------------------------------------------------------------------
  // The RSDT and XSDT entry walk

  /** What an RSDT or XSDT entry points at, by signature. */
  datatype Kind = Ssdt | Dsdt | Facp | OtherTable

  function KindAt(mem: seq<byte>, t: nat): Kind
  {
    var sig := Read(mem, t, 4);
    if sig == SSDT_SIGNATURE then Ssdt
    else if sig == DSDT_SIGNATURE then Dsdt
    else if sig == FACP_SIGNATURE then Facp
    else OtherTable
  }

  /**
   * The walk over one table's entries: firmware memory, whether SSDTs are
   * dropped, whether the restart fix is on, the new DSDT's address, the
   * PM_Profile to store (XSDT only) and whether entries are 64-bit (XSDT).
   */
  datatype Ctx = Ctx(mem: seq<byte>, dropSsdt: bool, fixRestart: bool, dsdt: nat, profile: Option<byte>, wide: bool)

  /** The patched copy of the FADT at `t`. */
  function FadtBlock(c: Ctx, t: nat): seq<byte>
  {
    PatchFadt(FadtCopy(c.mem, t, c.fixRestart), c.fixRestart, U32(c.dsdt), c.profile)
  }

  /** An FADT entry the patcher refuses: all-ones or above (4 GiB for the XSDT), or longer than 0x10000 bytes. */
  predicate FadtUnusable(c: Ctx, e: nat)
  {
    e >= NO_TABLE32 || TableLength(c.mem, e % TWO32) > SDT_MAX_LENGTH
  }

  /**
   * The state of the in-place walk: the entry array, the number of entries
   * dropped so far (`dropoffset`), kernel memory, and whether the walk is
   * still going (an unusable FADT abandons the XSDT).
   */
  datatype Walk = Walk(slots: seq<nat>, dropped: nat, heap: Heap, ok: bool)

  /**
   * One round of the entry loop at index `i`. With `keepNull` false this is
   * the loop as written, which skips a null entry before copying it down;
   * with `keepNull` true the null entry is copied down like any other.
   */
  function EntryStep(c: Ctx, w: Walk, i: nat, keepNull: bool): (r: Walk)
    requires w.dropped <= i < |w.slots|
    ensures |r.slots| == |w.slots| && w.dropped <= r.dropped <= w.dropped + 1
  {
    if !w.ok then w
    else
      var e := w.slots[i];
      var t := e % TWO32;
      var j := i - w.dropped;
      if t == 0 then (if keepNull then w.(slots := w.slots[j := e]) else w)
      else
        var kind := KindAt(c.mem, t);
        if c.dropSsdt && kind == Ssdt then w.(slots := w.slots[j := e], dropped := w.dropped + 1)
        else if kind == Dsdt then w.(slots := w.slots[j := U32(c.dsdt)])
        else if kind == Facp && FadtUnusable(c, e) then
          (if c.wide then w.(slots := w.slots[j := e], ok := false) else w.(slots := w.slots[j := e]))
        else if kind == Facp then
          w.(slots := w.slots[j := U32(w.heap.top)], heap := Allocate(w.heap, FadtBlock(c, t)))
        else w.(slots := w.slots[j := e])
  }

  /** A round writes at most the slot `i - dropped`. */
  lemma EntryStepFrame(c: Ctx, w: Walk, i: nat, keepNull: bool)
    requires w.dropped <= i < |w.slots|
    ensures forall k :: 0 <= k < |w.slots| && k != i - w.dropped ==> EntryStep(c, w, i, keepNull).slots[k] == w.slots[k]
  {
  }

  /** The walk after the first `n` rounds over `entries`, starting with kernel memory `h`. */
  function Walked(c: Ctx, entries: seq<nat>, h: Heap, n: nat, keepNull: bool): (r: Walk)
    requires n <= |entries|
    ensures |r.slots| == |entries| && r.dropped <= n
  {
    if n == 0 then Walk(entries, 0, h, true)
    else EntryStep(c, Walked(c, entries, h, n - 1, keepNull), n - 1, keepNull)
  }

  /** After `n` rounds the slots from `n` on are still the original entries. */
  lemma {:induction false} WalkedTail(c: Ctx, entries: seq<nat>, h: Heap, n: nat, keepNull: bool)
    requires n <= |entries|
    ensures Walked(c, entries, h, n, keepNull).slots[n..] == entries[n..]
  {
    if n > 0 {
      var w := Walked(c, entries, h, n - 1, keepNull);
      WalkedTail(c, entries, h, n - 1, keepNull);
      EntryStepFrame(c, w, n - 1, keepNull);
      var r := Walked(c, entries, h, n, keepNull);
      assert r.slots[n..] == w.slots[n..];
      assert w.slots[n..] == w.slots[n - 1..][1..];
    }
  }

  /**
   * The reference definition of the rewritten entry list: in order, SSDTs
   * left out when dropping, DSDTs replaced by the new DSDT, usable FADTs by
   * their patched copies, everything else kept; `false` when an unusable
   * FADT abandons an XSDT.
   */
  function Rewrite(c: Ctx, es: seq<nat>, h: Heap): (seq<nat>, Heap, bool)
  {
    if es == [] then ([], h, true)
    else
      var (l, h1, ok) := Rewrite(c, es[..|es| - 1], h);
      if !ok then (l, h1, false) else Fate(c, es[|es| - 1], l, h1)
  }

  /** What becomes of one entry `e`, appended to the list `l` built so far. */
  function Fate(c: Ctx, e: nat, l: seq<nat>, h: Heap): (seq<nat>, Heap, bool)
  {
    var t := e % TWO32;
    if t == 0 then (l + [e], h, true)
    else
      var kind := KindAt(c.mem, t);
      if c.dropSsdt && kind == Ssdt then (l, h, true)
      else if kind == Dsdt then (l + [U32(c.dsdt)], h, true)
      else if kind == Facp && FadtUnusable(c, e) then (if c.wide then (l, h, false) else (l + [e], h, true))
      else if kind == Facp then (l + [U32(h.top)], Allocate(h, FadtBlock(c, t)), true)
      else (l + [e], h, true)
  }

  /**
   * The in-place walk (with null entries copied down) realises the
   * reference list: after `n` rounds the first `n - dropoffset` slots hold
   * the rewritten list of the first `n` entries, and kernel memory agrees.
   */
  lemma {:induction false} WalkRealisesRewrite(c: Ctx, entries: seq<nat>, h: Heap, n: nat)
    requires n <= |entries|
    ensures var w := Walked(c, entries, h, n, true);
            var (l, h1, ok) := Rewrite(c, entries[..n], h);
            w.ok == ok && w.heap == h1 && (ok ==> |l| + w.dropped == n && w.slots[..|l|] == l)
  {
    if n > 0 {
      WalkRealisesRewrite(c, entries, h, n - 1);
      assert entries[..n][..n - 1] == entries[..n - 1];
      var w := Walked(c, entries, h, n - 1, true);
      WalkedTail(c, entries, h, n - 1, true);
      assert w.slots[n - 1] == entries[n - 1] by { assert w.slots[n - 1..][0] == entries[n - 1..][0]; }
      var (l, h1, ok) := Rewrite(c, entries[..n - 1], h);
      assert Walked(c, entries, h, n, true) == EntryStep(c, w, n - 1, true);
      assert Rewrite(c, entries[..n], h) == if !ok then (l, h1, false) else Fate(c, entries[n - 1], l, h1);
      if ok {
        StepRealisesFate(c, w, n - 1, l);
      }
    }
  }

  /** One round of the walk appends to the live prefix exactly what `Fate` appends to the list. */
  lemma StepRealisesFate(c: Ctx, w: Walk, i: nat, l: seq<nat>)
    requires w.ok && w.dropped <= i < |w.slots| && |l| + w.dropped == i && w.slots[..|l|] == l
    ensures var w' := EntryStep(c, w, i, true);
            var (l', h', ok') := Fate(c, w.slots[i], l, w.heap);
            w'.ok == ok' && w'.heap == h' && (ok' ==> |l'| + w'.dropped == i + 1 && w'.slots[..|l'|] == l')
  {
    var w' := EntryStep(c, w, i, true);
    var (l', h', ok') := Fate(c, w.slots[i], l, w.heap);
    EntryStepFrame(c, w, i, true);
    if |l'| == |l| + 1 {
      assert forall k :: 0 <= k < |l| ==> w'.slots[k] == w.slots[k];
      assert w'.slots[..|l'|] == w'.slots[..|l|] + [w'.slots[|l|]];
    } else {
      assert forall k :: 0 <= k < |l| ==> w'.slots[k] == w.slots[k];
    }
  }
  /** Firmware memory with an SSDT at address 4 and an APIC table at address 8. */
  const SAMPLE_MEM: seq<byte> := [0, 0, 0, 0, 0x53, 0x53, 0x44, 0x54, 0x41, 0x50, 0x49, 0x43]

  /**
   * The loop as written, on the entries [SSDT, other table, null] with
   * SSDTs dropped: one entry is dropped, so the shortened table keeps two
   * slots, and they hold the other table's pointer twice while the null
   * entry is lost. With the null entry copied down, the two slots are
   * [other, null].
   */
  lemma NullAfterDropAsWritten(c: Ctx, s: nat, o: nat, h: Heap)
    requires c.dropSsdt && 0 < s < TWO32 && 0 < o < TWO32
    requires KindAt(c.mem, s) == Ssdt && KindAt(c.mem, o) == OtherTable
    ensures Walked(c, [s, o, 0], h, 3, false).dropped == 1
    ensures Walked(c, [s, o, 0], h, 3, false).slots[..2] == [o, o]
    ensures Walked(c, [s, o, 0], h, 3, true).slots[..2] == [o, 0]
  {
    var es: seq<nat> := [s, o, 0];
    var w2 := Walk([o, o, 0], 1, h, true);
    FirstTwoRounds(c, s, o, h, false);
    FirstTwoRounds(c, s, o, h, true);
    assert Walked(c, es, h, 3, false) == EntryStep(c, w2, 2, false);
    assert Walked(c, es, h, 3, true) == EntryStep(c, w2, 2, true);
    assert w2.slots[2] == 0 && 0 % TWO32 == 0;
    assert EntryStep(c, w2, 2, false) == w2;
    assert EntryStep(c, w2, 2, true).slots == [o, 0, 0];
    assert [o, o, 0][..2] == [o, o] && [o, 0, 0][..2] == [o, 0];
  }

  /** The first two rounds over [SSDT, other, null]: the SSDT is dropped and the other table moves down. */
  lemma FirstTwoRounds(c: Ctx, s: nat, o: nat, h: Heap, keepNull: bool)
    requires c.dropSsdt && 0 < s < TWO32 && 0 < o < TWO32
    requires KindAt(c.mem, s) == Ssdt && KindAt(c.mem, o) == OtherTable
    ensures Walked(c, [s, o, 0], h, 2, keepNull) == Walk([o, o, 0], 1, h, true)
  {
    var es: seq<nat> := [s, o, 0];
    var w0 := Walk(es, 0, h, true);
    var w1 := Walk(es, 1, h, true);
    assert Walked(c, es, h, 0, keepNull) == w0;
    assert s % TWO32 == s && o % TWO32 == o;
    assert EntryStep(c, w0, 0, keepNull) == w1 by {
      assert w0.slots[0 := s] == es;
    }
    assert Walked(c, es, h, 1, keepNull) == w1;
    assert EntryStep(c, w1, 1, keepNull) == Walk([o, o, 0], 1, h, true) by {
      assert w1.slots[1] == o && es[0 := o] == [o, o, 0];
    }
  }

  /** The sample memory meets the conditions of the counterexample with the SSDT at 4 and the APIC table at 8. */
  lemma SampleKinds()
    ensures KindAt(SAMPLE_MEM, 4) == Ssdt && KindAt(SAMPLE_MEM, 8) == OtherTable
  {
    var r := Read(SAMPLE_MEM, 4, 4);
    assert r[0] == 0x53 && r[1] == 0x53 && r[2] == 0x44 && r[3] == 0x54;
    assert r == SSDT_SIGNATURE;
    var r8 := Read(SAMPLE_MEM, 8, 4);
    assert r8[0] == 0x41;
  }
  // ---------------------------------------------------------------------
  // The entry arrays of the RSDT (32-bit) and XSDT (64-bit)

  /** The limit of an entry value: 2^32 for the RSDT, 2^64 for the XSDT. */
  function Limit(wide: bool): nat
  {
    if wide then TWO64 else TWO32
  }

  /** The size of one entry. */
  function EntrySize(wide: bool): nat
  {
    if wide then 8 else 4
  }

  /** The size of `k` entries. */
  function Span(wide: bool, k: nat): nat
  {
    if wide then 8 * k else 4 * k
  }

  /** The offset of entry `k`, after the 36-byte header. */
  function SlotOffset(wide: bool, k: nat): nat
  {
    SDT_HEADER_LENGTH + Span(wide, k)
  }

  /** The number of entries a table of `len` bytes holds (none when it is shorter than its header). */
  function EntryCount(len: nat, wide: bool): (n: nat)
    ensures len >= SDT_HEADER_LENGTH ==> SlotOffset(wide, n) <= len
    ensures len < SDT_HEADER_LENGTH ==> n == 0
  {
    if len < SDT_HEADER_LENGTH then 0
    else if wide then (len - SDT_HEADER_LENGTH) / 8
    else (len - SDT_HEADER_LENGTH) / 4
  }

  /** The value of an entry's little-endian bytes. */
  function DecodeEntry(wide: bool, e: seq<byte>): (r: nat)
    requires |e| == EntrySize(wide)
    ensures r < Limit(wide)
  {
    if wide then
      assert LE32(e, 0) + TWO32 * LE32(e, 4) < TWO64;
      LE64(e, 0)
    else LE32(e, 0)
  }

  /** The little-endian bytes of an entry value. */
  function EncodeEntry(wide: bool, x: nat): (r: seq<byte>)
    ensures |r| == EntrySize(wide)
    ensures x < Limit(wide) ==> DecodeEntry(wide, r) == x
  {
    if wide then EncLE64(x % TWO64) else EncLE32(x % TWO32)
  }

  /** Entry `k` of a table. */
  function EntryAt(b: seq<byte>, wide: bool, k: nat): (r: nat)
    requires SlotOffset(wide, k + 1) <= |b|
    ensures r < Limit(wide)
  {
    DecodeEntry(wide, b[SlotOffset(wide, k)..SlotOffset(wide, k) + EntrySize(wide)])
  }

  /** The first `n` entries of a table. */
  function Entries(b: seq<byte>, wide: bool, n: nat): (r: seq<nat>)
    requires n == 0 || SlotOffset(wide, n) <= |b|
    ensures |r| == n
    ensures forall k :: 0 <= k < n ==> r[k] == EntryAt(b, wide, k)
  {
    if n == 0 then [] else Entries(b, wide, n - 1) + [EntryAt(b, wide, n - 1)]
  }

  /** The concatenation of `parts`. */
  function Join(parts: seq<seq<byte>>): seq<byte>
  {
    if parts == [] then [] else Join(parts[..|parts| - 1]) + parts[|parts| - 1]
  }

  /** Every part is one entry long. */
  predicate Uniform(wide: bool, parts: seq<seq<byte>>)
  {
    forall i :: 0 <= i < |parts| ==> |parts[i]| == EntrySize(wide)
  }

  /** The entry encodings of `slots`, one part each. */
  function Encodings(wide: bool, slots: seq<nat>): (r: seq<seq<byte>>)
    ensures |r| == |slots| && Uniform(wide, r)
    ensures forall i :: 0 <= i < |slots| ==> r[i] == EncodeEntry(wide, slots[i])
  {
    seq(|slots|, i requires 0 <= i < |slots| => EncodeEntry(wide, slots[i]))
  }

  /** The bytes of an entry array holding `slots`. */
  function Flat(wide: bool, slots: seq<nat>): (r: seq<byte>)
    ensures |r| == Span(wide, |slots|)
  {
    JoinLength(wide, Encodings(wide, slots));
    Join(Encodings(wide, slots))
  }

  /** The table `b` with `slots` written over its first entries. */
  function Encode(b: seq<byte>, wide: bool, slots: seq<nat>): (r: seq<byte>)
    requires SlotOffset(wide, |slots|) <= |b|
    ensures |r| == |b|
    ensures r[..SDT_HEADER_LENGTH] == b[..SDT_HEADER_LENGTH]
  {
    b[..SDT_HEADER_LENGTH] + Flat(wide, slots) + b[SlotOffset(wide, |slots|)..]
  }

  /** Every value below the entry limit. */
  predicate Fits(wide: bool, xs: seq<nat>)
  {
    forall k :: 0 <= k < |xs| ==> xs[k] < Limit(wide)
  }

  /** A slice within the left part of a concatenation. */
  lemma SliceLeft(x: seq<byte>, y: seq<byte>, lo: nat, hi: nat)
    requires lo <= hi <= |x|
    ensures (x + y)[lo..hi] == x[lo..hi]
  {
  }

  /** A slice within the right part of a concatenation. */
  lemma SliceRight(x: seq<byte>, y: seq<byte>, lo: nat, hi: nat)
    requires |x| <= lo <= hi <= |x| + |y|
    ensures (x + y)[lo..hi] == y[lo - |x|..hi - |x|]
  {
  }

  /** Parts of one entry each join to one entry per part. */
  lemma {:induction false} JoinLength(wide: bool, parts: seq<seq<byte>>)
    requires Uniform(wide, parts)
    ensures |Join(parts)| == Span(wide, |parts|)
  {
    if parts != [] {
      JoinLength(wide, parts[..|parts| - 1]);
    }
  }

  /** Part `k` sits at entry `k` of the joined parts. */
  lemma {:induction false} JoinSlice(wide: bool, parts: seq<seq<byte>>, k: nat)
    requires Uniform(wide, parts) && k < |parts|
    ensures |Join(parts)| == Span(wide, |parts|)
    ensures Join(parts)[Span(wide, k)..Span(wide, k) + EntrySize(wide)] == parts[k]
  {
    var n := |parts|;
    var init := parts[..n - 1];
    var last := parts[n - 1];
    var pre := Join(init);
    assert Join(parts) == pre + last;
    JoinLength(wide, init);
    JoinLength(wide, parts);
    var lo := Span(wide, k);
    var hi := lo + EntrySize(wide);
    if k < n - 1 {
      JoinSlice(wide, init, k);
      SliceLeft(pre, last, lo, hi);
    } else {
      SliceRight(pre, last, lo, hi);
      assert last[0..hi - lo] == last;
    }
  }

  /** Entry `k` of the flattened array is the encoding of slot `k`. */
  lemma FlatSlice(wide: bool, slots: seq<nat>, k: nat)
    requires k < |slots|
    ensures Flat(wide, slots)[Span(wide, k)..Span(wide, k) + EntrySize(wide)] == EncodeEntry(wide, slots[k])
  {
    JoinSlice(wide, Encodings(wide, slots), k);
  }

  /** The bytes of entry `k` of the encoded table are the encoding of slot `k`. */
  lemma EncodeSlice(b: seq<byte>, wide: bool, slots: seq<nat>, k: nat)
    requires SlotOffset(wide, |slots|) <= |b| && k < |slots|
    ensures Encode(b, wide, slots)[SlotOffset(wide, k)..SlotOffset(wide, k) + EntrySize(wide)] == EncodeEntry(wide, slots[k])
  {
    var f := Flat(wide, slots);
    var h := b[..SDT_HEADER_LENGTH];
    var t := b[SlotOffset(wide, |slots|)..];
    assert Encode(b, wide, slots) == (h + f) + t;
    FlatSlice(wide, slots, k);
    var lo := SDT_HEADER_LENGTH + Span(wide, k);
    var hi := lo + EntrySize(wide);
    assert hi <= |h + f|;
    SliceLeft(h + f, t, lo, hi);
    SliceRight(h, f, lo, hi);
  }

  /** Entry `k` of the encoded table reads back as slot `k`. */
  lemma EncodeEntryAt(b: seq<byte>, wide: bool, slots: seq<nat>, k: nat)
    requires SlotOffset(wide, |slots|) <= |b| && k < |slots| && slots[k] < Limit(wide)
    ensures EntryAt(Encode(b, wide, slots), wide, k) == slots[k]
  {
    EncodeSlice(b, wide, slots, k);
  }

  /** Reading the first `m` entries back after `Encode` gives the first `m` slots. */
  lemma EncodeReadsBack(b: seq<byte>, wide: bool, slots: seq<nat>, m: nat)
    requires SlotOffset(wide, |slots|) <= |b| && m <= |slots| && Fits(wide, slots)
    ensures Entries(Encode(b, wide, slots), wide, m) == slots[..m]
  {
    var es := Entries(Encode(b, wide, slots), wide, m);
    forall k | 0 <= k < m
      ensures es[k] == slots[k]
    {
      EncodeEntryAt(b, wide, slots, k);
    }
  }

  /** Entries read back from bytes that agree beyond the header are the same. */
  lemma EntriesBeyondHeader(b: seq<byte>, b': seq<byte>, wide: bool, m: nat)
    requires SlotOffset(wide, m) <= |b| == |b'|
    requires forall k :: SDT_HEADER_LENGTH <= k < |b| ==> b[k] == b'[k]
    ensures Entries(b, wide, m) == Entries(b', wide, m)
  {
    var x := Entries(b, wide, m);
    var y := Entries(b', wide, m);
    forall k | 0 <= k < m
      ensures x[k] == y[k]
    {
      var lo := SlotOffset(wide, k);
      assert b[lo..lo + EntrySize(wide)] == b'[lo..lo + EntrySize(wide)];
    }
  }

  /** Every slot of the walk stays below the entry limit. */
  lemma {:induction false} WalkedFits(c: Ctx, entries: seq<nat>, h: Heap, n: nat, keepNull: bool)
    requires n <= |entries| && Fits(c.wide, entries)
    ensures Fits(c.wide, Walked(c, entries, h, n, keepNull).slots)
  {
    if n > 0 {
      WalkedFits(c, entries, h, n - 1, keepNull);
    }
  }

  // ---------------------------------------------------------------------
  // The RSDT and XSDT copies

  /** A table at `addr` the patcher copies: non-null, below 0xFFFFFFFF and shorter than 0x10000 bytes. */
  predicate SdtUsable(mem: seq<byte>, addr: nat)
  {
    addr % TWO32 != 0 && addr < NO_TABLE32 && TableLength(mem, addr % TWO32) < SDT_MAX_LENGTH
  }

  /** The copied table with `slots` written over its entry array (a table shorter than its header has none). */
  function Rewritten(copy: seq<byte>, wide: bool, slots: seq<nat>): (r: seq<byte>)
    requires |slots| == EntryCount(|copy|, wide)
    ensures |r| == |copy|
  {
    if |copy| < SDT_HEADER_LENGTH then copy else Encode(copy, wide, slots)
  }

  /** The Length of the copy once `dropped` entries are gone. */
  function ShortLength(len: nat, wide: bool, dropped: nat): (r: nat)
    requires dropped <= EntryCount(len, wide)
    ensures r <= len
    ensures len >= SDT_HEADER_LENGTH ==> r >= SDT_HEADER_LENGTH
  {
    len - Span(wide, dropped)
  }

  /**
   * The copied table once the walk is over: the entry array rewritten,
   * Length lowered by the dropped entries and the checksum recomputed over
   * the new Length.
   */
  function PatchedSdt(copy: seq<byte>, wide: bool, slots: seq<nat>, dropped: nat): (r: seq<byte>)
    requires |copy| < TWO32 && |slots| == EntryCount(|copy|, wide) && dropped <= |slots|
    ensures |r| == |copy|
  {
    var newLen := ShortLength(|copy|, wide, dropped);
    var b := Store(Rewritten(copy, wide, slots), SDT_LENGTH_FIELD, EncLE32(newLen));
    SetChecksum(b, SDT_CHECKSUM, newLen)
  }

  /** The walk over the entries of a copied table, which sits at the start of `h`'s new block. */
  function SdtWalk(c: Ctx, copy: seq<byte>, h: Heap): (r: Walk)
    ensures |r.slots| == EntryCount(|copy|, c.wide)
    ensures r.dropped <= |r.slots|
  {
    var n := EntryCount(|copy|, c.wide);
    Walked(c, Entries(copy, c.wide, n), h, n, true)
  }

  /** The bytes of the table at `addr`, as far as its Length reaches. */
  function SdtCopy(mem: seq<byte>, addr: nat): (r: seq<byte>)
    ensures |r| == TableLength(mem, addr % TWO32)
    ensures forall k :: 0 <= k < |r| ==> r[k] == ByteAt(mem, addr % TWO32 + k)
  {
    Read(mem, addr % TWO32, TableLength(mem, addr % TWO32))
  }

  /**
   * The RSDT (`c.wide` false) or XSDT (`c.wide` true) at `addr`: copied to
   * a new block of kernel memory, its entries walked, and the copy patched.
   * The second component is the copy's address; none when the table is not
   * usable or an unusable FADT abandons the XSDT (whose copy then stays as
   * the walk left it).
   */
  function SdtPatch(c: Ctx, addr: nat, h: Heap): (r: (Heap, Option<nat>))
  {
    if !SdtUsable(c.mem, addr) then (h, None)
    else
      var copy := SdtCopy(c.mem, addr);
      var w := SdtWalk(c, copy, Allocate(h, copy));
      (Put(w.heap, h.top, SdtBlock(copy, c.wide, w)), if w.ok then Some(h.top) else None)
  }

  /** The table's block after the walk: patched when the walk went through, as the walk left it otherwise. */
  function SdtBlock(copy: seq<byte>, wide: bool, w: Walk): (r: seq<byte>)
    requires |copy| < TWO32 && |w.slots| == EntryCount(|copy|, wide) && w.dropped <= |w.slots|
    ensures |r| == |copy|
  {
    if w.ok then PatchedSdt(copy, wide, w.slots, w.dropped) else Rewritten(copy, wide, w.slots)
  }

  /** Dropping `d` entries leaves `d` fewer entries in the shortened table. */
  lemma EntryCountAfterDrop(len: nat, wide: bool, d: nat)
    requires len >= SDT_HEADER_LENGTH && d <= EntryCount(len, wide)
    ensures EntryCount(ShortLength(len, wide, d), wide) == EntryCount(len, wide) - d
  {
    var m := len - SDT_HEADER_LENGTH;
    if wide {
      assert (m - 8 * d) / 8 == m / 8 - d;
    } else {
      assert (m - 4 * d) / 4 == m / 4 - d;
    }
  }

  /** The patched table's Length field holds the shortened length. */
  lemma PatchedSdtLength(copy: seq<byte>, wide: bool, slots: seq<nat>, dropped: nat)
    requires |copy| < TWO32 && |slots| == EntryCount(|copy|, wide) && dropped <= |slots|
    requires |copy| >= SDT_LENGTH_FIELD + 4
    ensures LE32(PatchedSdt(copy, wide, slots, dropped), SDT_LENGTH_FIELD) == ShortLength(|copy|, wide, dropped)
  {
    var newLen := ShortLength(|copy|, wide, dropped);
    var stored := Store(Rewritten(copy, wide, slots), SDT_LENGTH_FIELD, EncLE32(newLen));
    var b := SetChecksum(stored, SDT_CHECKSUM, newLen);
    assert b == PatchedSdt(copy, wide, slots, dropped);
    assert b[SDT_LENGTH_FIELD..SDT_LENGTH_FIELD + 4] == EncLE32(newLen);
    LE32Slice(b, SDT_LENGTH_FIELD);
  }

  /** The patched table sums to 0 over its shortened length. */
  lemma PatchedSdtSum(copy: seq<byte>, wide: bool, slots: seq<nat>, dropped: nat)
    requires |copy| < TWO32 && |slots| == EntryCount(|copy|, wide) && dropped <= |slots|
    ensures var newLen := ShortLength(|copy|, wide, dropped);
            newLen > SDT_CHECKSUM ==> Checksum8(PatchedSdt(copy, wide, slots, dropped)[..newLen]) == 0
  {
  }

  /** Beyond its header the patched table is the rewritten copy. */
  lemma PatchedSdtBeyondHeader(copy: seq<byte>, wide: bool, slots: seq<nat>, dropped: nat)
    requires |copy| < TWO32 && |slots| == EntryCount(|copy|, wide) && dropped <= |slots|
    requires |copy| >= SDT_HEADER_LENGTH
    ensures forall k :: SDT_HEADER_LENGTH <= k < |copy| ==>
              PatchedSdt(copy, wide, slots, dropped)[k] == Encode(copy, wide, slots)[k]
  {
  }

  /** Up to the shortened length, the patched table's entries are the live slots. */
  lemma PatchedSdtEntries(copy: seq<byte>, wide: bool, slots: seq<nat>, dropped: nat)
    requires |copy| < TWO32 && |slots| == EntryCount(|copy|, wide) && dropped <= |slots| && Fits(wide, slots)
    ensures Entries(PatchedSdt(copy, wide, slots, dropped), wide, EntryCount(ShortLength(|copy|, wide, dropped), wide))
            == slots[..|slots| - dropped]
  {
    var newLen := ShortLength(|copy|, wide, dropped);
    if |copy| >= SDT_HEADER_LENGTH {
      var body := Encode(copy, wide, slots);
      var b := PatchedSdt(copy, wide, slots, dropped);
      PatchedSdtBeyondHeader(copy, wide, slots, dropped);
      EntryCountAfterDrop(|copy|, wide, dropped);
      var m := |slots| - dropped;
      EntriesBeyondHeader(b, body, wide, m);
      EncodeReadsBack(copy, wide, slots, m);
    }
  }

  /** Only an XSDT walk is ever abandoned. */
  lemma {:induction false} RewriteAbandonsOnlyXsdt(c: Ctx, es: seq<nat>, h: Heap)
    ensures !Rewrite(c, es, h).2 ==> c.wide
  {
    if es != [] {
      RewriteAbandonsOnlyXsdt(c, es[..|es| - 1], h);
    }
  }

  /** The walk only adds blocks to kernel memory. */
  lemma {:induction false} WalkedKeepsBlocks(c: Ctx, entries: seq<nat>, h: Heap, n: nat, keepNull: bool)
    requires n <= |entries|
    ensures h.blocks.Keys <= Walked(c, entries, h, n, keepNull).heap.blocks.Keys
  {
    if n > 0 {
      WalkedKeepsBlocks(c, entries, h, n - 1, keepNull);
    }
  }

  /** The entries of a copied table are below the entry limit. */
  lemma EntriesFit(b: seq<byte>, wide: bool, n: nat)
    requires n == 0 || SlotOffset(wide, n) <= |b|
    ensures Fits(wide, Entries(b, wide, n))
  {
  }

  /** The walk over a copied table's entries realises the reference rewrite of them. */
  lemma SdtWalkRealises(c: Ctx, copy: seq<byte>, h0: Heap)
    ensures var n := EntryCount(|copy|, c.wide);
            var (l, h1, ok) := Rewrite(c, Entries(copy, c.wide, n), h0);
            var w := SdtWalk(c, copy, h0);
            w.ok == ok && w.heap == h1 && h0.blocks.Keys <= h1.blocks.Keys && (!ok ==> c.wide) &&
            (ok ==> |l| + w.dropped == n && w.slots[..|w.slots| - w.dropped] == l && Fits(c.wide, w.slots))
  {
    var n := EntryCount(|copy|, c.wide);
    var es := Entries(copy, c.wide, n);
    assert es[..n] == es;
    WalkRealisesRewrite(c, es, h0, n);
    RewriteAbandonsOnlyXsdt(c, es, h0);
    WalkedKeepsBlocks(c, es, h0, n, true);
    EntriesFit(copy, c.wide, n);
    WalkedFits(c, es, h0, n, true);
  }

  /**
   * The reference outcome for the table at `addr`: the rewritten list of
   * its entries, kernel memory after its copy and the FADT copies, and
   * whether the rewrite went through.
   */
  function SdtReference(c: Ctx, addr: nat, h: Heap): (seq<nat>, Heap, bool)
  {
    var copy := SdtCopy(c.mem, addr);
    Rewrite(c, Entries(copy, c.wide, EntryCount(|copy|, c.wide)), Allocate(h, copy))
  }

  /** Kernel memory after the patch is the reference memory with the table's block rewritten in place. */
  lemma SdtPatchHeap(c: Ctx, addr: nat, h: Heap)
    requires SdtUsable(c.mem, addr)
    ensures var h1 := SdtReference(c, addr, h).1;
            var h2 := SdtPatch(c, addr, h).0;
            h2.top == h1.top && h.top in h1.blocks && h2.blocks.Keys == h1.blocks.Keys &&
            forall a :: a in h1.blocks && a != h.top ==> h2.blocks[a] == h1.blocks[a]
  {
    var copy := SdtCopy(c.mem, addr);
    SdtWalkRealises(c, copy, Allocate(h, copy));
  }

  /** A rewrite that is abandoned gives no address, and only an XSDT's is. */
  lemma SdtPatchAbandoned(c: Ctx, addr: nat, h: Heap)
    requires SdtUsable(c.mem, addr) && !SdtReference(c, addr, h).2
    ensures SdtPatch(c, addr, h).1.None? && c.wide
  {
    var copy := SdtCopy(c.mem, addr);
    SdtWalkRealises(c, copy, Allocate(h, copy));
  }

  /**
   * A patched table of `len` bytes whose entry array held `n` entries and
   * now holds the list `l`: its Length is lowered by 4 or 8 bytes per entry
   * removed, it sums to 0 over that Length, and its entries up to that
   * Length are `l`.
   */
  predicate PatchedAs(b: seq<byte>, len: nat, wide: bool, n: nat, l: seq<nat>)
  {
    |b| == len && |l| <= n && Span(wide, n - |l|) <= len &&
    var newLen := len - Span(wide, n - |l|);
    (len >= SDT_LENGTH_FIELD + 4 ==> LE32(b, SDT_LENGTH_FIELD) == newLen) &&
    (newLen > SDT_CHECKSUM ==> Checksum8(b[..newLen]) == 0) &&
    (EntryCount(newLen, wide) == 0 || SlotOffset(wide, EntryCount(newLen, wide)) <= |b|) &&
    Entries(b, wide, EntryCount(newLen, wide)) == l
  }

  /** `PatchedAs` from its parts, with the new Length named. */
  lemma PatchedAsIntro(b: seq<byte>, len: nat, wide: bool, n: nat, l: seq<nat>, newLen: nat)
    requires |b| == len && |l| <= n && Span(wide, n - |l|) <= len && newLen == len - Span(wide, n - |l|)
    requires len >= SDT_LENGTH_FIELD + 4 ==> LE32(b, SDT_LENGTH_FIELD) == newLen
    requires newLen > SDT_CHECKSUM ==> Checksum8(b[..newLen]) == 0
    requires EntryCount(newLen, wide) == 0 || SlotOffset(wide, EntryCount(newLen, wide)) <= |b|
    requires Entries(b, wide, EntryCount(newLen, wide)) == l
    ensures PatchedAs(b, len, wide, n, l)
  {
  }

  /** A patched table keeps its size and is patched as its live slots say. */
  lemma PatchedSdtIsPatchedAs(copy: seq<byte>, wide: bool, slots: seq<nat>, dropped: nat)
    requires |copy| < TWO32 && |slots| == EntryCount(|copy|, wide) && dropped <= |slots| && Fits(wide, slots)
    ensures PatchedAs(PatchedSdt(copy, wide, slots, dropped), |copy|, wide, |slots|, slots[..|slots| - dropped])
  {
    var l := slots[..|slots| - dropped];
    assert |slots| - |l| == dropped;
    assert Span(wide, dropped) <= Span(wide, |slots|) <= |copy|;
    var newLen := ShortLength(|copy|, wide, dropped);
    assert EntryCount(newLen, wide) == 0 || SlotOffset(wide, EntryCount(newLen, wide)) <= newLen <= |copy|;
    if |copy| >= SDT_LENGTH_FIELD + 4 {
      PatchedSdtLength(copy, wide, slots, dropped);
    }
    PatchedSdtSum(copy, wide, slots, dropped);
    PatchedSdtEntries(copy, wide, slots, dropped);
    PatchedAsIntro(PatchedSdt(copy, wide, slots, dropped), |copy|, wide, |slots|, l, newLen);
  }

  /** The block of a table whose walk went through is patched as the live slots say. */
  lemma SdtBlockPatched(copy: seq<byte>, wide: bool, w: Walk)
    requires |copy| < TWO32 && |w.slots| == EntryCount(|copy|, wide) && w.dropped <= |w.slots|
    requires w.ok && Fits(wide, w.slots)
    ensures PatchedAs(SdtBlock(copy, wide, w), |copy|, wide, |w.slots|, w.slots[..|w.slots| - w.dropped])
  {
    assert SdtBlock(copy, wide, w) == PatchedSdt(copy, wide, w.slots, w.dropped);
    PatchedSdtIsPatchedAs(copy, wide, w.slots, w.dropped);
  }

  /**
   * The copy of a usable RSDT or XSDT whose rewrite goes through sits at
   * the old top of kernel memory, keeps its size and is patched as the
   * reference list says.
   */
  lemma SdtPatchBlock(c: Ctx, addr: nat, h: Heap)
    requires SdtUsable(c.mem, addr) && SdtReference(c, addr, h).2
    ensures var r := SdtPatch(c, addr, h);
            r.1 == Some(h.top) && h.top in r.0.blocks &&
            PatchedAs(r.0.blocks[h.top], TableLength(c.mem, addr % TWO32), c.wide,
                      EntryCount(TableLength(c.mem, addr % TWO32), c.wide), SdtReference(c, addr, h).0)
  {
    var copy := SdtCopy(c.mem, addr);
    var h0 := Allocate(h, copy);
    var w := SdtWalk(c, copy, h0);
    SdtWalkRealises(c, copy, h0);
    SdtBlockPatched(copy, c.wide, w);
    var r := SdtPatch(c, addr, h);
    assert r == (Put(w.heap, h.top, SdtBlock(copy, c.wide, w)), Some(h.top));
  }

  // ---------------------------------------------------------------------
  // The in-place walk

  /** Once the walk is abandoned, further rounds change nothing. */
  lemma {:induction false} WalkedStops(c: Ctx, entries: seq<nat>, h: Heap, m: nat, n: nat, keepNull: bool)
    requires m <= n <= |entries| && !Walked(c, entries, h, m, keepNull).ok
    ensures Walked(c, entries, h, n, keepNull) == Walked(c, entries, h, m, keepNull)
    decreases n - m
  {
    if m < n {
      WalkedStops(c, entries, h, m, n - 1, keepNull);
    }
  }

  /**
   * The entry loop over an RSDT or XSDT entry array `a`, with the null
   * entry copied down before it is skipped: SSDTs are dropped when asked,
   * DSDT entries point at the new DSDT, usable FADTs are replaced by their
   * patched copies, and an unusable FADT abandons an XSDT.
   */
  method CompactEntries(c: Ctx, a: array<nat>, h0: Heap) returns (dropped: nat, h: Heap, ok: bool)
    modifies a
    ensures Walk(a[..], dropped, h, ok) == Walked(c, old(a[..]), h0, a.Length, true)
  {
    ghost var entries := a[..];
    dropped, h, ok := 0, h0, true;
    var i := 0;
    while i < a.Length && ok
      invariant 0 <= i <= a.Length
      invariant Walk(a[..], dropped, h, ok) == Walked(c, entries, h0, i, true)
    {
      WalkedTail(c, entries, h0, i, true);
      assert a[i] == entries[i] by { assert a[..][i..][0] == entries[i..][0]; }
      ghost var w := Walk(a[..], dropped, h, ok);
      var e := a[i];
      var j := i - dropped;
      a[j] := e;
      var t := e % TWO32;
      if t != 0 {
        var kind := KindAt(c.mem, t);
        if c.dropSsdt && kind == Ssdt {
          dropped := dropped + 1;
        } else if kind == Dsdt {
          a[j] := U32(c.dsdt);
        } else if kind == Facp && FadtUnusable(c, e) {
          if c.wide {
            ok := false;
          }
        } else if kind == Facp {
          a[j] := U32(h.top);
          h := Allocate(h, FadtBlock(c, t));
        }
      }
      assert Walk(a[..], dropped, h, ok) == EntryStep(c, w, i, true);
      i := i + 1;
    }
    if i < a.Length {
      WalkedStops(c, entries, h0, i, a.Length, true);
    }
  }

  /** The copy and patch of the RSDT or XSDT at `addr`, with the entry loop run on an array. */
  method PatchSdt(c: Ctx, addr: nat, h: Heap) returns (h': Heap, at: Option<nat>)
    ensures (h', at) == SdtPatch(c, addr, h)
  {
    var t := addr % TWO32;
    if t == 0 || addr >= NO_TABLE32 || TableLength(c.mem, t) >= SDT_MAX_LENGTH {
      return h, None;
    }
    var copy := SdtCopy(c.mem, addr);
    var n := EntryCount(|copy|, c.wide);
    var es := Entries(copy, c.wide, n);
    var a := new nat[n](k requires 0 <= k < n => es[k]);
    assert a[..] == es;
    var dropped, h1, ok := CompactEntries(c, a, Allocate(h, copy));
    h' := Put(h1, h.top, SdtBlock(copy, c.wide, Walk(a[..], dropped, h1, ok)));
    at := if ok then Some(h.top) else None;
  }

  /** An RSDT patch never abandons: a usable RSDT always yields its copy's address. */
  lemma RsdtPatchAddress(c: Ctx, addr: nat, h: Heap)
    requires !c.wide
    ensures SdtPatch(c, addr, h).1 == if SdtUsable(c.mem, addr) then Some(h.top) else None
  {
    if SdtUsable(c.mem, addr) {
      var copy := SdtCopy(c.mem, addr);
      SdtWalkRealises(c, copy, Allocate(h, copy));
    }
  }

  // ---------------------------------------------------------------------
  // The RSDP copy

  /** The GUIDs under which the ACPI 1.0 and ACPI 2.0 RSDPs are registered, in memory order. */
  const ACPI_10_GUID: seq<byte> := [0x30, 0x2d, 0x9d, 0xeb, 0x88, 0x2d, 0xd3, 0x11,
                                    0x9a, 0x16, 0x00, 0x90, 0x27, 0x3f, 0xc1, 0x4d]
  const ACPI_20_GUID: seq<byte> := [0x71, 0xe8, 0x68, 0x88, 0xf1, 0xe4, 0xd3, 0x11,
                                    0xbc, 0x22, 0x00, 0x80, 0xc7, 0x3c, 0x88, 0x81]

  /**
   * The copied RSDP pointed at the new RSDT (and, for ACPI 2.0, the new
   * XSDT), with the checksum over its first 20 bytes and, for ACPI 2.0, the
   * extended checksum over the whole copy recomputed.
   */
  function PatchedRsdp(copy: seq<byte>, v2: bool, rsdt: nat, xsdt: nat): (r: seq<byte>)
    requires rsdt < TWO32 && xsdt < TWO64
    ensures |r| == |copy|
  {
    var b1 := Store(copy, RSDP_RSDT_ADDRESS, EncLE32(rsdt));
    var b2 := if v2 then Store(b1, RSDP_XSDT_ADDRESS, EncLE64(xsdt)) else b1;
    var b3 := SetChecksum(b2, RSDP_CHECKSUM, if |b2| < RSDP_V1_LENGTH then |b2| else RSDP_V1_LENGTH);
    if v2 then SetChecksum(b3, RSDP_EXT_CHECKSUM, |b3|) else b3
  }

  /**
   * A copy long enough for its version reads back the new pointers, both
   * checksums come out 0, and every byte outside the fields written is the
   * original's.
   */
  lemma PatchedRsdpReadsBack(copy: seq<byte>, v2: bool, rsdt: nat, xsdt: nat)
    requires rsdt < TWO32 && xsdt < TWO64
    requires |copy| >= if v2 then RSDP_LENGTH else RSDP_V1_LENGTH
    ensures var r := PatchedRsdp(copy, v2, rsdt, xsdt);
            Checksum8(r[..RSDP_V1_LENGTH]) == 0 && LE32(r, RSDP_RSDT_ADDRESS) == rsdt &&
            (v2 ==> LE64(r, RSDP_XSDT_ADDRESS) == xsdt && Checksum8(r) == 0) &&
            forall k :: (0 <= k < |copy| && k != RSDP_CHECKSUM && !(RSDP_RSDT_ADDRESS <= k < RSDP_LENGTH_FIELD) &&
                         !(v2 && RSDP_XSDT_ADDRESS <= k <= RSDP_EXT_CHECKSUM)) ==> r[k] == copy[k]
  {
    var r := PatchedRsdp(copy, v2, rsdt, xsdt);
    var b1 := Store(copy, RSDP_RSDT_ADDRESS, EncLE32(rsdt));
    var b2 := if v2 then Store(b1, RSDP_XSDT_ADDRESS, EncLE64(xsdt)) else b1;
    var b3 := SetChecksum(b2, RSDP_CHECKSUM, RSDP_V1_LENGTH);
    assert r == if v2 then SetChecksum(b3, RSDP_EXT_CHECKSUM, |b3|) else b3;
    assert r[..RSDP_V1_LENGTH] == b3[..RSDP_V1_LENGTH];
    assert r[16..20] == EncLE32(rsdt);
    LE32Slice(r, RSDP_RSDT_ADDRESS);
    if v2 {
      assert r[24..32] == EncLE64(xsdt);
      LE64Slice(r, RSDP_XSDT_ADDRESS);
      assert r[..|r|] == r;
    }
  }

  // ---------------------------------------------------------------------
  // One ACPI version

  /** What the patch works from: firmware memory, the options, the new DSDT's address and the platform type. */
  datatype Setup = Setup(mem: seq<byte>, dropSsdt: bool, fixRestart: bool, dsdt: nat, platformType: byte)

  /** The walk context for the RSDT (32-bit entries, PM_Profile untouched) or the XSDT. */
  function SdtCtx(s: Setup, wide: bool): (c: Ctx)
    ensures c.wide == wide && c.mem == s.mem
  {
    Ctx(s.mem, s.dropSsdt, s.fixRestart, s.dsdt, if wide then Some(s.platformType) else None, wide)
  }

  /** The RSDP length copied: 20 bytes for ACPI 1.0, the RSDP's own Length for 2.0. */
  function RsdpLength(mem: seq<byte>, v2: bool, a: nat): nat
  {
    if v2 then Mem32(mem, a + RSDP_LENGTH_FIELD) else RSDP_V1_LENGTH
  }

  /**
   * The RSDT and, for ACPI 2.0, the XSDT patched after the RSDP copy at
   * `a`: kernel memory afterwards and the values for RsdtAddress (0 when
   * the RSDT is unusable) and XsdtAddress (all ones when the XSDT is
   * unusable or abandoned).
   */
  function PatchTables(s: Setup, v2: bool, a: nat, h: Heap): (r: (Heap, nat, nat))
    ensures r.1 < TWO32 && r.2 < TWO64
  {
    var (h2, rsdt) := SdtPatch(SdtCtx(s, false), Mem32(s.mem, a + RSDP_RSDT_ADDRESS), h);
    var (h3, xsdt) := if v2 then SdtPatch(SdtCtx(s, true), Mem64(s.mem, a + RSDP_XSDT_ADDRESS), h2) else (h2, None);
    (h3, if rsdt.Some? then U32(rsdt.value) else 0, if xsdt.Some? then U32(xsdt.value) else NO_TABLE64)
  }

  /** RsdtAddress is the RSDT copy's address exactly when the RSDT is usable. */
  lemma PatchTablesRsdt(s: Setup, v2: bool, a: nat, h: Heap)
    ensures PatchTables(s, v2, a, h).1 == if SdtUsable(s.mem, Mem32(s.mem, a + RSDP_RSDT_ADDRESS)) then U32(h.top) else 0
  {
    RsdtPatchAddress(SdtCtx(s, false), Mem32(s.mem, a + RSDP_RSDT_ADDRESS), h);
  }

  /** XsdtAddress is all ones exactly when no XSDT copy is kept (always for ACPI 1.0). */
  lemma PatchTablesXsdt(s: Setup, v2: bool, a: nat, h: Heap)
    ensures var h2 := SdtPatch(SdtCtx(s, false), Mem32(s.mem, a + RSDP_RSDT_ADDRESS), h).0;
            PatchTables(s, v2, a, h).2 == NO_TABLE64 <==>
            !v2 || SdtPatch(SdtCtx(s, true), Mem64(s.mem, a + RSDP_XSDT_ADDRESS), h2).1.None?
  {
  }

  /**
   * One round of the version loop of `setupAcpi`: kernel memory afterwards
   * and the address registered, none when the firmware has no RSDP of that
   * version. The RSDP copy comes first, then the RSDT's, then for ACPI 2.0
   * the XSDT's.
   */
  function PatchVersion(s: Setup, v2: bool, h: Heap): (Heap, Option<nat>)
  {
    match FirstRsdp(s.mem, v2, ACPI_RANGE_START)
    case None => (h, None)
    case Some(a) =>
      var copy := Read(s.mem, a, RsdpLength(s.mem, v2, a));
      var (h3, rsdtField, xsdtField) := PatchTables(s, v2, a, Allocate(h, copy));
      (Put(h3, h.top, PatchedRsdp(copy, v2, rsdtField, xsdtField)), Some(U32(h.top)))
  }

  /** Without an RSDP of the version nothing is allocated or registered. */
  lemma PatchVersionAbsent(s: Setup, v2: bool, h: Heap)
    ensures PatchVersion(s, v2, h).1.None? <==> FirstRsdp(s.mem, v2, ACPI_RANGE_START).None?
    ensures PatchVersion(s, v2, h).1.None? ==> PatchVersion(s, v2, h).0 == h
  {
  }

  /**
   * With an RSDP at `a` the copy at the old cursor is registered; it sums
   * to 0, points at the RSDT copy right after it when the RSDT was usable
   * and at 0 otherwise, and for ACPI 2.0 also sums to 0 as a whole and
   * holds all ones as XsdtAddress exactly when no XSDT copy was kept.
   */
  lemma PatchVersionRsdp(s: Setup, v2: bool, h: Heap, a: nat)
    requires FirstRsdp(s.mem, v2, ACPI_RANGE_START) == Some(a)
    requires v2 ==> RsdpLength(s.mem, v2, a) >= RSDP_LENGTH
    ensures var r := PatchVersion(s, v2, h);
            var len := RsdpLength(s.mem, v2, a);
            var t := PatchTables(s, v2, a, Allocate(h, Read(s.mem, a, len)));
            r.0.top == t.0.top && r.1 == Some(U32(h.top)) && h.top in r.0.blocks && |r.0.blocks[h.top]| == len &&
            Checksum8(r.0.blocks[h.top][..RSDP_V1_LENGTH]) == 0 && LE32(r.0.blocks[h.top], RSDP_RSDT_ADDRESS) == t.1 &&
            (v2 ==> Checksum8(r.0.blocks[h.top]) == 0 && LE64(r.0.blocks[h.top], RSDP_XSDT_ADDRESS) == t.2)
  {
    var len := RsdpLength(s.mem, v2, a);
    var copy := Read(s.mem, a, len);
    var t := PatchTables(s, v2, a, Allocate(h, copy));
    var b := PatchedRsdp(copy, v2, t.1, t.2);
    assert PatchVersion(s, v2, h) == (Put(t.0, h.top, b), Some(U32(h.top)));
    PatchedRsdpReadsBack(copy, v2, t.1, t.2);
  }

  // ---------------------------------------------------------------------
  // setupAcpiNoMod

  /** The address an RSDP search hands back as a 32-bit value, 0 when there is none. */
  function Address32(a: Option<nat>): (r: nat)
    ensures r < TWO32 && (a.None? ==> r == 0)
  {
    if a.Some? then U32(a.value) else 0
  }

  /** The alias an RSDP of either version is registered under. */
  function AcpiAlias(v2: bool): string
  {
    if v2 then "ACPI_20" else "ACPI"
  }

  function AcpiGuid(v2: bool): seq<byte>
  {
    if v2 then ACPI_20_GUID else ACPI_10_GUID
  }

  /** The registrations of `setupAcpiNoMod`: ACPI 1.0 always, ACPI 2.0 when its address is not 0. */
  function NoModNodes(mem: seq<byte>): seq<FakeEfi.TableNode>
  {
    var acpi10 := Address32(FirstRsdp(mem, false, ACPI_RANGE_START));
    var acpi20 := Address32(FirstRsdp(mem, true, ACPI_RANGE_START));
    [FakeEfi.TableNode(ACPI_10_GUID, acpi10, Some(AcpiAlias(false)))] +
    (if acpi20 != 0 then [FakeEfi.TableNode(ACPI_20_GUID, acpi20, Some(AcpiAlias(true)))] else [])
  }

  /**
   * Without a replacement DSDT the firmware's RSDPs are registered as they
   * are: ACPI 1.0 always, as 0 when there is none, and ACPI 2.0 exactly
   * when one was found (an RSDP lies below 1 MiB and above 0).
   */
  lemma NoModRegistrations(mem: seq<byte>)
    ensures var nodes := NoModNodes(mem);
            nodes[0] == FakeEfi.TableNode(ACPI_10_GUID, Address32(FirstRsdp(mem, false, ACPI_RANGE_START)), Some("ACPI")) &&
            (FirstRsdp(mem, false, ACPI_RANGE_START).None? ==> nodes[0].table == 0) &&
            (|nodes| == 2 <==> FirstRsdp(mem, true, ACPI_RANGE_START).Some?) && 1 <= |nodes| <= 2 &&
            (|nodes| == 2 ==> nodes[1] == FakeEfi.TableNode(ACPI_20_GUID, FirstRsdp(mem, true, ACPI_RANGE_START).value, Some("ACPI_20")))
  {
    FirmwareRsdpAddress(mem, true);
  }

  /** An RSDP found lies between 0xE0000 and 0xFFFFF, so its 32-bit address is itself and not 0. */
  lemma FirmwareRsdpAddress(mem: seq<byte>, v2: bool)
    ensures var r := FirstRsdp(mem, v2, ACPI_RANGE_START);
            r.Some? ==> ACPI_RANGE_START <= r.value <= ACPI_RANGE_END && Address32(r) == r.value != 0
  {
    FirstAlignedRange(RsdpTest(mem, v2), ACPI_RANGE_START, ACPI_RANGE_END);
  }

  /** `setupAcpiNoMod`: both searches, then the registrations; it always answers 1. */
  method SetupAcpiNoMod(mem: seq<byte>, t: FakeEfi.ConfigTables) returns (r: int)
    modifies t
    ensures r == 1 && t.numberOfTableEntries == old(t.numberOfTableEntries)
    ensures t.nodes == old(t.nodes) + if old(t.numberOfTableEntries) < FakeEfi.MAX_CONFIGURATION_TABLE_ENTRIES then NoModNodes(mem) else []
  {
    var a10 := FindRsdp(mem, false);
    var a20 := FindRsdp(mem, true);
    var acpi10 := Address32(a10);
    var acpi20 := Address32(a20);
    var _ := t.AddConfigurationTable(Some(ACPI_10_GUID), Some(acpi10), Some(AcpiAlias(false)));
    if acpi20 != 0 {
      var _ := t.AddConfigurationTable(Some(ACPI_20_GUID), Some(acpi20), Some(AcpiAlias(true)));
    }
    return 1;
  }

  // ---------------------------------------------------------------------
  // setupAcpi

  /**
   * What `setupAcpi` reads: firmware memory, the DSDT, DropSSDT and
   * RestartFix values of the boot configuration, the files the boot device
   * can open, whether the CPU is an Intel part and the platform type.
   */
  datatype Config = Config(mem: seq<byte>, dsdtKey: Option<StringTable.Value>, files: map<string, seq<byte>>,
                           dropSsdt: Option<StringTable.Value>, restartFix: Option<StringTable.Value>,
                           intel: bool, platformType: byte)

  const DEFAULT_DSDT_PATH: string := "/Extra/DSDT.aml"

  /** The DSDT file opened: the configured one (read as a C string), else /Extra/DSDT.aml. */
  function DsdtPath(cfg: Config): (p: string)
    ensures cfg.dsdtKey.None? ==> p == DEFAULT_DSDT_PATH
  {
    if cfg.dsdtKey.Some? then cfg.dsdtKey.value.rest else DEFAULT_DSDT_PATH
  }

  /** SSDTs are dropped only when DropSSDT is given and says yes. */
  function DropSsdtOption(cfg: Config): bool
  {
    StringTable.BoolForValue(cfg.dropSsdt) == Some(true)
  }

  /** The restart fix: on by default for Intel CPUs unless RestartFix says no; never for others. */
  function RestartFixOption(cfg: Config): bool
  {
    cfg.intel && StringTable.BoolForValue(cfg.restartFix) != Some(false)
  }

  /** Both options in terms of the values given. */
  lemma OptionsMeaning(cfg: Config)
    ensures DropSsdtOption(cfg) <==>
            cfg.dropSsdt.Some? && |cfg.dropSsdt.value.text| >= 1 && cfg.dropSsdt.value.text[0] in {'Y', 'y'}
    ensures RestartFixOption(cfg) <==>
            cfg.intel && (cfg.restartFix.None? ||
                          (|cfg.restartFix.value.text| >= 1 && cfg.restartFix.value.text[0] in {'Y', 'y'}))
  {
    var b := StringTable.BoolForValue(cfg.restartFix);
    assert b == Some(false) <==> b.Some? && b != Some(true);
  }

  /** The patch settings once the new DSDT sits at `dsdt`. */
  function SetupOf(cfg: Config, dsdt: nat): (s: Setup)
    ensures s.mem == cfg.mem && s.dsdt == dsdt
  {
    Setup(cfg.mem, DropSsdtOption(cfg), RestartFixOption(cfg), dsdt, cfg.platformType)
  }

  /** The registration a round of the version loop makes: none when no RSDP was found. */
  function Registered(v2: bool, reg: Option<nat>): seq<FakeEfi.TableNode>
  {
    if reg.Some? then [FakeEfi.TableNode(AcpiGuid(v2), reg.value, Some(AcpiAlias(v2)))] else []
  }

  /** Kernel memory and the registrations after the first `n` rounds of the version loop. */
  function Versions(s: Setup, h: Heap, n: nat): (r: (Heap, seq<FakeEfi.TableNode>))
    requires n <= 2
    ensures |r.1| <= n
  {
    if n == 0 then (h, [])
    else
      var (h1, nodes) := Versions(s, h, n - 1);
      var (h2, reg) := PatchVersion(s, n == 2, h1);
      (h2, nodes + Registered(n == 2, reg))
  }

  /** What `setupAcpi` leaves: kernel memory and the registrations made. */
  function AcpiOutcome(cfg: Config, h: Heap): (Heap, seq<FakeEfi.TableNode>)
  {
    var path := DsdtPath(cfg);
    if path !in cfg.files then (h, NoModNodes(cfg.mem))
    else Versions(SetupOf(cfg, h.top), Allocate(h, cfg.files[path]), 2)
  }

  /**
   * With a replacement DSDT a version without an RSDP is not registered at
   * all, and one with an RSDP is registered at its copy; without one, the
   * firmware's ACPI 1.0 RSDP is registered even when absent.
   */
  lemma AcpiRegistrations(cfg: Config, h: Heap)
    ensures DsdtPath(cfg) !in cfg.files ==> AcpiOutcome(cfg, h) == (h, NoModNodes(cfg.mem))
    ensures DsdtPath(cfg) in cfg.files ==>
              var h1 := Allocate(h, cfg.files[DsdtPath(cfg)]);
              var h2 := Versions(SetupOf(cfg, h.top), h1, 1).0;
              AcpiOutcome(cfg, h).1 ==
                (if FirstRsdp(cfg.mem, false, ACPI_RANGE_START).Some?
                 then [FakeEfi.TableNode(ACPI_10_GUID, U32(h1.top), Some("ACPI"))] else []) +
                (if FirstRsdp(cfg.mem, true, ACPI_RANGE_START).Some?
                 then [FakeEfi.TableNode(ACPI_20_GUID, U32(h2.top), Some("ACPI_20"))] else [])
  {
    var path := DsdtPath(cfg);
    if path in cfg.files {
      var s := SetupOf(cfg, h.top);
      var h1 := Allocate(h, cfg.files[path]);
      var v1 := PatchVersion(s, false, h1);
      assert Versions(s, h1, 0) == (h1, []);
      assert [] + Registered(false, v1.1) == Registered(false, v1.1);
      assert Versions(s, h1, 1) == (v1.0, Registered(false, v1.1));
      var v2 := PatchVersion(s, true, v1.0);
      assert Versions(s, h1, 2) == (v2.0, Registered(false, v1.1) + Registered(true, v2.1));
      PatchVersionRegisters(s, false, h1);
      PatchVersionRegisters(s, true, v1.0);
    }
  }

  /** A round registers the RSDP copy at the cursor it starts from, when there is an RSDP. */
  lemma PatchVersionRegisters(s: Setup, v2: bool, h: Heap)
    ensures PatchVersion(s, v2, h).1 == if FirstRsdp(s.mem, v2, ACPI_RANGE_START).Some? then Some(U32(h.top)) else None
  {
  }

  /** One round of the version loop: find the RSDP, then copy and patch the RSDP, RSDT and XSDT. */
  method PatchOneVersion(s: Setup, v2: bool, h: Heap) returns (h': Heap, reg: Option<nat>)
    ensures (h', reg) == PatchVersion(s, v2, h)
  {
    var found := FindRsdp(s.mem, v2);
    if found.None? {
      return h, None;
    }
    var a := found.value;
    var copy := Read(s.mem, a, RsdpLength(s.mem, v2, a));
    var h1 := Allocate(h, copy);
    var hr, rsdt := PatchSdt(SdtCtx(s, false), Mem32(s.mem, a + RSDP_RSDT_ADDRESS), h1);
    var hx, xsdt := hr, None;
    if v2 {
      hx, xsdt := PatchSdt(SdtCtx(s, true), Mem64(s.mem, a + RSDP_XSDT_ADDRESS), hr);
    }
    var rsdtField := if rsdt.Some? then U32(rsdt.value) else 0;
    var xsdtField := if xsdt.Some? then U32(xsdt.value) else NO_TABLE64;
    assert (hx, rsdtField, xsdtField) == PatchTables(s, v2, a, h1);
    h' := Put(hx, h.top, PatchedRsdp(copy, v2, rsdtField, xsdtField));
    reg := Some(U32(h.top));
  }

  /** The version loop's rounds compose one at a time. */
  lemma VersionsStep(s: Setup, h: Heap, n: nat)
    requires n < 2
    ensures var prev := Versions(s, h, n);
            var round := PatchVersion(s, n == 1, prev.0);
            Versions(s, h, n + 1) == (round.0, prev.1 + Registered(n == 1, round.1))
  {
  }

  /** One round of the version loop followed by the registration of its RSDP copy. */
  method RegisterVersion(s: Setup, v2: bool, h: Heap, t: FakeEfi.ConfigTables) returns (h': Heap, reg: Option<nat>)
    modifies t
    ensures (h', reg) == PatchVersion(s, v2, h)
    ensures t.numberOfTableEntries == old(t.numberOfTableEntries)
    ensures t.nodes == old(t.nodes) +
              if old(t.numberOfTableEntries) < FakeEfi.MAX_CONFIGURATION_TABLE_ENTRIES then Registered(v2, reg) else []
  {
    h', reg := PatchOneVersion(s, v2, h);
    var _ := t.AddConfigurationTable(Some(AcpiGuid(v2)), reg, Some(AcpiAlias(v2)));
  }

  /**
   * `setupAcpi`: load the replacement DSDT (else fall back on
   * `setupAcpiNoMod`), then for each ACPI version copy and patch the RSDP,
   * RSDT and XSDT and register the copy; it always answers 1.
   */
  method SetupAcpi(cfg: Config, h: Heap, t: FakeEfi.ConfigTables) returns (h': Heap, r: int)
    modifies t
    ensures r == 1 && t.numberOfTableEntries == old(t.numberOfTableEntries)
    ensures h' == AcpiOutcome(cfg, h).0
    ensures t.nodes == old(t.nodes) +
              if old(t.numberOfTableEntries) < FakeEfi.MAX_CONFIGURATION_TABLE_ENTRIES then AcpiOutcome(cfg, h).1 else []
  {
    var path := DsdtPath(cfg);
    if path !in cfg.files {
      r := SetupAcpiNoMod(cfg.mem, t);
      return h, r;
    }
    var h1 := Allocate(h, cfg.files[path]);
    h' := PatchVersions(SetupOf(cfg, h.top), h1, t);
    r := 1;
  }

  /** The version loop of `setupAcpi`: ACPI 1.0 first, then ACPI 2.0. */
  method PatchVersions(s: Setup, h1: Heap, t: FakeEfi.ConfigTables) returns (h': Heap)
    modifies t
    ensures t.numberOfTableEntries == old(t.numberOfTableEntries)
    ensures h' == Versions(s, h1, 2).0
    ensures t.nodes == old(t.nodes) +
              if old(t.numberOfTableEntries) < FakeEfi.MAX_CONFIGURATION_TABLE_ENTRIES then Versions(s, h1, 2).1 else []
  {
    ghost var canAdd := t.numberOfTableEntries < FakeEfi.MAX_CONFIGURATION_TABLE_ENTRIES;
    ghost var nodes0 := t.nodes;
    h' := h1;
    var version := 0;
    while version < 2
      invariant 0 <= version <= 2 && t.numberOfTableEntries == old(t.numberOfTableEntries)
      invariant h' == Versions(s, h1, version).0
      invariant t.nodes == nodes0 + if canAdd then Versions(s, h1, version).1 else []
    {
      var v2 := version == 1;
      ghost var prev := Versions(s, h1, version);
      ghost var nodes := t.nodes;
      var reg;
      h', reg := RegisterVersion(s, v2, h', t);
      VersionsStep(s, h1, version);
      if canAdd {
        assert t.nodes == nodes + Registered(v2, reg);
        assert t.nodes == nodes0 + (prev.1 + Registered(v2, reg));
      } else {
        assert t.nodes == nodes0;
      }
      version := version + 1;
    }
  }
}
