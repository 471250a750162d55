/**
 * Boot-volume discovery of `disk.c`: the FDisk partition walker, the
 * boot-volume records, the GPT, FDisk and APM scanners, the per-drive map
 * list, the filtered chain the boot menu shows, and the raw sector
 * transfers of the file-system modules.
 *
 * The scanners read the drive through `readBytes`, whose behaviour over
 * the sector cache is proved in module Disk; here it is a `Reader`
 * handed to each scanner. The HFS+ and NTFS probes and `crc32` are not
 * part of this model and are parameters as well.
 */
module DiskScan {
  import opened Wrappers
  import opened Bytes
  import Ext2Fs
  import Msdos
  import StringTable
  import Disk

  const BPS: nat := 512
  const PROBEFS_SIZE: nat := 4 * BPS
  const N_CACHE_SECS: nat := 64
  const ECC_CORRECTED_ERR: int := 0x11
  const DISK_SIGNATURE: nat := 0xAA55
  const SIGNATURE_OFFSET: nat := 510

  // MBR and EBR tables: four 16-byte entries from byte 446.
  const FDISK_NPART: nat := 4
  const PART_TABLE: nat := 446
  const PART_SIZE: nat := 16
  const FDISK_ACTIVE: nat := 0x80

  // Partition type bytes.
  const FDISK_DOS12: nat := 0x01
  const FDISK_DOS16S: nat := 0x04
  const FDISK_DOS16B: nat := 0x06
  const FDISK_NTFS: nat := 0x07
  const FDISK_SMALLFAT32: nat := 0x0B
  const FDISK_FAT32: nat := 0x0C
  const FDISK_DOS16SLBA: nat := 0x0E
  const FDISK_LINUX: nat := 0x83
  const FDISK_BOOTER: nat := 0xAB
  const FDISK_HFS: nat := 0xAF
  const GPT_PROTECTIVE: nat := 0xEE

  const kBIOSDevTypeHardDrive: int := 0x80

  // Boot-volume flags.
  const kBVFlagPrimary: bv32 := 0x01
  const kBVFlagNativeBoot: bv32 := 0x02
  const kBVFlagForeignBoot: bv32 := 0x04
  const kBVFlagBootable: bv32 := 0x08
  const kBVFlagEFISystem: bv32 := 0x10
  const kBVFlagBooter: bv32 := 0x20
  const kBVFlagSystemVolume: bv32 := 0x40

  /** Capacity of the name and type-name fields, NUL included. */
  const DPISTRLEN: nat := 32

  // ---------------------------------------------------------------------
  // Reading the drive

  /** `readBytes(biosdev, blkno, 0, n, buf)` on the drive being scanned: `n` bytes from block `blkno`, or a failure. */
  type Reader = (nat, nat) -> Option<seq<byte>>

  /** A read through `reader`, seen as the `n`-byte buffer it fills. */
  function Read(reader: Reader, blkno: nat, n: nat): (r: Option<seq<byte>>)
    ensures r.Some? <==> reader(blkno, n).Some?
    ensures r.Some? ==> |r.value| == n && forall k :: 0 <= k < n ==> r.value[k] == ByteAt(reader(blkno, n).value, k)
  {
    match reader(blkno, n)
    case None => None
    case Some(b) => Some(seq<byte>(n, k requires 0 <= k < n => ByteAt(b, k)))
  }

  /** Big-endian fields of the Apple partition map. */
  function BE16(b: seq<byte>, off: nat): (r: nat)
    ensures r < TWO16
  {
    ByteAt(b, off) * 256 + ByteAt(b, off + 1)
  }

  function BE32(b: seq<byte>, off: nat): (r: nat)
    ensures r < TWO32
  {
    BE16(b, off) * TWO16 + BE16(b, off + 2)
  }

  /** Bytes as characters. */
  function Text(b: seq<byte>): (r: string)
    ensures |r| == |b| && forall k :: 0 <= k < |b| ==> r[k] == b[k] as char
  {
    seq(|b|, k requires 0 <= k < |b| => b[k] as char)
  }

  /**
   * The C string at byte `i` of a block, as characters, taking at most
   * `room` of them (a byte past the block reads as NUL).
   */
  function CText(b: seq<byte>, i: nat, room: nat): (r: string)
    ensures |r| <= room
    decreases room
  {
    if room == 0 || i >= |b| || b[i] == 0 then "" else [b[i] as char] + CText(b, i + 1, room - 1)
  }

  /** `strlcpy` of the C string at byte `i` into a field of `DPISTRLEN` characters, NUL included. */
  function FieldCopy(b: seq<byte>, i: nat): (r: string)
    ensures |r| < DPISTRLEN
  {
    CText(b, i, DPISTRLEN - 1)
  }

  /**
   * `readBootSector`: the block reads and ends in the boot signature.
   * (With no buffer the bytes land in the shared boot-sector buffer,
   * which the FDisk walker models itself.)
   */
  predicate BootSectorOk(reader: Reader, secno: nat)
  {
    var r := Read(reader, secno, BPS);
    r.Some? && LE16(r.value, SIGNATURE_OFFSET) == DISK_SIGNATURE
  }

  /** The "BOOT       " label a FAT32 EFI boot block carries at offset 90. */
  const BOOT1F32_MAGIC: string := "BOOT       "
  const BOOT1F32_MAGIC_OFFSET: nat := 90

  /** `testFAT32EFIBootSector`: the boot signature and the boot1f32 label. */
  predicate Fat32EfiBootSectorOk(reader: Reader, secno: nat)
  {
    var r := Read(reader, secno, BPS);
    && r.Some? && LE16(r.value, SIGNATURE_OFFSET) == DISK_SIGNATURE
    && Text(r.value[BOOT1F32_MAGIC_OFFSET..BOOT1F32_MAGIC_OFFSET + |BOOT1F32_MAGIC|]) == BOOT1F32_MAGIC
  }

  // ---------------------------------------------------------------------
  // Boot-volume records

  /** Which file-system hooks a record carries. Only HFS+ and FAT records have an init hook. */
  datatype FsKind = HfsFs | MsdosFs | NtfsDescription | Ext2Description | NoFs

  predicate HasInit(fs: FsKind)
  {
    fs == HfsFs || fs == MsdosFs
  }

  /** A `BVRef`, without the hook pointers, which `fs` stands for. */
  datatype Volume = Volume(biosdev: int, partNo: int, partBoff: nat, partType: int, fs: FsKind,
                           flags: bv32, name: string, typeName: string, devType: int,
                           visible: bool, filtered: bool)

  predicate Has(flags: bv32, f: bv32)
  {
    flags & f != 0
  }

  /** One MBR or EBR entry. */
  datatype Entry = Entry(bootid: byte, systid: byte, relsect: nat)

  function SlotOffset(slot: nat): nat
  {
    PART_TABLE + PART_SIZE * slot
  }

  function EntryAt(sector: seq<byte>, slot: nat): Entry
    requires slot < FDISK_NPART && |sector| == BPS
  {
    Entry(ByteAt(sector, SlotOffset(slot)), ByteAt(sector, SlotOffset(slot) + 4), LE32(sector, SlotOffset(slot) + 8))
  }

  /** `isExtendedFDiskPartition`. */
  predicate IsExtended(systid: nat)
  {
    systid == 0x05 || systid == 0x0F || systid == 0x85
  }

  /**
   * `newFDiskBVRef` (the probe argument is 0 at every call): a record with
   * an init hook is native and, when its boot block reads, bootable; one
   * without is kept only when its boot block reads, as a foreign volume.
   */
  function NewFDiskVolume(biosdev: int, partno: int, blkoff: nat, part: Entry, fs: FsKind,
                          bvrFlags: bv32, reader: Reader): Option<Volume>
  {
    var primary: bv32 := if part.bootid >= FDISK_ACTIVE && part.systid == FDISK_HFS then kBVFlagPrimary else 0;
    var ok := BootSectorOk(reader, blkoff);
    var v := Volume(biosdev, partno, blkoff, part.systid, fs, 0, "", "", kBIOSDevTypeHardDrive, false, false);
    if HasInit(fs) then
      Some(v.(flags := primary | kBVFlagNativeBoot | (if ok then kBVFlagBootable else 0) | bvrFlags))
    else if ok then Some(v.(flags := primary | kBVFlagForeignBoot | bvrFlags))
    else None
  }

  /** GUIDs in their on-disk (mixed-endian) byte order. */
  function Guid(d1: nat, d2: nat, d3: nat, tail: seq<byte>): seq<byte>
    requires d1 < TWO32 && d2 < TWO16 && d3 < TWO16
  {
    EncLE32(d1) + EncLE16(d2) + EncLE16(d3) + tail
  }

  const GPT_HFS_GUID: seq<byte> := Guid(0x48465300, 0x0000, 0x11AA, [0xAA, 0x11, 0x00, 0x30, 0x65, 0x43, 0xEC, 0xAC])
  const GPT_BOOT_GUID: seq<byte> := Guid(0x426F6F74, 0x0000, 0x11AA, [0xAA, 0x11, 0x00, 0x30, 0x65, 0x43, 0xEC, 0xAC])
  const GPT_EFISYS_GUID: seq<byte> := Guid(0xC12A7328, 0xF81F, 0x11D2, [0xBA, 0x4B, 0x00, 0xA0, 0xC9, 0x3E, 0xC9, 0x3B])
  const GPT_BASICDATA_GUID: seq<byte> := Guid(0xEBD0A0A2, 0xB9E5, 0x4433, [0x87, 0xC0, 0x68, 0xB6, 0xB7, 0x26, 0x99, 0xC7])
  const GPT_BASICDATA2_GUID: seq<byte> := Guid(0xE3C9E316, 0x0B5C, 0x4DB8, [0x81, 0x7D, 0xF9, 0x2D, 0xF0, 0x02, 0x15, 0xAE])

  /** `newGPTBVRef`: as `newFDiskBVRef`, with the name "----", a type name from the GUID and no primary flag. */
  function NewGptVolume(biosdev: int, partno: int, blkoff: nat, typeGuid: seq<byte>, fs: FsKind,
                        bvrFlags: bv32, reader: Reader): Option<Volume>
  {
    var ok := BootSectorOk(reader, blkoff);
    var typeName := if typeGuid == GPT_BOOT_GUID || typeGuid == GPT_HFS_GUID then "GPT HFS+" else "GPT Unknown";
    var v := Volume(biosdev, partno, blkoff, 0, fs, 0, "----", typeName, kBIOSDevTypeHardDrive, false, false);
    if HasInit(fs) then
      Some(v.(flags := kBVFlagNativeBoot | (if ok then kBVFlagBootable else 0) | bvrFlags))
    else if ok then Some(v.(flags := kBVFlagForeignBoot | bvrFlags))
    else None
  }

  /** `newAPMBVRef` (called only with the HFS+ hooks): native, bootable, a system volume, named from the map entry. */
  function NewApmVolume(biosdev: int, partno: int, blkoff: nat, dpme: seq<byte>, bvrFlags: bv32): Volume
  {
    Volume(biosdev, partno, blkoff, 0, HfsFs,
           kBVFlagNativeBoot | kBVFlagBootable | kBVFlagSystemVolume | bvrFlags,
           FieldCopy(dpme, DPME_NAME), FieldCopy(dpme, DPME_TYPE),
           kBIOSDevTypeHardDrive, false, false)
  }

  /** What the three constructors promise about the flags and about when a record exists. */
  lemma FDiskVolumeFlags(biosdev: int, partno: int, blkoff: nat, part: Entry, fs: FsKind, reader: Reader)
    ensures var r := NewFDiskVolume(biosdev, partno, blkoff, part, fs, 0, reader);
      && (r.Some? <==> HasInit(fs) || BootSectorOk(reader, blkoff))
      && (r.Some? ==>
            && r.value.partType == part.systid as int && r.value.partBoff == blkoff && r.value.partNo == partno
            && (Has(r.value.flags, kBVFlagNativeBoot) <==> HasInit(fs))
            && (Has(r.value.flags, kBVFlagForeignBoot) <==> !HasInit(fs))
            && (Has(r.value.flags, kBVFlagBootable) <==> HasInit(fs) && BootSectorOk(reader, blkoff))
            && (Has(r.value.flags, kBVFlagPrimary) <==> part.bootid >= FDISK_ACTIVE && part.systid == FDISK_HFS)
            && !r.value.visible && !r.value.filtered)
  {
  }

  lemma GptVolumeFlags(biosdev: int, partno: int, blkoff: nat, typeGuid: seq<byte>, fs: FsKind, bvrFlags: bv32, reader: Reader)
    ensures var r := NewGptVolume(biosdev, partno, blkoff, typeGuid, fs, bvrFlags, reader);
      && (r.Some? <==> HasInit(fs) || BootSectorOk(reader, blkoff))
      && (r.Some? ==>
            && r.value.partNo == partno && r.value.partBoff == blkoff && r.value.name == "----"
            && (r.value.typeName == "GPT HFS+" <==> typeGuid == GPT_BOOT_GUID || typeGuid == GPT_HFS_GUID)
            && (Has(r.value.flags, kBVFlagNativeBoot) <==> HasInit(fs) || Has(bvrFlags, kBVFlagNativeBoot))
            && (Has(r.value.flags, kBVFlagEFISystem) <==> Has(bvrFlags, kBVFlagEFISystem))
            && (Has(r.value.flags, kBVFlagBooter) <==> Has(bvrFlags, kBVFlagBooter))
            && (Has(r.value.flags, kBVFlagPrimary) <==> Has(bvrFlags, kBVFlagPrimary))
            && !r.value.visible && !r.value.filtered)
  {
  }

  lemma ApmVolumeFlags(biosdev: int, partno: int, blkoff: nat, dpme: seq<byte>)
    ensures var v := NewApmVolume(biosdev, partno, blkoff, dpme, 0);
      && Has(v.flags, kBVFlagNativeBoot) && Has(v.flags, kBVFlagBootable) && Has(v.flags, kBVFlagSystemVolume)
      && !Has(v.flags, kBVFlagForeignBoot) && !Has(v.flags, kBVFlagPrimary)
      && |v.name| < DPISTRLEN && |v.typeName| < DPISTRLEN
      && !v.visible && !v.filtered
  {
  }

  // ---------------------------------------------------------------------
  // probeFileSystem

  /** `probeFileSystem`: -1 when the four probe sectors do not read, else the first file system that matches, as a partition type byte. */
  function ProbeFileSystem(reader: Reader, blkoff: nat, hfsProbe: seq<byte> -> bool, ntfsProbe: seq<byte> -> bool): int
  {
    match Read(reader, blkoff, PROBEFS_SIZE)
    case None => -1
    case Some(buf) =>
      if hfsProbe(buf) then FDISK_HFS
      else if Ext2Fs.Probe(buf) then FDISK_LINUX
      else if ntfsProbe(buf) then FDISK_NTFS
      else
        var fatbits := Msdos.Probe(buf);
        if fatbits == 0 then 0
        else if fatbits == 16 then FDISK_DOS16B
        else if fatbits == 12 then FDISK_DOS12
        else FDISK_FAT32
  }

  lemma ProbeOrder(reader: Reader, blkoff: nat, hfsProbe: seq<byte> -> bool, ntfsProbe: seq<byte> -> bool)
    ensures var r := ProbeFileSystem(reader, blkoff, hfsProbe, ntfsProbe);
      && (r == -1 <==> reader(blkoff, PROBEFS_SIZE).None?)
      && r in {-1, 0, FDISK_DOS12 as int, FDISK_DOS16B as int, FDISK_NTFS as int, FDISK_FAT32 as int,
               FDISK_LINUX as int, FDISK_HFS as int}
      && (reader(blkoff, PROBEFS_SIZE).Some? ==>
            var buf := Read(reader, blkoff, PROBEFS_SIZE).value;
            && (r == FDISK_HFS as int <==> hfsProbe(buf))
            && (r == FDISK_LINUX as int <==> !hfsProbe(buf) && Ext2Fs.Probe(buf))
            && (r == FDISK_NTFS as int <==> !hfsProbe(buf) && !Ext2Fs.Probe(buf) && ntfsProbe(buf))
            && (r == 0 <==> !hfsProbe(buf) && !Ext2Fs.Probe(buf) && !ntfsProbe(buf) && Msdos.Probe(buf) == 0)
            && (r == FDISK_DOS16B as int <==> !hfsProbe(buf) && !Ext2Fs.Probe(buf) && !ntfsProbe(buf) && Msdos.Probe(buf) == 16)
            && (r == FDISK_DOS12 as int <==> !hfsProbe(buf) && !Ext2Fs.Probe(buf) && !ntfsProbe(buf) && Msdos.Probe(buf) == 12)
            && (r == FDISK_FAT32 as int <==> !hfsProbe(buf) && !Ext2Fs.Probe(buf) && !ntfsProbe(buf) && Msdos.Probe(buf) == 32))
  {
  }

  // ---------------------------------------------------------------------
  // The partitions of an FDisk disk

  /**
   * Where a walk over the chain of partition tables stands: the table as
   * it was read, the block it was read from (which its relative offsets
   * are counted from), the first extended block, the nesting depth, the
   * next slot and the last extended slot seen in this table.
   */
  datatype Pos = Pos(slots: seq<Entry>, base: nat, first: nat, depth: nat, slot: nat, ext: Option<nat>)

  predicate PosOk(p: Pos)
  {
    && |p.slots| == FDISK_NPART && p.slot <= FDISK_NPART && p.base < TWO32 && p.first < TWO32
    && (p.ext.Some? ==> p.ext.value < p.slot)
  }

  /** The four entries of a partition table. */
  function Slots(table: seq<byte>): (r: seq<Entry>)
    requires |table| == BPS
    ensures |r| == FDISK_NPART && forall s :: 0 <= s < FDISK_NPART ==> r[s] == EntryAt(table, s)
  {
    [EntryAt(table, 0), EntryAt(table, 1), EntryAt(table, 2), EntryAt(table, 3)]
  }

  /** The MBR, read at block 0, before any slot is looked at. */
  function MbrPos(mbr: seq<byte>): (p: Pos)
    requires |mbr| == BPS
    ensures PosOk(p)
  {
    Pos(Slots(mbr), 0, 0, 0, 0, None)
  }

  /** IOKit numbering: 1 to 4 for the MBR slots, depth + 4 for every entry of an extended table. */
  function PartNumber(depth: nat, slot: nat): int
  {
    if depth > 0 then depth + FDISK_NPART else slot + 1
  }

  /** A data entry: neither empty nor extended. */
  predicate IsData(e: Entry)
  {
    e.systid != 0 && !IsExtended(e.systid as nat)
  }

  /** A partition the walk hands out: its entry, with the offset made absolute, and its number. */
  datatype Part = Part(entry: Entry, partno: int)

  /**
   * The next data partition from `p`: the next data slot of the current
   * table; once the table is used up, the table its last extended slot
   * points at (counted from the first extended block), as long as that
   * block carries the boot signature and fewer than `fuel` tables have
   * been loaded. With the partition comes the position just after it.
   */
  function NextPart(reader: Reader, p: Pos, fuel: nat): (r: Option<(Part, Pos)>)
    requires PosOk(p)
    ensures r.Some? ==> PosOk(r.value.1) && r.value.1.slot >= 1
    decreases fuel, FDISK_NPART - p.slot, 1
  {
    if p.slot < FDISK_NPART then
      var e := p.slots[p.slot];
      var q := p.(slot := p.slot + 1);
      if IsExtended(e.systid as nat) then NextPart(reader, q.(ext := Some(p.slot)), fuel)
      else if e.systid == 0 then NextPart(reader, q, fuel)
      else Some((Part(Entry(e.bootid, e.systid, (e.relsect + p.base) % TWO32), PartNumber(p.depth, p.slot)), q))
    else Descend(reader, p, fuel)
  }

  /** A used-up table: the walk goes on in the table its last extended slot points at, if there is one, it can be read and fewer than `fuel` tables have been loaded. */
  function Descend(reader: Reader, p: Pos, fuel: nat): (r: Option<(Part, Pos)>)
    requires PosOk(p) && p.slot == FDISK_NPART
    ensures r.Some? ==> PosOk(r.value.1) && r.value.1.slot >= 1
    decreases fuel, 0, 0
  {
    if p.ext.Some? && fuel > 0 && BootSectorOk(reader, ExtBlock(p)) then NextPart(reader, LoadedPos(reader, p), fuel - 1)
    else None
  }

  /** The block of the table the pending extended slot points at: its offset counts from the first extended block. */
  function ExtBlock(p: Pos): nat
    requires PosOk(p) && p.ext.Some?
  {
    (p.slots[p.ext.value].relsect + p.first) % TWO32
  }

  /** The table an extended slot points at, as the cursor stands once it is loaded. */
  function LoadedPos(reader: Reader, p: Pos): (r: Pos)
    requires PosOk(p) && p.ext.Some? && BootSectorOk(reader, ExtBlock(p))
    ensures PosOk(r) && r.slot == 0 && r.ext.None?
  {
    var blkno := ExtBlock(p);
    Pos(Slots(Read(reader, blkno, BPS).value), blkno, if p.depth == 0 then blkno else p.first, p.depth + 1, 0, None)
  }

  /** A used-up table: the walk goes on in the table its pending extended slot points at, or ends when there is none, it is unreadable or no load is left. */
  lemma NextPartLoads(reader: Reader, p: Pos, fuel: nat)
    requires PosOk(p) && p.slot == FDISK_NPART
    ensures p.ext.Some? && fuel > 0 && BootSectorOk(reader, ExtBlock(p)) ==>
      NextPart(reader, p, fuel) == NextPart(reader, LoadedPos(reader, p), fuel - 1)
    ensures !(p.ext.Some? && fuel > 0 && BootSectorOk(reader, ExtBlock(p))) ==> NextPart(reader, p, fuel) == None
  {
  }

  /**
   * What `NextPart` finds is a data entry of the table it stands in, made
   * absolute from that table's block and numbered by depth and slot; the
   * walk never goes back to a shallower table.
   */
  lemma {:induction false} NextPartFound(reader: Reader, p: Pos, fuel: nat, pt: Part, q: Pos)
    requires PosOk(p) && NextPart(reader, p, fuel) == Some((pt, q))
    ensures PosOk(q) && q.slot >= 1
    ensures var e := q.slots[q.slot - 1];
      && IsData(e) && p.depth <= q.depth
      && pt == Part(Entry(e.bootid, e.systid, (e.relsect + q.base) % TWO32), PartNumber(q.depth, q.slot - 1))
    decreases fuel, FDISK_NPART - p.slot
  {
    if p.slot < FDISK_NPART {
      var e := p.slots[p.slot];
      var q' := p.(slot := p.slot + 1);
      if IsExtended(e.systid as nat) {
        NextPartFound(reader, q'.(ext := Some(p.slot)), fuel, pt, q);
      } else if e.systid == 0 {
        NextPartFound(reader, q', fuel, pt, q);
      }
    } else {
      NextPartFound(reader, LoadedPos(reader, p), fuel - 1, pt, q);
    }
  }

  /**
   * Found in the same table: the slots between the cursor and the entry
   * found hold no data entry, so the walk takes the first one left.
   */
  lemma {:induction false} NextPartIsFirst(reader: Reader, p: Pos, fuel: nat, pt: Part, q: Pos)
    requires PosOk(p) && NextPart(reader, p, fuel) == Some((pt, q)) && q.depth == p.depth
    ensures q.slots == p.slots && q.base == p.base && p.slot < q.slot
    ensures forall s :: p.slot <= s < q.slot - 1 ==> !IsData(p.slots[s])
    decreases fuel, FDISK_NPART - p.slot
  {
    if p.slot < FDISK_NPART {
      var e := p.slots[p.slot];
      var q' := p.(slot := p.slot + 1);
      if IsExtended(e.systid as nat) {
        NextPartIsFirst(reader, q'.(ext := Some(p.slot)), fuel, pt, q);
      } else if e.systid == 0 {
        NextPartIsFirst(reader, q', fuel, pt, q);
      }
    } else {
      NextPartFound(reader, LoadedPos(reader, p), fuel - 1, pt, q);
    }
  }

  /** Nothing found: no data entry is left in the current table. */
  lemma {:induction false} NextPartNone(reader: Reader, p: Pos, fuel: nat)
    requires PosOk(p) && NextPart(reader, p, fuel).None?
    ensures forall s :: p.slot <= s < FDISK_NPART ==> !IsData(p.slots[s])
    decreases FDISK_NPART - p.slot
  {
    if p.slot < FDISK_NPART {
      var e := p.slots[p.slot];
      var q := p.(slot := p.slot + 1);
      if IsExtended(e.systid as nat) {
        NextPartNone(reader, q.(ext := Some(p.slot)), fuel);
      } else {
        NextPartNone(reader, q, fuel);
      }
    }
  }

  /** Up to `n` partitions from `p`, in the order the walk hands them out. */
  function Parts(reader: Reader, p: Pos, fuel: nat, n: nat): seq<Part>
    requires PosOk(p)
    decreases n
  {
    if n == 0 then []
    else
      match NextPart(reader, p, fuel)
      case None => []
      case Some((pt, q)) => [pt] + Parts(reader, q, fuel, n - 1)
  }

  /** One step of `Parts`: the partition `NextPart` finds, then the rest from the position after it. */
  lemma PartsStep(reader: Reader, p: Pos, fuel: nat, n: nat, pt: Part, q: Pos)
    requires PosOk(p) && n > 0 && NextPart(reader, p, fuel) == Some((pt, q))
    ensures Parts(reader, p, fuel, n) == [pt] + Parts(reader, q, fuel, n - 1)
  {
  }

  /** After the partition `pt`, the drive's partitions are those seen so far, `pt`, and the rest from `q`. */
  lemma PartsAfter(reader: Reader, fuel: nat, limit: nat, seen: seq<Part>, p: Pos, n: nat, pt: Part, q: Pos)
    requires PosOk(p) && n > 0 && NextPart(reader, p, fuel) == Some((pt, q))
    requires FDiskParts(reader, fuel, limit) == seen + Parts(reader, p, fuel, n)
    ensures FDiskParts(reader, fuel, limit) == (seen + [pt]) + Parts(reader, q, fuel, n - 1)
  {
    PartsStep(reader, p, fuel, n, pt, q);
    assert seen + ([pt] + Parts(reader, q, fuel, n - 1)) == (seen + [pt]) + Parts(reader, q, fuel, n - 1);
  }

  /** The partitions of the drive: none without a signed MBR, else the first `limit` the walk from the MBR finds. */
  function FDiskParts(reader: Reader, fuel: nat, limit: nat): seq<Part>
  {
    if BootSectorOk(reader, 0) then Parts(reader, MbrPos(Read(reader, 0, BPS).value), fuel, limit) else []
  }

  /** The records a list of partitions gives, newest first; a booter partition gives none. */
  function FDiskRecords(biosdev: int, parts: seq<Part>, reader: Reader): seq<Volume>
  {
    if parts == [] then []
    else
      var last := parts[|parts| - 1];
      var rest := FDiskRecords(biosdev, parts[..|parts| - 1], reader);
      match FDiskVolume(biosdev, last.partno, last.entry, reader)
      case Some(v) => [v] + rest
      case None => rest
  }

  /** Every record of an FDisk chain is on the drive, numbered, and of a data type other than the booter's. */
  predicate ChainOk(biosdev: int, chain: seq<Volume>)
  {
    forall v :: v in chain ==>
      && v.biosdev == biosdev && v.partNo >= 1
      && 0 < v.partType < 256 && !IsExtended(v.partType as nat) && v.partType != FDISK_BOOTER as int
  }

  /** The BIOS boot volume, if the scan changed it, is an HFS booter partition of the drive. */
  predicate BooterOk(biosdev: int, b: Option<Volume>, prev: Option<Volume>)
  {
    b != prev ==> b.Some? && b.value.biosdev == biosdev && b.value.partType == FDISK_BOOTER as int && b.value.fs == HfsFs
  }

  /** The chain `diskScanFDiskBootVolumes` builds on a drive whose geometry reads. */
  function FDiskChain(biosdev: int, reader: Reader, fuel: nat, limit: nat): seq<Volume>
  {
    FDiskRecords(biosdev, FDiskParts(reader, fuel, limit), reader)
  }

  /** The BIOS boot volume after the scan: the record of the last active booter partition, else `prev`. */
  function BooterVolume(biosdev: int, parts: seq<Part>, reader: Reader, prev: Option<Volume>): Option<Volume>
  {
    if parts == [] then prev
    else
      var last := parts[|parts| - 1];
      if last.entry.systid == FDISK_BOOTER && last.entry.bootid >= FDISK_ACTIVE then
        NewFDiskVolume(biosdev, last.partno, last.entry.relsect, last.entry, HfsFs, 0, reader)
      else BooterVolume(biosdev, parts[..|parts| - 1], reader, prev)
  }

  /**
   * An MBR whose first slot holds a data partition and whose other slots
   * are empty yields exactly that partition, numbered 1, at its own offset.
   */
  lemma SinglePrimary(reader: Reader, fuel: nat, limit: nat)
    requires BootSectorOk(reader, 0) && limit >= 1
    requires var mbr := Read(reader, 0, BPS).value;
      IsData(EntryAt(mbr, 0)) && forall s :: 1 <= s < FDISK_NPART ==> EntryAt(mbr, s).systid == 0
    ensures FDiskParts(reader, fuel, limit) == [Part(EntryAt(Read(reader, 0, BPS).value, 0), 1)]
  {
    var mbr := Read(reader, 0, BPS).value;
    var p0 := MbrPos(mbr);
    var p1 := p0.(slot := 1);
    assert NextPart(reader, p0, fuel) == Some((Part(EntryAt(mbr, 0), 1), p1));
    var p2 := p1.(slot := 2);
    var p3 := p2.(slot := 3);
    var p4 := p3.(slot := 4);
    assert EntryAt(mbr, 1).systid == 0 && EntryAt(mbr, 2).systid == 0 && EntryAt(mbr, 3).systid == 0;
    assert NextPart(reader, p4, fuel) == None;
    assert NextPart(reader, p3, fuel) == None;
    assert NextPart(reader, p2, fuel) == None;
    assert NextPart(reader, p1, fuel) == None;
    assert Parts(reader, p1, fuel, limit - 1) == [];
  }

  /** Every record of the FDisk chain is the record of one of the partitions, and there are no more records than partitions. */
  lemma {:induction false} FDiskRecordsFromParts(biosdev: int, parts: seq<Part>, reader: Reader)
    ensures |FDiskRecords(biosdev, parts, reader)| <= |parts|
    ensures forall v :: v in FDiskRecords(biosdev, parts, reader) ==>
      exists k :: 0 <= k < |parts| && FDiskVolume(biosdev, parts[k].partno, parts[k].entry, reader) == Some(v)
    decreases |parts|
  {
    if parts != [] {
      var init := parts[..|parts| - 1];
      FDiskRecordsFromParts(biosdev, init, reader);
      forall v | v in FDiskRecords(biosdev, parts, reader)
        ensures exists k :: 0 <= k < |parts| && FDiskVolume(biosdev, parts[k].partno, parts[k].entry, reader) == Some(v)
      {
        if v !in FDiskRecords(biosdev, init, reader) {
          assert FDiskVolume(biosdev, parts[|parts| - 1].partno, parts[|parts| - 1].entry, reader) == Some(v);
        } else {
          var k :| 0 <= k < |init| && FDiskVolume(biosdev, init[k].partno, init[k].entry, reader) == Some(v);
          assert parts[k] == init[k];
        }
      }
    }
  }

  /** Writing a slot's `relsect` leaves every other slot's entry as it was. */
  lemma SpliceKeepsOtherSlots(table: seq<byte>, slot: nat, rel: nat)
    requires |table| == BPS && slot < FDISK_NPART && rel < TWO32
    ensures forall s :: 0 <= s < FDISK_NPART && s != slot ==>
      EntryAt(Splice(table, SlotOffset(slot) + 8, EncLE32(rel)), s) == EntryAt(table, s)
  {
    var off := SlotOffset(slot) + 8;
    var r := Splice(table, off, EncLE32(rel));
    forall s | 0 <= s < FDISK_NPART && s != slot
      ensures EntryAt(r, s) == EntryAt(table, s)
    {
      var o := SlotOffset(s);
      forall k | o <= k < o + 12
        ensures r[k] == table[k]
      {
        if s < slot {
          assert r[k] == r[..off][k] == table[..off][k];
        } else {
          assert r[k] == r[off + 4..][k - off - 4] == table[off + 4..][k - off - 4];
        }
      }
      assert r[o..o + 12] == table[o..o + 12];
      assert r[o] == r[o..o + 12][0] == table[o..o + 12][0] == table[o];
      assert r[o + 4] == r[o..o + 12][4] == table[o..o + 12][4] == table[o + 4];
      assert r[o + 8..o + 12] == r[o..o + 12][8..12] == table[o..o + 12][8..12] == table[o + 8..o + 12];
      LE32Slice(r, o + 8);
      LE32Slice(table, o + 8);
    }
  }

  // ---------------------------------------------------------------------
  // getNextFDiskPartition

  /**
   * The static cursor of `getNextFDiskPartition` and the shared boot-sector
   * buffer it reads the MBR and EBR tables into. `extPart` is the slot of
   * the pending extended entry in `sector`, which is where the C pointer
   * points.
   */
  class FDiskWalker {
    var dev: int
    var nextPartNo: nat
    var firstBase: nat
    var extBase: nat
    var extDepth: nat
    var extPart: Option<nat>
    var sector: seq<byte>

    ghost predicate Valid()
      reads this
    {
      && |sector| == BPS && nextPartNo <= FDISK_NPART
      && firstBase < TWO32 && extBase < TWO32
      && (extPart.Some? ==> extPart.value < FDISK_NPART)
    }

    /** The statics start with no device; the buffer is allocated on first use. */
    constructor()
      ensures Valid() && dev == -1 && nextPartNo == 0 && extPart.None?
    {
      dev, nextPartNo, firstBase, extBase, extDepth, extPart := -1, 0, 0, 0, 0, None;
      sector := Zeros(BPS);
    }

    /** `readBootSector` into the shared buffer: the bytes land there whenever the read succeeds, signature or not. */
    method ReadBootSector(secno: nat, reader: Reader) returns (rc: int)
      requires Valid()
      modifies this
      ensures Valid()
      ensures rc == 0 <==> BootSectorOk(reader, secno)
      ensures rc == 0 || rc == -1
      ensures sector == if reader(secno, BPS).Some? then Read(reader, secno, BPS).value else old(sector)
      ensures rc == 0 ==> sector == Read(reader, secno, BPS).value
      ensures dev == old(dev) && nextPartNo == old(nextPartNo) && firstBase == old(firstBase)
      ensures extBase == old(extBase) && extDepth == old(extDepth) && extPart == old(extPart)
    {
      var r := Read(reader, secno, BPS);
      if r.None? {
        return -1;
      }
      sector := r.value;
      rc := if LE16(sector, SIGNATURE_OFFSET) == DISK_SIGNATURE then 0 else -1;
    }

    /** What a yielded entry is: the table entry at `slot`, made absolute by the extended base, written back in place. */
    ghost predicate Relocated(slot: nat, part: Entry, table: seq<byte>)
      reads this
      requires Valid() && slot < FDISK_NPART
    {
      && |table| == BPS
      && part.systid == EntryAt(table, slot).systid && part.bootid == EntryAt(table, slot).bootid
      && part.relsect == (EntryAt(table, slot).relsect + extBase) % TWO32
      && sector == Splice(table, SlotOffset(slot) + 8, EncLE32(part.relsect))
      && part == EntryAt(sector, slot)
    }

    /** `part->relsect += sExtBase`: the yielded entry is made absolute in the table itself. */
    method Relocate(slot: nat) returns (part: Entry, ghost table: seq<byte>)
      requires Valid() && slot < FDISK_NPART
      modifies this
      ensures Valid() && table == old(sector) && Relocated(slot, part, table)
      ensures dev == old(dev) && nextPartNo == old(nextPartNo) && firstBase == old(firstBase)
      ensures extBase == old(extBase) && extDepth == old(extDepth) && extPart == old(extPart)
    {
      table := sector;
      var e := EntryAt(sector, slot);
      var rel := (e.relsect + extBase) % TWO32;
      sector := Splice(sector, SlotOffset(slot) + 8, EncLE32(rel));
      part := Entry(e.bootid, e.systid, rel);
      RelocatedEntry(table, slot, rel);
    }

    /** The cursor stands at `p`: the fields hold its bases, depth and slot, and the slots still to visit read as in its table. */
    ghost predicate At(p: Pos)
      reads this
    {
      && Valid() && PosOk(p)
      && (nextPartNo, extDepth, firstBase, extBase, extPart) == (p.slot, p.depth, p.first, p.base, p.ext)
      && (forall s :: p.slot <= s < FDISK_NPART ==> EntryAt(sector, s) == p.slots[s])
      && (p.ext.Some? ==> EntryAt(sector, p.ext.value) == p.slots[p.ext.value])
    }

    /**
     * `getNextFDiskPartition`: the next data partition of the drive, walking
     * the four MBR slots and then the chain of extended tables. A new drive
     * or a negative `partno` restarts from the MBR; otherwise the walk goes
     * on from where the cursor stands (`p`). What is found is exactly what
     * `NextPart` finds from there, so nothing is skipped. A yielded entry
     * has its `relsect` made absolute in place. `fuel` bounds the number of
     * extended tables loaded in one call.
     */
    method Next(biosdev: int, partno: int, reader: Reader, fuel: nat, ghost p: Pos)
        returns (found: bool, newPartno: int, part: Entry, ghost table: seq<byte>, ghost q: Pos)
      requires Valid()
      requires dev == biosdev && partno >= 0 ==> At(p)
      modifies this
      ensures Valid()
      ensures !found ==> newPartno == partno
      ensures found ==>
        && 1 <= nextPartNo <= FDISK_NPART
        && part.systid != 0 && !IsExtended(part.systid)
        && newPartno == (if extDepth > 0 then extDepth + FDISK_NPART else nextPartNo)
        && Relocated(nextPartNo - 1, part, table)
      ensures old(dev) == biosdev && partno >= 0 ==>
        && (found <==> NextPart(reader, p, fuel).Some?)
        && (found ==> NextPart(reader, p, fuel).value == (Part(part, newPartno), q))
      ensures !(old(dev) == biosdev && partno >= 0) ==>
        && (found <==> BootSectorOk(reader, 0) && NextPart(reader, MbrPos(Read(reader, 0, BPS).value), fuel).Some?)
        && (found ==> NextPart(reader, MbrPos(Read(reader, 0, BPS).value), fuel).value == (Part(part, newPartno), q))
      ensures found ==> At(q) && dev == biosdev
    {
      newPartno, part, table, q := partno, Entry(0, 0, 0), sector, p;
      ghost var start := p;
      if dev != biosdev || partno < 0 {
        var ok;
        ok, start := Restart(biosdev, reader);
        if !ok {
          return false, newPartno, part, table, q;
        }
      }
      found, newPartno, part, table, q := Walk(partno, reader, fuel, start);
    }

    /** A new drive, or a restart: the MBR is read and the cursor stands before its first slot. */
    method Restart(biosdev: int, reader: Reader) returns (ok: bool, ghost start: Pos)
      requires Valid()
      modifies this
      ensures Valid()
      ensures ok <==> BootSectorOk(reader, 0)
      ensures ok ==> dev == biosdev && At(start) && start == MbrPos(Read(reader, 0, BPS).value)
    {
      var rc := ReadBootSector(0, reader);
      ok := rc == 0;
      start := MbrPos(sector);
      if ok {
        dev, nextPartNo, firstBase, extBase, extDepth, extPart := biosdev, 0, 0, 0, 0, None;
      }
    }

    /** The loop of `getNextFDiskPartition`, from the cursor at `p`: slots of the current table, then the next extended table. */
    method Walk(partno: int, reader: Reader, fuel: nat, ghost p: Pos)
        returns (found: bool, newPartno: int, part: Entry, ghost table: seq<byte>, ghost q: Pos)
      requires At(p)
      modifies this
      ensures Valid() && dev == old(dev)
      ensures !found ==> newPartno == partno
      ensures found ==>
        && 1 <= nextPartNo <= FDISK_NPART
        && part.systid != 0 && !IsExtended(part.systid)
        && newPartno == (if extDepth > 0 then extDepth + FDISK_NPART else nextPartNo)
        && Relocated(nextPartNo - 1, part, table)
      ensures !found ==> NextPart(reader, p, fuel) == None
      ensures found ==> NextPart(reader, p, fuel) == Some((Part(part, newPartno), q)) && At(q)
    {
      newPartno, part, table, q := partno, Entry(0, 0, 0), sector, p;
      var loads := fuel;
      ghost var at := p;
      ghost var goal := NextPart(reader, p, fuel);
      while true
        invariant Walking(reader, goal, at, loads) && dev == old(dev)
        decreases loads, FDISK_NPART - nextPartNo
      {
        var stop, took, left, pt, tb, next := Advance(reader, loads, at, goal);
        if took {
          newPartno := PartNumber(extDepth, nextPartNo - 1);
          return true, newPartno, pt, tb, next;
        }
        if stop {
          return false, newPartno, part, table, q;
        }
        loads, at := left, next;
      }
    }

    /** The walk stands at `at` with `loads` tables still allowed, and what it will find from there is `goal`. */
    ghost predicate Walking(reader: Reader, goal: Option<(Part, Pos)>, at: Pos, loads: nat)
      reads this
    {
      At(at) && goal == NextPart(reader, at, loads)
    }

    /**
     * One pass of the loop: the next slot of the current table, or the
     * next extended table once the current one is used up; the walk stops
     * with a data entry, or with nothing when no table is left to load.
     */
    method Advance(reader: Reader, loads: nat, ghost at: Pos, ghost goal: Option<(Part, Pos)>)
        returns (stop: bool, took: bool, left: nat, part: Entry, ghost table: seq<byte>, ghost next: Pos)
      requires Walking(reader, goal, at, loads)
      modifies this
      ensures Valid() && dev == old(dev)
      ensures !stop ==> Walking(reader, goal, next, left) && (left < loads || (left == loads && nextPartNo > old(nextPartNo)))
      ensures stop && !took ==> goal == None
      ensures took ==>
        && stop && 1 <= nextPartNo <= FDISK_NPART
        && part.systid != 0 && !IsExtended(part.systid)
        && Relocated(nextPartNo - 1, part, table)
        && goal == Some((Part(part, PartNumber(extDepth, nextPartNo - 1)), next)) && At(next)
    {
      left, part, table, next := loads, Entry(0, 0, 0), sector, at;
      if nextPartNo < FDISK_NPART {
        took, part, table, next := Visit(reader, loads, at);
        stop := took;
      } else if extPart.Some? && loads > 0 {
        var ok;
        NextPartLoads(reader, at, loads);
        ok, next := Load(reader, at);
        left := loads - 1;
        stop, took := !ok, false;
      } else {
        NextPartLoads(reader, at, loads);
        stop, took := true, false;
      }
    }

    /**
     * One slot of the current table: the cursor moves past it; an extended
     * entry is remembered, an empty one skipped, and a data entry is made
     * absolute in place and taken.
     */
    method Visit(reader: Reader, loads: nat, ghost at: Pos)
        returns (took: bool, part: Entry, ghost table: seq<byte>, ghost next: Pos)
      requires At(at) && nextPartNo < FDISK_NPART
      modifies this
      ensures At(next) && dev == old(dev)
      ensures nextPartNo == old(nextPartNo) + 1 && extDepth == old(extDepth)
      ensures !took ==> NextPart(reader, at, loads) == NextPart(reader, next, loads)
      ensures took ==>
        && part.systid != 0 && !IsExtended(part.systid)
        && Relocated(nextPartNo - 1, part, table)
        && NextPart(reader, at, loads) == Some((Part(part, PartNumber(extDepth, nextPartNo - 1)), next))
    {
      var e := EntryAt(sector, nextPartNo);
      table := sector;
      nextPartNo := nextPartNo + 1;
      if IsExtended(e.systid) {
        extPart := Some(nextPartNo - 1);
        return false, e, table, at.(slot := nextPartNo, ext := extPart);
      }
      if e.systid == 0 {
        return false, e, table, at.(slot := nextPartNo);
      }
      part, table, next := Take(reader, loads, at);
      took := true;
    }

    /** The slot just passed holds a data entry: it is made absolute in place and handed out. */
    method Take(reader: Reader, loads: nat, ghost at: Pos) returns (part: Entry, ghost table: seq<byte>, ghost next: Pos)
      requires Valid() && PosOk(at) && nextPartNo == at.slot + 1 <= FDISK_NPART
      requires extDepth == at.depth && firstBase == at.first && extBase == at.base && extPart == at.ext
      requires forall s :: at.slot <= s < FDISK_NPART ==> EntryAt(sector, s) == at.slots[s]
      requires at.ext.Some? ==> EntryAt(sector, at.ext.value) == at.slots[at.ext.value]
      requires IsData(EntryAt(sector, at.slot))
      modifies this
      ensures At(next) && dev == old(dev) && nextPartNo == old(nextPartNo) && extDepth == old(extDepth)
      ensures part.systid != 0 && !IsExtended(part.systid)
      ensures Relocated(nextPartNo - 1, part, table)
      ensures NextPart(reader, at, loads) == Some((Part(part, PartNumber(extDepth, nextPartNo - 1)), next))
    {
      part, table := Relocate(nextPartNo - 1);
      SpliceKeepsOtherSlots(table, nextPartNo - 1, part.relsect);
      next := at.(slot := nextPartNo);
    }

    /**
     * The current table is used up and an extended entry is pending: the
     * table it points at (from the first extended block) is read into the
     * buffer, which the cursor then walks from its first slot.
     */
    method Load(reader: Reader, ghost at: Pos) returns (ok: bool, ghost next: Pos)
      requires At(at) && nextPartNo == FDISK_NPART && extPart.Some?
      modifies this
      ensures Valid() && dev == old(dev)
      ensures ok <==> BootSectorOk(reader, ExtBlock(at))
      ensures ok ==> next == LoadedPos(reader, at) && At(next)
    {
      var blkno := (EntryAt(sector, extPart.value).relsect + firstBase) % TWO32;
      assert blkno == ExtBlock(at);
      ok := LoadTable(blkno, reader);
      next := if ok then LoadedPos(reader, at) else at;
    }

    /**
     * The statics' part of the load: the bases take the block (the first
     * one only at depth 0), and a table read with its signature resets
     * the cursor one level deeper.
     */
    method LoadTable(blkno: nat, reader: Reader) returns (ok: bool)
      requires Valid() && blkno < TWO32
      modifies this
      ensures Valid() && dev == old(dev)
      ensures ok <==> BootSectorOk(reader, blkno)
      ensures ok ==>
        && sector == Read(reader, blkno, BPS).value && extBase == blkno
        && firstBase == (if old(extDepth) == 0 then blkno else old(firstBase))
        && (nextPartNo, extDepth, extPart) == (0, old(extDepth) + 1, None)
    {
      if extDepth == 0 {
        firstBase := blkno;
      }
      extBase := blkno;
      var rc := ReadBootSector(blkno, reader);
      if rc == 0 {
        nextPartNo, extDepth, extPart := 0, extDepth + 1, None;
      }
      ok := rc == 0;
    }
  }

  /** Writing a new `relsect` into a slot changes that field and nothing else the entry holds. */
  lemma RelocatedEntry(table: seq<byte>, slot: nat, rel: nat)
    requires |table| == BPS && slot < FDISK_NPART && rel < TWO32
    ensures var r := Splice(table, SlotOffset(slot) + 8, EncLE32(rel));
      && |r| == BPS
      && EntryAt(r, slot) == Entry(EntryAt(table, slot).bootid, EntryAt(table, slot).systid, rel)
  {
    var off := SlotOffset(slot) + 8;
    var r := Splice(table, off, EncLE32(rel));
    LE32Slice(r, off);
    assert r[off..off + 4] == EncLE32(rel);
    assert r[SlotOffset(slot)] == r[..off][SlotOffset(slot)];
    assert r[SlotOffset(slot) + 4] == r[..off][SlotOffset(slot) + 4];
  }

  // ---------------------------------------------------------------------
  // GPT

  const GPT_HDR_SIG: string := "EFI PART"
  const GPT_HDR_SIZE: nat := 12
  const GPT_HDR_CRC_SELF: nat := 16
  const GPT_HDR_LBA_TABLE: nat := 72
  const GPT_HDR_ENTRIES: nat := 80
  const GPT_HDR_ENTSZ: nat := 84
  /** offsetof(gpt_hdr, padding) and sizeof(gpt_ent). */
  const GPT_HDR_MIN: nat := 92
  const GPT_ENT_SIZE: nat := 128
  const GPT_ENT_LBA_START: nat := 32

  /** `IORound(value, BPS)` on 32-bit unsigned values: the sum can wrap before the division. */
  function IORound32(value: nat): (r: nat)
    requires value < TWO32
    ensures r % BPS == 0 && r <= (value + BPS - 1) % TWO32
    ensures value + BPS - 1 < TWO32 ==> value <= r < value + BPS
  {
    var x := (value + BPS - 1) % TWO32;
    (x / BPS) * BPS
  }

  /** An MBR slot marks the disk as GPT-protected. */
  predicate Protective(mbr: seq<byte>, slot: nat)
    requires |mbr| == BPS && slot < FDISK_NPART
  {
    EntryAt(mbr, slot).systid == GPT_PROTECTIVE
  }

  /** How many of the four MBR slots carry type 0xEE. */
  function ProtectiveCount(mbr: seq<byte>): nat
    requires |mbr| == BPS
  {
    (if Protective(mbr, 0) then 1 else 0) + (if Protective(mbr, 1) then 1 else 0)
    + (if Protective(mbr, 2) then 1 else 0) + (if Protective(mbr, 3) then 1 else 0)
  }

  /** Where the entry array is and how large its buffer is. */
  datatype GptLayout = GptLayout(lba: nat, count: nat, entrySize: nat, bufferSize: nat)

  /** The header with its own CRC field zeroed, as far as the header size reaches. */
  function CrcInput(hdr: seq<byte>): seq<byte>
    requires |hdr| == BPS && LE32(hdr, GPT_HDR_SIZE) <= BPS
  {
    Splice(hdr, GPT_HDR_CRC_SELF, [0, 0, 0, 0])[..LE32(hdr, GPT_HDR_SIZE)]
  }

  /** The checks of `diskScanGPTBootVolumes` before any map is created, in their order. */
  function GptHeader(mbr: seq<byte>, hdr: seq<byte>, crc32: seq<byte> -> nat): Option<GptLayout>
    requires |mbr| == BPS && |hdr| == BPS
  {
    if LE16(mbr, SIGNATURE_OFFSET) != DISK_SIGNATURE then None
    else if ProtectiveCount(mbr) != 1 then None
    else if Text(hdr[..|GPT_HDR_SIG|]) != GPT_HDR_SIG then None
    else
      var size := LE32(hdr, GPT_HDR_SIZE);
      if size < GPT_HDR_MIN || size > BPS then None
      else if crc32(CrcInput(hdr)) % TWO32 != LE32(hdr, GPT_HDR_CRC_SELF) then None
      else
        var entsz := LE32(hdr, GPT_HDR_ENTSZ);
        var count := LE32(hdr, GPT_HDR_ENTRIES);
        if entsz < GPT_ENT_SIZE then None
        else
          var bufferSize := IORound32(Disk.MulNat(count, entsz) % TWO32);
          if bufferSize == 0 then None
          else Some(GptLayout(LE64(hdr, GPT_HDR_LBA_TABLE), count, entsz, bufferSize))
  }

  /** The conditions a GPT disk must meet, each stated on its own. */
  predicate GptHeaderOk(mbr: seq<byte>, hdr: seq<byte>, crc32: seq<byte> -> nat)
    requires |mbr| == BPS && |hdr| == BPS
  {
    ProtectiveMbr(mbr) && GptHeaderSane(hdr, crc32)
  }

  /** A signed MBR with exactly one slot of type 0xEE. */
  predicate ProtectiveMbr(mbr: seq<byte>)
    requires |mbr| == BPS
  {
    && LE16(mbr, SIGNATURE_OFFSET) == DISK_SIGNATURE
    && exists k :: 0 <= k < FDISK_NPART && Protective(mbr, k)
         && forall j :: 0 <= j < FDISK_NPART && j != k ==> !Protective(mbr, j)
  }

  /** A header with the "EFI PART" signature, a plausible size, a matching CRC and a usable entry array. */
  predicate GptHeaderSane(hdr: seq<byte>, crc32: seq<byte> -> nat)
    requires |hdr| == BPS
  {
    && hdr[..8] == Latin1(GPT_HDR_SIG)
    && GPT_HDR_MIN <= LE32(hdr, GPT_HDR_SIZE) <= BPS
    && crc32(CrcInput(hdr)) % TWO32 == LE32(hdr, GPT_HDR_CRC_SELF)
    && LE32(hdr, GPT_HDR_ENTSZ) >= GPT_ENT_SIZE
    && IORound32(Disk.MulNat(LE32(hdr, GPT_HDR_ENTRIES), LE32(hdr, GPT_HDR_ENTSZ)) % TWO32) > 0
  }

  /** The header is accepted exactly when every condition holds. */
  lemma GptHeaderValid(mbr: seq<byte>, hdr: seq<byte>, crc32: seq<byte> -> nat)
    requires |mbr| == BPS && |hdr| == BPS
    ensures GptHeader(mbr, hdr, crc32).Some? <==> GptHeaderOk(mbr, hdr, crc32)
  {
    ExactlyOneProtective(mbr);
    SignatureText(hdr[..8]);
  }

  /** An accepted header gives the entry array as the header states it, in whole sectors. */
  lemma GptHeaderLayout(mbr: seq<byte>, hdr: seq<byte>, crc32: seq<byte> -> nat)
    requires |mbr| == BPS && |hdr| == BPS
    requires GptHeader(mbr, hdr, crc32).Some?
    ensures var l := GptHeader(mbr, hdr, crc32).value;
      && l.count == LE32(hdr, GPT_HDR_ENTRIES) && l.entrySize == LE32(hdr, GPT_HDR_ENTSZ)
      && l.lba == LE64(hdr, GPT_HDR_LBA_TABLE) && l.bufferSize % BPS == 0
  {
  }

  /** `fdiskID` ends nonzero without a second 0xEE exactly when one slot is protective. */
  lemma ExactlyOneProtective(mbr: seq<byte>)
    requires |mbr| == BPS
    ensures ProtectiveCount(mbr) == 1 <==>
      exists k :: 0 <= k < FDISK_NPART && Protective(mbr, k)
        && forall j :: 0 <= j < FDISK_NPART && j != k ==> !Protective(mbr, j)
  {
    if ProtectiveCount(mbr) == 1 {
      var k := if Protective(mbr, 0) then 0 else if Protective(mbr, 1) then 1 else if Protective(mbr, 2) then 2 else 3;
      assert Protective(mbr, k) && forall j :: 0 <= j < FDISK_NPART && j != k ==> !Protective(mbr, j);
    }
  }

  /** The eight signature bytes compared as text or as bytes. */
  lemma SignatureText(sig: seq<byte>)
    requires |sig| == 8
    ensures Text(sig) == GPT_HDR_SIG <==> sig == Latin1(GPT_HDR_SIG)
  {
    if Text(sig) == GPT_HDR_SIG {
      forall i | 0 <= i < 8 ensures sig[i] == GPT_HDR_SIG[i] as int {
        assert Text(sig)[i] == sig[i] as char;
      }
    }
  }

  /** The Apple GUIDs and the three foreign ones differ in their first byte. */
  lemma GuidsDiffer()
    ensures GPT_HFS_GUID[0] == 0x00 && GPT_BOOT_GUID[0] == 0x74 && GPT_EFISYS_GUID[0] == 0x28
    ensures GPT_BASICDATA_GUID[0] == 0xA2 && GPT_BASICDATA2_GUID[0] == 0x16
    ensures |GPT_HFS_GUID| == 16 && |GPT_BOOT_GUID| == 16 && |GPT_EFISYS_GUID| == 16
    ensures |GPT_BASICDATA_GUID| == 16 && |GPT_BASICDATA2_GUID| == 16
  {
  }

  /** One entry of the table: what the loop body of the GPT scan turns it into. */
  function GptEntryVolume(biosdev: int, id: nat, entry: seq<byte>, fsType: int, reader: Reader): Option<Volume>
    requires |entry| == GPT_ENT_SIZE
  {
    var t := entry[..16];
    var blk := LE64(entry, GPT_ENT_LBA_START) % TWO32;
    var bvr :=
      if t == GPT_BOOT_GUID || t == GPT_HFS_GUID then
        NewGptVolume(biosdev, id, blk, t, HfsFs, if t == GPT_BOOT_GUID then kBVFlagBooter else 0, reader)
      else if t == GPT_BASICDATA_GUID || t == GPT_BASICDATA2_GUID then
        NewGptVolume(biosdev, id, blk, t, if fsType == FDISK_NTFS as int then NtfsDescription else NoFs, 0, reader)
      else if t == GPT_EFISYS_GUID then
        if fsType == FDISK_HFS as int then
          if BootSectorOk(reader, blk) then NewGptVolume(biosdev, id, blk, t, HfsFs, kBVFlagEFISystem, reader) else None
        else if fsType == FDISK_FAT32 as int then
          if Fat32EfiBootSectorOk(reader, blk) then NewGptVolume(biosdev, id, blk, t, MsdosFs, kBVFlagEFISystem, reader) else None
        else None
      else None;
    if bvr.Some? && fsType > 0 then Some(bvr.value.(partType := fsType)) else bvr
  }

  /** How entries are classified. */
  lemma GptClassification(biosdev: int, id: nat, entry: seq<byte>, fsType: int, reader: Reader)
    requires |entry| == GPT_ENT_SIZE
    ensures var t := entry[..16];
      var r := GptEntryVolume(biosdev, id, entry, fsType, reader);
      && (t == GPT_BOOT_GUID || t == GPT_HFS_GUID ==> r.Some? && r.value.fs == HfsFs && Has(r.value.flags, kBVFlagNativeBoot))
      && ((t != GPT_BOOT_GUID && t != GPT_HFS_GUID && t != GPT_EFISYS_GUID
           && t != GPT_BASICDATA_GUID && t != GPT_BASICDATA2_GUID) ==> r.None?)
      && (t == GPT_EFISYS_GUID && fsType != FDISK_HFS as int && fsType != FDISK_FAT32 as int ==> r.None?)
      && (r.Some? ==>
            && r.value.partNo == id && r.value.biosdev == biosdev
            && r.value.partBoff == LE64(entry, GPT_ENT_LBA_START) % TWO32
            && r.value.partType == (if fsType > 0 then fsType else 0)
            && (Has(r.value.flags, kBVFlagBooter) <==> t == GPT_BOOT_GUID)
            && (Has(r.value.flags, kBVFlagEFISystem) <==> t == GPT_EFISYS_GUID)
            && (r.value.typeName == "GPT HFS+" <==> t == GPT_BOOT_GUID || t == GPT_HFS_GUID))
  {
    GuidsDiffer();
  }

  /** The entry `id` (1-based) of the table: its 128 bytes at the 32-bit offset the scan computes. */
  function GptEntryBytes(table: seq<byte>, id: nat, entrySize: nat): (r: seq<byte>)
    requires id >= 1
    ensures |r| == GPT_ENT_SIZE
  {
    var at := ((id - 1) * entrySize) % TWO32;
    seq<byte>(GPT_ENT_SIZE, k requires 0 <= k < GPT_ENT_SIZE => ByteAt(table, at + k))
  }

  /** `isPartitionUsed`: the type GUID is not all zeros. */
  predicate Used(entry: seq<byte>)
    requires |entry| == GPT_ENT_SIZE
  {
    exists k :: 0 <= k < 16 && entry[k] != 0
  }

  /** What entry `id` contributes to the chain. */
  function GptEntry(biosdev: int, id: nat, table: seq<byte>, entrySize: nat, reader: Reader,
                    hfsProbe: seq<byte> -> bool, ntfsProbe: seq<byte> -> bool): Option<Volume>
    requires id >= 1
  {
    var e := GptEntryBytes(table, id, entrySize);
    if !Used(e) then None
    else GptEntryVolume(biosdev, id, e, ProbeFileSystem(reader, LE64(e, GPT_ENT_LBA_START) % TWO32, hfsProbe, ntfsProbe), reader)
  }

  /** The chain after entries 1..n, each new record pushed at the head. */
  function GptVolumes(biosdev: int, n: nat, table: seq<byte>, entrySize: nat, reader: Reader,
                      hfsProbe: seq<byte> -> bool, ntfsProbe: seq<byte> -> bool): seq<Volume>
  {
    if n == 0 then []
    else
      var v := GptEntry(biosdev, n, table, entrySize, reader, hfsProbe, ntfsProbe);
      (if v.Some? then [v.value] else []) + GptVolumes(biosdev, n - 1, table, entrySize, reader, hfsProbe, ntfsProbe)
  }

  /** Every record on the GPT chain comes from a used entry, numbered by its 1-based index. */
  lemma {:induction false} GptVolumesFromEntries(biosdev: int, n: nat, table: seq<byte>, entrySize: nat, reader: Reader,
                                                 hfsProbe: seq<byte> -> bool, ntfsProbe: seq<byte> -> bool)
    ensures forall v :: v in GptVolumes(biosdev, n, table, entrySize, reader, hfsProbe, ntfsProbe) ==>
      && 1 <= v.partNo <= n && v.biosdev == biosdev
      && Used(GptEntryBytes(table, v.partNo, entrySize))
      && GptEntry(biosdev, v.partNo, table, entrySize, reader, hfsProbe, ntfsProbe) == Some(v)
  {
    if n > 0 {
      GptVolumesFromEntries(biosdev, n - 1, table, entrySize, reader, hfsProbe, ntfsProbe);
      var e := GptEntryBytes(table, n, entrySize);
      if Used(e) {
        GptClassification(biosdev, n, e, ProbeFileSystem(reader, LE64(e, GPT_ENT_LBA_START) % TWO32, hfsProbe, ntfsProbe), reader);
      }
    }
  }

  // ---------------------------------------------------------------------
  // FDisk classification

  predicate IsFat(systid: nat)
  {
    systid in {FDISK_FAT32, FDISK_DOS12, FDISK_DOS16S, FDISK_DOS16B, FDISK_SMALLFAT32, FDISK_DOS16SLBA}
  }

  /** The hooks `diskScanFDiskBootVolumes` gives a partition type. */
  function FDiskFs(systid: nat): FsKind
  {
    if systid == FDISK_HFS then HfsFs
    else if IsFat(systid) then MsdosFs
    else if systid == FDISK_NTFS then NtfsDescription
    else if systid == FDISK_LINUX then Ext2Description
    else NoFs
  }

  /** What a yielded partition adds to the drive's chain; a booter partition never goes there. */
  function FDiskVolume(biosdev: int, partno: int, part: Entry, reader: Reader): Option<Volume>
  {
    if part.systid == FDISK_BOOTER then None
    else NewFDiskVolume(biosdev, partno, part.relsect, part, FDiskFs(part.systid), 0, reader)
  }

  lemma FDiskClassification(biosdev: int, partno: int, part: Entry, reader: Reader)
    ensures var r := FDiskVolume(biosdev, partno, part, reader);
      && (part.systid == FDISK_BOOTER ==> r.None?)
      && (part.systid == FDISK_HFS || IsFat(part.systid) ==> r.Some? && Has(r.value.flags, kBVFlagNativeBoot))
      && (part.systid != FDISK_BOOTER && !(part.systid == FDISK_HFS || IsFat(part.systid)) ==>
            (r.Some? <==> BootSectorOk(reader, part.relsect)))
      && (r.Some? ==>
            && r.value.partType == part.systid as int && r.value.partNo == partno && r.value.partBoff == part.relsect
            && (r.value.fs == HfsFs <==> part.systid == FDISK_HFS)
            && (r.value.fs == MsdosFs <==> IsFat(part.systid))
            && (r.value.fs == NtfsDescription <==> part.systid == FDISK_NTFS)
            && (r.value.fs == Ext2Description <==> part.systid == FDISK_LINUX))
  {
    FDiskVolumeFlags(biosdev, partno, part.relsect, part, FDiskFs(part.systid), reader);
  }

  // ---------------------------------------------------------------------
  // Apple partition map

  /** Block size and sector factor from block 0: the driver descriptor's when it has the "ER" signature. */
  function ApmGeometry(block0: seq<byte>): (g: (nat, nat))
    ensures g.1 == g.0 / BPS
  {
    if BE16(block0, 0) == BLOCK0_SIGNATURE then (BE16(block0, 2), BE16(block0, 2) / BPS) else (BPS, 1)
  }

  /** The map entry `i` as the scan reads it. */
  function ApmEntry(reader: Reader, i: nat, blksize: nat, factor: nat): Option<seq<byte>>
  {
    Read(reader, ((kAPMSector + i) * factor) % TWO32, blksize)
  }

  /** The reads of the map entries, one block each, as a function of the entry number. */
  function ApmEntries(reader: Reader, blksize: nat, factor: nat): nat -> Option<seq<byte>>
  {
    (i: nat) => ApmEntry(reader, i, blksize, factor)
  }

  predicate IsAppleHfs(dpme: seq<byte>)
  {
    CText(dpme, DPME_TYPE, |dpme|) == "Apple_HFS"
  }

  /**
   * The chain the entries from `i` on add, given the entry count `npart`
   * in force (UINT_MAX until entry 0 is read): the walk stops at the first
   * entry that fails to read or lacks the "PM" signature.
   */
  function ApmVolumes(biosdev: int, entries: nat -> Option<seq<byte>>, factor: nat, i: nat, npart: nat): seq<Volume>
    requires npart < TWO32
    decreases TWO32 - i
  {
    if i >= npart then []
    else
      var r := entries(i);
      if r.None? || BE16(r.value, 0) != DPME_SIGNATURE then []
      else
        var np := if i == 0 then BE32(r.value, DPME_MAP_ENTRIES) else npart;
        ApmVolumes(biosdev, entries, factor, i + 1, np) + ApmOwn(biosdev, i, r.value, factor)
  }

  /** The record entry `i` adds: one for an "Apple_HFS" entry, at its start block scaled to 512-byte sectors. */
  function ApmOwn(biosdev: int, i: nat, dpme: seq<byte>, factor: nat): seq<Volume>
  {
    if IsAppleHfs(dpme) then [NewApmVolume(biosdev, i, (BE32(dpme, DPME_PBLOCK_START) * factor) % TWO32, dpme, 0)]
    else []
  }

  /** Moving a run from the pending part of a chain to its built part. */
  lemma Regroup(whole: seq<Volume>, later: seq<Volume>, own: seq<Volume>, built: seq<Volume>)
    requires whole == later + own + built
    ensures whole == later + (own + built)
    ensures own == [] ==> whole == later + built
  {
  }

  /** One entry of the map: the chain it adds sits below the chains of the entries after it. */
  lemma ApmStep(biosdev: int, entries: nat -> Option<seq<byte>>, factor: nat, i: nat, npart: nat, dpme: seq<byte>)
    requires i < npart < TWO32
    requires entries(i) == Some(dpme) && BE16(dpme, 0) == DPME_SIGNATURE
    ensures var np := if i == 0 then BE32(dpme, DPME_MAP_ENTRIES) else npart;
      && ApmVolumes(biosdev, entries, factor, i, npart)
         == ApmVolumes(biosdev, entries, factor, i + 1, np) + ApmOwn(biosdev, i, dpme, factor)
      && |ApmOwn(biosdev, i, dpme, factor)| == (if IsAppleHfs(dpme) then 1 else 0)
  {
  }

  /** Every APM record is an "Apple_HFS" entry of the map, native, bootable and a system volume. */
  lemma {:induction false} ApmVolumesAreHfs(biosdev: int, entries: nat -> Option<seq<byte>>, factor: nat, i: nat, npart: nat)
    requires npart < TWO32
    ensures forall v :: v in ApmVolumes(biosdev, entries, factor, i, npart) ==> ApmRecord(v, biosdev, i)
    decreases TWO32 - i
  {
    if i < npart {
      var r := entries(i);
      if r.Some? && BE16(r.value, 0) == DPME_SIGNATURE {
        var np := if i == 0 then BE32(r.value, DPME_MAP_ENTRIES) else npart;
        ApmVolumesAreHfs(biosdev, entries, factor, i + 1, np);
        ApmStep(biosdev, entries, factor, i, npart, r.value);
        var later := ApmVolumes(biosdev, entries, factor, i + 1, np);
        var own := ApmOwn(biosdev, i, r.value, factor);
        ApmOwnRecord(biosdev, i, r.value, factor);
        assert forall v :: v in later ==> ApmRecord(v, biosdev, i);
      }
    }
  }

  lemma ApmOwnRecord(biosdev: int, i: nat, dpme: seq<byte>, factor: nat)
    ensures forall v :: v in ApmOwn(biosdev, i, dpme, factor) ==> ApmRecord(v, biosdev, i)
  {
    ApmVolumeFlags(biosdev, i, (BE32(dpme, DPME_PBLOCK_START) * factor) % TWO32, dpme);
  }

  /** What every APM record satisfies, for entries from `i` on. */
  predicate ApmRecord(v: Volume, biosdev: int, i: nat)
  {
    && v.biosdev == biosdev && i <= v.partNo && v.fs == HfsFs
    && Has(v.flags, kBVFlagNativeBoot) && Has(v.flags, kBVFlagBootable) && Has(v.flags, kBVFlagSystemVolume)
  }

  // Apple partition map fields.
  const BLOCK0_SIGNATURE: nat := 0x4552
  const DPME_SIGNATURE: nat := 0x504D
  const kAPMSector: nat := 2
  const DPME_MAP_ENTRIES: nat := 4
  const DPME_PBLOCK_START: nat := 8
  const DPME_NAME: nat := 16
  const DPME_TYPE: nat := 48

  // ---------------------------------------------------------------------
  // The per-drive maps and the three scanners

  /** A `struct DiskBVMap`: a drive, its chain of records (newest first) and their count. */
  datatype DiskMap = DiskMap(biosdev: int, bvrs: seq<Volume>, count: int)

  /** The position of the first map of the drive in the map list, or the list's length when there is none. */
  function FirstMap(maps: seq<DiskMap>, biosdev: int): (i: nat)
    ensures i <= |maps|
    ensures i < |maps| ==> maps[i].biosdev == biosdev
    ensures forall j :: 0 <= j < i ==> maps[j].biosdev != biosdev
  {
    if maps == [] then 0
    else if maps[0].biosdev == biosdev then 0
    else 1 + FirstMap(maps[1..], biosdev)
  }

  /** The reads and checks that come before the GPT map is created: the layout and the entry array, or nothing. */
  function GptTable(reader: Reader, crc32: seq<byte> -> nat): Option<(GptLayout, seq<byte>)>
  {
    var mbr := Read(reader, 0, BPS);
    var hdr := Read(reader, 1, BPS);
    if mbr.None? || hdr.None? then None
    else
      match GptHeader(mbr.value, hdr.value, crc32)
      case None => None
      case Some(l) =>
        match Read(reader, l.lba, l.bufferSize)
        case None => None
        case Some(table) => Some((l, table))
  }

  /** The chain `diskScanGPTBootVolumes` builds (empty when no map is created). */
  function GptChain(biosdev: int, reader: Reader, crc32: seq<byte> -> nat,
                    hfsProbe: seq<byte> -> bool, ntfsProbe: seq<byte> -> bool): seq<Volume>
  {
    match GptTable(reader, crc32)
    case None => []
    case Some((l, table)) => GptVolumes(biosdev, l.count, table, l.entrySize, reader, hfsProbe, ntfsProbe)
  }

  /** The GPT chain is the chain of the whole entry array once the table is read. */
  lemma GptChainOf(biosdev: int, reader: Reader, crc32: seq<byte> -> nat,
                   hfsProbe: seq<byte> -> bool, ntfsProbe: seq<byte> -> bool)
    ensures GptTable(reader, crc32).None? ==> GptChain(biosdev, reader, crc32, hfsProbe, ntfsProbe) == []
    ensures GptTable(reader, crc32).Some? ==>
      var t := GptTable(reader, crc32).value;
      GptChain(biosdev, reader, crc32, hfsProbe, ntfsProbe) == GptVolumes(biosdev, t.0.count, t.1, t.0.entrySize, reader, hfsProbe, ntfsProbe)
  {
  }

  /** The chain `diskScanAPMBootVolumes` builds (empty when block 0 does not read). */
  function ApmChain(biosdev: int, reader: Reader): seq<Volume>
  {
    match Read(reader, 0, BPS)
    case None => []
    case Some(block0) =>
      var g := ApmGeometry(block0);
      ApmVolumes(biosdev, ApmEntries(reader, g.0, g.1), g.1, 0, TWO32 - 1)
  }

  /** The chain a fresh `diskScanBootVolumes` returns: GPT's, else FDisk's on a readable drive, else APM's. */
  function ScanChain(biosdev: int, driveOk: bool, reader: Reader, crc32: seq<byte> -> nat,
                     hfsProbe: seq<byte> -> bool, ntfsProbe: seq<byte> -> bool, limit: nat, fuel: nat): seq<Volume>
  {
    var gpt := GptChain(biosdev, reader, crc32, hfsProbe, ntfsProbe);
    var fdisk := if driveOk then FDiskChain(biosdev, reader, fuel, limit) else [];
    if gpt != [] then gpt else if fdisk != [] then fdisk else ApmChain(biosdev, reader)
  }

  /**
   * The map list after a fresh scan: the GPT map when its table reads,
   * then, when the GPT chain is empty, the FDisk map when its chain is
   * not, else the APM map when block 0 reads; each pushed at the head.
   */
  function ScanMaps(maps: seq<DiskMap>, biosdev: int, driveOk: bool, reader: Reader, crc32: seq<byte> -> nat,
                    hfsProbe: seq<byte> -> bool, ntfsProbe: seq<byte> -> bool, limit: nat, fuel: nat): seq<DiskMap>
  {
    var gpt := GptChain(biosdev, reader, crc32, hfsProbe, ntfsProbe);
    var afterGpt := if GptTable(reader, crc32).Some? then [DiskMap(biosdev, gpt, |gpt|)] + maps else maps;
    var fdisk := if driveOk then FDiskChain(biosdev, reader, fuel, limit) else [];
    if gpt != [] then afterGpt
    else if fdisk != [] then [DiskMap(biosdev, fdisk, |fdisk|)] + afterGpt
    else if Read(reader, 0, BPS).Some? then [DiskMap(biosdev, ApmChain(biosdev, reader), |ApmChain(biosdev, reader)|)] + afterGpt
    else afterGpt
  }

  /**
   * A fresh scan leaves a map for the drive whenever it found a record,
   * and the drive's first map then holds the chain and count the scan
   * returned, so a later call reuses them without rescanning.
   */
  lemma ScanLeavesMap(maps: seq<DiskMap>, biosdev: int, driveOk: bool, reader: Reader, crc32: seq<byte> -> nat,
                      hfsProbe: seq<byte> -> bool, ntfsProbe: seq<byte> -> bool, limit: nat, fuel: nat)
    requires FirstMap(maps, biosdev) == |maps|
    ensures var m := ScanMaps(maps, biosdev, driveOk, reader, crc32, hfsProbe, ntfsProbe, limit, fuel);
      var c := ScanChain(biosdev, driveOk, reader, crc32, hfsProbe, ntfsProbe, limit, fuel);
      && (c != [] ==> FirstMap(m, biosdev) < |m|)
      && (FirstMap(m, biosdev) < |m| ==> m[FirstMap(m, biosdev)] == DiskMap(biosdev, c, |c|))
  {
    GptChainOf(biosdev, reader, crc32, hfsProbe, ntfsProbe);
  }

  /**
   * The global map list `gDiskBVMap` (head first) and the booter record
   * `gBIOSBootVolume`, as the scanners update them.
   */
  class BootVolumes {
    var maps: seq<DiskMap>
    var biosBootVolume: Option<Volume>

    constructor()
      ensures maps == [] && biosBootVolume == None
    {
      maps, biosBootVolume := [], None;
    }

    /** The walk over the list that every lookup by drive performs. */
    method FindMap(biosdev: int) returns (i: nat)
      ensures i == FirstMap(maps, biosdev)
    {
      i := 0;
      while i < |maps| && maps[i].biosdev != biosdev
        invariant i <= |maps|
        invariant FirstMap(maps, biosdev) == i + FirstMap(maps[i..], biosdev)
      {
        assert maps[i..][1..] == maps[i + 1..];
        i := i + 1;
      }
    }

    /**
     * `diskScanGPTBootVolumes`: when the MBR, the header and the entry
     * array read and pass their checks, a map is pushed (even one that
     * stays empty) and every used entry of the array is offered to it.
     */
    method ScanGpt(biosdev: int, reader: Reader, crc32: seq<byte> -> nat,
                   hfsProbe: seq<byte> -> bool, ntfsProbe: seq<byte> -> bool)
        returns (chain: seq<Volume>, count: int)
      modifies this
      ensures biosBootVolume == old(biosBootVolume)
      ensures chain == GptChain(biosdev, reader, crc32, hfsProbe, ntfsProbe) && count == |chain|
      ensures maps == (if GptTable(reader, crc32).Some? then [DiskMap(biosdev, chain, count)] + old(maps) else old(maps))
    {
      var t := GptTable(reader, crc32);
      GptChainOf(biosdev, reader, crc32, hfsProbe, ntfsProbe);
      if t.None? {
        return [], 0;
      }
      var l, table := t.value.0, t.value.1;
      chain := GptWalk(biosdev, l.count, table, l.entrySize, reader, hfsProbe, ntfsProbe);
      count := |chain|;
      maps := [DiskMap(biosdev, chain, count)] + maps;
    }

    /** The entry loop of the GPT scan: entries 1 to `count`, each record pushed at the head. */
    static method GptWalk(biosdev: int, count: nat, table: seq<byte>, entrySize: nat, reader: Reader,
                          hfsProbe: seq<byte> -> bool, ntfsProbe: seq<byte> -> bool)
        returns (chain: seq<Volume>)
      ensures chain == GptVolumes(biosdev, count, table, entrySize, reader, hfsProbe, ntfsProbe)
    {
      chain := [];
      var id: nat := 1;
      while id <= count
        invariant 1 <= id <= count + 1
        invariant chain == GptVolumes(biosdev, id - 1, table, entrySize, reader, hfsProbe, ntfsProbe)
      {
        chain := GptPush(biosdev, id, table, entrySize, reader, hfsProbe, ntfsProbe, chain);
        id := id + 1;
      }
    }

    /** One round of that loop: the record of entry `id`, if any, goes in front. */
    static method GptPush(biosdev: int, id: nat, table: seq<byte>, entrySize: nat, reader: Reader,
                          hfsProbe: seq<byte> -> bool, ntfsProbe: seq<byte> -> bool, chain: seq<Volume>)
        returns (chain': seq<Volume>)
      requires 1 <= id && chain == GptVolumes(biosdev, id - 1, table, entrySize, reader, hfsProbe, ntfsProbe)
      ensures chain' == GptVolumes(biosdev, id, table, entrySize, reader, hfsProbe, ntfsProbe)
    {
      var v := GptEntry(biosdev, id, table, entrySize, reader, hfsProbe, ntfsProbe);
      chain' := if v.Some? then [v.value] + chain else chain;
    }

    /**
     * `diskScanFDiskBootVolumes`: nothing when the drive geometry cannot be
     * read; otherwise a map takes every record the walker's partitions
     * yield, an active booter partition becomes the BIOS boot volume, and
     * a map left empty is taken off the list again. `limit` bounds the
     * partitions taken, `fuel` the extended tables each step may load.
     */
    method ScanFDisk(biosdev: int, driveOk: bool, walker: FDiskWalker, reader: Reader, limit: nat, fuel: nat)
        returns (chain: seq<Volume>, count: int)
      requires walker.Valid()
      modifies this, walker
      ensures walker.Valid()
      ensures count == |chain|
      ensures !driveOk ==> chain == [] && maps == old(maps) && biosBootVolume == old(biosBootVolume)
      ensures maps == (if chain == [] then old(maps) else [DiskMap(biosdev, chain, count)] + old(maps))
      ensures forall v :: v in chain ==>
        && v.biosdev == biosdev && v.partNo >= 1
        && 0 < v.partType < 256 && !IsExtended(v.partType as nat) && v.partType != FDISK_BOOTER as int
      ensures biosBootVolume != old(biosBootVolume) ==>
        && biosBootVolume.Some? && biosBootVolume.value.biosdev == biosdev
        && biosBootVolume.value.partType == FDISK_BOOTER as int && biosBootVolume.value.fs == HfsFs
      ensures driveOk ==>
        && chain == FDiskChain(biosdev, reader, fuel, limit)
        && biosBootVolume == BooterVolume(biosdev, FDiskParts(reader, fuel, limit), reader, old(biosBootVolume))
    {
      chain, count := [], 0;
      if !driveOk {
        return;
      }
      maps := [DiskMap(biosdev, chain, count)] + maps;
      var partno := -1;
      var taken := 0;
      var more := true;
      ghost var seen: seq<Part> := [];
      ghost var pos := MbrPos(Zeros(BPS));
      while more && taken < limit
        invariant Scanning(biosdev, walker, reader, fuel, limit, taken, partno, more, seen, pos, chain, count,
                           old(maps), old(biosBootVolume))
        decreases limit - taken, if more then 1 else 0
      {
        more, taken, partno, seen, pos, chain, count :=
          ScanStep(biosdev, walker, reader, fuel, limit, taken, partno, seen, pos, chain, count,
                   old(maps), old(biosBootVolume));
      }
      if more && taken > 0 {
        assert Parts(reader, pos, fuel, limit - taken) == [];
      }
      assert FDiskParts(reader, fuel, limit) == seen;
      if count == 0 {
        maps := maps[1..];
      }
    }

    /**
     * What holds between two partitions of the FDisk scan: the map at the
     * head of the list holds the chain so far, which is the records of the
     * partitions `seen`; the walker stands at `pos`, from where the rest
     * of the drive's partitions follow, or the walk is over (`!more`).
     */
    ghost predicate Scanning(biosdev: int, walker: FDiskWalker, reader: Reader, fuel: nat, limit: nat,
                             taken: nat, partno: int, more: bool, seen: seq<Part>, pos: Pos,
                             chain: seq<Volume>, count: int, m0: seq<DiskMap>, b0: Option<Volume>)
      reads this, walker
    {
      && walker.Valid() && count == |chain| && maps == [DiskMap(biosdev, chain, count)] + m0
      && ChainOk(biosdev, chain) && BooterOk(biosdev, biosBootVolume, b0)
      && taken <= limit
      && (taken == 0 ==> seen == [] && partno == -1)
      && (more && taken > 0 ==>
            && partno >= 1 && walker.dev == biosdev && walker.At(pos)
            && FDiskParts(reader, fuel, limit) == seen + Parts(reader, pos, fuel, limit - taken))
      && (!more ==> FDiskParts(reader, fuel, limit) == seen)
      && chain == FDiskRecords(biosdev, seen, reader)
      && biosBootVolume == BooterVolume(biosdev, seen, reader, b0)
    }

    /** One round of the FDisk scan: the walker's next partition is offered, or the walk ends. */
    method ScanStep(biosdev: int, walker: FDiskWalker, reader: Reader, fuel: nat, limit: nat,
                    taken: nat, partno: int, ghost seen: seq<Part>, ghost pos: Pos,
                    chain: seq<Volume>, count: int, ghost m0: seq<DiskMap>, ghost b0: Option<Volume>)
        returns (more': bool, taken': nat, partno': int, ghost seen': seq<Part>, ghost pos': Pos,
                 chain': seq<Volume>, count': int)
      requires taken < limit
      requires Scanning(biosdev, walker, reader, fuel, limit, taken, partno, true, seen, pos, chain, count, m0, b0)
      modifies this, walker
      ensures Scanning(biosdev, walker, reader, fuel, limit, taken', partno', more', seen', pos', chain', count', m0, b0)
      ensures if more' then taken' == taken + 1 else taken' == taken
    {
      var found: bool, next: int, part: Entry;
      ghost var table: seq<byte>, q: Pos;
      ghost var start := if taken == 0 then None else Some(pos);
      if taken == 0 && BootSectorOk(reader, 0) {
        start := Some(MbrPos(Read(reader, 0, BPS).value));
      }
      assert start.Some? ==> FDiskParts(reader, fuel, limit) == seen + Parts(reader, start.value, fuel, limit - taken);
      found, next, part, table, q := walker.Next(biosdev, partno, reader, fuel, pos);
      if !found {
        return false, taken, partno, seen, pos, chain, count;
      }
      PartsAfter(reader, fuel, limit, seen, start.value, limit - taken, Part(part, next), q);
      assert maps[1..] == m0;
      chain', count' := Offer(biosdev, next, part, reader, chain, count, seen, b0);
      more', taken', partno', seen', pos' := true, taken + 1, next, seen + [Part(part, next)], q;
    }

    /**
     * One partition of the FDisk scan: an active booter partition becomes
     * the BIOS boot volume, any other partition's record goes in front of
     * the drive's chain and the map at the head of the list is updated.
     */
    method Offer(biosdev: int, partno: int, part: Entry, reader: Reader, chain: seq<Volume>, count: int,
                 ghost seen: seq<Part>, ghost prev: Option<Volume>)
        returns (chain': seq<Volume>, count': int)
      requires partno >= 1 && part.systid != 0 && !IsExtended(part.systid)
      requires |maps| > 0 && maps[0] == DiskMap(biosdev, chain, count) && count == |chain|
      requires chain == FDiskRecords(biosdev, seen, reader) && biosBootVolume == BooterVolume(biosdev, seen, reader, prev)
      requires ChainOk(biosdev, chain) && BooterOk(biosdev, biosBootVolume, prev)
      modifies this
      ensures count' == |chain'| && maps == [DiskMap(biosdev, chain', count')] + old(maps)[1..]
      ensures chain' == FDiskRecords(biosdev, seen + [Part(part, partno)], reader)
      ensures biosBootVolume == BooterVolume(biosdev, seen + [Part(part, partno)], reader, prev)
      ensures ChainOk(biosdev, chain') && BooterOk(biosdev, biosBootVolume, prev)
    {
      assert (seen + [Part(part, partno)])[..|seen|] == seen;
      chain', count' := chain, count;
      FDiskClassification(biosdev, partno, part, reader);
      if part.systid == FDISK_BOOTER {
        if part.bootid >= FDISK_ACTIVE {
          biosBootVolume := NewFDiskVolume(biosdev, partno, part.relsect, part, HfsFs, 0, reader);
        }
      } else {
        var v := FDiskVolume(biosdev, partno, part, reader);
        if v.Some? {
          chain', count' := [v.value] + chain, count + 1;
          maps := [DiskMap(biosdev, chain', count')] + maps[1..];
        }
      }
      assert maps == [DiskMap(biosdev, chain', count')] + old(maps)[1..];
    }

    /**
     * `diskScanAPMBootVolumes`: nothing when block 0 does not read;
     * otherwise a map is pushed (even one that stays empty) and takes a
     * record for every "Apple_HFS" entry of the map.
     */
    method ScanApm(biosdev: int, reader: Reader) returns (chain: seq<Volume>, count: int)
      modifies this
      ensures biosBootVolume == old(biosBootVolume)
      ensures chain == ApmChain(biosdev, reader) && count == |chain|
      ensures maps == (if Read(reader, 0, BPS).Some? then [DiskMap(biosdev, chain, count)] + old(maps) else old(maps))
    {
      var block0 := Read(reader, 0, BPS);
      if block0.None? {
        return [], 0;
      }
      var g := ApmGeometry(block0.value);
      chain := ApmWalk(biosdev, ApmEntries(reader, g.0, g.1), g.1, 0, TWO32 - 1);
      count := |chain|;
      maps := [DiskMap(biosdev, chain, count)] + maps;
    }

    /** The entry loop of the APM scan from entry `first`: the records of the map, newest first. */
    static method ApmWalk(biosdev: int, entries: nat -> Option<seq<byte>>, factor: nat, first: nat, count: nat)
        returns (chain: seq<Volume>)
      requires count < TWO32
      ensures chain == ApmVolumes(biosdev, entries, factor, first, count)
    {
      chain := [];
      var i: nat, npart: nat := first, count;
      ghost var whole := ApmVolumes(biosdev, entries, factor, first, count);
      var stop := false;
      while !stop && i < npart
        invariant npart < TWO32
        invariant !stop ==> whole == ApmVolumes(biosdev, entries, factor, i, npart) + chain
        invariant stop ==> whole == chain
        decreases TWO32 - i, if stop then 0 else 1
      {
        stop, npart, chain := ApmNext(biosdev, entries, factor, i, npart, chain, whole);
        i := i + 1;
      }
    }

    /**
     * One round of that loop: entry `i` is read; a failed read or a
     * missing "PM" signature stops the walk; entry 0 sets the entry count;
     * an "Apple_HFS" entry adds its record in front of the chain.
     */
    static method ApmNext(biosdev: int, entries: nat -> Option<seq<byte>>, factor: nat, i: nat, npart: nat,
                          chain: seq<Volume>, ghost whole: seq<Volume>)
        returns (stop: bool, np: nat, chain': seq<Volume>)
      requires i < npart < TWO32
      requires whole == ApmVolumes(biosdev, entries, factor, i, npart) + chain
      ensures np < TWO32
      ensures stop ==> whole == chain'
      ensures !stop ==> whole == ApmVolumes(biosdev, entries, factor, i + 1, np) + chain'
    {
      var dpme := entries(i);
      if dpme.None? || BE16(dpme.value, 0) != DPME_SIGNATURE {
        return true, npart, chain;
      }
      np := if i == 0 then BE32(dpme.value, DPME_MAP_ENTRIES) else npart;
      var own := [];
      if IsAppleHfs(dpme.value) {
        own := [NewApmVolume(biosdev, i, (BE32(dpme.value, DPME_PBLOCK_START) * factor) % TWO32, dpme.value, 0)];
      }
      ApmStep(biosdev, entries, factor, i, npart, dpme.value);
      Regroup(whole, ApmVolumes(biosdev, entries, factor, i + 1, np), own, chain);
      chain' := own + chain;
      stop := false;
    }

    /**
     * `diskScanBootVolumes`: a drive already mapped gives its chain back;
     * otherwise GPT is tried, then FDisk when GPT gave no record, then APM
     * when neither did. The count of the scan that decided is added.
     */
    method ScanBootVolumes(biosdev: int, countIn: int, driveOk: bool, walker: FDiskWalker, reader: Reader,
                           crc32: seq<byte> -> nat, hfsProbe: seq<byte> -> bool, ntfsProbe: seq<byte> -> bool,
                           limit: nat, fuel: nat)
        returns (chain: seq<Volume>, countOut: int)
      requires walker.Valid()
      modifies this, walker
      ensures walker.Valid()
      ensures var i := FirstMap(old(maps), biosdev);
        i < |old(maps)| ==>
          && chain == old(maps)[i].bvrs && countOut == countIn + old(maps)[i].count
          && maps == old(maps) && biosBootVolume == old(biosBootVolume)
      ensures FirstMap(old(maps), biosdev) == |old(maps)| ==>
        && countOut == countIn + |chain|
        && (GptChain(biosdev, reader, crc32, hfsProbe, ntfsProbe) != [] ==>
              chain == GptChain(biosdev, reader, crc32, hfsProbe, ntfsProbe) && biosBootVolume == old(biosBootVolume))
        && (GptChain(biosdev, reader, crc32, hfsProbe, ntfsProbe) == [] && !driveOk ==>
              chain == ApmChain(biosdev, reader) && biosBootVolume == old(biosBootVolume))
        && (GptChain(biosdev, reader, crc32, hfsProbe, ntfsProbe) == [] && driveOk ==>
              biosBootVolume == BooterVolume(biosdev, FDiskParts(reader, fuel, limit), reader, old(biosBootVolume)))
        && (GptChain(biosdev, reader, crc32, hfsProbe, ntfsProbe) == [] && driveOk && FDiskChain(biosdev, reader, fuel, limit) != [] ==>
              chain == FDiskChain(biosdev, reader, fuel, limit))
        && (GptChain(biosdev, reader, crc32, hfsProbe, ntfsProbe) == [] && FDiskChain(biosdev, reader, fuel, limit) == [] ==>
              chain == ApmChain(biosdev, reader))
        && chain == ScanChain(biosdev, driveOk, reader, crc32, hfsProbe, ntfsProbe, limit, fuel)
        && maps == ScanMaps(old(maps), biosdev, driveOk, reader, crc32, hfsProbe, ntfsProbe, limit, fuel)
        && (chain != [] ==> FirstMap(maps, biosdev) < |maps|)
        && (FirstMap(maps, biosdev) < |maps| ==>
              maps[FirstMap(maps, biosdev)].bvrs == chain && countOut == countIn + maps[FirstMap(maps, biosdev)].count)
    {
      var i := FindMap(biosdev);
      if i < |maps| {
        return maps[i].bvrs, countIn + maps[i].count;
      }
      var count;
      chain, count := ScanGpt(biosdev, reader, crc32, hfsProbe, ntfsProbe);
      if chain == [] {
        chain, count := ScanFDisk(biosdev, driveOk, walker, reader, limit, fuel);
      }
      if chain == [] {
        chain, count := ScanApm(biosdev, reader);
      }
      countOut := countIn + count;
      ScanLeavesMap(old(maps), biosdev, driveOk, reader, crc32, hfsProbe, ntfsProbe, limit, fuel);
    }

    /**
     * `diskResetBootVolumes`: the drive's first map is unlinked and
     * returned, and the sector cache is marked invalid; with no map
     * nothing changes.
     */
    method ResetBootVolumes(biosdev: int, cache: Disk.SectorCache) returns (removed: Option<DiskMap>)
      modifies this, cache
      ensures biosBootVolume == old(biosBootVolume)
      ensures var i := FirstMap(old(maps), biosdev);
        && (i == |old(maps)| ==> removed == None && maps == old(maps) && cache.State() == old(cache.State()))
        && (i < |old(maps)| ==>
              && removed == Some(old(maps)[i]) && maps == old(maps)[..i] + old(maps)[i + 1..]
              && cache.State() == old(cache.State()).(valid := false))
    {
      var i := FindMap(biosdev);
      if i == |maps| {
        return None;
      }
      cache.valid := false;
      removed := Some(maps[i]);
      maps := maps[..i] + maps[i + 1..];
    }
  }

  /** `diskFreeMap`: the records of a map are released head first, then the map. */
  method FreeMap(m: Option<DiskMap>) returns (freed: seq<Volume>)
    ensures freed == (if m.Some? then m.value.bvrs else [])
  {
    freed := [];
    if m.None? {
      return;
    }
    var rest := m.value.bvrs;
    while rest != []
      invariant freed + rest == m.value.bvrs
      decreases |rest|
    {
      freed, rest := freed + [rest[0]], rest[1..];
    }
  }

  // ---------------------------------------------------------------------
  // Filtered chains

  /** All records of the map list: map by map from the head, each chain from its head. */
  function Flatten(maps: seq<DiskMap>): seq<Volume>
  {
    if maps == [] then [] else Flatten(maps[..|maps| - 1]) + maps[|maps| - 1].bvrs
  }

  /** The allow, deny and drive-range test that makes a copy visible. */
  predicate Admitted(v: Volume, minDev: int, maxDev: int, allow: bv32, deny: bv32)
  {
    && (allow == 0 || Has(v.flags, allow))
    && (deny == 0 || !Has(v.flags, deny))
    && minDev <= v.biosdev <= maxDev
  }

  /** `s` occurs in `t` (`strstr` finds it). */
  predicate Contains(t: string, s: string)
    decreases |t|
  {
    |s| <= |t| && (t[..|s|] == s || Contains(t[1..], s))
  }

  /** A signed decimal, as `%d` prints it. */
  function SignedDecimal(n: int): (r: string)
    ensures |r| > 0 && (n < 0 <==> r[0] == '-')
  {
    if n < 0 then "-" + StringTable.Decimal(-n)
    else
      var d := StringTable.Decimal(n);
      assert StringTable.AllDigits(d);
      d
  }

  /** The "hd(unit,part)" name of a record, the unit counted from the first hard drive. */
  function DeviceName(v: Volume): string
  {
    "hd(" + SignedDecimal(v.biosdev - v.devType) + "," + SignedDecimal(v.partNo) + ")"
  }

  /** A foreign record named in the "Hide Partition" value (`hidden` is the C string found for that key). */
  predicate Hidden(v: Volume, hidden: Option<string>)
  {
    Has(v.flags, kBVFlagForeignBoot) && hidden.Some? && Contains(hidden.value, DeviceName(v))
  }

  /** The copy `newFilteredBVChain` makes of one record. */
  function FilteredCopy(v: Volume, minDev: int, maxDev: int, allow: bv32, deny: bv32, hidden: Option<string>): (c: Volume)
  {
    var vis := (v.visible || Admitted(v, minDev, maxDev, allow, deny)) && !Hidden(v, hidden);
    v.(filtered := true, visible := vis)
  }

  function Copies(s: seq<Volume>, minDev: int, maxDev: int, allow: bv32, deny: bv32, hidden: Option<string>): (r: seq<Volume>)
    ensures |r| == |s|
  {
    if s == [] then []
    else Copies(s[..|s| - 1], minDev, maxDev, allow, deny, hidden) + [FilteredCopy(s[|s| - 1], minDev, maxDev, allow, deny, hidden)]
  }

  function CountVisible(s: seq<Volume>): nat
  {
    if s == [] then 0 else CountVisible(s[..|s| - 1]) + (if s[|s| - 1].visible then 1 else 0)
  }

  /**
   * `newFilteredBVChain`: a copy of every record of every map, in list
   * order, each marked filtered, and the number of visible copies.
   */
  method NewFilteredBVChain(maps: seq<DiskMap>, minDev: int, maxDev: int, allow: bv32, deny: bv32, hidden: Option<string>)
      returns (chain: seq<Volume>, count: nat)
    ensures chain == Copies(Flatten(maps), minDev, maxDev, allow, deny, hidden)
    ensures count == CountVisible(chain)
  {
    chain, count := [], 0;
    var i := 0;
    while i < |maps|
      invariant i <= |maps|
      invariant chain == Copies(Flatten(maps[..i]), minDev, maxDev, allow, deny, hidden)
      invariant count == CountVisible(chain)
    {
      chain, count := CopyChain(maps[i].bvrs, minDev, maxDev, allow, deny, hidden, chain, count);
      assert maps[..i + 1][..i] == maps[..i];
      CopiesConcat(Flatten(maps[..i]), maps[i].bvrs, minDev, maxDev, allow, deny, hidden);
      i := i + 1;
    }
    assert maps[..i] == maps;
  }

  /** The inner loop of `newFilteredBVChain`: the copies of one drive's records appended to the chain. */
  method CopyChain(bvrs: seq<Volume>, minDev: int, maxDev: int, allow: bv32, deny: bv32, hidden: Option<string>,
                   chain0: seq<Volume>, count0: nat)
      returns (chain: seq<Volume>, count: nat)
    requires count0 == CountVisible(chain0)
    ensures chain == chain0 + Copies(bvrs, minDev, maxDev, allow, deny, hidden)
    ensures count == CountVisible(chain)
  {
    chain, count := chain0, count0;
    var j := 0;
    while j < |bvrs|
      invariant j <= |bvrs|
      invariant chain == chain0 + Copies(bvrs[..j], minDev, maxDev, allow, deny, hidden)
      invariant count == CountVisible(chain)
    {
      var c := CopyRecord(bvrs[j], minDev, maxDev, allow, deny, hidden);
      CopiesSnoc(bvrs, j, minDev, maxDev, allow, deny, hidden);
      CountVisibleSnoc(chain, c);
      chain := chain + [c];
      if c.visible {
        count := count + 1;
      }
      j := j + 1;
    }
    assert bvrs[..j] == bvrs;
  }

  /** The body of that loop: the copy, marked filtered, made visible when admitted, hidden when named. */
  method CopyRecord(v: Volume, minDev: int, maxDev: int, allow: bv32, deny: bv32, hidden: Option<string>)
      returns (c: Volume)
    ensures c == FilteredCopy(v, minDev, maxDev, allow, deny, hidden)
  {
    c := v.(filtered := true);
    if Admitted(c, minDev, maxDev, allow, deny) {
      c := c.(visible := true);
    }
    if Has(c.flags, kBVFlagForeignBoot) && hidden.Some? && Contains(hidden.value, DeviceName(c)) {
      c := c.(visible := false);
    }
  }

  lemma CopiesSnoc(bvrs: seq<Volume>, j: nat, minDev: int, maxDev: int, allow: bv32, deny: bv32, hidden: Option<string>)
    requires j < |bvrs|
    ensures Copies(bvrs[..j + 1], minDev, maxDev, allow, deny, hidden)
         == Copies(bvrs[..j], minDev, maxDev, allow, deny, hidden) + [FilteredCopy(bvrs[j], minDev, maxDev, allow, deny, hidden)]
  {
    assert bvrs[..j + 1][..j] == bvrs[..j];
  }

  lemma CountVisibleSnoc(s: seq<Volume>, c: Volume)
    ensures CountVisible(s + [c]) == CountVisible(s) + (if c.visible then 1 else 0)
  {
    assert (s + [c])[..|s|] == s;
  }

  /** Copying two runs of records one after the other copies their concatenation. */
  lemma {:induction false} CopiesConcat(a: seq<Volume>, b: seq<Volume>, minDev: int, maxDev: int, allow: bv32, deny: bv32,
                                        hidden: Option<string>)
    ensures Copies(a + b, minDev, maxDev, allow, deny, hidden)
         == Copies(a, minDev, maxDev, allow, deny, hidden) + Copies(b, minDev, maxDev, allow, deny, hidden)
    decreases |b|
  {
    if b == [] {
      assert a + b == a;
    } else {
      var b' := b[..|b| - 1];
      CopiesConcat(a, b', minDev, maxDev, allow, deny, hidden);
      assert (a + b)[..|a + b| - 1] == a + b';
    }
  }

  /**
   * What a filtered chain holds: one copy per record, in order, with every
   * field kept but `filtered`, which is set, and `visible`, which a record
   * gains when the flags and drive range admit it and loses when the
   * "Hide Partition" value names it.
   */
  lemma {:induction false} CopiesMeaning(s: seq<Volume>, minDev: int, maxDev: int, allow: bv32, deny: bv32, hidden: Option<string>)
    ensures var r := Copies(s, minDev, maxDev, allow, deny, hidden);
      forall k :: 0 <= k < |s| ==>
        && r[k].filtered
        && r[k].(filtered := s[k].filtered, visible := s[k].visible) == s[k]
        && (r[k].visible <==> (s[k].visible || Admitted(s[k], minDev, maxDev, allow, deny)) && !Hidden(s[k], hidden))
  {
    if s != [] {
      CopiesMeaning(s[..|s| - 1], minDev, maxDev, allow, deny, hidden);
    }
  }

  /** The count is the number of visible copies, and never more than the records. */
  lemma {:induction false} CountVisibleBound(s: seq<Volume>)
    ensures CountVisible(s) <= |s|
    ensures CountVisible(s) == |s| <==> forall k :: 0 <= k < |s| ==> s[k].visible
    ensures CountVisible(s) == 0 <==> forall k :: 0 <= k < |s| ==> !s[k].visible
  {
    if s != [] {
      CountVisibleBound(s[..|s| - 1]);
    }
  }

  /**
   * `freeFilteredBVChain`: copies are released from the head while they
   * are filtered; the first record that is not stops the walk with 0.
   */
  method FreeFilteredBVChain(chain: seq<Volume>) returns (ret: int, freed: nat)
    ensures freed <= |chain|
    ensures forall k :: 0 <= k < freed ==> chain[k].filtered
    ensures ret == 1 <==> freed == |chain|
    ensures ret == 0 <==> freed < |chain|
    ensures freed < |chain| ==> !chain[freed].filtered
  {
    ret, freed := 1, 0;
    while freed < |chain|
      invariant freed <= |chain|
      invariant forall k :: 0 <= k < freed ==> chain[k].filtered
    {
      if !chain[freed].filtered {
        return 0, freed;
      }
      freed := freed + 1;
    }
  }

  // ---------------------------------------------------------------------
  // Seeking and raw transfers

  /** `diskSeek`: the block and byte offset of a 64-bit position, with C's truncating division. */
  function SeekFields(position: int): (r: (int, int))
  {
    if position >= 0 then (position / BPS, position % BPS)
    else (-((-position) / BPS), -((-position) % BPS))
  }

  /** The two fields together give the position back, and the byte offset keeps the position's sign. */
  lemma SeekRoundTrip(position: int)
    ensures var (boff, byteoff) := SeekFields(position);
      && boff * BPS + byteoff == position
      && -(BPS as int) < byteoff < BPS
      && (position >= 0 ==> 0 <= byteoff && boff >= 0)
      && (position < 0 ==> byteoff <= 0 && boff <= 0)
  {
  }

  /** The `(sector, count)` requests a raw transfer of `total` sectors from `secno` issues: at most 64 sectors each. */
  function RawChunks(secno: nat, total: nat): (r: seq<(nat, nat)>)
    decreases total
  {
    if total == 0 then []
    else
      var secs := if total > N_CACHE_SECS then N_CACHE_SECS else total;
      [(secno, secs)] + RawChunks((secno + secs) % TWO32, total - secs)
  }

  /** The sectors the requests bring in, concatenated. */
  function Gather(image: seq<byte>, chunks: seq<(nat, nat)>): seq<byte>
  {
    if chunks == [] then [] else Disk.Sectors(image, chunks[0].0, chunks[0].1) + Gather(image, chunks[1..])
  }

  /** The status of the first request the BIOS fails (a corrected ECC error is not a failure), or 0. */
  function FirstFailure(status: (nat, nat) -> int, chunks: seq<(nat, nat)>): int
  {
    if chunks == [] then 0
    else
      var rc := status(chunks[0].0, chunks[0].1);
      if rc != 0 && rc != ECC_CORRECTED_ERR then rc else FirstFailure(status, chunks[1..])
  }

  /** Unless the 32-bit sector number wraps, the requests read the run of sectors from `secno`. */
  lemma {:induction false} GatherContiguous(image: seq<byte>, secno: nat, total: nat)
    requires secno + total <= TWO32
    ensures Gather(image, RawChunks(secno, total)) == Disk.Sectors(image, secno, total)
    decreases total
  {
    if total > 0 {
      var secs := if total > N_CACHE_SECS then N_CACHE_SECS else total;
      GatherContiguous(image, secno + secs, total - secs);
      var a := Disk.Sectors(image, secno, secs);
      var b := Disk.Sectors(image, secno + secs, total - secs);
      var c := Disk.Sectors(image, secno, total);
      assert a + b == c by {
        forall k | 0 <= k < |c| ensures (a + b)[k] == c[k] {
          if k >= |a| {
            assert b[k - |a|] == ByteAt(image, (secno + secs) * BPS + (k - |a|));
          }
        }
      }
    }
  }

  /** Every request moves between one and 64 sectors, and together they move `total`. */
  lemma {:induction false} RawChunksSizes(secno: nat, total: nat)
    ensures var r := RawChunks(secno, total);
      forall k :: 0 <= k < |r| ==> 1 <= r[k].1 <= N_CACHE_SECS
    ensures |Gather([], RawChunks(secno, total))| == total * BPS
    decreases total
  {
    if total > 0 {
      var secs := if total > N_CACHE_SECS then N_CACHE_SECS else total;
      RawChunksSizes((secno + secs) % TWO32, total - secs);
    }
  }

  /**
   * `rawDiskRead`: a length that is not a whole number of sectors fails
   * with -1 and touches nothing; otherwise the cache is invalidated and
   * the sectors from the partition-relative `secno` (a 32-bit sum) are
   * read 64 at a time into `buf`, stopping at the first failed request.
   * `status` is the BIOS status of each request; the track buffer holds
   * the requested sectors of `image` whenever it reports no failure.
   */
  method RawDiskRead(cache: Disk.SectorCache, vol: Volume, secno: nat, buf: array<byte>, len: nat,
                     image: seq<byte>, status: (nat, nat) -> int)
      returns (rc: int)
    requires secno < TWO32 && len < TWO32 && len <= buf.Length
    modifies cache, buf
    ensures len % BPS != 0 ==> rc == -1 && buf[..] == old(buf[..]) && cache.State() == old(cache.State())
    ensures len % BPS == 0 ==>
      var chunks := RawChunks((secno + vol.partBoff) % TWO32, len / BPS);
      && rc == FirstFailure(status, chunks)
      && !cache.valid && cache.State() == old(cache.State()).(valid := false, track := cache.track)
      && (rc == 0 ==> buf[..len] == Gather(image, chunks))
    ensures buf[len..] == old(buf[len..])
  {
    if len % BPS != 0 {
      return -1;
    }
    var sec: nat := (secno + vol.partBoff) % TWO32;
    ghost var chunks := RawChunks(sec, len / BPS);
    cache.valid := false;
    var left: nat, at: nat := len / BPS, 0;
    while left > 0
      invariant at + left * BPS == len && sec < TWO32
      invariant FirstFailure(status, chunks) == FirstFailure(status, RawChunks(sec, left))
      invariant buf[..at] + Gather(image, RawChunks(sec, left)) == Gather(image, chunks)
      invariant buf[len..] == old(buf[len..])
      invariant !cache.valid && cache.State() == old(cache.State()).(valid := false, track := cache.track)
    {
      var secs := left;
      if secs > N_CACHE_SECS {
        secs := N_CACHE_SECS;
      }
      ChunksStep(image, status, sec, left, secs);
      rc := status(sec, secs);
      if rc != 0 && rc != ECC_CORRECTED_ERR {
        return rc;
      }
      ghost var before := buf[..at];
      ReadRequest(cache, buf, at, len, image, sec, secs);
      Filled(Gather(image, chunks), before, Disk.Sectors(image, sec, secs),
             Gather(image, RawChunks((sec + secs) % TWO32, left - secs)), buf[..at + secs * BPS]);
      left, at := left - secs, at + secs * BPS;
      sec := (sec + secs) % TWO32;
    }
    assert buf[..at] == buf[..len];
    return 0;
  }

  /** A prefix extended by the next piece still leads to the whole. */
  lemma Filled<T>(whole: seq<T>, before: seq<T>, piece: seq<T>, rest: seq<T>, after: seq<T>)
    requires whole == before + (piece + rest) && after == before + piece
    ensures after + rest == whole
  {
  }

  /** A suffix left unchanged from `i` on is unchanged from any later `j`. */
  lemma SuffixKept<T>(a: seq<T>, b: seq<T>, i: nat, j: nat)
    requires i <= j <= |a| == |b| && a[i..] == b[i..]
    ensures a[j..] == b[j..]
  {
    assert a[j..] == a[i..][j - i..];
    assert b[j..] == b[i..][j - i..];
  }

  /** The first request of a run, of `secs` sectors, and what is left of the run after it. */
  lemma ChunksStep(image: seq<byte>, status: (nat, nat) -> int, sec: nat, total: nat, secs: nat)
    requires total > 0 && secs == if total > N_CACHE_SECS then N_CACHE_SECS else total
    ensures Gather(image, RawChunks(sec, total))
            == Disk.Sectors(image, sec, secs) + Gather(image, RawChunks((sec + secs) % TWO32, total - secs))
    ensures status(sec, secs) != 0 && status(sec, secs) != ECC_CORRECTED_ERR ==>
              FirstFailure(status, RawChunks(sec, total)) == status(sec, secs)
    ensures status(sec, secs) == 0 || status(sec, secs) == ECC_CORRECTED_ERR ==>
              FirstFailure(status, RawChunks(sec, total)) == FirstFailure(status, RawChunks((sec + secs) % TWO32, total - secs))
  {
    assert RawChunks(sec, total)[1..] == RawChunks((sec + secs) % TWO32, total - secs);
  }

  /**
   * One BIOS read of a raw read: the track buffer takes the sectors and
   * they are copied to `buf` at `at`, after what is already there.
   */
  method ReadRequest(cache: Disk.SectorCache, buf: array<byte>, at: nat, end: nat, image: seq<byte>, sec: nat, secs: nat)
    requires at + secs * BPS <= end <= buf.Length
    modifies cache, buf
    ensures buf[..at + secs * BPS] == old(buf[..at]) + Disk.Sectors(image, sec, secs)
    ensures buf[end..] == old(buf[end..])
    ensures cache.State() == old(cache.State()).(track := Disk.Sectors(image, sec, secs))
  {
    var data := Disk.Sectors(image, sec, secs);
    ghost var snap := buf[..];
    cache.track := data;
    Disk.CopyOut(buf, at, data, 0, secs * BPS);
    assert buf[..at + secs * BPS] == buf[..at] + buf[at..at + secs * BPS];
    assert Disk.Extent(data, 0, secs * BPS) == data;
    SuffixKept(snap, buf[..], at + secs * BPS, end);
  }

  /** One request handed to the BIOS by a raw write: the first sector and the bytes. */
  datatype Write = Write(secno: nat, data: seq<byte>)

  /**
   * The requests a raw write of `data` from `secno` issues and its
   * status: 64 sectors at a time, up to and including the first request
   * the BIOS fails.
   */
  function WriteOutcome(wstatus: (nat, seq<byte>) -> int, secno: nat, data: seq<byte>): (r: (int, seq<Write>))
    requires |data| % BPS == 0
    decreases |data|
  {
    if data == [] then (0, [])
    else
      var secs := if |data| / BPS > N_CACHE_SECS then N_CACHE_SECS else |data| / BPS;
      var w := Write(secno, data[..secs * BPS]);
      var rc := wstatus(w.secno, w.data);
      if rc != 0 then (rc, [w])
      else
        var rest := WriteOutcome(wstatus, (secno + secs) % TWO32, data[secs * BPS..]);
        (rest.0, [w] + rest.1)
  }

  /** The first request of a raw write, of `secs` sectors, and the write of what is left. */
  lemma WriteStep(wstatus: (nat, seq<byte>) -> int, sec: nat, data: seq<byte>, secs: nat)
    requires data != [] && |data| % BPS == 0
    requires secs == if |data| / BPS > N_CACHE_SECS then N_CACHE_SECS else |data| / BPS
    ensures secs * BPS <= |data| && |data[secs * BPS..]| % BPS == 0
    ensures wstatus(sec, data[..secs * BPS]) != 0 ==>
              WriteOutcome(wstatus, sec, data) == (wstatus(sec, data[..secs * BPS]), [Write(sec, data[..secs * BPS])])
    ensures wstatus(sec, data[..secs * BPS]) == 0 ==>
              var later := WriteOutcome(wstatus, (sec + secs) % TWO32, data[secs * BPS..]);
              WriteOutcome(wstatus, sec, data) == (later.0, [Write(sec, data[..secs * BPS])] + later.1)
  {
  }

  function Written(ws: seq<Write>): seq<byte>
  {
    if ws == [] then [] else ws[0].data + Written(ws[1..])
  }

  /** Every request of a raw write moves whole sectors, at least one and at most 64. */
  lemma {:induction false} WriteSizes(wstatus: (nat, seq<byte>) -> int, secno: nat, data: seq<byte>)
    requires |data| % BPS == 0
    ensures var ws := WriteOutcome(wstatus, secno, data).1;
      forall k :: 0 <= k < |ws| ==> 0 < |ws[k].data| <= N_CACHE_SECS * BPS && |ws[k].data| % BPS == 0
    decreases |data|
  {
    if data != [] {
      var secs := if |data| / BPS > N_CACHE_SECS then N_CACHE_SECS else |data| / BPS;
      WriteStep(wstatus, secno, data, secs);
      WriteSizes(wstatus, (secno + secs) % TWO32, data[secs * BPS..]);
    }
  }

  /** A write that succeeds hands every byte over, in order. */
  lemma {:induction false} WriteComplete(wstatus: (nat, seq<byte>) -> int, secno: nat, data: seq<byte>)
    requires |data| % BPS == 0
    ensures WriteOutcome(wstatus, secno, data).0 == 0 ==> Written(WriteOutcome(wstatus, secno, data).1) == data
    decreases |data|
  {
    if data != [] {
      var secs := if |data| / BPS > N_CACHE_SECS then N_CACHE_SECS else |data| / BPS;
      WriteStep(wstatus, secno, data, secs);
      var rest := data[secs * BPS..];
      WriteComplete(wstatus, (secno + secs) % TWO32, rest);
      var ws := WriteOutcome(wstatus, secno, data).1;
      if WriteOutcome(wstatus, secno, data).0 == 0 {
        assert ws[1..] == WriteOutcome(wstatus, (secno + secs) % TWO32, rest).1;
        assert data == data[..secs * BPS] + rest;
      }
    }
  }

  /** A write that fails stops at the request the BIOS refused, whose status it returns. */
  lemma {:induction false} WriteStopsAtFailure(wstatus: (nat, seq<byte>) -> int, secno: nat, data: seq<byte>)
    requires |data| % BPS == 0
    ensures var (rc, ws) := WriteOutcome(wstatus, secno, data);
      rc != 0 ==> ws != [] && wstatus(ws[|ws| - 1].secno, ws[|ws| - 1].data) == rc
    decreases |data|
  {
    if data != [] {
      var secs := if |data| / BPS > N_CACHE_SECS then N_CACHE_SECS else |data| / BPS;
      WriteStep(wstatus, secno, data, secs);
      WriteStopsAtFailure(wstatus, (secno + secs) % TWO32, data[secs * BPS..]);
    }
  }

  /**
   * `rawDiskWrite`: as the raw read, with each request written from
   * `buf` and no tolerance for a corrected ECC error. `issued` is the
   * requests handed to the BIOS, in order.
   */
  method RawDiskWrite(cache: Disk.SectorCache, vol: Volume, secno: nat, buf: array<byte>, len: nat,
                      wstatus: (nat, seq<byte>) -> int)
      returns (rc: int, issued: seq<Write>)
    requires secno < TWO32 && len < TWO32 && len <= buf.Length
    modifies cache
    ensures len % BPS != 0 ==> rc == -1 && issued == [] && cache.State() == old(cache.State())
    ensures len % BPS == 0 ==>
      && (rc, issued) == WriteOutcome(wstatus, (secno + vol.partBoff) % TWO32, buf[..len])
      && !cache.valid && cache.State() == old(cache.State()).(valid := false, track := cache.track)
  {
    if len % BPS != 0 {
      return -1, [];
    }
    var sec: nat := (secno + vol.partBoff) % TWO32;
    cache.valid := false;
    issued := [];
    var pending := buf[..len];
    ghost var whole := WriteOutcome(wstatus, sec, pending);
    assert issued + whole.1 == whole.1;
    while pending != []
      invariant |pending| % BPS == 0 && sec < TWO32
      invariant whole == (WriteOutcome(wstatus, sec, pending).0, issued + WriteOutcome(wstatus, sec, pending).1)
      invariant !cache.valid && cache.State() == old(cache.State()).(valid := false, track := cache.track)
      decreases |pending|
    {
      var secs := |pending| / BPS;
      if secs > N_CACHE_SECS {
        secs := N_CACHE_SECS;
      }
      var w := Write(sec, pending[..secs * BPS]);
      cache.track := w.data;
      WriteStep(wstatus, sec, pending, secs);
      rc := wstatus(w.secno, w.data);
      if rc != 0 {
        issued := issued + [w];
        return;
      }
      Filled(whole.1, issued, [w], WriteOutcome(wstatus, (sec + secs) % TWO32, pending[secs * BPS..]).1, issued + [w]);
      issued := issued + [w];
      pending := pending[secs * BPS..];
      sec := (sec + secs) % TWO32;
    }
    assert issued + [] == issued;
    rc := 0;
  }
}
