/**
 * The FAT12/16/32 reader of `msdos.c`: the boot-sector probe, the volume
 * geometry kept in static fields, cluster-chain arithmetic, directory
 * walking with long (VFAT) names, file reads, labels and the volume UUID.
 * Boot sector, directory entry and long-name entry follow the standard FAT
 * on-disk layout (Microsoft's FAT32 File System Specification, fatgen103).
 * A volume is a byte sequence; reads past its end give zeros.
 */
module Msdos {
  import opened Bytes
  import opened Wrappers

  const SECTOR: nat := 512
  const LABEL_LENGTH: nat := 11
  const DIRENT_SIZE: nat := 32

  const CLUST_FIRST: nat := 2
  const CLUST_RSRVD32: nat := 0x0FFF_FFF8
  const CLUST_RSRVD16: nat := 0xFFF8
  const CLUST_RSRVD12: nat := 0xFF8

  // BIOS parameter block fields of the boot sector
  const BPB_BYTES_PER_SEC: nat := 11
  const BPB_SEC_PER_CLUST: nat := 13
  const BPB_RES_SECTORS: nat := 14
  const BPB_FATS: nat := 16
  const BPB_ROOT_DIR_ENTS: nat := 17
  const BPB_FAT_SECS: nat := 22
  const BPB_BIG_FAT_SECS: nat := 36
  const BPB_ROOT_CLUST: nat := 44

  // The extended boot record sits at 36 on FAT12/16 and at 64 on FAT32
  const EXT_FAT16: nat := 36
  const EXT_FAT32: nat := 64
  const EX_BOOT_SIGNATURE: nat := 2
  const EX_VOLUME_ID: nat := 3
  const EX_VOLUME_LABEL: nat := 7
  const EX_FILE_SYS_TYPE: nat := 18
  const EXBOOTSIG: byte := 0x29

  const FAT32_TYPE: seq<byte> := Latin1("FAT32   ")
  const FAT16_TYPE: seq<byte> := Latin1("FAT16   ")
  const FAT12_TYPE: seq<byte> := Latin1("FAT12   ")

  /** The sizes the source accepts, written out as sets. */
  const SECTOR_SIZES: set<nat> := {512, 1024, 2048}
  const CLUSTER_FACTORS: set<nat> := {1, 2, 4, 8, 16, 32, 64, 128}

  // ---------------------------------------------------------------------
  // Probe and geometry
  // ---------------------------------------------------------------------

  /** The C `&` on non-negative numbers, bit by bit from the lowest. */
  function BitAnd(a: nat, b: nat): nat
  {
    if a == 0 || b == 0 then 0
    else 2 * BitAnd(a / 2, b / 2) + (if a % 2 == 1 && b % 2 == 1 then 1 else 0)
  }

  /** The C test `x & (x - 1)`: zero exactly when x is 0 or a power of two. */
  function ClearLowestBit(x: nat): nat
  {
    if x == 0 then 0 else BitAnd(x, x - 1)
  }

  /** x is a power of two: 1, or twice a power of two. */
  predicate IsPow2(x: nat)
  {
    x == 1 || (x >= 2 && x % 2 == 0 && IsPow2(x / 2))
  }

  lemma {:induction false} BitAndSelf(a: nat)
    ensures BitAnd(a, a) == a
  {
    if a != 0 {
      BitAndSelf(a / 2);
    }
  }

  /** `x & (x - 1)` vanishes exactly on the powers of two. */
  lemma {:induction false} ClearLowestBitPow2(x: nat)
    requires x >= 1
    ensures ClearLowestBit(x) == 0 <==> IsPow2(x)
  {
    if x % 2 == 0 {
      var y := x / 2;
      assert (x - 1) / 2 == y - 1;
      assert BitAnd(x, x - 1) == 2 * BitAnd(y, y - 1);
      ClearLowestBitPow2(y);
    } else if x > 1 {
      var y := x / 2;
      assert (x - 1) / 2 == y;
      assert BitAnd(x, x - 1) == 2 * BitAnd(y, y);
      BitAndSelf(y);
    }
  }

  /** The only power of two in [2^k, 2^(k+1)) is 2^k. */
  lemma {:induction false} Pow2Window(x: nat, k: nat)
    requires Pow2(k) <= x < 2 * Pow2(k)
    ensures IsPow2(x) <==> x == Pow2(k)
  {
    if k > 0 {
      Pow2Window(x / 2, k - 1);
    }
  }

  /** Bytes per sector: a power of two within [512, 2048]. */
  predicate SectorSizeOk(bps: nat)
    requires bps < TWO16
  {
    !(bps < 0x200 || ClearLowestBit(bps) != 0 || bps > 0x800)
  }

  /** Sectors per cluster: a nonzero power of two. */
  predicate ClusterFactorOk(spc: byte)
  {
    !(spc == 0 || ClearLowestBit(spc) != 0)
  }

  predicate HasType(buf: seq<byte>, ext: nat, name: seq<byte>)
    requires ext + EX_FILE_SYS_TYPE + 8 <= |buf|
  {
    buf[ext + EX_FILE_SYS_TYPE .. ext + EX_FILE_SYS_TYPE + 8] == name
  }

  /** `MSDOSProbe`: the FAT width of a boot sector, 0 when it is not FAT. */
  function Probe(buf: seq<byte>): (r: nat)
    requires |buf| >= SECTOR
    ensures r in {0, 12, 16, 32}
  {
    if !SectorSizeOk(LE16(buf, BPB_BYTES_PER_SEC)) then 0
    else if !ClusterFactorOk(buf[BPB_SEC_PER_CLUST]) then 0
    else if LE16(buf, BPB_ROOT_DIR_ENTS) == 0 then
      (if HasType(buf, EXT_FAT32, FAT32_TYPE) then 32 else 0)
    else if buf[EXT_FAT16 + EX_BOOT_SIGNATURE] == EXBOOTSIG then
      (if HasType(buf, EXT_FAT16, FAT16_TYPE) then 16
       else if HasType(buf, EXT_FAT16, FAT12_TYPE) then 12
       else 0)
    else 0
  }

  /** The bit test accepts exactly 512, 1024 and 2048 bytes per sector. */
  lemma SectorSizeOkIff(bps: nat)
    requires bps < TWO16
    ensures SectorSizeOk(bps) <==> bps in SECTOR_SIZES
  {
    if 0x200 <= bps <= 0x800 {
      ClearLowestBitPow2(bps);
      assert Pow2(9) == 512 && Pow2(10) == 1024 && Pow2(11) == 2048 by {
        assert Pow2(4) == 16;
        assert Pow2(8) == 256;
      }
      if bps < 1024 {
        Pow2Window(bps, 9);
      } else if bps < 2048 {
        Pow2Window(bps, 10);
      } else {
        Pow2Window(bps, 11);
      }
    }
  }

  /** The bit test accepts exactly the powers of two that fit a byte. */
  lemma ClusterFactorOkIff(spc: byte)
    ensures ClusterFactorOk(spc) <==> spc in CLUSTER_FACTORS
  {
    if spc != 0 {
      ClearLowestBitPow2(spc);
      assert Pow2(4) == 16 && Pow2(7) == 128;
      var k := if spc < 2 then 0 else if spc < 4 then 1 else if spc < 8 then 2 else if spc < 16 then 3
        else if spc < 32 then 4 else if spc < 64 then 5 else if spc < 128 then 6 else 7;
      Pow2Window(spc, k);
    }
  }

  /** What each probe answer means, in terms of the boot-sector fields. */
  lemma ProbeIff(buf: seq<byte>)
    requires |buf| >= SECTOR
    ensures var sizesOk := LE16(buf, BPB_BYTES_PER_SEC) in SECTOR_SIZES && buf[BPB_SEC_PER_CLUST] in CLUSTER_FACTORS;
      && (Probe(buf) == 32 <==> sizesOk && LE16(buf, BPB_ROOT_DIR_ENTS) == 0 && HasType(buf, EXT_FAT32, FAT32_TYPE))
      && (Probe(buf) == 16 <==>
            (sizesOk && LE16(buf, BPB_ROOT_DIR_ENTS) != 0
             && buf[EXT_FAT16 + EX_BOOT_SIGNATURE] == EXBOOTSIG && HasType(buf, EXT_FAT16, FAT16_TYPE)))
      && (Probe(buf) == 12 <==>
            (sizesOk && LE16(buf, BPB_ROOT_DIR_ENTS) != 0
             && buf[EXT_FAT16 + EX_BOOT_SIGNATURE] == EXBOOTSIG && HasType(buf, EXT_FAT16, FAT12_TYPE)))
  {
    SectorSizeOkIff(LE16(buf, BPB_BYTES_PER_SEC));
    ClusterFactorOkIff(buf[BPB_SEC_PER_CLUST]);
    assert FAT16_TYPE[4] != FAT12_TYPE[4];
    if HasType(buf, EXT_FAT16, FAT12_TYPE) {
      assert buf[EXT_FAT16 + EX_FILE_SYS_TYPE + 4] == FAT12_TYPE[4];
    }
  }

  /** The static geometry fields `MSDOSInitPartition` fills in. */
  datatype Geometry = Geometry(
    fatBits: nat, bps: nat, resSectors: nat, nFats: nat, fatSecs: nat,
    rootCluster: nat, rootDirSectors: nat, clusterSize: nat)

  /** Directory sectors of a FAT12/16 root directory: entries times 32, rounded up to sectors. */
  function RootDirSectors(ents: nat, bps: nat): (n: nat)
    requires bps > 0
    ensures n * bps >= ents * DIRENT_SIZE
    ensures n == 0 || (n - 1) * bps < ents * DIRENT_SIZE
  {
    CeilDiv(ents * DIRENT_SIZE, bps)
  }

  function CeilDiv(a: nat, b: nat): (q: nat)
    requires b > 0
    ensures q * b >= a && (q == 0 || (q - 1) * b < a)
  {
    var q := (a + b - 1) / b;
    var r := (a + b - 1) % b;
    assert a + b - 1 == q * b + r && 0 <= r < b;
    assert (q - 1) * b == q * b - b;
    q
  }

  /**
   * The geometry `MSDOSInitPartition` derives from a boot sector, or None
   * when it rejects the sector. The FAT32 FAT size is read through a 16-bit
   * swap of the 32-bit field, so only its low 16 bits are kept.
   */
  function DecodeBootSector(buf: seq<byte>): (g: Option<Geometry>)
    requires |buf| >= SECTOR
    ensures g.Some? <==> Probe(buf) != 0
    ensures g.Some? ==>
      (g.value.fatBits == Probe(buf) && g.value.bps == LE16(buf, BPB_BYTES_PER_SEC)
       && g.value.clusterSize == g.value.bps * buf[BPB_SEC_PER_CLUST] && g.value.clusterSize >= SECTOR
       && g.value.resSectors == LE16(buf, BPB_RES_SECTORS) && g.value.nFats == buf[BPB_FATS])
    ensures g.Some? && g.value.fatBits == 32 ==>
      (g.value.rootDirSectors == 0 && g.value.rootCluster == LE32(buf, BPB_ROOT_CLUST)
       && g.value.fatSecs == LE16(buf, BPB_BIG_FAT_SECS))
    ensures g.Some? && g.value.fatBits != 32 ==>
      (g.value.rootCluster == 0 && g.value.fatSecs == LE16(buf, BPB_FAT_SECS)
       && g.value.rootDirSectors == RootDirSectors(LE16(buf, BPB_ROOT_DIR_ENTS), g.value.bps))
  {
    var fatBits := Probe(buf);
    if fatBits == 0 then None
    else
      var bps := LE16(buf, BPB_BYTES_PER_SEC);
      var spc := buf[BPB_SEC_PER_CLUST];
      SectorSizeOkIff(bps);
      ClusterFactorOkIff(spc);
      var cs := ClusterBytes(bps, spc);
      if fatBits == 32 then
        Some(Geometry(32, bps, LE16(buf, BPB_RES_SECTORS), buf[BPB_FATS], LE16(buf, BPB_BIG_FAT_SECS),
                      LE32(buf, BPB_ROOT_CLUST), 0, cs))
      else
        Some(Geometry(fatBits, bps, LE16(buf, BPB_RES_SECTORS), buf[BPB_FATS], LE16(buf, BPB_FAT_SECS),
                      0, RootDirSectors(LE16(buf, BPB_ROOT_DIR_ENTS), bps), cs))
  }

  function ClusterBytes(bps: nat, spc: nat): (cs: nat)
    requires bps >= SECTOR && spc >= 1
    ensures cs == bps * spc && cs >= SECTOR
  {
    bps * spc
  }

  /** A geometry that cluster arithmetic can work with. */
  predicate ValidGeometry(g: Geometry)
  {
    g.fatBits in {12, 16, 32} && g.clusterSize >= SECTOR
  }

  /**
   * The static fields of `msdos.c`: the geometry and the handle it was read
   * from (0 when none).
   */
  class FatVolume {
    var current: int
    var geo: Geometry

    ghost predicate Valid()
      reads this
    {
      current != 0 ==> ValidGeometry(geo)
    }

    constructor()
      ensures current == 0 && Valid()
    {
      current := 0;
      geo := Geometry(0, 0, 0, 0, 0, 0, 0, 0);
    }

    /**
     * `MSDOSInitPartition`: nothing to do for the handle already current;
     * otherwise the boot sector is checked and the geometry set. A rejected
     * sector leaves the previous handle current but has already overwritten
     * the bytes-per-sector field.
     */
    method InitPartition(ih: int, boot: seq<byte>) returns (r: int)
      requires ih != 0 && |boot| >= SECTOR && Valid()
      modifies this
      ensures Valid()
      ensures old(current) == ih ==> r == 0 && current == ih && geo == old(geo)
      ensures old(current) != ih && DecodeBootSector(boot).Some? ==>
        r == 0 && current == ih && geo == DecodeBootSector(boot).value
      ensures old(current) != ih && DecodeBootSector(boot).None? ==>
        r == -1 && current == old(current) && geo == old(geo).(bps := LE16(boot, BPB_BYTES_PER_SEC))
    {
      if current == ih {
        return 0;
      }
      var bps := LE16(boot, BPB_BYTES_PER_SEC);
      geo := geo.(bps := bps);
      if bps < 0x200 || ClearLowestBit(bps) != 0 || bps > 0x800 {
        return -1;
      }
      var spc := boot[BPB_SEC_PER_CLUST];
      if spc == 0 || ClearLowestBit(spc) != 0 {
        return -1;
      }
      SectorSizeOkIff(bps);
      ClusterFactorOkIff(spc);
      var fatBits, fatSecs, rootCluster, rootDirSectors;
      if LE16(boot, BPB_ROOT_DIR_ENTS) == 0 {
        if !HasType(boot, EXT_FAT32, FAT32_TYPE) {
          return -1;
        }
        fatSecs := LE16(boot, BPB_BIG_FAT_SECS);
        rootCluster := LE32(boot, BPB_ROOT_CLUST);
        rootDirSectors := 0;
        fatBits := 32;
      } else if boot[EXT_FAT16 + EX_BOOT_SIGNATURE] == EXBOOTSIG {
        if HasType(boot, EXT_FAT16, FAT16_TYPE) {
          fatBits := 16;
        } else if HasType(boot, EXT_FAT16, FAT12_TYPE) {
          fatBits := 12;
        } else {
          return -1;
        }
        fatSecs := LE16(boot, BPB_FAT_SECS);
        rootCluster := 0;
        rootDirSectors := RootDirSectors(LE16(boot, BPB_ROOT_DIR_ENTS), bps);
      } else {
        return -1;
      }
      geo := Geometry(fatBits, bps, LE16(boot, BPB_RES_SECTORS), boot[BPB_FATS], fatSecs,
                      rootCluster, rootDirSectors, ClusterBytes(bps, spc));
      current := ih;
      r := 0;
    }

    /**
     * `MSDOSReadFile`, given the entry the path lookup found (if any) and
     * the bytes `junk` the freshly allocated cluster buffer holds: −1 when
     * the volume is not recognised or the entry is missing or a directory;
     * otherwise the read of `ReadExtent`.
     */
    method ReadFile(ih: int, disk: seq<byte>, found: Option<DirEntry>, offset: nat, length: nat,
                    junk: nat -> byte) returns (r: int, data: seq<byte>)
      requires ih != 0 && |disk| >= SECTOR && Valid()
      modifies this
      ensures Valid()
      ensures current == (if InitOk(old(current), ih, disk) then ih else old(current))
      ensures geo == InitGeometry(old(current), old(geo), ih, disk)
      ensures !InitOk(old(current), ih, disk) || found.None? || IsDirectory(found.value) ==> r == -1 && data == []
      ensures InitOk(old(current), ih, disk) && found.Some? && !IsDirectory(found.value) ==>
        ValidGeometry(geo) &&
        (VolumeReaderOk(geo, disk);
         (r, data) == ReadExtent(VolumeReader(geo, disk), geo.clusterSize, StartCluster(geo.fatBits, found.value),
                                 FileSize(found.value), offset, length, seq(geo.clusterSize, i requires 0 <= i => junk(i))))
    {
      var s := InitPartition(ih, disk);
      if s < 0 {
        return -1, [];
      }
      if found.None? || IsDirectory(found.value) {
        return -1, [];
      }
      var stale := seq(geo.clusterSize, i requires 0 <= i => junk(i));
      VolumeReaderOk(geo, disk);
      r, data := ReadExtentFile(VolumeReader(geo, disk), geo.clusterSize, StartCluster(geo.fatBits, found.value),
                                FileSize(found.value), offset, length, stale);
    }

    /** `MSDOSLoadFile`: the whole file, from offset 0. */
    method LoadFile(ih: int, disk: seq<byte>, found: Option<DirEntry>, junk: nat -> byte)
      returns (r: int, data: seq<byte>)
      requires ih != 0 && |disk| >= SECTOR && Valid()
      modifies this
      ensures Valid()
      ensures current == (if InitOk(old(current), ih, disk) then ih else old(current))
      ensures geo == InitGeometry(old(current), old(geo), ih, disk)
      ensures !InitOk(old(current), ih, disk) || found.None? || IsDirectory(found.value) ==> r == -1 && data == []
      ensures InitOk(old(current), ih, disk) && found.Some? && !IsDirectory(found.value) ==>
        ValidGeometry(geo) &&
        (VolumeReaderOk(geo, disk);
         (r, data) == ReadExtent(VolumeReader(geo, disk), geo.clusterSize, StartCluster(geo.fatBits, found.value),
                                 FileSize(found.value), 0, 0, seq(geo.clusterSize, i requires 0 <= i => junk(i))))
    {
      r, data := ReadFile(ih, disk, found, 0, 0, junk);
    }

    /**
     * `MSDOSGetFileBlock`: −1 when the volume is not recognised or the
     * entry is missing or a directory; otherwise the status and block of
     * the entry's first cluster (the corrected `FileBlock`).
     */
    method GetFileBlock(ih: int, disk: seq<byte>, found: Option<DirEntry>) returns (r: int, block: Option<nat>)
      requires ih != 0 && |disk| >= SECTOR && Valid()
      modifies this
      ensures Valid()
      ensures current == (if InitOk(old(current), ih, disk) then ih else old(current))
      ensures geo == InitGeometry(old(current), old(geo), ih, disk)
      ensures !InitOk(old(current), ih, disk) || found.None? || IsDirectory(found.value) ==> r == -1 && block.None?
      ensures InitOk(old(current), ih, disk) && found.Some? && !IsDirectory(found.value) ==>
        BlockResult(r, block) == FileBlock(geo, StartCluster(geo.fatBits, found.value))
    {
      var s := InitPartition(ih, disk);
      if s < 0 || found.None? || IsDirectory(found.value) {
        return -1, None;
      }
      var b := FileBlock(geo, StartCluster(geo.fatBits, found.value));
      r, block := b.status, b.block;
    }

    /** `MSDOSGetUUID`: −1 when the volume is not recognised, else 0 and the 16 UUID bytes. */
    method GetUuid(ih: int, disk: seq<byte>) returns (r: int, uuid: seq<byte>)
      requires ih != 0 && |disk| >= SECTOR && Valid()
      modifies this
      ensures Valid()
      ensures current == (if InitOk(old(current), ih, disk) then ih else old(current))
      ensures geo == InitGeometry(old(current), old(geo), ih, disk)
      ensures !InitOk(old(current), ih, disk) ==> r == -1 && uuid == []
      ensures InitOk(old(current), ih, disk) ==> r == 0 && uuid == VolumeUuid(geo.fatBits, disk)
    {
      var s := InitPartition(ih, disk);
      if s < 0 {
        return -1, [];
      }
      r, uuid := 0, VolumeUuid(geo.fatBits, disk);
    }

    /**
     * `MSDOSGetDescription`, given the result of the root-directory walk
     * for a volume-label entry, the long name collected with it and the
     * uninitialised bytes of the label buffer: no text when the volume is
     * not recognised, otherwise `Description`.
     */
    method GetDescription(ih: int, disk: seq<byte>, found: Option<DirEntry>, vfat: seq<nat>, junk: seq<byte>)
      returns (text: seq<nat>)
      requires ih != 0 && |disk| >= SECTOR && Valid() && |vfat| >= 1 && |junk| == LABEL_LENGTH + 1
      modifies this
      ensures Valid()
      ensures current == (if InitOk(old(current), ih, disk) then ih else old(current))
      ensures geo == InitGeometry(old(current), old(geo), ih, disk)
      ensures !InitOk(old(current), ih, disk) ==> text == []
      ensures InitOk(old(current), ih, disk) ==> text == Description(geo.fatBits, disk, found, vfat, junk)
    {
      var s := InitPartition(ih, disk);
      if s < 0 {
        return [];
      }
      text := DescribeVolume(geo.fatBits, disk, found, vfat, junk);
    }
  }

  /** The label choice of `MSDOSGetDescription`, over a fresh label buffer holding `junk`. */
  method DescribeVolume(fatBits: nat, disk: seq<byte>, found: Option<DirEntry>, vfat: seq<nat>, junk: seq<byte>)
    returns (text: seq<nat>)
    requires |disk| >= SECTOR && |vfat| >= 1 && |junk| == LABEL_LENGTH + 1
    ensures text == Description(fatBits, disk, found, vfat, junk)
  {
    var lbuf := new byte[LABEL_LENGTH + 1](i requires 0 <= i < LABEL_LENGTH + 1 => junk[i]);
    lbuf[0] := 0;
    assert lbuf[..] == [0] + junk[1..];
    if found.Some? && vfat[0] != 0 {
      text := LongLabel(vfat);
      return;
    }
    if found.Some? {
      CopyLabel(lbuf, StrNCopy(found.value, LABEL_LENGTH));
      text := FixLabel(lbuf);
      if !EmptyText(text) {
        return;
      }
    }
    text := FallbackText(fatBits, disk, lbuf);
  }

  /** `strncpy` of a label into the 12-byte label buffer; the last byte is left alone. */
  method CopyLabel(lbuf: array<byte>, copy: seq<byte>)
    requires lbuf.Length == LABEL_LENGTH + 1 && |copy| == LABEL_LENGTH
    modifies lbuf
    ensures lbuf[..] == copy + [old(lbuf[LABEL_LENGTH])]
  {
    forall i | 0 <= i < LABEL_LENGTH {
      lbuf[i] := copy[i];
    }
  }

  /** The boot-block fallback of `MSDOSGetDescription`. */
  method FallbackText(fatBits: nat, disk: seq<byte>, lbuf: array<byte>) returns (text: seq<nat>)
    requires |disk| >= SECTOR && lbuf.Length == LABEL_LENGTH + 1
    modifies lbuf
    ensures text == LabelText(FallbackLabel(fatBits, disk, old(lbuf[..])))
  {
    if fatBits == 32 || fatBits == 16 {
      CopyLabel(lbuf, BootLabel(fatBits, disk));
    }
    text := FixLabel(lbuf);
  }

  // ---------------------------------------------------------------------
  // Clusters and the FAT
  // ---------------------------------------------------------------------

  /** The first reserved cluster number per FAT width; 0 (no cluster valid) for other widths. */
  function ReservedCluster(fatBits: nat): nat
  {
    if fatBits == 32 then CLUST_RSRVD32
    else if fatBits == 16 then CLUST_RSRVD16
    else if fatBits == 12 then CLUST_RSRVD12
    else 0
  }

  predicate ClusterInRange(g: Geometry, c: int)
  {
    CLUST_FIRST <= c < ReservedCluster(g.fatBits)
  }

  /** Byte offset of a data cluster: after the reserved sectors, the FATs and the root directory. */
  function DataOffset(g: Geometry, c: nat): nat
    requires c >= CLUST_FIRST
  {
    (g.resSectors + g.nFats * g.fatSecs + g.rootDirSectors) * g.bps + (c - CLUST_FIRST) * g.clusterSize
  }

  /** Byte offset of a cluster's FAT entry: after the reserved sectors, `fatBits` bits per entry. */
  function FatEntryOffset(g: Geometry, c: nat): nat
  {
    g.resSectors * g.bps + c * g.fatBits / 8
  }

  function Pow2(n: nat): (r: nat)
    ensures r >= 1
  {
    if n == 0 then 1 else 2 * Pow2(n - 1)
  }

  /**
   * The next cluster from the four bytes read at the FAT entry: FAT32
   * drops the reserved top four bits, FAT16 takes the 16-bit entry, FAT12
   * shifts the 16-bit word right by (c·12) mod 8 and keeps 12 bits.
   */
  function NextCluster(fatBits: nat, c: nat, entry: seq<byte>): (n: nat)
    requires |entry| == 4
    ensures fatBits == 32 ==> n < 0x1000_0000 && n % 0x1000_0000 == LE32(entry, 0) % 0x1000_0000
    ensures fatBits == 16 ==> n == LE16(entry, 0)
    ensures fatBits != 32 && fatBits != 16 ==> n < 0x1000
  {
    if fatBits == 32 then LE32(entry, 0) % 0x1000_0000
    else if fatBits == 16 then LE16(entry, 0)
    else (LE16(entry, 0) / Pow2(c * fatBits % 8)) % 0x1000
  }

  /**
   * FAT12 as fatgen103 lays it out: the entry of cluster c starts at byte
   * c + c/2 of the FAT; an even cluster owns the low 12 bits of the 16-bit
   * word there, an odd cluster the high 12 bits.
   */
  lemma Fat12Entry(g: Geometry, c: nat, entry: seq<byte>)
    requires g.fatBits == 12 && |entry| == 4
    ensures FatEntryOffset(g, c) == g.resSectors * g.bps + c + c / 2
    ensures c % 2 == 0 ==> NextCluster(12, c, entry) == LE16(entry, 0) % 0x1000
    ensures c % 2 == 1 ==> NextCluster(12, c, entry) == LE16(entry, 0) / 16
  {
    var k, m := c / 2, c % 2;
    assert c * 12 == 8 * (3 * k + m) + 4 * m;
    assert c * 12 / 8 == 3 * k + m;
    assert c * 12 % 8 == 4 * m;
    assert Pow2(4) == 16;
  }

  /** The bytes of the volume from `off`. */
  function ReadAt(disk: seq<byte>, off: nat, n: nat): (r: seq<byte>)
    ensures |r| == n && forall i :: 0 <= i < n ==> r[i] == ByteAt(disk, off + i)
  {
    seq<byte>(n, i requires 0 <= i < n => ByteAt(disk, off + i))
  }

  datatype ClusterRead = ClusterRead(data: seq<byte>, next: nat)

  /**
   * `msdosreadcluster`: for a cluster inside [2, reserved) the `size` bytes
   * of its data and the next cluster from its FAT entry; None (the C's 0)
   * otherwise, and then the caller's cluster is left as it was.
   */
  function ReadCluster(g: Geometry, disk: seq<byte>, c: int, size: nat): (r: Option<ClusterRead>)
    ensures r.Some? <==> ClusterInRange(g, c)
    ensures r.Some? ==> |r.value.data| == size && r.value.next < 0x1000_0000
  {
    if !ClusterInRange(g, c) then None
    else
      Some(ClusterRead(ReadAt(disk, DataOffset(g, c), size),
                       NextCluster(g.fatBits, c, ReadAt(disk, FatEntryOffset(g, c), 4))))
  }

  /**
   * An end-of-chain entry stops the walk: whatever the next cluster read
   * from the FAT, a value at or above the reserved range is refused by the
   * next read.
   */
  lemma EndOfChainStops(g: Geometry, disk: seq<byte>, c: nat, size: nat)
    requires g.fatBits in {12, 16} && ClusterInRange(g, c)
    requires LE16(ReadAt(disk, FatEntryOffset(g, c), 4), 0) == 0xFFFF
    ensures ReadCluster(g, disk, ReadCluster(g, disk, c, size).value.next, size).None?
  {
    var entry := ReadAt(disk, FatEntryOffset(g, c), 4);
    if g.fatBits == 12 {
      Fat12Entry(g, c, entry);
    }
  }

  /** Consecutive clusters tile the data region: each starts where the previous one ends. */
  lemma ClustersTile(g: Geometry, c: nat)
    requires c >= CLUST_FIRST
    ensures DataOffset(g, c + 1) == DataOffset(g, c) + g.clusterSize
    ensures DataOffset(g, CLUST_FIRST) == (g.resSectors + g.nFats * g.fatSecs + g.rootDirSectors) * g.bps
  {
    assert (c + 1 - CLUST_FIRST) * g.clusterSize == (c - CLUST_FIRST) * g.clusterSize + g.clusterSize;
  }

  // ---------------------------------------------------------------------
  // Long-name checksum
  // ---------------------------------------------------------------------

  /**
   * The checksum a long-name entry carries for its short name, over the
   * first `n` name bytes: rotate the running byte right by one and add the
   * next name byte (fatgen103, "FAT Long Directory Entries").
   */
  function ShortNameChecksum(name: seq<byte>, n: nat): (s: byte)
    requires n <= |name|
  {
    if n == 0 then 0
    else
      var p := ShortNameChecksum(name, n - 1);
      ((p % 2) * 128 + p / 2 + name[n - 1]) % 256
  }

  /** The C step `(cs >> 1) + (cs << 7) + b` truncated to 8 bits is the rotate-and-add step. */
  lemma ChecksumStep(p: byte, b: byte)
    ensures (p / 2 + p * 128 + b) % 256 == ((p % 2) * 128 + p / 2 + b) % 256
  {
    var q, m := p / 2, p % 2;
    assert p * 128 == 256 * q + 128 * m;
  }

  /** The label checksum loop of `getnextdirent`. */
  method LabelChecksum(name: seq<byte>) returns (cs: byte)
    requires |name| >= LABEL_LENGTH
    ensures cs == ShortNameChecksum(name, LABEL_LENGTH)
  {
    cs := 0;
    var i := 0;
    while i < LABEL_LENGTH
      invariant i <= LABEL_LENGTH
      invariant cs == ShortNameChecksum(name, i)
    {
      ChecksumStep(cs, name[i]);
      cs := (cs / 2 + cs * 128 + name[i]) % 256;
      i := i + 1;
    }
  }

  // ---------------------------------------------------------------------
  // Directory entries and the directory walk
  // ---------------------------------------------------------------------

  const SLOT_EMPTY: byte := 0x00
  const SLOT_DELETED: byte := 0xE5
  const ATTR_VOLUME: nat := 0x08
  const ATTR_DIRECTORY: nat := 0x10
  const ATTR_WIN95: byte := 0x0F
  const WIN_CHARS: nat := 13
  const WIN_MAXLEN: nat := 255
  /** Size in UCS-2 cells of the long-name buffers the callers pass. */
  const LONG_NAME_CELLS: nat := WIN_MAXLEN + 2 * WIN_CHARS

  // Short directory entry fields
  const DE_ATTRIBUTES: nat := 11
  const DE_HIGH_CLUST: nat := 20
  const DE_MTIME: nat := 22
  const DE_MDATE: nat := 24
  const DE_START_CLUSTER: nat := 26
  const DE_FILE_SIZE: nat := 28
  // Long-name entry fields
  const WE_CNT: nat := 0
  const WE_CHKSUM: nat := 13

  type DirEntry = e: seq<byte> | |e| == DIRENT_SIZE witness seq(DIRENT_SIZE, _ => 0)

  /** A short (8.3) entry: neither free, deleted nor a long-name part. */
  predicate IsShortEntry(e: DirEntry)
  {
    e[0] != SLOT_EMPTY && e[0] != SLOT_DELETED && e[DE_ATTRIBUTES] != ATTR_WIN95
  }

  /** The 13 UCS-2 characters of a long-name entry: 5 at offset 1, 6 at 14, 2 at 28. */
  function LongNameChars(e: DirEntry): (r: seq<nat>)
    ensures |r| == WIN_CHARS
  {
    [LE16(e, 1), LE16(e, 3), LE16(e, 5), LE16(e, 7), LE16(e, 9),
     LE16(e, 14), LE16(e, 16), LE16(e, 18), LE16(e, 20), LE16(e, 22), LE16(e, 24),
     LE16(e, 28), LE16(e, 30)]
  }

  /**
   * The walk state `msdosdirstate`, with the directory read as a sequence
   * of blocks (root-directory sectors or clusters): the block in hand, the
   * number of blocks read, the slot within the block, the long-name
   * checksum and part count collected so far, and the caller's long-name
   * buffer.
   */
  datatype Cursor = Cursor(buf: seq<DirEntry>, blk: nat, nument: nat, checksum: byte, number: nat,
                           longName: seq<nat>)

  predicate CursorOk(c: Cursor)
  {
    |c.longName| == LONG_NAME_CELLS && c.number * WIN_CHARS <= WIN_MAXLEN
    && (c.nument != 0 ==> c.nument < |c.buf|)
  }

  /** Next slot; past the end of the block back to 0, so that the next block is read. */
  function Bump(c: Cursor): Cursor
  {
    c.(nument := if c.nument + 1 >= |c.buf| then 0 else c.nument + 1)
  }

  /** A long-name part with ordinal `num`: it goes to cells 13·(num−1) onwards. */
  function TakeLongPart(c: Cursor, e: DirEntry, num: nat): (d: Cursor)
    requires CursorOk(c) && 1 <= num && WIN_CHARS * num <= WIN_MAXLEN
    ensures CursorOk(d) && d.buf == c.buf && d.blk == c.blk && d.nument == c.nument
  {
    var c1 := if c.checksum != e[WE_CHKSUM] then c.(number := 0, checksum := e[WE_CHKSUM]) else c;
    var c2 := if c1.number < num then c1.(number := num) else c1;
    var off := WIN_CHARS * (num - 1);
    c2.(longName := c2.longName[..off] + LongNameChars(e) + c2.longName[off + WIN_CHARS..])
  }

  /**
   * A short entry closes the long name: it is terminated after the parts
   * collected, and emptied unless a part was seen and the checksum of the
   * short name matches.
   */
  function CloseShortEntry(c: Cursor, e: DirEntry): (d: Cursor)
    requires CursorOk(c)
    ensures CursorOk(d) && d.buf == c.buf && d.blk == c.blk && d.nument == c.nument
  {
    var named := c.longName[c.number * WIN_CHARS := 0];
    var kept := if ShortNameChecksum(e, LABEL_LENGTH) == c.checksum && c.number != 0 then named
                else named[0 := 0];
    c.(longName := kept, number := 0, checksum := 0)
  }

  /** What one round of the `getnextdirent` loop does with the entry in hand. */
  datatype Outcome = Found | EndOfDir | Advance | Stay | Fault

  /**
   * One round as written. `Stay` is the C `continue` for a long-name part
   * whose count byte has bit 7 set or whose ordinal exceeds 19: the state
   * is left as it was. `Fault` is a part with ordinal 0, which the C
   * copies to 13 cells before the start of the long-name buffer.
   */
  function VisitAsWritten(c: Cursor): (r: (Outcome, Cursor))
    requires CursorOk(c) && c.nument < |c.buf|
  {
    var e := c.buf[c.nument];
    if e[0] == SLOT_EMPTY then (EndOfDir, c)
    else if e[0] == SLOT_DELETED then (Advance, Bump(c.(number := 0)))
    else if e[DE_ATTRIBUTES] == ATTR_WIN95 then
      var num := e[WE_CNT] % 64;
      if e[WE_CNT] >= 128 || WIN_CHARS * num > WIN_MAXLEN then (Stay, c)
      else if num == 0 then (Fault, c)
      else (Advance, Bump(TakeLongPart(c, e, num)))
    else (Found, Bump(CloseShortEntry(c, e)))
  }

  /**
   * When the slot is not the first of its block, the `continue` re-enters
   * the loop with nothing changed and reads the same slot again, for
   * ever. The first part of a 248 to 255-character name (ordinal 20, with
   * the last-part flag: count byte 0x54) is such an entry.
   */
  lemma MaxLengthNameStalls(c: Cursor)
    requires CursorOk(c) && 0 < c.nument < |c.buf|
    requires c.buf[c.nument][WE_CNT] == 0x54 && c.buf[c.nument][DE_ATTRIBUTES] == ATTR_WIN95
    ensures VisitAsWritten(c) == (Stay, c)
    ensures c.nument != 0 && VisitAsWritten(c).1.buf[VisitAsWritten(c).1.nument] == c.buf[c.nument]
  {
  }

  /**
   * One round with the skipped long-name parts moving on to the next slot
   * like every other entry. Each round ends the walk, returns an entry or
   * advances; a returned entry is a short entry, and it keeps the long
   * name only when a part was seen and the short-name checksum matches.
   */
  function Visit(c: Cursor): (r: (Outcome, Cursor))
    requires CursorOk(c) && c.nument < |c.buf|
    ensures CursorOk(r.1) && r.1.buf == c.buf && r.1.blk == c.blk
    ensures r.0 in {Found, EndOfDir, Advance}
    ensures r.0 == EndOfDir <==> c.buf[c.nument][0] == SLOT_EMPTY
    ensures r.0 == EndOfDir ==> r.1 == c
    ensures r.0 != EndOfDir ==> r.1.nument == Bump(c).nument
    ensures r.0 == Found <==> IsShortEntry(c.buf[c.nument])
    ensures r.0 == Found && r.1.longName[0] != 0 ==>
      ShortNameChecksum(c.buf[c.nument], LABEL_LENGTH) == c.checksum && c.number != 0
    ensures r.0 == Found && ShortNameChecksum(c.buf[c.nument], LABEL_LENGTH) == c.checksum && c.number != 0 ==>
      r.1.longName == c.longName[c.number * WIN_CHARS := 0]
  {
    var r := VisitAsWritten(c);
    if r.0 == Stay || r.0 == Fault then (Advance, Bump(c)) else r
  }

  /** Every block of a directory holds at least one slot. */
  predicate BlocksOk(dir: seq<seq<DirEntry>>)
  {
    forall i :: 0 <= i < |dir| ==> |dir[i]| >= 1
  }

  /**
   * `getnextdirent`: run rounds, reading the next block whenever the slot
   * is 0, until a short entry is found (Some) or the blocks run out or a
   * free slot is met (None).
   */
  function NextEntry(dir: seq<seq<DirEntry>>, c: Cursor): (r: (Option<DirEntry>, Cursor))
    requires CursorOk(c) && c.blk <= |dir| && BlocksOk(dir)
    ensures CursorOk(r.1) && r.1.blk <= |dir|
    ensures r.0.Some? ==> IsShortEntry(r.0.value) && r.0.value in r.1.buf
    decreases |dir| - c.blk, if c.nument == 0 then 0 else |c.buf| - c.nument + 1
  {
    if c.nument == 0 && c.blk == |dir| then (None, c)
    else
      var c1 := Load(dir, c);
      var v := Visit(c1);
      if v.0 == Found then (Some(c1.buf[c1.nument]), v.1)
      else if v.0 == EndOfDir then (None, v.1)
      else NextEntry(dir, v.1)
  }

  /** At slot 0 the next block is read into the buffer. */
  function Load(dir: seq<seq<DirEntry>>, c: Cursor): (d: Cursor)
    requires CursorOk(c) && c.blk <= |dir| && BlocksOk(dir) && (c.nument != 0 || c.blk < |dir|)
    ensures CursorOk(d) && d.nument < |d.buf| && d.blk <= |dir|
  {
    if c.nument == 0 then c.(buf := dir[c.blk], blk := c.blk + 1) else c
  }

  /** The directory-walk state `getnextdirent` updates in place. */
  class DirWalker {
    var buf: seq<DirEntry>
    var blk: nat
    var nument: nat
    var checksum: byte
    var number: nat
    var longName: seq<nat>

    function Snapshot(): Cursor
      reads this
    {
      Cursor(buf, blk, nument, checksum, number, longName)
    }

    /** `initRoot` and the restart at a subdirectory: nothing read yet. */
    constructor(longName0: seq<nat>)
      requires |longName0| == LONG_NAME_CELLS
      ensures Snapshot() == Cursor([], 0, 0, 0, 0, longName0) && CursorOk(Snapshot())
    {
      buf := [];
      blk := 0;
      nument := 0;
      checksum := 0;
      number := 0;
      longName := longName0;
    }

    /** The long-name part branch of the loop body. */
    method TakePart(e: DirEntry, num: nat)
      requires CursorOk(Snapshot()) && 1 <= num && WIN_CHARS * num <= WIN_MAXLEN
      modifies this
      ensures Snapshot() == TakeLongPart(old(Snapshot()), e, num)
    {
      if checksum != e[WE_CHKSUM] {
        number := 0;
        checksum := e[WE_CHKSUM];
      }
      if number < num {
        number := num;
      }
      var off := WIN_CHARS * (num - 1);
      longName := longName[..off] + LongNameChars(e) + longName[off + WIN_CHARS..];
    }

    /** The short-entry branch of the loop body, before the slot moves on. */
    method CloseEntry(e: DirEntry)
      requires CursorOk(Snapshot())
      modifies this
      ensures Snapshot() == CloseShortEntry(old(Snapshot()), e)
    {
      longName := longName[number * WIN_CHARS := 0];
      var cs := LabelChecksum(e);
      if !(cs == checksum && number != 0) {
        longName := longName[0 := 0];
      }
      number := 0;
      checksum := 0;
    }

    /** One round on the slot in hand. */
    method VisitSlot() returns (o: Outcome)
      requires CursorOk(Snapshot()) && nument < |buf|
      modifies this
      ensures (o, Snapshot()) == Visit(old(Snapshot()))
    {
      var e := buf[nument];
      if e[0] == SLOT_EMPTY {
        return EndOfDir;
      }
      o := Advance;
      if e[0] == SLOT_DELETED {
        number := 0;
      } else if e[DE_ATTRIBUTES] == ATTR_WIN95 {
        var num := e[WE_CNT] % 64;
        if e[WE_CNT] < 128 && WIN_CHARS * num <= WIN_MAXLEN && num != 0 {
          TakePart(e, num);
        }
      } else {
        CloseEntry(e);
        o := Found;
      }
      nument := if nument + 1 >= |buf| then 0 else nument + 1;
    }

    method Next(dir: seq<seq<DirEntry>>) returns (r: Option<DirEntry>)
      requires CursorOk(Snapshot()) && blk <= |dir| && BlocksOk(dir)
      modifies this
      ensures (r, Snapshot()) == NextEntry(dir, old(Snapshot()))
    {
      while true
        invariant CursorOk(Snapshot()) && blk <= |dir|
        invariant NextEntry(dir, Snapshot()) == NextEntry(dir, old(Snapshot()))
        decreases |dir| - blk, if nument == 0 then 0 else |buf| - nument + 1
      {
        ghost var c0 := Snapshot();
        if nument == 0 {
          if blk == |dir| {
            return None;
          }
          buf := dir[blk];
          blk := blk + 1;
        }
        assert Snapshot() == Load(dir, c0);
        var e := buf[nument];
        var o := VisitSlot();
        ghost var v := Visit(Load(dir, c0));
        assert (o, Snapshot()) == v;
        assert NextEntry(dir, c0) == if v.0 == Found then (Some(e), v.1)
          else if v.0 == EndOfDir then (None, v.1) else NextEntry(dir, v.1);
        if o == Found {
          return Some(e);
        } else if o == EndOfDir {
          return None;
        }
      }
    }
  }

  // ---------------------------------------------------------------------
  // Short names and labels
  // ---------------------------------------------------------------------

  /** Code page 850 bytes 0x80–0xFF as UCS-2: the lower-case column of the table, in rows of 16. */
  const CP850_LOWER_80: seq<nat> := [0x00E7, 0x00FC, 0x00E9, 0x00E2, 0x00E4, 0x00E0, 0x00E5, 0x00E7, 0x00EA, 0x00EB, 0x00E8, 0x00EF, 0x00EE, 0x00EC, 0x00E4, 0x00E5]
  const CP850_LOWER_90: seq<nat> := [0x00E9, 0x00E6, 0x00E6, 0x00F4, 0x00F6, 0x00F2, 0x00FB, 0x00F9, 0x00FF, 0x00F6, 0x00FC, 0x00F8, 0x00A3, 0x00F8, 0x00D7, 0x0192]
  const CP850_LOWER_A0: seq<nat> := [0x00E1, 0x00ED, 0x00F3, 0x00FA, 0x00F1, 0x00F1, 0x00AA, 0x00BA, 0x00BF, 0x00AE, 0x00AC, 0x00BD, 0x00BC, 0x00A1, 0x00AB, 0x00BB]
  const CP850_LOWER_B0: seq<nat> := [0x2591, 0x2592, 0x2593, 0x2502, 0x2524, 0x00E1, 0x00E2, 0x00E0, 0x00A9, 0x2563, 0x2551, 0x2557, 0x255D, 0x00A2, 0x00A5, 0x2510]
  const CP850_LOWER_C0: seq<nat> := [0x2514, 0x2534, 0x252C, 0x251C, 0x2500, 0x253C, 0x00E3, 0x00E3, 0x255A, 0x2554, 0x2569, 0x2566, 0x2560, 0x2550, 0x256C, 0x00A4]
  const CP850_LOWER_D0: seq<nat> := [0x00F0, 0x00F0, 0x00EA, 0x00EB, 0x00E8, 0x0131, 0x00ED, 0x00EE, 0x00EF, 0x2518, 0x250C, 0x2588, 0x2584, 0x00A6, 0x00EC, 0x2580]
  const CP850_LOWER_E0: seq<nat> := [0x00F3, 0x00DF, 0x00F4, 0x00F2, 0x00F5, 0x00F5, 0x00B5, 0x00FE, 0x00FE, 0x00FA, 0x00FB, 0x00F9, 0x00FD, 0x00FD, 0x00AF, 0x00B4]
  const CP850_LOWER_F0: seq<nat> := [0x00AD, 0x00B1, 0x2017, 0x00BE, 0x00B6, 0x00A7, 0x00F7, 0x00B8, 0x00B0, 0x00A8, 0x00B7, 0x00B9, 0x00B3, 0x00B2, 0x25A0, 0x00A0]
  const CP850_LOWER: seq<nat> :=
    CP850_LOWER_80 + CP850_LOWER_90 + CP850_LOWER_A0 + CP850_LOWER_B0
    + CP850_LOWER_C0 + CP850_LOWER_D0 + CP850_LOWER_E0 + CP850_LOWER_F0

  /** The upper-case column of the same table. */
  const CP850_UPPER_80: seq<nat> := [0x00C7, 0x00DC, 0x00C9, 0x00C2, 0x00C4, 0x00C0, 0x00C5, 0x00C7, 0x00CA, 0x00CB, 0x00C8, 0x00CF, 0x00CE, 0x00CC, 0x00C4, 0x00C5]
  const CP850_UPPER_90: seq<nat> := [0x00C9, 0x00C6, 0x00C6, 0x00D4, 0x00D6, 0x00D2, 0x00DB, 0x00D9, 0x0178, 0x00D6, 0x00DC, 0x00D8, 0x00A3, 0x00D8, 0x00D7, 0x0191]
  const CP850_UPPER_A0: seq<nat> := [0x00C1, 0x00CD, 0x00D3, 0x00DA, 0x00D1, 0x00D1, 0x00AA, 0x00BA, 0x00BF, 0x00AE, 0x00AC, 0x00BD, 0x00BC, 0x00A1, 0x00AB, 0x00BB]
  const CP850_UPPER_B0: seq<nat> := [0x2591, 0x2592, 0x2593, 0x2502, 0x2524, 0x00C1, 0x00C2, 0x00C0, 0x00A9, 0x2563, 0x2551, 0x2557, 0x255D, 0x00A2, 0x00A5, 0x2510]
  const CP850_UPPER_C0: seq<nat> := [0x2514, 0x2534, 0x252C, 0x251C, 0x2500, 0x253C, 0x00C3, 0x00C3, 0x255A, 0x2554, 0x2569, 0x2566, 0x2560, 0x2550, 0x256C, 0x00A4]
  const CP850_UPPER_D0: seq<nat> := [0x00D0, 0x00D0, 0x00CA, 0x00CB, 0x00C8, 0x0049, 0x00CD, 0x00CE, 0x00CF, 0x2518, 0x250C, 0x2588, 0x2584, 0x00A6, 0x00CC, 0x2580]
  const CP850_UPPER_E0: seq<nat> := [0x00D3, 0x00DF, 0x00D4, 0x00D2, 0x00D5, 0x00D5, 0x00B5, 0x00DE, 0x00DE, 0x00DA, 0x00DB, 0x00D9, 0x00DD, 0x00DD, 0x00AF, 0x00B4]
  const CP850_UPPER_F0: seq<nat> := [0x00AD, 0x00B1, 0x2017, 0x00BE, 0x00B6, 0x00A7, 0x00F7, 0x00B8, 0x00B0, 0x00A8, 0x00B7, 0x00B9, 0x00B3, 0x00B2, 0x25A0, 0x00A0]
  const CP850_UPPER: seq<nat> :=
    CP850_UPPER_80 + CP850_UPPER_90 + CP850_UPPER_A0 + CP850_UPPER_B0
    + CP850_UPPER_C0 + CP850_UPPER_D0 + CP850_UPPER_E0 + CP850_UPPER_F0

  const SPACE: byte := 0x20

  /** The `tolower` macro of `msdos.c`: an ASCII capital gets bit 5 (0x20) set. */
  function ToLower(b: byte): byte
  {
    if 'A' as int <= b <= 'Z' as int then b + 0x20 else b
  }

  /** A short-name byte as a UCS-2 character: code page 850 above 127, lower-cased ASCII below. */
  function NameChar(b: byte): nat
  {
    if b >= 128 then CP850_LOWER[b - 128] else ToLower(b)
  }

  /** Length of `e[from..from + n]` without its trailing spaces. */
  function TrimmedLen(e: seq<byte>, from: nat, n: nat): (k: nat)
    requires from + n <= |e|
    ensures k <= n
    ensures k > 0 ==> e[from + k - 1] != SPACE
    ensures forall j :: from + k <= j < from + n ==> e[j] == SPACE
  {
    if n == 0 || e[from + n - 1] != SPACE then n else TrimmedLen(e, from, n - 1)
  }

  /** The backward scans for the last non-space byte of `e[from..from + n]`; −1 when all blank. */
  method LastNonSpace(e: seq<byte>, from: nat, n: nat) returns (i: int)
    requires from + n <= |e|
    ensures i + 1 == TrimmedLen(e, from, n)
  {
    i := n - 1;
    while i >= 0 && e[from + i] == SPACE
      invariant -1 <= i < n
      invariant TrimmedLen(e, from, n) == TrimmedLen(e, from, i + 1)
    {
      i := i - 1;
    }
  }

  /** The short-name bytes `e[from..from + n]` mapped by `NameChar`. */
  function MapName(e: seq<byte>, from: nat, n: nat): (r: seq<nat>)
    requires from + n <= |e|
    ensures |r| == n && forall k :: 0 <= k < n ==> r[k] == NameChar(e[from + k])
    decreases n
  {
    if n == 0 then [] else [NameChar(e[from])] + MapName(e, from + 1, n - 1)
  }

  /**
   * The UCS-2 name `checkname` builds from a short entry: the 8-byte base
   * and, when the 3-byte extension is not blank, a dot and the extension,
   * each without trailing spaces and each byte mapped by `NameChar`.
   */
  function ShortName(e: DirEntry): (r: seq<nat>)
    ensures var b, x := TrimmedLen(e, 0, 8), TrimmedLen(e, 8, 3);
      && (x == 0 ==> r == MapName(e, 0, b))
      && (x > 0 ==> r == MapName(e, 0, b) + ['.' as nat] + MapName(e, 8, x))
  {
    var b := TrimmedLen(e, 0, 8);
    var x := TrimmedLen(e, 8, 3);
    if x == 0 then MapName(e, 0, b) else MapName(e, 0, b) + ['.' as nat] + MapName(e, 8, x)
  }

  /** One back-to-front fill loop of `checkname`: maps `e[from..from + n]` by `NameChar`. */
  method MapBackward(e: seq<byte>, from: nat, n: nat) returns (name: seq<nat>)
    requires from + n <= |e|
    ensures name == MapName(e, from, n)
  {
    var i := n - 1;
    name := [];
    while i >= 0
      invariant -1 <= i < n
      invariant name == MapName(e, from + i + 1, n - (i + 1))
    {
      name := [NameChar(e[from + i])] + name;
      i := i - 1;
    }
  }

  /** The name `checkname` compares when the entry has no long name. */
  method ShortNameOf(e: DirEntry) returns (name: seq<nat>)
    ensures name == ShortName(e)
  {
    var i := LastNonSpace(e, 0, 8);
    name := MapBackward(e, 0, i + 1);
    i := LastNonSpace(e, 8, 3);
    if i >= 0 {
      var ext := MapBackward(e, 8, i + 1);
      name := name + ['.' as nat] + ext;
    }
  }

  /** Some extension byte is ASCII while the base byte above it is not. */
  predicate MisreadsTable(e: DirEntry, x: nat)
    requires x <= 3
  {
    exists k :: 0 <= k < x && e[k] >= 128 && e[8 + k] < 128
  }

  /** Extension byte k as `MSDOSGetDirEntry` maps it, testing base byte k. */
  function ExtCharAsWritten(e: DirEntry, k: nat): nat
    requires k < 3 && !(e[k] >= 128 && e[8 + k] < 128)
  {
    if e[k] >= 128 then CP850_LOWER[e[8 + k] - 128] else ToLower(e[8 + k])
  }

  /**
   * The name `MSDOSGetDirEntry` builds, as written: for extension byte k it
   * tests base byte k for the code-page range but indexes the table with
   * extension byte k. None when that index falls below the table, which
   * the C then reads from the memory before it.
   */
  function DirEntryNameAsWritten(e: DirEntry): (r: Option<seq<nat>>)
  {
    var b := TrimmedLen(e, 0, 8);
    var x := TrimmedLen(e, 8, 3);
    if x == 0 then Some(MapName(e, 0, b))
    else if MisreadsTable(e, x) then None
    else Some(MapName(e, 0, b) + ['.' as nat] + seq(x, k requires 0 <= k < x => ExtCharAsWritten(e, k)))
  }

  /** The entry of `ListingNameDiffers`: base "ABC", extension byte 0x81. */
  predicate IsAbcEntry(e: DirEntry)
  {
    e[..LABEL_LENGTH] == [0x41, 0x42, 0x43, 0x20, 0x20, 0x20, 0x20, 0x20, 0x81, 0x20, 0x20]
  }

  lemma AbcParts(e: DirEntry)
    requires IsAbcEntry(e)
    ensures TrimmedLen(e, 0, 8) == 3 && TrimmedLen(e, 8, 3) == 1
    ensures MapName(e, 0, 3) == [0x61, 0x62, 0x63] && e[8] == 0x81 && e[0] == 0x41
  {
    assert e[0] == 0x41 && e[1] == 0x42 && e[2] == 0x43 && e[8] == 0x81;
    assert e[3] == SPACE && e[4] == SPACE && e[5] == SPACE && e[6] == SPACE && e[7] == SPACE;
    assert e[9] == SPACE && e[10] == SPACE;
    assert TrimmedLen(e, 0, 8) == 3;
    assert TrimmedLen(e, 8, 3) == 1;
  }

  /** Under `MSDOSGetDirEntry` the extension keeps the raw byte 0x81. */
  lemma AbcListing(e: DirEntry)
    requires IsAbcEntry(e)
    ensures DirEntryNameAsWritten(e) == Some([0x61, 0x62, 0x63, 0x2E, 0x81])
  {
    AbcParts(e);
    assert !MisreadsTable(e, 1);
    var ext := seq(1, k requires 0 <= k < 1 => ExtCharAsWritten(e, k));
    assert ext == [0x81];
    assert DirEntryNameAsWritten(e) == Some(MapName(e, 0, 3) + ['.' as nat] + ext);
    assert '.' as nat == 0x2E;
    assert MapName(e, 0, 3) + ['.' as nat] + ext == [0x61, 0x62, 0x63, 0x2E, 0x81];
  }

  /** Under `checkname` the extension is U+00FC. */
  lemma AbcLookup(e: DirEntry)
    requires IsAbcEntry(e)
    ensures ShortName(e) == [0x61, 0x62, 0x63, 0x2E, 0xFC]
  {
    AbcParts(e);
    assert CP850_LOWER[1] == 0xFC;
    assert MapName(e, 8, 1) == [NameChar(e[8])] + MapName(e, 9, 0);
  }

  /**
   * An ASCII base with a code-page extension byte: "ABC" with extension
   * byte 0x81 (ü in code page 850). The listing shows the raw 0x81 where
   * the path lookup compares against U+00FC, so the listed name does not
   * find the file.
   */
  lemma ListingNameDiffers(e: DirEntry)
    requires IsAbcEntry(e)
    ensures DirEntryNameAsWritten(e) != Some(ShortName(e))
  {
    AbcListing(e);
    AbcLookup(e);
    assert ShortName(e)[4] != 0x81;
  }

  /** On names of plain ASCII bytes the two conversions agree. */
  lemma AsciiNamesAgree(e: DirEntry)
    requires forall k :: 0 <= k < LABEL_LENGTH ==> e[k] < 128
    ensures DirEntryNameAsWritten(e) == Some(ShortName(e))
  {
    var x := TrimmedLen(e, 8, 3);
    if x > 0 {
      assert !MisreadsTable(e, x);
      assert seq(x, k requires 0 <= k < x => ExtCharAsWritten(e, k)) == MapName(e, 8, x);
    }
  }

  /** A leading 0x05 in a name stands for the byte 0xE5. */
  function Lead(l: seq<byte>): (r: seq<byte>)
    requires |l| >= 1
    ensures |r| == |l| && r[0] != 0x05 && r[1..] == l[1..]
  {
    if l[0] == 0x05 then l[0 := 0xE5] else l
  }

  /**
   * `fixLabel`'s edits of the 12-byte label buffer: the leading byte as
   * `Lead` says, and the trailing spaces of the 11 label bytes become NULs.
   * No trailing space remains.
   */
  function FixedLabel(l: seq<byte>): (r: seq<byte>)
    requires |l| == LABEL_LENGTH + 1
    ensures |r| == |l| && r[LABEL_LENGTH] == l[LABEL_LENGTH]
    ensures r[0] != 0x05 && r[LABEL_LENGTH - 1] != SPACE
    ensures var n := TrimmedLen(Lead(l), 0, LABEL_LENGTH);
      && r[..n] == Lead(l)[..n] && forall k :: n <= k < LABEL_LENGTH ==> r[k] == 0
  {
    var l0 := Lead(l);
    var n := TrimmedLen(l0, 0, LABEL_LENGTH);
    l0[..n] + Zeros(LABEL_LENGTH - n) + [l0[LABEL_LENGTH]]
  }

  /** Fixing a label twice changes nothing more. */
  lemma FixedLabelIdempotent(l: seq<byte>)
    requires |l| == LABEL_LENGTH + 1
    ensures FixedLabel(FixedLabel(l)) == FixedLabel(l)
  {
    var r := FixedLabel(l);
    assert Lead(r) == r;
    assert TrimmedLen(r, 0, LABEL_LENGTH) == LABEL_LENGTH;
  }

  function Upper850(b: byte): nat
  {
    if b >= 128 then CP850_UPPER[b - 128] else b
  }

  /** The UCS-2 text `fixLabel` encodes: the label up to its last non-space byte, upper-case code page 850 above 127. */
  function LabelText(l: seq<byte>): (t: seq<nat>)
    requires |l| == LABEL_LENGTH + 1
    ensures |t| == TrimmedLen(Lead(l), 0, LABEL_LENGTH)
    ensures forall k :: 0 <= k < |t| ==> t[k] == Upper850(FixedLabel(l)[k])
  {
    var n := TrimmedLen(Lead(l), 0, LABEL_LENGTH);
    seq(n, k requires 0 <= k < n => Upper850(Lead(l)[k]))
  }

  /** The trailing-space loop of `fixLabel`; returns the index of the last byte kept. */
  method StripTrailingSpaces(lbl: array<byte>) returns (i: int)
    requires lbl.Length == LABEL_LENGTH + 1
    modifies lbl
    ensures i + 1 == TrimmedLen(old(lbl[..]), 0, LABEL_LENGTH)
    ensures lbl[..] == old(lbl[..])[..i + 1] + Zeros(LABEL_LENGTH - (i + 1)) + [old(lbl[LABEL_LENGTH])]
  {
    ghost var l0 := lbl[..];
    i := LABEL_LENGTH - 1;
    while i >= 0 && lbl[i] == SPACE
      invariant -1 <= i < LABEL_LENGTH
      invariant TrimmedLen(l0, 0, LABEL_LENGTH) == TrimmedLen(l0, 0, i + 1)
      invariant forall k :: 0 <= k <= i ==> lbl[k] == l0[k]
      invariant forall k :: i < k < LABEL_LENGTH ==> lbl[k] == 0
      invariant lbl[LABEL_LENGTH] == l0[LABEL_LENGTH]
    {
      lbl[i] := 0;
      i := i - 1;
    }
    assert forall k :: 0 <= k < lbl.Length ==>
      lbl[k] == (l0[..i + 1] + Zeros(LABEL_LENGTH - (i + 1)) + [l0[LABEL_LENGTH]])[k];
  }

  /**
   * The encoding loop of `fixLabel`: from index `len` down to 0 it maps
   * each label byte, upper-case code page 850 above 127; the first `len`
   * characters are the text handed to the UTF-8 encoder.
   */
  method UpperLabel(lbl: array<byte>, len: nat) returns (text: seq<nat>)
    requires len <= LABEL_LENGTH && lbl.Length == LABEL_LENGTH + 1
    ensures |text| == len && forall k :: 0 <= k < len ==> text[k] == Upper850(lbl[k])
  {
    var ucs := new nat[13];
    ucs[len] := 0;
    var i: int := len;
    while i >= 0
      invariant -1 <= i <= len
      invariant forall k :: i < k <= len ==> ucs[k] == Upper850(lbl[k])
    {
      ucs[i] := Upper850(lbl[i]);
      i := i - 1;
    }
    text := ucs[..len];
  }

  /** `fixLabel`: edit the label in place and produce the text to encode. */
  method FixLabel(lbl: array<byte>) returns (text: seq<nat>)
    requires lbl.Length == LABEL_LENGTH + 1
    modifies lbl
    ensures lbl[..] == FixedLabel(old(lbl[..]))
    ensures text == LabelText(old(lbl[..]))
  {
    if lbl[0] == 0x05 {
      lbl[0] := 0xE5;
    }
    ghost var l0 := lbl[..];
    assert l0 == Lead(old(lbl[..]));
    var i := StripTrailingSpaces(lbl);
    assert lbl[..] == FixedLabel(old(lbl[..]));
    text := UpperLabel(lbl, i + 1);
  }

  /** `MSDOSGetUUID`: 16 bytes, zero but for the 4-byte volume ID in bytes 12–15 on FAT32 and FAT16. */
  function VolumeUuid(fatBits: nat, boot: seq<byte>): (u: seq<byte>)
    requires |boot| >= SECTOR
    ensures |u| == 16 && forall k :: 0 <= k < 12 ==> u[k] == 0
    ensures fatBits == 32 ==> u[12..] == boot[EXT_FAT32 + EX_VOLUME_ID .. EXT_FAT32 + EX_VOLUME_ID + 4]
    ensures fatBits == 16 ==> u[12..] == boot[EXT_FAT16 + EX_VOLUME_ID .. EXT_FAT16 + EX_VOLUME_ID + 4]
    ensures fatBits != 32 && fatBits != 16 ==> forall k :: 0 <= k < 16 ==> u[k] == 0
  {
    var zeros: seq<byte> := seq(12, _ => 0);
    if fatBits == 32 then zeros + boot[EXT_FAT32 + EX_VOLUME_ID .. EXT_FAT32 + EX_VOLUME_ID + 4]
    else if fatBits == 16 then zeros + boot[EXT_FAT16 + EX_VOLUME_ID .. EXT_FAT16 + EX_VOLUME_ID + 4]
    else zeros + [0, 0, 0, 0]
  }

  // ---------------------------------------------------------------------
  // Entry fields, the listing and the timestamp
  // ---------------------------------------------------------------------

  /** The first cluster of an entry: the low 16 bits, and on FAT32 the high 16 bits above them. */
  function StartCluster(fatBits: nat, e: DirEntry): (c: nat)
    ensures c % TWO16 == LE16(e, DE_START_CLUSTER)
    ensures fatBits == 32 ==> c / TWO16 == LE16(e, DE_HIGH_CLUST)
    ensures fatBits != 32 ==> c == LE16(e, DE_START_CLUSTER)
  {
    var lo, hi := LE16(e, DE_START_CLUSTER), if fatBits == 32 then LE16(e, DE_HIGH_CLUST) else 0;
    SplitHalves(lo, hi);
    lo + hi * TWO16
  }

  lemma SplitHalves(lo: nat, hi: nat)
    requires lo < TWO16
    ensures (lo + hi * TWO16) % TWO16 == lo && (lo + hi * TWO16) / TWO16 == hi
  {
  }

  function FileSize(e: DirEntry): nat
  {
    LE32(e, DE_FILE_SIZE)
  }

  /** Attribute bit 4. */
  predicate IsDirectory(e: DirEntry)
  {
    (e[DE_ATTRIBUTES] / ATTR_DIRECTORY) % 2 == 1
  }

  /** Attribute bit 3. */
  predicate IsVolumeLabel(e: DirEntry)
  {
    (e[DE_ATTRIBUTES] / ATTR_VOLUME) % 2 == 1
  }

  /**
   * The fake timestamp as written: `+` binds tighter than `<<`, so the
   * masked date is shifted left by 16 plus the time. The 32-bit shift
   * takes its count modulo 32, as the x86 shift instruction does, and
   * the result keeps 32 bits.
   */
  function FakeTimeAsWritten(date: nat, time: nat): (t: nat)
    ensures t < TWO32
  {
    ((date % 0x8000) * Pow2((16 + time) % 32)) % TWO32
  }

  /**
   * 1980-01-01 00:00:02 (date 0x21, time 1) and 1980-02-02 00:00:00
   * (date 0x42, time 0) get the same fake time, although a month lies
   * between them.
   */
  lemma FakeTimeCollides()
    ensures FakeTimeAsWritten(0x21, 1) == FakeTimeAsWritten(0x42, 0)
  {
    assert Pow2(1) == 2 && Pow2(2) == 4 && Pow2(3) == 8 && Pow2(4) == 16;
    assert Pow2(5) == 32 && Pow2(6) == 64 && Pow2(7) == 128 && Pow2(8) == 256;
    assert Pow2(9) == 512 && Pow2(10) == 1024 && Pow2(11) == 2048 && Pow2(12) == 4096;
    assert Pow2(13) == 8192 && Pow2(14) == 16384 && Pow2(15) == 32768 && Pow2(16) == 65536;
    assert Pow2(17) == 131072;
  }

  /** The evidently intended timestamp: the masked date in the high half, the time in the low half. */
  function FakeTime(date: nat, time: nat): (t: nat)
    requires time < TWO16
    ensures t < 0x8000_0000
    ensures t / TWO16 == date % 0x8000 && t % TWO16 == time
  {
    (date % 0x8000) * TWO16 + time
  }

  /** The intended timestamp orders stamps by masked date, then time. */
  lemma FakeTimeOrdered(d1: nat, t1: nat, d2: nat, t2: nat)
    requires t1 < TWO16 && t2 < TWO16
    ensures FakeTime(d1, t1) < FakeTime(d2, t2) <==>
      (d1 % 0x8000 < d2 % 0x8000 || (d1 % 0x8000 == d2 % 0x8000 && t1 < t2))
  {
    var a, b := d1 % 0x8000, d2 % 0x8000;
    if a < b {
      assert a * TWO16 + TWO16 <= b * TWO16;
    } else if b < a {
      assert b * TWO16 + TWO16 <= a * TWO16;
    }
  }

  /** What `MSDOSGetDirEntry` reports for an entry: its name as UCS-2, whether it is a directory, and its time. */
  datatype Listing = Listing(name: seq<nat>, isDir: bool, time: nat)

  /** The characters of a long-name buffer up to its first 0. */
  function UntilNul(s: seq<nat>): (r: seq<nat>)
    ensures |r| <= |s| && r == s[..|r|] && 0 !in r
    ensures |r| < |s| ==> s[|r|] == 0
  {
    if |s| == 0 || s[0] == 0 then [] else [s[0]] + UntilNul(s[1..])
  }

  /**
   * The listing of an entry with the long name collected for it: the long
   * name when there is one, the short name otherwise (with both corrections).
   */
  function Describe(e: DirEntry, longName: seq<nat>): (l: Listing)
    requires |longName| >= 1
    ensures longName[0] != 0 ==> l.name == UntilNul(longName) && |l.name| >= 1
    ensures longName[0] == 0 ==> l.name == ShortName(e)
    ensures l.isDir <==> IsDirectory(e)
    ensures l.time / TWO16 == LE16(e, DE_MDATE) % 0x8000 && l.time % TWO16 == LE16(e, DE_MTIME)
  {
    Listing(if longName[0] != 0 then UntilNul(longName) else ShortName(e),
            IsDirectory(e), FakeTime(LE16(e, DE_MDATE), LE16(e, DE_MTIME)))
  }

  /** The slot order after an entry was returned: a later block, or a later slot of the same block. */
  function SlotsLeft(c: Cursor): nat
    requires c.nument < |c.buf| || c.nument == 0
  {
    if c.nument == 0 then 0 else |c.buf| - c.nument + 1
  }

  /** A returned entry moves the walk on. */
  lemma {:induction false} NextEntryProgress(dir: seq<seq<DirEntry>>, c: Cursor)
    requires CursorOk(c) && c.blk <= |dir| && BlocksOk(dir)
    ensures var r := NextEntry(dir, c).1;
      r.blk > c.blk || (r.blk == c.blk && r.buf == c.buf && SlotsLeft(r) <= SlotsLeft(c))
    ensures var r := NextEntry(dir, c);
      r.0.Some? ==> r.1.blk > c.blk || (r.1.blk == c.blk && SlotsLeft(r.1) < SlotsLeft(c))
    decreases |dir| - c.blk, SlotsLeft(c)
  {
    if c.nument == 0 && c.blk == |dir| {
    } else {
      var c1 := Load(dir, c);
      var v := Visit(c1);
      if v.0 != Found && v.0 != EndOfDir {
        NextEntryProgress(dir, v.1);
      }
    }
  }

  /** The skip loop of `MSDOSGetDirEntry`: the next entry that is not a volume label. */
  function NextListed(dir: seq<seq<DirEntry>>, c: Cursor): (r: (Option<DirEntry>, Cursor))
    requires CursorOk(c) && c.blk <= |dir| && BlocksOk(dir)
    ensures CursorOk(r.1) && r.1.blk <= |dir|
    ensures r.0.Some? ==> IsShortEntry(r.0.value) && !IsVolumeLabel(r.0.value)
    decreases |dir| - c.blk, SlotsLeft(c)
  {
    var r := NextEntry(dir, c);
    if r.0.Some? && IsVolumeLabel(r.0.value) then
      NextEntryProgress(dir, c);
      NextListed(dir, r.1)
    else r
  }

  // ---------------------------------------------------------------------
  // The first block of a file
  // ---------------------------------------------------------------------

  /** The status `MSDOSGetFileBlock` returns and the block it stores, if any. */
  datatype BlockResult = BlockResult(status: int, block: Option<nat>)

  /**
   * As written: the block of cluster c is counted from after the FATs,
   * leaving out the FAT12/16 root directory. An out-of-range cluster gives
   * −1 on FAT32 but 0, with no block stored, on FAT12 and FAT16.
   */
  function FileBlockAsWritten(g: Geometry, c: nat): (r: BlockResult)
    ensures r.block.Some? <==> ClusterInRange(g, c)
    ensures r.status == -1 <==> g.fatBits == 32 && !ClusterInRange(g, c)
    ensures r.status != -1 ==> r.status == 0
  {
    if !ClusterInRange(g, c) then BlockResult(if g.fatBits == 32 then -1 else 0, None)
    else BlockResult(0, Some(((g.resSectors + g.nFats * g.fatSecs) * g.bps
                              + (c - CLUST_FIRST) * g.clusterSize) / SECTOR))
  }

  /** The intended block: the sector where `msdosreadcluster` reads the cluster. */
  function FileBlock(g: Geometry, c: nat): (r: BlockResult)
    ensures r.block.Some? <==> ClusterInRange(g, c)
    ensures r.status == FileBlockAsWritten(g, c).status
  {
    if !ClusterInRange(g, c) then BlockResult(if g.fatBits == 32 then -1 else 0, None)
    else BlockResult(0, Some(DataOffset(g, c) / SECTOR))
  }

  /**
   * The intended block holds the cluster's data: with sector and cluster
   * sizes whole multiples of 512, reading at the block reads what
   * `msdosreadcluster` reads.
   */
  lemma FileBlockHoldsData(g: Geometry, disk: seq<byte>, c: nat, n: nat, p: nat, q: nat)
    requires g.bps == SECTOR * p && g.clusterSize == SECTOR * q && ClusterInRange(g, c)
    ensures FileBlock(g, c).block.value * SECTOR == DataOffset(g, c)
    ensures ReadCluster(g, disk, c, n).value.data == ReadAt(disk, FileBlock(g, c).block.value * SECTOR, n)
  {
    var a := g.resSectors + g.nFats * g.fatSecs + g.rootDirSectors;
    var b := c - CLUST_FIRST;
    assert a * g.bps == SECTOR * (a * p);
    assert b * g.clusterSize == SECTOR * (b * q);
    assert DataOffset(g, c) == SECTOR * (a * p + b * q);
  }

  /**
   * On FAT16 with a 32-sector root directory the stored block falls 32
   * sectors short of the file: cluster 2 is said to start at block 21
   * where its data begin at block 53.
   */
  lemma FileBlockMissesRootDir()
    ensures var g := Geometry(16, 512, 1, 2, 10, 0, 32, 2048);
      && FileBlockAsWritten(g, 2).block == Some(21)
      && FileBlock(g, 2).block == Some(53)
  {
  }

  // ---------------------------------------------------------------------
  // Reading a file
  // ---------------------------------------------------------------------

  function Min(a: int, b: int): int
  {
    if a < b then a else b
  }

  /** The bytes `MSDOSReadFile` sets out to read: the rest of the file, or `length` when that is less and not 0. */
  function Want(size: nat, offset: nat, length: nat): (w: nat)
    requires offset < size
    ensures 0 < w <= size - offset
    ensures length == 0 || length > size - offset ==> w == size - offset
    ensures 0 < length <= size - offset ==> w == length
  {
    if length == 0 || length > size - offset then size - offset else length
  }

  /**
   * `msdosreadcluster` on one volume, as a function of the cluster and the
   * number of bytes wanted. The file-reading functions below are stated
   * over such a reader, so that their proofs do not depend on the layout
   * arithmetic of `ReadCluster`.
   */
  type Reader = (int, nat) -> Option<ClusterRead>

  function VolumeReader(g: Geometry, disk: seq<byte>): Reader
  {
    (c: int, n: nat) => ReadCluster(g, disk, c, n)
  }

  /**
   * What the file-reading proofs use of `msdosreadcluster`: whether a
   * cluster is accepted, and the next cluster, do not depend on the byte
   * count; the data has the length asked for, and a shorter read is a
   * prefix of the whole cluster.
   */
  ghost predicate ReaderOk(read: Reader, cs: nat)
  {
    forall c: int, n: nat {:trigger read(c, n)} ::
      && read(c, n).Some? == read(c, 0).Some?
      && (read(c, n).Some? ==>
            && |read(c, n).value.data| == n
            && read(c, n).value.next == read(c, 0).value.next
            && (n <= cs ==>
                  && read(c, cs).Some? && |read(c, cs).value.data| == cs
                  && read(c, n).value.data == read(c, cs).value.data[..n]))
  }

  /** `msdosreadcluster` over any volume is such a reader. */
  lemma VolumeReaderOk(g: Geometry, disk: seq<byte>)
    ensures ReaderOk(VolumeReader(g, disk), g.clusterSize)
  {
    var read := VolumeReader(g, disk);
    forall c: int, n: nat
      ensures read(c, n).Some? == read(c, 0).Some?
      ensures read(c, n).Some? ==>
            && |read(c, n).value.data| == n
            && read(c, n).value.next == read(c, 0).value.next
            && (n <= g.clusterSize ==>
                  && read(c, g.clusterSize).Some? && |read(c, g.clusterSize).value.data| == g.clusterSize
                  && read(c, n).value.data == read(c, g.clusterSize).value.data[..n])
    {
      if ClusterInRange(g, c) && n <= g.clusterSize {
        var off := DataOffset(g, c);
        assert ReadAt(disk, off, n) == ReadAt(disk, off, g.clusterSize)[..n];
      }
    }
  }

  /** One `msdosreadcluster` call with no buffer: the cluster moves on unless it is refused. */
  function Step(read: Reader, c: int): int
  {
    var r := read(c, 0);
    if r.Some? then r.value.next else c
  }

  /** `n` such calls. */
  function Skip(read: Reader, c: int, n: nat): int
    decreases n
  {
    if n == 0 then c else Skip(read, Step(read, c), n - 1)
  }

  /**
   * The read loop: while bytes remain and the cluster is accepted, read
   * up to a cluster of them. The bytes read and the count left (negative
   * once the last cluster overshot).
   */
  function Chain(read: Reader, cs: nat, c: int, toread: int): (r: (seq<byte>, int))
    requires cs > 0
    decreases toread
  {
    if toread <= 0 then ([], toread)
    else
      var cr := read(c, Min(cs, toread));
      if cr.None? then ([], toread)
      else
        var rest := Chain(read, cs, cr.value.next, toread - cs);
        (cr.value.data + rest.0, rest.1)
  }

  /** The read loop never reads more than asked, and falls short by exactly what it leaves. */
  lemma {:induction false} ChainLength(read: Reader, cs: nat, c: int, toread: int)
    requires cs > 0 && ReaderOk(read, cs)
    ensures var r := Chain(read, cs, c, toread);
      && r.1 <= toread
      && (toread <= 0 ==> r.0 == [] && r.1 == toread)
      && (toread > 0 && r.1 > 0 ==> |r.0| == toread - r.1)
      && (toread > 0 && r.1 <= 0 ==> |r.0| == toread)
    decreases toread
  {
    if toread > 0 {
      var cr := read(c, Min(cs, toread));
      if cr.Some? {
        ChainLength(read, cs, cr.value.next, toread - cs);
      }
    }
  }

  /**
   * The copy from the cluster holding the offset on: read that cluster
   * into the scratch buffer (keeping the `stale` bytes there when the read
   * is refused), copy from byte k, then run the read loop on the
   * following clusters. The status is what `MSDOSReadFile` returns: all
   * it wanted once the loop overshoots, otherwise what it got.
   */
  function ReadFrom(read: Reader, cs: nat, c0: int, k: nat, want: nat,
                    stale: seq<byte>): (r: (int, seq<byte>))
    requires k < cs && |stale| == cs && ReaderOk(read, cs)
  {
    var first := read(c0, cs);
    var buf := if first.Some? then first.value.data else stale;
    var c1 := if first.Some? then first.value.next else c0;
    var tail := Chain(read, cs, c1, want - (cs - k));
    (if tail.1 < 0 then want else want - tail.1, buf[k .. k + Min(cs - k, want)] + tail.0)
  }

  /**
   * `MSDOSReadFile` once the entry is found, for a file of `size` bytes
   * whose chain starts at `start`: −1 when the offset is not inside the
   * file; otherwise skip to the cluster holding the offset and copy from
   * there.
   */
  function ReadExtent(read: Reader, cs: nat, start: int, size: nat, offset: nat, length: nat,
                      stale: seq<byte>): (r: (int, seq<byte>))
    requires cs > 0 && |stale| == cs && ReaderOk(read, cs)
  {
    if size <= offset then (-1, [])
    else ReadFrom(read, cs, Skip(read, start, offset / cs), offset % cs, Want(size, offset, length), stale)
  }

  /** The copy never delivers more than it wanted, and its status counts what it delivered. */
  lemma ReadFromCounts(read: Reader, cs: nat, c0: int, k: nat, want: nat, stale: seq<byte>)
    requires k < cs && |stale| == cs && ReaderOk(read, cs)
    ensures var r := ReadFrom(read, cs, c0, k, want, stale);
      0 <= r.0 == |r.1| <= want
  {
    var first := read(c0, cs);
    var c1 := if first.Some? then first.value.next else c0;
    ChainLength(read, cs, c1, want - (cs - k));
  }

  /**
   * The status says how many bytes were delivered: −1 exactly when the
   * offset is past the file, and never more than asked.
   */
  lemma ReadExtentCounts(read: Reader, cs: nat, start: int, size: nat, offset: nat, length: nat,
                         stale: seq<byte>)
    requires cs > 0 && |stale| == cs && ReaderOk(read, cs)
    ensures var r := ReadExtent(read, cs, start, size, offset, length, stale);
      && (r.0 == -1 <==> size <= offset)
      && (r.0 != -1 ==> r.0 == |r.1| && r.0 <= Want(size, offset, length))
  {
    if offset < size {
      ReadFromCounts(read, cs, Skip(read, start, offset / cs), offset % cs, Want(size, offset, length), stale);
    }
  }

  /** The first `n` whole clusters along the chain from c; None when the chain breaks before. */
  function ChainClusters(read: Reader, cs: nat, c: int, n: nat): (r: Option<seq<byte>>)
    requires ReaderOk(read, cs)
    ensures r.Some? ==> |r.value| == n * cs
    decreases n
  {
    if n == 0 then Some([])
    else
      var cr := read(c, cs);
      if cr.None? then None
      else
        var rest := ChainClusters(read, cs, cr.value.next, n - 1);
        if rest.None? then None else Some(cr.value.data + rest.value)
  }

  /** Skipping s clusters lands where the chain's (s+1)-th cluster begins. */
  lemma {:induction false} SkipSplits(read: Reader, cs: nat, c: int, s: nat, n: nat)
    requires ReaderOk(read, cs) && ChainClusters(read, cs, c, s + n).Some?
    ensures ChainClusters(read, cs, c, s).Some? && ChainClusters(read, cs, Skip(read, c, s), n).Some?
    ensures ChainClusters(read, cs, c, s + n).value
      == ChainClusters(read, cs, c, s).value + ChainClusters(read, cs, Skip(read, c, s), n).value
    decreases s
  {
    if s > 0 {
      var cr := read(c, cs);
      var nx := cr.value.next;
      assert Step(read, c) == nx;
      assert Skip(read, c, s) == Skip(read, nx, s - 1);
      var m := s - 1;
      assert s + n - 1 == m + n;
      assert ChainClusters(read, cs, c, s + n).value == cr.value.data + ChainClusters(read, cs, nx, m + n).value;
      SkipSplits(read, cs, nx, m, n);
      var a := ChainClusters(read, cs, nx, m).value;
      var b := ChainClusters(read, cs, Skip(read, nx, m), n).value;
      assert ChainClusters(read, cs, c, s).value == cr.value.data + a;
      assert cr.value.data + (a + b) == (cr.value.data + a) + b;
    } else {
      var b := ChainClusters(read, cs, c, n).value;
      assert [] + b == b;
    }
  }

  /** Over an intact chain the read loop reads the chain's first `t` bytes and stops without a shortfall. */
  lemma {:induction false} ChainReadsPrefix(read: Reader, cs: nat, c: int, t: int, n: nat)
    requires cs > 0 && ReaderOk(read, cs) && ChainClusters(read, cs, c, n).Some? && 0 < t <= n * cs
    ensures Chain(read, cs, c, t).1 <= 0
    ensures Chain(read, cs, c, t).0 == ChainClusters(read, cs, c, n).value[..t]
    decreases n
  {
    var cr := read(c, cs);
    var part := read(c, Min(cs, t));
    assert part.value.data == cr.value.data[..Min(cs, t)];
    var rest := ChainClusters(read, cs, cr.value.next, n - 1).value;
    assert ChainClusters(read, cs, c, n).value == cr.value.data + rest;
    if t > cs {
      assert n * cs == cs + (n - 1) * cs;
      ChainReadsPrefix(read, cs, cr.value.next, t - cs, n - 1);
      assert (cr.value.data + rest)[..t] == cr.value.data + rest[..t - cs];
    } else {
      assert (cr.value.data + rest)[..t] == cr.value.data[..t];
    }
  }

  /** An intact chain of m > 0 clusters is its first cluster followed by the m − 1 after it. */
  lemma ChainHead(read: Reader, cs: nat, c: int, m: nat)
    requires ReaderOk(read, cs) && m > 0 && ChainClusters(read, cs, c, m).Some?
    ensures read(c, cs).Some?
    ensures ChainClusters(read, cs, read(c, cs).value.next, m - 1).Some?
    ensures ChainClusters(read, cs, c, m).value
      == read(c, cs).value.data + ChainClusters(read, cs, read(c, cs).value.next, m - 1).value
  {
  }

  /** Within the first cluster: the copy is the cluster's bytes k to k + want. */
  lemma ReadsWithinCluster(read: Reader, cs: nat, c0: int, k: nat, want: nat, stale: seq<byte>)
    requires k < cs && |stale| == cs && ReaderOk(read, cs)
    requires 0 < want && k + want <= cs && read(c0, cs).Some?
    ensures ReadFrom(read, cs, c0, k, want, stale) == (want, read(c0, cs).value.data[k .. k + want])
  {
    var tail := Chain(read, cs, read(c0, cs).value.next, want - (cs - k));
    assert tail == ([], want - (cs - k));
    var head := read(c0, cs).value.data[k .. k + Min(cs - k, want)];
    assert head + [] == head;
  }

  /** Past the first cluster: the copy is the first cluster's tail from k, then the chain's first bytes. */
  lemma ReadsAcrossClusters(read: Reader, cs: nat, c0: int, k: nat, want: nat, stale: seq<byte>, m: nat)
    requires k < cs && |stale| == cs && ReaderOk(read, cs)
    requires cs < k + want <= (m + 1) * cs && read(c0, cs).Some?
    requires ChainClusters(read, cs, read(c0, cs).value.next, m).Some?
    ensures ReadFrom(read, cs, c0, k, want, stale)
      == (want, read(c0, cs).value.data[k..] + ChainClusters(read, cs, read(c0, cs).value.next, m).value[..k + want - cs])
  {
    var t := want - (cs - k);
    assert (m + 1) * cs == cs + m * cs;
    ChainReadsPrefix(read, cs, read(c0, cs).value.next, t, m);
  }

  /**
   * From the cluster holding the offset, over an intact chain of m
   * clusters that covers the request: the copy gets all it wanted, the
   * chain's bytes k to k + want.
   */
  lemma ReadsFromCluster(read: Reader, cs: nat, c0: int, k: nat, want: nat, stale: seq<byte>, m: nat)
    requires k < cs && |stale| == cs && ReaderOk(read, cs)
    requires 0 < want && k + want <= m * cs
    requires ChainClusters(read, cs, c0, m).Some?
    ensures ReadFrom(read, cs, c0, k, want, stale) == (want, ChainClusters(read, cs, c0, m).value[k .. k + want])
  {
    if m == 0 {
      assert false;
    }
    ChainHead(read, cs, c0, m);
    var first := read(c0, cs).value.data;
    var rest := ChainClusters(read, cs, read(c0, cs).value.next, m - 1).value;
    if k + want <= cs {
      ReadsWithinCluster(read, cs, c0, k, want, stale);
      assert (first + rest)[k .. k + want] == first[k .. k + want];
    } else {
      ReadsAcrossClusters(read, cs, c0, k, want, stale, m - 1);
      assert (first + rest)[k .. k + want] == first[k..] + rest[..k + want - cs];
    }
  }

  /** A slice of a concatenation that lies inside its second part. */
  lemma SliceAfter<T>(a: seq<T>, b: seq<T>, at: nat, k: nat, n: nat)
    requires at == |a| + k && k + n <= |b|
    ensures (a + b)[at .. at + n] == b[k .. k + n]
  {
  }

  /** The cluster index and in-cluster position of an offset inside a covered range. */
  lemma OffsetSplits(offset: nat, want: nat, cs: nat, m: nat)
    requires cs > 0 && 0 < want && offset + want <= m * cs
    ensures offset / cs < m
    ensures offset == (offset / cs) * cs + offset % cs
    ensures offset % cs + want <= (m - offset / cs) * cs
  {
    var s := offset / cs;
    assert (m - s) * cs == m * cs - s * cs;
  }

  /**
   * Over an intact chain long enough to cover the request, the read
   * delivers all it set out to read, and the bytes are the file's bytes
   * from the offset on.
   */
  lemma ReadExtentDeliversFile(read: Reader, cs: nat, start: int, size: nat, offset: nat, length: nat,
                               stale: seq<byte>, m: nat)
    requires cs > 0 && |stale| == cs && ReaderOk(read, cs) && offset < size
    requires ChainClusters(read, cs, start, m).Some?
    requires offset + Want(size, offset, length) <= m * cs
    ensures var want := Want(size, offset, length);
      ReadExtent(read, cs, start, size, offset, length, stale)
        == (want, ChainClusters(read, cs, start, m).value[offset .. offset + want])
  {
    var want := Want(size, offset, length);
    var s, k := offset / cs, offset % cs;
    assert s < m && offset == s * cs + k && k + want <= (m - s) * cs by {
      OffsetSplits(offset, want, cs, m);
    }
    SkipLandsInChain(read, cs, start, m, s, k, want);
    ReadsFromCluster(read, cs, Skip(read, start, s), k, want, stale, m - s);
  }

  /** After skipping s clusters the chain goes on intact, holding the bytes from s clusters in. */
  lemma SkipLandsInChain(read: Reader, cs: nat, start: int, m: nat, s: nat, k: nat, want: nat)
    requires ReaderOk(read, cs) && ChainClusters(read, cs, start, m).Some?
    requires s <= m && k + want <= (m - s) * cs
    ensures ChainClusters(read, cs, Skip(read, start, s), m - s).Some?
    ensures ChainClusters(read, cs, start, m).value[s * cs + k .. s * cs + k + want]
      == ChainClusters(read, cs, Skip(read, start, s), m - s).value[k .. k + want]
  {
    SkipSplits(read, cs, start, s, m - s);
    var a := ChainClusters(read, cs, start, s).value;
    var b := ChainClusters(read, cs, Skip(read, start, s), m - s).value;
    SliceAfter(a, b, s * cs + k, k, want);
  }

  /** The copy's two parts, named by the first cluster's buffer and the cluster after it. */
  lemma ReadFromParts(read: Reader, cs: nat, c0: int, k: nat, want: nat, stale: seq<byte>,
                      buf: seq<byte>, c1: int)
    requires k < cs && |stale| == cs && ReaderOk(read, cs)
    requires buf == (if read(c0, cs).Some? then read(c0, cs).value.data else stale)
    requires c1 == (if read(c0, cs).Some? then read(c0, cs).value.next else c0)
    ensures |buf| == cs
    ensures var tail := Chain(read, cs, c1, want - (cs - k));
      ReadFrom(read, cs, c0, k, want, stale)
        == (if tail.1 < 0 then want else want - tail.1, buf[k .. k + Min(cs - k, want)] + tail.0)
  {
  }

  /** The skip loop of `MSDOSReadFile`: `msdosreadcluster` with no buffer, `nskip` times. */
  method SkipClusters(read: Reader, c: int, nskip: nat) returns (cluster: int)
    ensures cluster == Skip(read, c, nskip)
  {
    cluster := c;
    var i := 0;
    while i < nskip
      invariant 0 <= i <= nskip
      invariant Skip(read, cluster, nskip - i) == Skip(read, c, nskip)
    {
      var cr := read(cluster, 0);
      if cr.Some? {
        cluster := cr.value.next;
      }
      i := i + 1;
    }
  }

  /** The read loop of `MSDOSReadFile`: the bytes it writes and the count it leaves. */
  method ReadChain(read: Reader, cs: nat, c: int, t: int) returns (got: seq<byte>, toread: int)
    requires cs > 0
    ensures (got, toread) == Chain(read, cs, c, t)
  {
    ghost var whole := Chain(read, cs, c, t);
    var cluster := c;
    toread := t;
    got := [];
    while toread > 0
      invariant got + Chain(read, cs, cluster, toread).0 == whole.0
      invariant Chain(read, cs, cluster, toread).1 == whole.1
      decreases toread
    {
      var cr := read(cluster, Min(cs, toread));
      if cr.None? {
        break;
      }
      ghost var rest := Chain(read, cs, cr.value.next, toread - cs);
      assert Chain(read, cs, cluster, toread) == (cr.value.data + rest.0, rest.1);
      got := got + cr.value.data;
      cluster := cr.value.next;
      toread := toread - cs;
    }
    assert Chain(read, cs, cluster, toread) == ([], toread);
    assert got + [] == got;
  }

  /** The copy of `MSDOSReadFile` from the cluster holding the offset. */
  method CopyFrom(read: Reader, cs: nat, c0: int, k: nat, want: nat, stale: seq<byte>)
    returns (r: int, data: seq<byte>)
    requires k < cs && |stale| == cs && ReaderOk(read, cs)
    ensures (r, data) == ReadFrom(read, cs, c0, k, want, stale)
  {
    var buf := stale;
    var cluster := c0;
    var first := read(cluster, cs);
    if first.Some? {
      buf := first.value.data;
      cluster := first.value.next;
    }
    ReadFromParts(read, cs, c0, k, want, stale, buf, cluster);
    data := buf[k .. k + Min(cs - k, want)];
    var more, toread := ReadChain(read, cs, cluster, want - (cs - k));
    data := data + more;
    r := if toread < 0 then want else want - toread;
  }

  /** `MSDOSReadFile` once the entry is found: its first cluster and size are known. */
  method ReadExtentFile(read: Reader, cs: nat, start: int, size: nat, offset: nat, length: nat,
                        stale: seq<byte>) returns (r: int, data: seq<byte>)
    requires cs > 0 && |stale| == cs && ReaderOk(read, cs)
    ensures (r, data) == ReadExtent(read, cs, start, size, offset, length, stale)
  {
    if size <= offset {
      return -1, [];
    }
    var cluster := SkipClusters(read, start, offset / cs);
    var toread: int := length;
    if length == 0 || length > size - offset {
      toread := size - offset;
    }
    assert toread == Want(size, offset, length);
    r, data := CopyFrom(read, cs, cluster, offset % cs, toread, stale);
  }

  // ---------------------------------------------------------------------
  // The entry points
  // ---------------------------------------------------------------------

  /** Whether `MSDOSInitPartition` succeeds: the handle is already current, or its boot sector is accepted. */
  predicate InitOk(current: int, ih: int, boot: seq<byte>)
    requires |boot| >= SECTOR
  {
    current == ih || DecodeBootSector(boot).Some?
  }

  /** The geometry `MSDOSInitPartition` leaves behind, as its contract states it. */
  function InitGeometry(current: int, geo: Geometry, ih: int, boot: seq<byte>): (g: Geometry)
    requires |boot| >= SECTOR
    ensures InitOk(current, ih, boot) && current != ih ==> ValidGeometry(g)
  {
    if current == ih then geo
    else if DecodeBootSector(boot).Some? then DecodeBootSector(boot).value
    else geo.(bps := LE16(boot, BPB_BYTES_PER_SEC))
  }

  /** The number of bytes before the first NUL among the first n, or n. */
  function NonNulPrefix(s: seq<byte>, n: nat): (m: nat)
    requires n <= |s|
    ensures m <= n && forall k :: 0 <= k < m ==> s[k] != 0
    ensures m < n ==> s[m] == 0
    decreases n
  {
    if n == 0 then 0
    else
      var m := NonNulPrefix(s, n - 1);
      if m < n - 1 || s[n - 1] == 0 then m else n
  }

  /** `strncpy` of n bytes: the source up to its first NUL, then NULs to n bytes. */
  function StrNCopy(s: seq<byte>, n: nat): (r: seq<byte>)
    requires n <= |s|
    ensures |r| == n
  {
    var m := NonNulPrefix(s, n);
    s[..m] + Zeros(n - m)
  }

  /** Whether the encoded description starts with a NUL: no text, or a text whose first character is 0. */
  predicate EmptyText(t: seq<nat>)
  {
    |t| == 0 || t[0] == 0
  }

  /** The 11-byte volume label of an extended boot sector, copied with `strncpy`. */
  function BootLabel(fatBits: nat, boot: seq<byte>): (l: seq<byte>)
    requires |boot| >= SECTOR && (fatBits == 32 || fatBits == 16)
    ensures |l| == LABEL_LENGTH
  {
    var at := (if fatBits == 32 then EXT_FAT32 else EXT_FAT16) + EX_VOLUME_LABEL;
    StrNCopy(boot[at .. at + LABEL_LENGTH], LABEL_LENGTH)
  }

  /**
   * The label buffer after `fixLabel`'s fallback run: the boot-sector
   * label on FAT32 and FAT16, the buffer as it stands on FAT12.
   */
  function FallbackLabel(fatBits: nat, boot: seq<byte>, lbuf: seq<byte>): (l: seq<byte>)
    requires |boot| >= SECTOR && |lbuf| == LABEL_LENGTH + 1
    ensures |l| == LABEL_LENGTH + 1 && l[LABEL_LENGTH] == lbuf[LABEL_LENGTH]
    ensures fatBits != 32 && fatBits != 16 ==> l == lbuf
  {
    if fatBits == 32 || fatBits == 16 then BootLabel(fatBits, boot) + [lbuf[LABEL_LENGTH]] else lbuf
  }

  /**
   * The text `MSDOSGetDescription` hands to the encoder, given the root
   * directory's volume-label entry (if the walk found one), the long name
   * collected with it, and the uninitialised bytes `junk` of the label
   * buffer: the long name when there is one; else the entry's name bytes
   * as `fixLabel` edits them; and when no entry was found or that text is
   * empty, the boot-sector label on FAT32 and FAT16. On FAT12 the fallback
   * runs `fixLabel` again over the label buffer as it stands.
   */
  function Description(fatBits: nat, boot: seq<byte>, found: Option<DirEntry>, vfat: seq<nat>,
                       junk: seq<byte>): (t: seq<nat>)
    requires |boot| >= SECTOR && |vfat| >= 1 && |junk| == LABEL_LENGTH + 1
  {
    if found.Some? && vfat[0] != 0 then UntilNul(vfat)
    else if found.None? then LabelText(FallbackLabel(fatBits, boot, [0] + junk[1..]))
    else
      var lbuf := StrNCopy(found.value, LABEL_LENGTH) + [junk[LABEL_LENGTH]];
      if !EmptyText(LabelText(lbuf)) then LabelText(lbuf)
      else LabelText(FallbackLabel(fatBits, boot, FixedLabel(lbuf)))
  }

  /** No code-page-850 upper-case character is a space. */
  lemma UpperTableHasNoSpace()
    ensures forall i :: 0 <= i < |CP850_UPPER| ==> CP850_UPPER[i] > SPACE as nat
  {
    assert forall i :: 0 <= i < 16 ==> CP850_UPPER_80[i] > 0x20;
    assert forall i :: 0 <= i < 16 ==> CP850_UPPER_90[i] > 0x20;
    assert forall i :: 0 <= i < 16 ==> CP850_UPPER_A0[i] > 0x20;
    assert forall i :: 0 <= i < 16 ==> CP850_UPPER_B0[i] > 0x20;
    assert forall i :: 0 <= i < 16 ==> CP850_UPPER_C0[i] > 0x20;
    assert forall i :: 0 <= i < 16 ==> CP850_UPPER_D0[i] > 0x20;
    assert forall i :: 0 <= i < 16 ==> CP850_UPPER_E0[i] > 0x20;
    assert forall i :: 0 <= i < 16 ==> CP850_UPPER_F0[i] > 0x20;
  }

  /** A label's text is at most 11 characters and never ends in a space. */
  lemma LabelTextTrimmed(l: seq<byte>)
    requires |l| == LABEL_LENGTH + 1
    ensures var t := LabelText(l);
      |t| <= LABEL_LENGTH && (|t| > 0 ==> t[|t| - 1] != SPACE as nat)
  {
    var t := LabelText(l);
    if |t| > 0 {
      UpperTableHasNoSpace();
      var b := FixedLabel(l)[|t| - 1];
      assert b == Lead(l)[|t| - 1] != SPACE;
      assert t[|t| - 1] == Upper850(b);
    }
  }

  /**
   * Unless the volume has a long label, its description is a label text:
   * at most 11 characters, without trailing spaces.
   */
  lemma DescriptionTrimmed(fatBits: nat, boot: seq<byte>, found: Option<DirEntry>, vfat: seq<nat>,
                           junk: seq<byte>)
    requires |boot| >= SECTOR && |vfat| >= 1 && |junk| == LABEL_LENGTH + 1
    requires found.None? || vfat[0] == 0
    ensures var t := Description(fatBits, boot, found, vfat, junk);
      |t| <= LABEL_LENGTH && (|t| > 0 ==> t[|t| - 1] != SPACE as nat)
  {
    if found.None? {
      LabelTextTrimmed(FallbackLabel(fatBits, boot, [0] + junk[1..]));
    } else {
      var lbuf := StrNCopy(found.value, LABEL_LENGTH) + [junk[LABEL_LENGTH]];
      LabelTextTrimmed(lbuf);
      LabelTextTrimmed(FallbackLabel(fatBits, boot, FixedLabel(lbuf)));
    }
  }

  /** The length scan of `MSDOSGetDescription` over the long label; it stops at the buffer's end. */
  method LongLabel(vfat: seq<nat>) returns (t: seq<nat>)
    ensures t == UntilNul(vfat)
  {
    var i := 0;
    while i < |vfat| && vfat[i] != 0
      invariant 0 <= i <= |vfat|
      invariant forall k :: 0 <= k < i ==> vfat[k] != 0
    {
      i := i + 1;
    }
    UntilNulIsPrefix(vfat, i);
    t := vfat[..i];
  }

  /** `UntilNul` is the prefix before the first 0. */
  lemma {:induction false} UntilNulIsPrefix(s: seq<nat>, i: nat)
    requires i <= |s| && (forall k :: 0 <= k < i ==> s[k] != 0) && (i == |s| || s[i] == 0)
    ensures UntilNul(s) == s[..i]
  {
    if i > 0 {
      UntilNulIsPrefix(s[1..], i - 1);
      assert s[..i] == [s[0]] + s[1..][..i - 1];
    }
  }
}
