/**
 * The sector layer of libsaio/disk.c: the INT13 read with its retries,
 * the one-track cache in front of it (EBIOS and CHS paths), and the byte
 * reader `readBytes` built on it. The partition scanners, the map list
 * and the filtered chains are in module DiskScan.
 *
 * The BIOS is an input: a drive is a disk image of 512-byte sectors plus
 * the return codes its read calls give, and a sector read by the
 * scanners is `Media`, which is None for a failed read.
 */
module Disk {
  import opened Wrappers
  import opened Bytes
  import Ext2Fs
  import Msdos

  const BPS: nat := 512
  const BIOS_LEN: nat := 0x8000
  /** Sectors the track buffer holds. */
  const N_CACHE_SECS: nat := BIOS_LEN / BPS
  const ECC_CORRECTED_ERR: int := 0x11
  const MAX_TRIES: nat := 5
  const HARD_DRIVE: int := 0x80

  // ---------------------------------------------------------------------
  // Disk images

  /** Sector `s` of a disk image (zero past its end). */
  function Sector(image: seq<byte>, s: nat): (r: seq<byte>)
    ensures |r| == BPS
    ensures forall j :: 0 <= j < BPS ==> r[j] == ByteAt(image, s * BPS + j)
  {
    seq<byte>(BPS, j requires 0 <= j < BPS => ByteAt(image, s * BPS + j))
  }

  /** `n` bytes of the image from byte `at`. */
  function Extent(image: seq<byte>, at: nat, n: nat): (r: seq<byte>)
    ensures |r| == n
    ensures forall j :: 0 <= j < n ==> r[j] == ByteAt(image, at + j)
  {
    seq<byte>(n, j requires 0 <= j < n => ByteAt(image, at + j))
  }

  /** `n` whole sectors from sector `s`. */
  function Sectors(image: seq<byte>, s: nat, n: nat): (r: seq<byte>)
    ensures r == Extent(image, s * BPS, n * BPS)
  {
    Extent(image, s * BPS, n * BPS)
  }

  /** The 512 bytes at offset `off` of a buffer (zero past its end). */
  function BlockAt(buf: seq<byte>, off: nat): (r: seq<byte>)
    ensures r == Extent(buf, off, BPS)
  {
    Extent(buf, off, BPS)
  }

  /** Sector `k` of a run read from sector `s` is sector `s + k` of the image. */
  lemma SectorOfRun(image: seq<byte>, s: nat, n: nat, k: nat)
    requires k < n
    ensures BlockAt(Sectors(image, s, n), k * BPS) == Sector(image, s + k)
  {
    var run := Sectors(image, s, n);
    var b := BlockAt(run, k * BPS);
    forall j | 0 <= j < BPS
      ensures b[j] == Sector(image, s + k)[j]
    {
      assert k * BPS + j < n * BPS;
      assert b[j] == run[k * BPS + j];
      assert s * BPS + (k * BPS + j) == (s + k) * BPS + j;
    }
  }

  // ---------------------------------------------------------------------
  // Biosread: the retry loop

  /** The code the BIOS returns at attempt `k` (success once the script is exhausted). */
  function Code(codes: seq<int>, k: nat): int
  {
    if k < |codes| then codes[k] else 0
  }

  /**
   * The outcome of the retry loop from attempt `k`: the final return code
   * and the number of BIOS calls made. A corrected ECC error ends the loop
   * as a success, except on the last attempt, whose code is returned as is.
   */
  function Retry(codes: seq<int>, k: nat): (r: (int, nat))
    requires k < MAX_TRIES
    decreases MAX_TRIES - k
  {
    var rc := Code(codes, k);
    if rc == 0 then (0, k + 1)
    else if k + 1 == MAX_TRIES then (rc, k + 1)
    else if rc == ECC_CORRECTED_ERR then (0, k + 1)
    else Retry(codes, k + 1)
  }

  /**
   * At most five calls; the loop stops at the first success or corrected
   * error; a failure is the fifth call's own code after four plain errors.
   */
  lemma {:induction false} RetryMeaning(codes: seq<int>, k: nat)
    requires k < MAX_TRIES
    ensures var (rc, calls) := Retry(codes, k);
      && k < calls <= MAX_TRIES
      && (forall j :: k <= j < calls - 1 ==> Code(codes, j) != 0 && Code(codes, j) != ECC_CORRECTED_ERR)
      && (rc == 0 <==> Code(codes, calls - 1) == 0 || (calls < MAX_TRIES && Code(codes, calls - 1) == ECC_CORRECTED_ERR))
      && (rc != 0 ==> calls == MAX_TRIES && rc == Code(codes, MAX_TRIES - 1))
    decreases MAX_TRIES - k
  {
    var rc := Code(codes, k);
    if rc != 0 && k + 1 < MAX_TRIES && rc != ECC_CORRECTED_ERR {
      RetryMeaning(codes, k + 1);
    }
  }

  /** A corrected error on the fifth attempt is reported as a failure. */
  lemma LastCorrectedErrorFails()
    ensures Retry([0x20, 0x20, 0x20, 0x20, ECC_CORRECTED_ERR], 0) == (ECC_CORRECTED_ERR, MAX_TRIES)
    ensures Retry([0x20, ECC_CORRECTED_ERR], 0) == (0, 2)
  {
  }

  /** The retry loop of `Biosread`: call, and retry while the call fails and fewer than five were made. */
  method ReadWithRetries(codes: seq<int>) returns (rc: int, calls: nat)
    ensures (rc, calls) == Retry(codes, 0)
  {
    var tries := 0;
    rc := Code(codes, 0);
    while rc != 0 && tries + 1 < MAX_TRIES
      invariant tries < MAX_TRIES
      invariant rc == Code(codes, tries)
      invariant Retry(codes, tries) == Retry(codes, 0)
      decreases MAX_TRIES - tries
    {
      tries := tries + 1;
      if rc == ECC_CORRECTED_ERR {
        rc := 0;
        calls := tries;
        return;
      }
      rc := Code(codes, tries);
    }
    calls := tries + 1;
  }

  // ---------------------------------------------------------------------
  // Biosread: the sector cache

  /** What `getDriveInfo` reports (`ebios` is the fixed-disk-access bit of EBIOS support). */
  datatype DriveInfo = DriveInfo(noEmulation: bool, nbps: nat, ebios: bool, spt: nat, heads: nat)

  /** Bytes per sector: 2048 on a no-emulation CD, else what the drive says. */
  function Bps(d: DriveInfo): nat
  {
    if d.noEmulation then 2048 else d.nbps
  }

  /** 512-byte sectors per drive sector. */
  function Divisor(d: DriveInfo): nat
  {
    Bps(d) / BPS
  }

  /** Hard drives with EBIOS fixed-disk access are read by LBA; everything else by CHS. */
  predicate UsesEbios(biosdev: int, d: DriveInfo)
  {
    biosdev >= HARD_DRIVE && d.ebios
  }

  /**
   * The static state of `Biosread`: `cache_valid`, the cached device and
   * range (`xsec` is held in 32 bits, and on the CHS path it is a sector
   * of the track `xcyl`/`xhead`), the track buffer's contents and the
   * offset of `biosbuf` in it.
   */
  datatype Cache = Cache(valid: bool, dev: int, xsec: nat, xnsecs: nat, xcyl: nat, xhead: nat,
                         track: seq<byte>, biosbuf: nat)

  /** The sector `biosbuf` shows. */
  function Shown(c: Cache): seq<byte>
  {
    BlockAt(c.track, c.biosbuf)
  }

  /** EBIOS path: a hit needs the sector in the cached range, compared in 32 bits. */
  predicate EbiosHit(c: Cache, biosdev: int, secno: nat)
  {
    c.valid && biosdev == c.dev && secno >= c.xsec && secno % TWO32 < (c.xsec + c.xnsecs) % TWO32
  }

  /** CHS path: a hit needs the same cylinder and head and the sector in the cached run. */
  predicate ChsHit(c: Cache, biosdev: int, cyl: nat, head: nat, sec: nat)
  {
    c.valid && biosdev == c.dev && cyl == c.xcyl && head == c.xhead && c.xsec <= sec < c.xsec + c.xnsecs
  }

  /** Sectors a CHS read caches: up to the end of the track. */
  function TrackRun(spt: nat, sec: nat): (n: nat)
    requires sec < spt
    ensures 0 < n <= N_CACHE_SECS && sec + n <= spt
  {
    if sec + N_CACHE_SECS > spt then spt - sec else N_CACHE_SECS
  }

  /** The EBIOS path of `Biosread` (`div` is the drive's divisor). */
  function EbiosRead(c: Cache, biosdev: int, secno: nat, div: nat, image: seq<byte>, codes: seq<int>): (r: (Cache, int))
    requires div > 0
  {
    if EbiosHit(c, biosdev, secno) then (c.(biosbuf := BPS * (secno - c.xsec)), 0)
    else
      var start := (secno / div) * div;
      var rc := Retry(codes, 0).0;
      (Cache(rc == 0, biosdev, start % TWO32, N_CACHE_SECS, c.xcyl, c.xhead,
             if rc == 0 then Sectors(image, start, (N_CACHE_SECS / div) * div) else c.track,
             (secno % div) * BPS), rc)
  }

  /** The CHS path of `Biosread`: the read-ahead stops at the end of the track. */
  function ChsRead(c: Cache, biosdev: int, secno: nat, spt: nat, heads: nat, div: nat,
                   image: seq<byte>, codes: seq<int>): (r: (Cache, int))
    requires div > 0 && spt > 0 && heads > 0
  {
    var (cyl, head, sec) := Chs(secno, spt, heads);
    if ChsHit(c, biosdev, cyl, head, sec) then (c.(biosbuf := BPS * (sec - c.xsec)), 0)
    else
      var n := TrackRun(spt, sec);
      var rc := Retry(codes, 0).0;
      (Cache(rc == 0, biosdev, sec, n, cyl, head,
             if rc == 0 then Sectors(image, secno, n) else c.track,
             (secno % div) * BPS), rc)
  }

  /**
   * `Biosread`: the new cache and the return code. A drive whose sector
   * size is below 512, or a CHS drive without geometry, would make the C
   * divide by zero; here those fail with -1.
   */
  function BiosreadSpec(c: Cache, biosdev: int, secno: nat, info: Option<DriveInfo>,
                        image: seq<byte>, codes: seq<int>): (r: (Cache, int))
  {
    if info.None? || Divisor(info.value) == 0 then (c, -1)
    else if UsesEbios(biosdev, info.value) then EbiosRead(c, biosdev, secno, Divisor(info.value), image, codes)
    else if info.value.spt == 0 || info.value.heads == 0 then (c, -1)
    else ChsRead(c, biosdev, secno, info.value.spt, info.value.heads, Divisor(info.value), image, codes)
  }

  /** A return code is 0, -1, or a BIOS code the retry loop gave up on. */
  lemma BiosreadCodes(c: Cache, biosdev: int, secno: nat, info: Option<DriveInfo>, image: seq<byte>, codes: seq<int>)
    ensures var (c', rc) := BiosreadSpec(c, biosdev, secno, info, image, codes);
      && (rc == 0 || rc == -1 || rc == Retry(codes, 0).0)
      && (c'.valid && !c.valid ==> rc == 0)
  {
  }

  /**
   * EBIOS hit: a sector inside the cached range of the cached device is
   * served from the track buffer whatever the BIOS would say, with
   * nothing but `biosbuf` changed.
   */
  lemma EbiosCacheHit(c: Cache, biosdev: int, secno: nat, d: DriveInfo, image: seq<byte>, codes: seq<int>)
    requires Divisor(d) > 0 && UsesEbios(biosdev, d)
    requires c.valid && biosdev == c.dev && c.xsec + c.xnsecs < TWO32 && secno < TWO32
    requires c.xsec <= secno < c.xsec + c.xnsecs
    ensures BiosreadSpec(c, biosdev, secno, Some(d), image, codes) == (c.(biosbuf := BPS * (secno - c.xsec)), 0)
  {
  }

  /**
   * EBIOS miss: the cached start is the sector rounded down to the drive
   * sector, the full track buffer is claimed, and the cache is valid
   * exactly when the final code is 0.
   */
  lemma EbiosCacheMiss(c: Cache, biosdev: int, secno: nat, d: DriveInfo, image: seq<byte>, codes: seq<int>)
    requires Divisor(d) > 0 && UsesEbios(biosdev, d)
    requires !EbiosHit(c, biosdev, secno)
    ensures var (c', rc) := BiosreadSpec(c, biosdev, secno, Some(d), image, codes);
      && rc == Retry(codes, 0).0
      && c'.valid == (rc == 0) && c'.dev == biosdev
      && c'.xsec == (secno - secno % Divisor(d)) % TWO32 && c'.xnsecs == N_CACHE_SECS
  {
    var div := Divisor(d);
    assert (secno / div) * div == secno - secno % div;
  }

  /** The cache agrees with the image of the drive it belongs to. */
  predicate Coherent(c: Cache, image: seq<byte>, d: DriveInfo)
  {
    c.valid ==>
      if UsesEbios(c.dev, d) then c.xsec < TWO32 && c.track == Sectors(image, c.xsec, c.xnsecs)
      else
        && d.spt > 0 && d.heads > 0 && c.xhead < d.heads && c.xsec + c.xnsecs <= d.spt
        && c.track == Sectors(image, c.xcyl * (d.spt * d.heads) + c.xhead * d.spt + c.xsec, c.xnsecs)
  }

  /** Drives on which reads give back the requested sector: see `BiosreadReadsSector`. */
  predicate Regular(biosdev: int, d: DriveInfo, secno: nat)
  {
    if UsesEbios(biosdev, d) then secno < TWO32 && Divisor(d) > 0 && N_CACHE_SECS % Divisor(d) == 0
    else Divisor(d) == 1
  }

  /** Euclidean division by a positive divisor. */
  lemma DivMod(x: nat, m: nat)
    requires m > 0
    ensures x == (x / m) * m + x % m && x % m < m
  {
  }

  /** Multiplication distributes over addition. */
  lemma Distrib(a: int, b: int, m: int)
    ensures (a + b) * m == a * m + b * m
  {
  }

  /** A positive multiple of `m` is at least `m`. */
  lemma MulAtLeast(k: nat, m: nat)
    requires k >= 1
    ensures k * m >= m
  {
    Distrib(k - 1, 1, m);
  }

  /** Quotient and remainder are the only such pair. */
  lemma DivModUnique(x: nat, a: nat, b: nat, m: nat)
    requires m > 0 && b < m && x == a * m + b
    ensures x / m == a && x % m == b
  {
    DivMod(x, m);
    var q := x / m;
    var r := x % m;
    if q < a {
      Distrib(q, a - q, m);
      MulAtLeast(a - q, m);
      assert false;
    } else if q > a {
      Distrib(a, q - a, m);
      MulAtLeast(q - a, m);
      assert false;
    }
  }

  /** Cylinder, head and sector of an LBA sector number. */
  function Chs(secno: nat, spt: nat, heads: nat): (r: (nat, nat, nat))
    requires spt > 0 && heads > 0
  {
    (secno / (spt * heads), (secno % (spt * heads)) / spt, secno % spt)
  }

  /** Products of natural numbers are natural. */
  function MulNat(a: nat, b: nat): (r: nat)
    ensures r == a * b
  {
    if a == 0 then 0 else MulNat(a - 1, b) + b
  }

  /** Regrouping a product of three factors. */
  lemma MulAssoc(a: int, b: int, c: int)
    ensures a * (c * b) == (a * b) * c
  {
  }

  /** Multiplication by a natural number is monotonic. */
  lemma MulMonotone(a: nat, b: nat, m: nat)
    requires a <= b
    ensures a * m <= b * m
  {
    Distrib(a, b - a, m);
  }

  /** The head is below the head count. */
  lemma HeadBound(r: nat, t: nat, u: nat, spt: nat, heads: nat)
    requires r < spt * heads && r == t * spt + u
    ensures t < heads
  {
    if t >= heads {
      MulMonotone(heads, t, spt);
    }
  }

  /** A sector number is its cylinder, head and sector. */
  lemma ChsDecompose(secno: nat, spt: nat, heads: nat)
    requires spt > 0 && heads > 0
    ensures var (cyl, head, sec) := Chs(secno, spt, heads);
      head < heads && sec < spt && secno == cyl * (spt * heads) + head * spt + sec
  {
    var spc := spt * heads;
    var q := secno / spc;
    var r := secno % spc;
    DivMod(secno, spc);
    var t := r / spt;
    var u := r % spt;
    DivMod(r, spt);
    HeadBound(r, t, u, spt, heads);
    SectorOfTrack(secno, q, t, u, spt, heads);
  }

  /** The sector within the track is the remainder by the track length. */
  lemma SectorOfTrack(secno: nat, q: nat, t: nat, u: nat, spt: nat, heads: nat)
    requires spt > 0 && u < spt && secno == q * (spt * heads) + t * spt + u
    ensures secno % spt == u
  {
    MulAssoc(q, heads, spt);
    var qh: nat := MulNat(q, heads);
    Distrib(qh, t, spt);
    DivModUnique(secno, qh + t, u, spt);
  }

  /** EBIOS hit: the buffer already holds the sector. */
  lemma EbiosHitReadsSector(c: Cache, biosdev: int, secno: nat, d: DriveInfo, image: seq<byte>)
    requires Coherent(c, image, d) && UsesEbios(biosdev, d) && Regular(biosdev, d, secno)
    requires EbiosHit(c, biosdev, secno)
    ensures BlockAt(c.track, BPS * (secno - c.xsec)) == Sector(image, secno)
  {
    EbiosHitRange(c, secno);
    SectorOfRun(image, c.xsec, c.xnsecs, secno - c.xsec);
    assert c.xsec + (secno - c.xsec) == secno;
    assert BPS * (secno - c.xsec) == (secno - c.xsec) * BPS;
  }

  /** EBIOS miss: the buffer is read from the drive sector holding the requested one. */
  lemma EbiosMissReadsSector(secno: nat, div: nat, image: seq<byte>)
    requires secno < TWO32 && div > 0 && N_CACHE_SECS % div == 0
    ensures var start := (secno / div) * div;
      && start % TWO32 == start && (N_CACHE_SECS / div) * div == N_CACHE_SECS
      && BlockAt(Sectors(image, start, N_CACHE_SECS), (secno % div) * BPS) == Sector(image, secno)
  {
    DivMod(secno, div);
    var start := (secno / div) * div;
    DivMod(N_CACHE_SECS, div);
    assert div <= N_CACHE_SECS;
    assert start + secno % div == secno;
    SectorOfRun(image, start, N_CACHE_SECS, secno % div);
  }

  /** A successful EBIOS miss caches the 64 sectors from the rounded-down start. */
  lemma EbiosMissCache(c: Cache, biosdev: int, secno: nat, div: nat, image: seq<byte>, codes: seq<int>)
    requires secno < TWO32 && div > 0 && N_CACHE_SECS % div == 0
    requires !EbiosHit(c, biosdev, secno) && Retry(codes, 0).0 == 0
    ensures var start := (secno / div) * div;
      && EbiosRead(c, biosdev, secno, div, image, codes).0
           == Cache(true, biosdev, start, N_CACHE_SECS, c.xcyl, c.xhead, Sectors(image, start, N_CACHE_SECS), (secno % div) * BPS)
      && BlockAt(Sectors(image, start, N_CACHE_SECS), (secno % div) * BPS) == Sector(image, secno)
  {
    EbiosMissReadsSector(secno, div, image);
  }

  /** Read-back on the EBIOS path. */
  lemma EbiosReadsSector(c: Cache, biosdev: int, secno: nat, d: DriveInfo, image: seq<byte>, codes: seq<int>)
    requires c.valid && c.dev == biosdev ==> Coherent(c, image, d)
    requires UsesEbios(biosdev, d) && Regular(biosdev, d, secno)
    ensures var (c', rc) := EbiosRead(c, biosdev, secno, Divisor(d), image, codes);
      && (rc == 0 ==> Shown(c') == Sector(image, secno))
      && ((c.valid && c.dev == biosdev) || rc == 0 ==> Coherent(c', image, d))
  {
    if EbiosHit(c, biosdev, secno) {
      EbiosHitReadsSector(c, biosdev, secno, d, image);
    } else if Retry(codes, 0).0 == 0 {
      EbiosMissCache(c, biosdev, secno, Divisor(d), image, codes);
    }
  }

  /** CHS hit: the buffer already holds the sector. */
  lemma ChsHitReadsSector(c: Cache, biosdev: int, secno: nat, d: DriveInfo, image: seq<byte>)
    requires Coherent(c, image, d) && !UsesEbios(biosdev, d) && d.spt > 0 && d.heads > 0
    requires var (cyl, head, sec) := Chs(secno, d.spt, d.heads); ChsHit(c, biosdev, cyl, head, sec)
    ensures BlockAt(c.track, BPS * (secno % d.spt - c.xsec)) == Sector(image, secno)
  {
    var spc := d.spt * d.heads;
    var (cyl, head, sec) := Chs(secno, d.spt, d.heads);
    ChsDecompose(secno, d.spt, d.heads);
    var base := c.xcyl * spc + c.xhead * d.spt + c.xsec;
    SectorOfRun(image, base, c.xnsecs, sec - c.xsec);
    assert base + (sec - c.xsec) == secno;
    assert BPS * (sec - c.xsec) == (sec - c.xsec) * BPS;
  }

  /** Read-back on the CHS path. */
  lemma ChsReadsSector(c: Cache, biosdev: int, secno: nat, d: DriveInfo, image: seq<byte>, codes: seq<int>)
    requires c.valid && c.dev == biosdev ==> Coherent(c, image, d)
    requires !UsesEbios(biosdev, d) && Regular(biosdev, d, secno) && d.spt > 0 && d.heads > 0
    ensures var (c', rc) := ChsRead(c, biosdev, secno, d.spt, d.heads, Divisor(d), image, codes);
      && (rc == 0 ==> Shown(c') == Sector(image, secno))
      && ((c.valid && c.dev == biosdev) || rc == 0 ==> Coherent(c', image, d))
  {
    var (cyl, head, sec) := Chs(secno, d.spt, d.heads);
    ChsDecompose(secno, d.spt, d.heads);
    if ChsHit(c, biosdev, cyl, head, sec) {
      ChsHitReadsSector(c, biosdev, secno, d, image);
    } else {
      SectorOfRun(image, secno, TrackRun(d.spt, sec), 0);
    }
  }

  /**
   * Read-back: on a drive that holds `image`, with a cache that agreed
   * with it, a successful read shows the requested sector and leaves the
   * cache agreeing with the image.
   */
  lemma BiosreadReadsSector(c: Cache, biosdev: int, secno: nat, d: DriveInfo, image: seq<byte>, codes: seq<int>)
    requires c.valid && c.dev == biosdev ==> Coherent(c, image, d)
    requires Regular(biosdev, d, secno)
    ensures var (c', rc) := BiosreadSpec(c, biosdev, secno, Some(d), image, codes);
      && (rc == 0 ==> Shown(c') == Sector(image, secno))
      && ((c.valid && c.dev == biosdev) || rc == 0 ==> Coherent(c', image, d))
  {
    if Divisor(d) > 0 {
      if UsesEbios(biosdev, d) {
        EbiosReadsSector(c, biosdev, secno, d, image, codes);
      } else if d.spt > 0 && d.heads > 0 {
        ChsReadsSector(c, biosdev, secno, d, image, codes);
      }
    }
  }

  /** A hit on a coherent EBIOS cache lies inside the cached run. */
  lemma EbiosHitRange(c: Cache, secno: nat)
    requires c.valid && secno >= c.xsec && secno % TWO32 < (c.xsec + c.xnsecs) % TWO32
    requires secno < TWO32 && c.xsec < TWO32
    ensures secno - c.xsec < c.xnsecs
  {
  }

  /**
   * Above 2^32 sectors the cached start wraps: after reading sector
   * 2^32 + 5 of an EBIOS disk, a request for sector 6 is served from the
   * buffer, which holds sector 2^32 + 6.
   */
  lemma HighSectorAliases(image: seq<byte>, codes: seq<int>)
    requires Retry(codes, 0).0 == 0
    ensures var c0 := Cache(false, 0, 0, 0, 0, 0, [], 0);
      var (c1, rc1) := EbiosRead(c0, HARD_DRIVE, TWO32 + 5, 1, image, codes);
      var (c2, rc2) := EbiosRead(c1, HARD_DRIVE, 6, 1, image, []);
      && rc1 == 0 && rc2 == 0 && EbiosHit(c1, HARD_DRIVE, 6)
      && Shown(c2) == Sector(image, TWO32 + 6)
  {
    var c0 := Cache(false, 0, 0, 0, 0, 0, [], 0);
    var run := Sectors(image, TWO32 + 5, N_CACHE_SECS);
    var c1 := Cache(true, HARD_DRIVE, 5, N_CACHE_SECS, 0, 0, run, 0);
    assert EbiosRead(c0, HARD_DRIVE, TWO32 + 5, 1, image, codes) == (c1, 0);
    assert EbiosHit(c1, HARD_DRIVE, 6);
    assert EbiosRead(c1, HARD_DRIVE, 6, 1, image, []) == (c1.(biosbuf := BPS), 0);
    SectorOfRun(image, TWO32 + 5, N_CACHE_SECS, 1);
  }

  // ---------------------------------------------------------------------
  // readBytes

  /** A RAM-disk reader: the bytes it copies, or None for -1. */
  type RamdiskReader = (int, nat, nat, nat) -> Option<seq<byte>>

  /** Every drive sector a read of `count` bytes from `off` in sector `blkno` touches gives back its data. */
  predicate RegularRead(biosdev: int, d: DriveInfo, blkno: nat, off: nat, count: nat)
  {
    if UsesEbios(biosdev, d) then
      Divisor(d) > 0 && N_CACHE_SECS % Divisor(d) == 0 && blkno * BPS + off + count <= TWO32 * BPS
    else Divisor(d) == 1
  }

  /** Reads that always find the drive: every BIOS call sequence ends in success. */
  ghost predicate FaultFree(d: DriveInfo, biosdev: int, codes: nat -> seq<int>)
  {
    && Divisor(d) > 0
    && (UsesEbios(biosdev, d) || (d.spt > 0 && d.heads > 0))
    && forall b :: Retry(codes(b), 0).0 == 0
  }

  /** The blocks a regular read touches are regular. */
  lemma RegularReadBlock(biosdev: int, d: DriveInfo, blkno: nat, byteoff: nat, byteCount: nat,
                         blk: nat, off: nat, copied: nat)
    requires RegularRead(biosdev, d, blkno, byteoff, byteCount)
    requires blk * BPS + off == blkno * BPS + byteoff + copied && copied < byteCount
    ensures Regular(biosdev, d, blk)
  {
  }

  /** A read on a drive that never fails succeeds. */
  lemma FaultFreeRead(c: Cache, biosdev: int, secno: nat, d: DriveInfo, image: seq<byte>, codes: seq<int>)
    requires Divisor(d) > 0 && (UsesEbios(biosdev, d) || (d.spt > 0 && d.heads > 0))
    requires Retry(codes, 0).0 == 0
    ensures BiosreadSpec(c, biosdev, secno, Some(d), image, codes).1 == 0
  {
  }

  /** Appending the bytes of the sector just read extends the copied prefix. */
  lemma CopiedSector(prefix: seq<byte>, image: seq<byte>, start: nat, copied: nat, n: nat, off: nat, blk: nat)
    requires prefix == Extent(image, start, copied)
    requires blk * BPS + off == start + copied && off + n <= BPS
    ensures prefix + Extent(Sector(image, blk), off, n) == Extent(image, start, copied + n)
  {
  }

  /** Sequences that agree from `i` on agree from any later `j` on. */
  lemma SameTail<T>(a: seq<T>, b: seq<T>, i: nat, j: nat)
    requires i <= j <= |a| == |b| && a[i..] == b[i..]
    ensures a[j..] == b[j..]
  {
    assert a[j..] == a[i..][j - i..];
    assert b[j..] == b[i..][j - i..];
  }

  /** The RAM-disk path of `readBytes`: the installed reader fills the buffer or fails. */
  method RamdiskRead(biosdev: int, blkno: nat, byteoff: nat, byteCount: nat, buf: array<byte>,
                     reader: RamdiskReader) returns (rc: int)
    requires byteCount <= buf.Length
    modifies buf
    ensures rc == 0 || rc == -1
    ensures buf[byteCount..] == old(buf[byteCount..])
    ensures rc == 0 <==> reader(biosdev, blkno, byteoff, byteCount).Some?
    ensures rc == 0 ==> buf[..byteCount] == Extent(reader(biosdev, blkno, byteoff, byteCount).value, 0, byteCount)
  {
    var got := reader(biosdev, blkno, byteoff, byteCount);
    if got.None? {
      return -1;
    }
    CopyOut(buf, 0, got.value, 0, byteCount);
    return 0;
  }

  /** One round of a regular `readBytes`: the cache stays coherent and a successful read extends the copied prefix. */
  lemma RegularChunk(pre: Cache, post: Cache, err: int, biosdev: int, d: DriveInfo, image: seq<byte>, codes: seq<int>,
                     blkno: nat, byteoff: nat, byteCount: nat, blk: nat, off: nat, copied: nat, n: nat, prefix: seq<byte>)
    requires RegularRead(biosdev, d, blkno, byteoff, byteCount)
    requires blk * BPS + off == blkno * BPS + byteoff + copied && copied < byteCount && off + n <= BPS
    requires pre.valid && pre.dev == biosdev ==> Coherent(pre, image, d)
    requires (post, err) == BiosreadSpec(pre, biosdev, blk, Some(d), image, codes)
    requires prefix == Extent(image, blkno * BPS + byteoff, copied)
    ensures post.valid && post.dev == biosdev ==> Coherent(post, image, d)
    ensures err == 0 ==> prefix + Extent(Shown(post), off, n) == Extent(image, blkno * BPS + byteoff, copied + n)
  {
    RegularReadBlock(biosdev, d, blkno, byteoff, byteCount, blk, off, copied);
    BiosreadReadsSector(pre, biosdev, blk, d, image, codes);
    if err == 0 {
      CopiedSector(prefix, image, blkno * BPS + byteoff, copied, n, off, blk);
    }
  }

  /** Copy `n` bytes of `src` from `from` into `buf` at `at` (the `bcopy` of `readBytes`). */
  method CopyOut(buf: array<byte>, at: nat, src: seq<byte>, from: nat, n: nat)
    requires at + n <= buf.Length
    modifies buf
    ensures buf[..at] == old(buf[..at]) && buf[at + n..] == old(buf[at + n..])
    ensures buf[at..at + n] == Extent(src, from, n)
  {
    forall k | 0 <= k < n {
      buf[at + k] := ByteAt(src, from + k);
    }
  }

  /** The file-level statics of `Biosread`, updated in place by each read. */
  class SectorCache {
    var valid: bool
    var dev: int
    var xsec: nat
    var xnsecs: nat
    var xcyl: nat
    var xhead: nat
    var track: seq<byte>
    var biosbuf: nat

    function State(): Cache
      reads this
    {
      Cache(valid, dev, xsec, xnsecs, xcyl, xhead, track, biosbuf)
    }

    /** Statics start zeroed, so the cache starts invalid. */
    constructor()
      ensures State() == Cache(false, 0, 0, 0, 0, 0, [], 0)
    {
      valid, dev, xsec, xnsecs, xcyl, xhead, track, biosbuf := false, 0, 0, 0, 0, 0, [], 0;
    }

    /** The EBIOS path: serve the sector from the buffer or read a full buffer from its drive sector. */
    method EbiosPath(biosdev: int, secno: nat, div: nat, image: seq<byte>, codes: seq<int>) returns (rc: int)
      requires div > 0
      modifies this
      ensures (State(), rc) == EbiosRead(old(State()), biosdev, secno, div, image, codes)
    {
      if valid && biosdev == dev && secno >= xsec && secno % TWO32 < (xsec + xnsecs) % TWO32 {
        biosbuf := BPS * (secno - xsec);
        return 0;
      }
      var start := MulNat(secno / div, div);
      xnsecs := N_CACHE_SECS;
      xsec := start % TWO32;
      valid := false;
      var calls;
      rc, calls := ReadWithRetries(codes);
      if rc == 0 {
        track := Sectors(image, start, MulNat(N_CACHE_SECS / div, div));
        valid := true;
      }
      biosbuf := MulNat(secno % div, BPS);
      dev := biosdev;
    }

    /** The CHS path: serve the sector from the buffer or read the rest of its track. */
    method ChsPath(biosdev: int, secno: nat, spt: nat, heads: nat, div: nat, image: seq<byte>, codes: seq<int>)
        returns (rc: int)
      requires div > 0 && spt > 0 && heads > 0
      modifies this
      ensures (State(), rc) == ChsRead(old(State()), biosdev, secno, spt, heads, div, image, codes)
    {
      var (cyl, head, sec) := Chs(secno, spt, heads);
      if valid && biosdev == dev && cyl == xcyl && head == xhead && xsec <= sec < xsec + xnsecs {
        biosbuf := BPS * (sec - xsec);
        return 0;
      }
      xcyl, xhead, xsec := cyl, head, sec;
      xnsecs := if sec + N_CACHE_SECS > spt then spt - sec else N_CACHE_SECS;
      valid := false;
      var calls;
      rc, calls := ReadWithRetries(codes);
      if rc == 0 {
        track := Sectors(image, secno, xnsecs);
        valid := true;
      }
      biosbuf := (secno % div) * BPS;
      dev := biosdev;
    }

    /** `Biosread`: serve the sector from the track buffer or read ahead into it. */
    method Biosread(biosdev: int, secno: nat, info: Option<DriveInfo>, image: seq<byte>, codes: seq<int>)
        returns (rc: int)
      modifies this
      ensures (State(), rc) == BiosreadSpec(old(State()), biosdev, secno, info, image, codes)
    {
      if info.None? {
        return -1;
      }
      var d := info.value;
      var div := Bps(d) / BPS;
      if div == 0 {
        return -1;
      }
      if UsesEbios(biosdev, d) {
        rc := EbiosPath(biosdev, secno, div, image, codes);
      } else if d.spt == 0 || d.heads == 0 {
        rc := -1;
      } else {
        rc := ChsPath(biosdev, secno, d.spt, d.heads, div, image, codes);
      }
    }

    /** One round of `readBytes` as its loop sees it: the copied prefix grows by `n` bytes or the read fails. */
    method ReadChunk(biosdev: int, blkno: nat, byteoff: nat, byteCount: nat, blk: nat, off: nat, copied: nat, n: nat,
                     buf: array<byte>, info: Option<DriveInfo>, image: seq<byte>, codes: nat -> seq<int>,
                     ghost good: bool) returns (err: int)
      requires off + n <= BPS && copied < byteCount && copied + n <= byteCount <= buf.Length
      requires blk * BPS + off == blkno * BPS + byteoff + copied
      requires good ==> info.Some? && RegularRead(biosdev, info.value, blkno, byteoff, byteCount)
                        && (valid && dev == biosdev ==> Coherent(State(), image, info.value))
                        && buf[..copied] == Extent(image, blkno * BPS + byteoff, copied)
      modifies this, buf
      ensures buf[byteCount..] == old(buf[byteCount..])
      ensures info.Some? && FaultFree(info.value, biosdev, codes) ==> err == 0
      ensures good ==> (valid && dev == biosdev ==> Coherent(State(), image, info.value))
      ensures good && err == 0 ==> buf[..copied + n] == Extent(image, blkno * BPS + byteoff, copied + n)
    {
      ghost var pre := State();
      ghost var prefix := buf[..copied];
      err := ReadSector(biosdev, blk, off, n, buf, copied, info, image, codes(blk));
      if info.Some? && FaultFree(info.value, biosdev, codes) {
        FaultFreeRead(pre, biosdev, blk, info.value, image, codes(blk));
      }
      if good {
        RegularChunk(pre, State(), err, biosdev, info.value, image, codes(blk),
                     blkno, byteoff, byteCount, blk, off, copied, n, prefix);
      }
      SameTail(old(buf[..]), buf[..], copied + n, byteCount);
    }

    /** One round of `readBytes`: read sector `blk` and copy `n` bytes of it from `off` to `buf[at..]`. */
    method ReadSector(biosdev: int, blk: nat, off: nat, n: nat, buf: array<byte>, at: nat,
                      info: Option<DriveInfo>, image: seq<byte>, codes: seq<int>) returns (err: int)
      requires off + n <= BPS && at + n <= buf.Length
      modifies this, buf
      ensures (State(), err) == BiosreadSpec(old(State()), biosdev, blk, info, image, codes)
      ensures err != 0 ==> buf[..] == old(buf[..])
      ensures err == 0 ==> buf[..at] == old(buf[..at]) && buf[at + n..] == old(buf[at + n..])
                           && buf[at..at + n] == Extent(Shown(State()), off, n)
                           && buf[..at + n] == old(buf[..at]) + Extent(Shown(State()), off, n)
    {
      err := Biosread(biosdev, blk, info, image, codes);
      if err == 0 {
        CopyOut(buf, at, track, biosbuf + off, n);
        assert Extent(track, biosbuf + off, n) == Extent(Shown(State()), off, n);
        assert buf[..at + n] == buf[..at] + buf[at..at + n];
      }
    }

    /**
     * `readBytes`: `byteCount` bytes from offset `byteoff` of sector
     * `blkno`, one sector at a time through the cache; a device from 0x100
     * with a RAM-disk reader installed goes to that reader instead.
     * Offsets past one sector would make the first copy length negative.
     */
    method ReadBytes(biosdev: int, blkno: nat, byteoff: nat, byteCount: nat, buf: array<byte>,
                     info: Option<DriveInfo>, image: seq<byte>, codes: nat -> seq<int>,
                     ramdisk: Option<RamdiskReader>) returns (rc: int)
      requires byteoff <= BPS && byteCount <= buf.Length
      modifies this, buf
      ensures rc == 0 || rc == -1
      ensures buf[byteCount..] == old(buf[byteCount..])
      ensures ramdisk.Some? && biosdev >= 0x100 ==>
        && State() == old(State())
        && (rc == 0 <==> ramdisk.value(biosdev, blkno, byteoff, byteCount).Some?)
        && (rc == 0 ==> buf[..byteCount] == Extent(ramdisk.value(biosdev, blkno, byteoff, byteCount).value, 0, byteCount))
      ensures (ramdisk.None? || biosdev < 0x100) && byteCount == 0 ==> rc == 0 && State() == old(State())
      ensures (ramdisk.None? || biosdev < 0x100) && info.Some? && FaultFree(info.value, biosdev, codes) ==> rc == 0
      ensures (ramdisk.None? || biosdev < 0x100) && info.Some? && RegularRead(biosdev, info.value, blkno, byteoff, byteCount)
              && old(valid && dev == biosdev ==> Coherent(State(), image, info.value)) ==>
        && (valid && dev == biosdev ==> Coherent(State(), image, info.value))
        && (rc == 0 ==> buf[..byteCount] == Extent(image, blkno * BPS + byteoff, byteCount))
    {
      if ramdisk.Some? && biosdev >= 0x100 {
        rc := RamdiskRead(biosdev, blkno, byteoff, byteCount, buf, ramdisk.value);
      } else {
        rc := CachedRead(biosdev, blkno, byteoff, byteCount, buf, info, image, codes);
      }
    }

    /** The BIOS path of `readBytes`: sector by sector through `Biosread`, stopping at the first failure. */
    method CachedRead(biosdev: int, blkno: nat, byteoff: nat, byteCount: nat, buf: array<byte>,
                      info: Option<DriveInfo>, image: seq<byte>, codes: nat -> seq<int>) returns (rc: int)
      requires byteoff <= BPS && byteCount <= buf.Length
      modifies this, buf
      ensures rc == 0 || rc == -1
      ensures buf[byteCount..] == old(buf[byteCount..])
      ensures byteCount == 0 ==> rc == 0 && State() == old(State())
      ensures info.Some? && FaultFree(info.value, biosdev, codes) ==> rc == 0
      ensures info.Some? && RegularRead(biosdev, info.value, blkno, byteoff, byteCount)
              && old(valid && dev == biosdev ==> Coherent(State(), image, info.value)) ==>
        && (valid && dev == biosdev ==> Coherent(State(), image, info.value))
        && (rc == 0 ==> buf[..byteCount] == Extent(image, blkno * BPS + byteoff, byteCount))
    {
      ghost var good := info.Some? && RegularRead(biosdev, info.value, blkno, byteoff, byteCount)
                        && (valid && dev == biosdev ==> Coherent(State(), image, info.value));
      var blk: nat, off: nat, copied: nat, remaining: nat := blkno, byteoff, 0, byteCount;
      while remaining > 0
        invariant copied + remaining == byteCount && off <= BPS
        invariant remaining > 0 ==> blk * BPS + off == blkno * BPS + byteoff + copied
        invariant buf[byteCount..] == old(buf[byteCount..])
        invariant good ==> (valid && dev == biosdev ==> Coherent(State(), image, info.value))
        invariant good ==> buf[..copied] == Extent(image, blkno * BPS + byteoff, copied)
        invariant byteCount == 0 ==> State() == old(State())
        decreases remaining, off
      {
        var n := if remaining + off > BPS then BPS - off else remaining;
        var err := ReadChunk(biosdev, blkno, byteoff, byteCount, blk, off, copied, n, buf, info, image, codes, good);
        if err != 0 {
          return -1;
        }
        copied, remaining := copied + n, remaining - n;
        blk, off := blk + 1, 0;
      }
      return 0;
    }
  }
}
