/**
 * Kernel selection in `boot.c`: the Adler-32 checksum that names the
 * kernel cache, the decision whether the cache may be used, the search for
 * the kernel file, the CPU architecture choice and the status handling of
 * the `common_boot` loop. File lookups and loads are inputs.
 */
module Boot {
  import opened Bytes
  import opened Wrappers
  import StringTable

  // -------------------------------------------------------------------
  // Adler-32 (section 2.2 of RFC 1950)

  const BASE: nat := 65521
  /** Bytes summed between two reductions. */
  const NMAX: nat := 5000

  datatype Sums = Sums(s1: nat, s2: nat)

  /** The two Adler-32 sums, reduced after every byte. */
  function AdlerSums(data: seq<byte>): (r: Sums)
    ensures r.s1 < BASE && r.s2 < BASE
  {
    if data == [] then Sums(1, 0)
    else
      var p := AdlerSums(data[..|data| - 1]);
      var s1 := (p.s1 + data[|data| - 1]) % 65521;
      Sums(s1, (p.s2 + s1) % 65521)
  }

  /** The checksum value: `s2 * 65536 + s1`. */
  function AdlerValue(data: seq<byte>): (r: nat)
    ensures r < TWO32
  {
    AdlerSums(data).s2 * TWO16 + AdlerSums(data).s1
  }

  /** The sum of the running `s1` values, unreduced. */
  function SumOfS1(data: seq<byte>): nat
  {
    if data == [] then 0 else SumOfS1(data[..|data| - 1]) + 1 + Sum(data)
  }

  lemma ModAdd(a: nat, b: nat)
    ensures (a + b) % 65521 == (a % 65521 + b % 65521) % 65521
  {
  }

  /**
   * RFC 1950 defines `s1` as 1 plus the sum of all bytes and `s2` as the sum
   * of all the values `s1` takes, both modulo 65521.
   */
  lemma {:induction false} AdlerMatchesRfc(data: seq<byte>)
    ensures AdlerSums(data).s1 == (1 + Sum(data)) % 65521
    ensures AdlerSums(data).s2 == SumOfS1(data) % 65521
  {
    if data != [] {
      var n := |data| - 1;
      var p := data[..n];
      AdlerMatchesRfc(p);
      AdlerUnfold(data, n);
      assert data[..n + 1] == data;
      RfcStep(AdlerSums(p).s1, AdlerSums(p).s2, Sum(p), SumOfS1(p), data[n] as nat);
    }
  }

  /** The congruences of one step of the RFC definition, on plain numbers. */
  lemma RfcStep(q1: nat, q2: nat, sum: nat, sumS1: nat, x: nat)
    requires q1 == (1 + sum) % 65521 && q2 == sumS1 % 65521
    ensures (q1 + x) % 65521 == (1 + sum + x) % 65521
    ensures (q2 + (q1 + x) % 65521) % 65521 == (sumS1 + (1 + sum + x)) % 65521
  {
    ModSum(q1, x, 1 + sum, x);
    ModSum(q2, (q1 + x) % 65521, sumS1, 1 + sum + x);
  }

  /** Byte `k` (0 = least significant) of a 32-bit value. */
  function ByteOf(x: nat, k: nat): (b: nat)
    requires k < 4
    ensures b < 0x100
  {
    match k
    case 0 => x % 0x100
    case 1 => x / 0x100 % 0x100
    case 2 => x / 0x1_0000 % 0x100
    case _ => x / 0x100_0000 % 0x100
  }

  function Pack(b0: nat, b1: nat, b2: nat, b3: nat): nat
  {
    b0 + 0x100 * b1 + 0x1_0000 * b2 + 0x100_0000 * b3
  }

  lemma Decompose(x: nat)
    requires x < TWO32
    ensures x == Pack(ByteOf(x, 0), ByteOf(x, 1), ByteOf(x, 2), ByteOf(x, 3))
  {
    var q1 := x / 0x100;
    var q2 := q1 / 0x100;
    var q3 := q2 / 0x100;
    assert x == q1 * 0x100 + x % 0x100;
    assert q1 == q2 * 0x100 + q1 % 0x100;
    assert q2 == q3 * 0x100 + q2 % 0x100;
    assert x / 0x1_0000 == q2;
    assert x / 0x100_0000 == q3 && q3 < 0x100;
  }

  lemma PackBytes(b0: nat, b1: nat, b2: nat, b3: nat)
    requires b0 < 0x100 && b1 < 0x100 && b2 < 0x100 && b3 < 0x100
    ensures Pack(b0, b1, b2, b3) < TWO32
    ensures ByteOf(Pack(b0, b1, b2, b3), 0) == b0 && ByteOf(Pack(b0, b1, b2, b3), 1) == b1
    ensures ByteOf(Pack(b0, b1, b2, b3), 2) == b2 && ByteOf(Pack(b0, b1, b2, b3), 3) == b3
  {
    var p := Pack(b0, b1, b2, b3);
    assert p / 0x100 == b1 + 0x100 * b2 + 0x1_0000 * b3;
    assert p / 0x1_0000 == b2 + 0x100 * b3;
    assert p / 0x100_0000 == b3;
  }

  /** `OSSwapHostToBigInt32` on the little-endian x86: the four bytes reversed. */
  function Swap32(x: nat): (r: nat)
    requires x < TWO32
    ensures r < TWO32
    ensures forall k :: 0 <= k < 4 ==> ByteOf(r, k) == ByteOf(x, 3 - k)
  {
    PackBytes(ByteOf(x, 3), ByteOf(x, 2), ByteOf(x, 1), ByteOf(x, 0));
    Pack(ByteOf(x, 3), ByteOf(x, 2), ByteOf(x, 1), ByteOf(x, 0))
  }

  /** Swapping twice gives the value back. */
  lemma Swap32Involutive(x: nat)
    requires x < TWO32
    ensures Swap32(Swap32(x)) == x
  {
    var y := Swap32(x);
    var z := Swap32(y);
    assert ByteOf(z, 0) == ByteOf(x, 0) && ByteOf(z, 1) == ByteOf(x, 1);
    assert ByteOf(z, 2) == ByteOf(x, 2) && ByteOf(z, 3) == ByteOf(x, 3);
    Decompose(x);
    Decompose(z);
  }

  /** Triangular numbers bound the growth of `s2` within one chunk. */
  function Tri(j: nat): nat
  {
    if j == 0 then 0 else Tri(j - 1) + j
  }

  lemma {:induction false} TriClosed(j: nat)
    ensures 2 * Tri(j) == j * (j + 1)
  {
    if j > 0 {
      TriClosed(j - 1);
    }
  }

  lemma MulLe(a: nat, b: nat, c: nat, d: nat)
    requires a <= b && c <= d
    ensures a * c <= b * d
  {
    assert a * c <= b * c;
  }

  /** Within a chunk of at most 5000 bytes neither sum reaches 2^32. */
  lemma ChunkFits(j: nat)
    requires j <= NMAX
    ensures (BASE - 1) * (j + 1) + 255 * Tri(j) < TWO32
  {
    TriClosed(j);
    MulLe(j, NMAX, j + 1, NMAX + 1);
    assert Tri(j) <= 12_502_500;
    MulLe(BASE - 1, BASE - 1, j + 1, NMAX + 1);
  }

  /** The unreduced sums after one more byte of a chunk stay within their bounds. */
  lemma ChunkStep(s1: nat, s2: nat, x: nat, j: nat)
    requires j < NMAX && x < 0x100
    requires s1 <= BASE - 1 + 255 * j
    requires s2 <= (BASE - 1) * (j + 1) + 255 * Tri(j)
    ensures s1 + x <= BASE - 1 + 255 * (j + 1)
    ensures s2 + s1 + x <= (BASE - 1) * (j + 2) + 255 * Tri(j + 1)
    ensures s1 + x < TWO32 && s2 + s1 + x < TWO32
  {
    ChunkFits(j + 1);
  }

  /** Congruence modulo 65521 is kept by addition. */
  lemma ModSum(a: nat, b: nat, c: nat, d: nat)
    requires a % 65521 == c % 65521 && b % 65521 == d % 65521
    ensures (a + b) % 65521 == (c + d) % 65521
  {
    ModAdd(a, b);
    ModAdd(c, d);
  }

  /** One more byte of the reference sums, written out. */
  lemma AdlerUnfold(buf: seq<byte>, n: nat)
    requires n < |buf|
    ensures AdlerSums(buf[..n + 1]).s1 == (AdlerSums(buf[..n]).s1 + buf[n]) % 65521
    ensures AdlerSums(buf[..n + 1]).s2 == (AdlerSums(buf[..n]).s2 + AdlerSums(buf[..n + 1]).s1) % 65521
  {
    assert buf[..n + 1][..n] == buf[..n];
  }

  /** The congruences of one step, on plain numbers. */
  lemma ModStep(s1: nat, s2: nat, p1: nat, p2: nat, x: nat)
    requires p1 < 65521 && p2 < 65521
    requires s1 % 65521 == p1 && s2 % 65521 == p2
    ensures (s1 + x) % 65521 == (p1 + x) % 65521
    ensures (s2 + (s1 + x)) % 65521 == (p2 + (p1 + x) % 65521) % 65521
  {
    ModSum(s1, x, p1, x);
    ModSum(s2, s1 + x, p2, (p1 + x) % 65521);
  }

  /** Adding one byte to unreduced sums keeps them congruent to the reference. */
  lemma AdlerStep(buf: seq<byte>, n: nat, s1: nat, s2: nat)
    requires n < |buf|
    requires s1 % 65521 == AdlerSums(buf[..n]).s1 && s2 % 65521 == AdlerSums(buf[..n]).s2
    ensures (s1 + buf[n]) % 65521 == AdlerSums(buf[..n + 1]).s1
    ensures (s2 + (s1 + buf[n])) % 65521 == AdlerSums(buf[..n + 1]).s2
  {
    AdlerUnfold(buf, n);
    ModStep(s1, s2, AdlerSums(buf[..n]).s1, AdlerSums(buf[..n]).s2, buf[n] as nat);
  }

  /**
   * After `j` bytes of a chunk starting at `pos`: the unreduced sums are
   * congruent to the reference and within the bounds that rule out a wrap.
   */
  predicate ChunkInv(buf: seq<byte>, pos: nat, j: nat, t1: nat, t2: nat)
    requires pos + j <= |buf|
  {
    Sums(t1 % 65521, t2 % 65521) == AdlerSums(buf[..pos + j]) &&
    t1 <= BASE - 1 + 255 * j && t2 <= (BASE - 1) * (j + 1) + 255 * Tri(j)
  }

  lemma ChunkInvStep(buf: seq<byte>, pos: nat, j: nat, t1: nat, t2: nat)
    requires pos + j < |buf| && j < NMAX
    requires ChunkInv(buf, pos, j, t1, t2)
    ensures ChunkInv(buf, pos, j + 1, t1 + buf[pos + j], t2 + (t1 + buf[pos + j]))
    ensures t1 + buf[pos + j] < TWO32 && t2 + (t1 + buf[pos + j]) < TWO32
  {
    AdlerStep(buf, pos + j, t1, t2);
    ChunkStep(t1, t2, buf[pos + j] as nat, j);
  }

  lemma ChunkInvInit(buf: seq<byte>, pos: nat, s1: nat, s2: nat)
    requires pos <= |buf| && Sums(s1, s2) == AdlerSums(buf[..pos])
    ensures ChunkInv(buf, pos, 0, s1, s2) && s1 < TWO32 && s2 < TWO32
  {
    assert pos + 0 == pos;
    assert s1 % 65521 == s1 && s2 % 65521 == s2;
  }

  /**
   * The inner loops of `Adler32`: adds the `k` bytes from `pos` to reduced
   * sums without reducing (the C code unrolls 16 bytes at a time, which adds
   * the same bytes in the same order). Neither 32-bit accumulator wraps.
   */
  method AddChunk(buf: seq<byte>, pos: nat, k: nat, s1: nat, s2: nat) returns (t1: nat, t2: nat)
    requires pos + k <= |buf| && k <= NMAX
    requires Sums(s1, s2) == AdlerSums(buf[..pos])
    ensures t1 < TWO32 && t2 < TWO32
    ensures Sums(t1 % 65521, t2 % 65521) == AdlerSums(buf[..pos + k])
  {
    t1, t2 := s1, s2;
    var j := 0;
    ChunkInvInit(buf, pos, s1, s2);
    while j < k
      invariant j <= k && ChunkInv(buf, pos, j, t1, t2)
      invariant t1 < TWO32 && t2 < TWO32
    {
      ChunkInvStep(buf, pos, j, t1, t2);
      t2 := t2 + (t1 + buf[pos + j]);
      t1 := t1 + buf[pos + j];
      j := j + 1;
    }
  }

  /** `Adler32`: chunks of at most 5000 bytes, both sums reduced after each. */
  method Adler32(buf: seq<byte>) returns (r: nat)
    ensures r == Swap32(AdlerValue(buf))
  {
    var s1: nat := 1;
    var s2: nat := 0;
    var len: nat := |buf|;
    var pos: nat := 0;
    while len > 0
      invariant pos + len == |buf|
      invariant Sums(s1, s2) == AdlerSums(buf[..pos])
    {
      var k := if len < NMAX then len else NMAX;
      len := len - k;
      s1, s2 := AddChunk(buf, pos, k, s1, s2);
      s1 := s1 % 65521;
      s2 := s2 % 65521;
      pos := pos + k;
    }
    assert buf[..pos] == buf;
    r := Swap32(s2 * TWO16 + s1);
  }

  // -------------------------------------------------------------------
  // Cache name

  const CACHE_NAME_SIZE: nat := 64 + 256
  const DEFAULT_CACHE_PATH: string := "/System/Library/Caches/com.apple.kernelcaches/kernelcache"

  predicate Ascii(s: string)
  {
    forall k :: 0 <= k < |s| ==> s[k] as int < 256
  }

  /**
   * `gCacheNameAdler` after its reset: the platform name area (64 bytes),
   * then "rootdevice,bootfile" zero-padded to 256 bytes.
   */
  function CacheNameBuffer(platform: seq<byte>, rootDevice: string, bootFile: string): (b: seq<byte>)
    requires |platform| == 64 && Ascii(rootDevice) && Ascii(bootFile)
    requires |rootDevice| + |bootFile| + 2 <= 256
    ensures |b| == CACHE_NAME_SIZE && b[..64] == platform
    ensures b[64..64 + |rootDevice|] == Latin1(rootDevice) && b[64 + |rootDevice|] == ',' as int
    ensures forall k :: 64 + |rootDevice| + 1 + |bootFile| <= k < CACHE_NAME_SIZE ==> b[k] == 0
  {
    var text := Latin1(rootDevice + "," + bootFile);
    platform + text + seq(256 - |text|, _ => 0)
  }

  /** `%08lX`. */
  function Hex8(x: nat): (s: string)
    requires x < TWO32
    ensures |s| == 8
  {
    Hex(x, 8)
  }

  /** `%08lX` of a 32-bit checksum reads back as the checksum. */
  lemma Hex8RoundTrip(x: nat)
    requires x < TWO32
    ensures HexValue(Hex8(x)) == x
  {
    assert Pow16(8) == TWO32;
    HexRoundTrip(x, 8);
  }

  /** The cache file: the Kernel Cache value if configured, else the default path with the checksum. */
  function CacheFile(kernelCacheKey: Option<StringTable.Value>, adler: nat): (f: string)
    requires adler < TWO32
    ensures kernelCacheKey.Some? ==> f == kernelCacheKey.value.text
    ensures kernelCacheKey.None? ==> |f| == |DEFAULT_CACHE_PATH| + 9 && f[..|DEFAULT_CACHE_PATH| + 1] == DEFAULT_CACHE_PATH + "."
  {
    if kernelCacheKey.Some? then kernelCacheKey.value.text else DEFAULT_CACHE_PATH + "." + Hex8(adler)
  }

  /**
   * The cache-name step of the boot loop: reset the name buffer to
   * "rootdevice,bootfile", checksum all of it, then take the Kernel Cache
   * value or the default path suffixed with the checksum in hexadecimal.
   */
  method NameCacheFile(platform: seq<byte>, rootDevice: string, bootFile: string,
                       kernelCacheKey: Option<StringTable.Value>) returns (f: string, adler: nat)
    requires |platform| == 64 && Ascii(rootDevice) && Ascii(bootFile)
    requires |rootDevice| + |bootFile| + 2 <= 256
    ensures adler == Swap32(AdlerValue(CacheNameBuffer(platform, rootDevice, bootFile)))
    ensures adler < TWO32 && f == CacheFile(kernelCacheKey, adler)
    ensures kernelCacheKey.None? ==> HexValue(f[|DEFAULT_CACHE_PATH| + 1..]) == adler
  {
    adler := Adler32(CacheNameBuffer(platform, rootDevice, bootFile));
    f := CacheFile(kernelCacheKey, adler);
    if kernelCacheKey.None? {
      assert f[|DEFAULT_CACHE_PATH| + 1..] == Hex8(adler);
      Hex8RoundTrip(adler);
    }
  }

  // -------------------------------------------------------------------
  // Cache decision

  /** The kernel cache is tried only in a normal boot of the default kernel from a block device. */
  predicate TryCache(safeMode: bool, overrideKernel: bool, blockDevice: bool, mkextName: string, cacheFile: string)
  {
    !safeMode && !overrideKernel && blockDevice && At(mkextName, 0) == '\0' && At(cacheFile, 0) != '\0'
  }

  datatype FileKind = Flat | Directory | OtherKind
  /** What `GetFileInfo` reports for a file that exists. */
  datatype FileInfo = FileInfo(kind: FileKind, time: int)

  /**
   * The staleness check. `kernel`, `cache` and `ext` are the lookups of the
   * kernel, the cache and /System/Library/Extensions (None when the lookup
   * fails); `extUninit` is the value `exttime` holds when its lookup fails,
   * since the C code reads it without having set it.
   */
  predicate CacheFresh(kernel: Option<FileInfo>, cache: Option<FileInfo>, ext: Option<FileInfo>, extUninit: int)
  {
    kernel.Some? && kernel.value.kind == Flat &&
    cache.Some? && cache.value.kind == Flat && cache.value.time >= kernel.value.time &&
    var exttime := if ext.Some? then ext.value.time else extUninit;
    !(ext.Some? && ext.value.kind == Directory && cache.value.time < exttime) &&
    var newest := if kernel.value.time > exttime then kernel.value.time else exttime;
    cache.value.time == newest + 1
  }

  function Max(a: int, b: int): int { if a > b then a else b }

  /**
   * With an Extensions directory, the cache is used exactly when both files
   * are flat and the cache is one second newer than the newer of the two.
   */
  lemma CacheFreshExact(kernel: FileInfo, cache: FileInfo, ext: FileInfo, extUninit: int)
    requires ext.kind == Directory
    ensures CacheFresh(Some(kernel), Some(cache), Some(ext), extUninit) <==>
            kernel.kind == Flat && cache.kind == Flat && cache.time == Max(kernel.time, ext.time) + 1
  {
  }

  /** When the Extensions lookup fails, the decision depends on an unset variable. */
  lemma ExttimeUninitMatters()
    ensures CacheFresh(Some(FileInfo(Flat, 10)), Some(FileInfo(Flat, 11)), None, 0)
    ensures !CacheFresh(Some(FileInfo(Flat, 10)), Some(FileInfo(Flat, 11)), None, 20)
  {
  }

  /**
   * `trycache` once the staleness loop has run: the conditions of the
   * initial test, then `CacheFresh`. A cache is only ever used in a normal
   * boot of the default kernel, and only when it is strictly newer than
   * the kernel.
   */
  function CacheTried(safeMode: bool, overrideKernel: bool, blockDevice: bool, mkextName: string, cacheFile: string,
                      kernel: Option<FileInfo>, cache: Option<FileInfo>, ext: Option<FileInfo>, extUninit: int): (t: bool)
    ensures t ==> !safeMode && !overrideKernel && blockDevice && At(cacheFile, 0) != '\0'
    ensures t ==> kernel.Some? && cache.Some? && cache.value.time > kernel.value.time
    ensures t ==> ext.Some? && ext.value.kind == Directory ==> cache.value.time > ext.value.time
  {
    TryCache(safeMode, overrideKernel, blockDevice, mkextName, cacheFile) && CacheFresh(kernel, cache, ext, extUninit)
  }

  // -------------------------------------------------------------------
  // Kernel file and architecture

  /** Helper-partition locations tried before the plain path, in order. */
  const HELPER_PREFIXES: seq<string> := ["com.apple.boot.P/", "com.apple.boot.R/", "com.apple.boot.S/"]

  /**
   * `bootFileSpec`: the first helper location the file lookup finds, else the
   * boot file itself. `present` holds the paths whose lookup does not fail.
   */
  function BootFileSpec(bootFile: string, present: set<string>): (spec: string)
    ensures (spec == bootFile && forall i :: 0 <= i < 3 ==> HELPER_PREFIXES[i] + bootFile !in present) ||
            exists i :: 0 <= i < 3 && spec == HELPER_PREFIXES[i] + bootFile && spec in present &&
                        forall j :: 0 <= j < i ==> HELPER_PREFIXES[j] + bootFile !in present
  {
    if HELPER_PREFIXES[0] + bootFile in present then HELPER_PREFIXES[0] + bootFile
    else if HELPER_PREFIXES[1] + bootFile in present then HELPER_PREFIXES[1] + bootFile
    else if HELPER_PREFIXES[2] + bootFile in present then HELPER_PREFIXES[2] + bootFile
    else bootFile
  }

  datatype Arch = I386 | X86_64

  /** `strncmp(val, "i386", 4) == 0` on the C string at the value pointer. */
  predicate ArchIsI386(v: StringTable.Value)
  {
    var s := CStr(v.rest, 0);
    |s| >= 4 && s[..4] == "i386"
  }

  /** `archCpuType`: 64-bit iff the CPU has EM64T and neither arch=i386 nor -x32 is given. */
  function ArchCpuType(em64t: bool, archKey: Option<StringTable.Value>, x32Key: Option<StringTable.Value>): (a: Arch)
    ensures a == X86_64 <==> em64t && !(archKey.Some? && ArchIsI386(archKey.value)) && x32Key.None?
  {
    var a := if em64t then X86_64 else I386;
    var a := if archKey.Some? && ArchIsI386(archKey.value) then I386 else a;
    if x32Key.Some? then I386 else a
  }

  datatype Loaded = Loaded(fromCache: bool, arch: Arch, ret: int)

  /**
   * The load step: the cache when it is tried and loads, otherwise the
   * kernel at `bootFileSpec`, retried once as i386 after a failed x86_64
   * load. `cacheRet` is what loading the cache returns and `load` what
   * loading the kernel returns for each architecture.
   */
  function LoadKernel(trycache: bool, cacheRet: int, arch: Arch, load: Arch -> int): (l: Loaded)
    ensures l.fromCache <==> trycache && cacheRet >= 0
    ensures l.fromCache ==> l.ret == cacheRet && l.arch == arch
    ensures !l.fromCache && arch == X86_64 && load(X86_64) <= 0 ==> l.arch == I386 && l.ret == load(I386)
    ensures !l.fromCache && !(arch == X86_64 && load(X86_64) <= 0) ==> l.arch == arch && l.ret == load(arch)
  {
    if trycache && cacheRet >= 0 then Loaded(true, arch, cacheRet)
    else
      var ret := load(arch);
      if ret <= 0 && arch == X86_64 then Loaded(false, I386, load(I386))
      else Loaded(false, arch, ret)
  }

  // -------------------------------------------------------------------
  // The boot loop

  /**
   * One pass of the `common_boot` loop: the status of `processBootOptions`,
   * whether `gBootVolume` was NULL, what the kernel load returned, whether
   * the boot device is the network, and whether a '?norescan' command at
   * the prompt turned rescanning off during the pass.
   */
  datatype Attempt = Attempt(status: int, volumeNull: bool, loadRet: int, network: bool, norescan: bool)

  datatype Exit = ChainBoot | ReturnToPxe | ExecKernel | NoMoreInput

  /** How the loop ends over a finite run of passes. */
  function LoopExit(attempts: seq<Attempt>): (e: Exit)
  {
    if attempts == [] then NoMoreInput
    else
      var a := attempts[0];
      if a.status == 1 then ChainBoot
      else if a.status == -1 then LoopExit(attempts[1..])
      else if a.loadRet > 0 then ExecKernel
      else if a.network then ReturnToPxe
      else LoopExit(attempts[1..])
  }

  /** Number of passes before the loop ends (the exiting one included). */
  function PassesUsed(attempts: seq<Attempt>): (n: nat)
    ensures n <= |attempts|
  {
    if attempts == [] then 0
    else
      var a := attempts[0];
      if a.status == 1 || (a.status != -1 && (a.loadRet > 0 || a.network)) then 1
      else 1 + PassesUsed(attempts[1..])
  }

  /** Passes that rebuild the filtered volume chain: status -1 with no boot volume. */
  function Rebuilds(attempts: seq<Attempt>): nat
  {
    |set i | 0 <= i < |attempts| && attempts[i].status == -1 && attempts[i].volumeNull|
  }

  /** Whether rescanning is still enabled after the passes, `on` being its value before them: only '?norescan' changes it, and only to off. */
  function RescanOn(attempts: seq<Attempt>, on: bool): bool
  {
    if attempts == [] then on
    else RescanOn(attempts[..|attempts| - 1], on) && !attempts[|attempts| - 1].norescan
  }

  /** Once a '?norescan' has turned rescanning off, no later pass turns it back on. */
  lemma {:induction false} NorescanSticks(attempts: seq<Attempt>, on: bool, k: nat)
    requires k < |attempts| && attempts[k].norescan
    ensures !RescanOn(attempts, on)
    decreases |attempts|
  {
    if k < |attempts| - 1 {
      NorescanSticks(attempts[..|attempts| - 1], on, k);
    }
  }

  /** Rebuilding passes that rescan the optical drive first: those that find rescanning still enabled. */
  function Rescans(attempts: seq<Attempt>, on: bool): nat
  {
    if attempts == [] then 0
    else
      var a := attempts[|attempts| - 1];
      Rescans(attempts[..|attempts| - 1], on) + (if a.status == -1 && a.volumeNull && RescanOn(attempts, on) then 1 else 0)
  }

  /**
   * The loop: status 1 leaves to chain-load, -1 restarts (rebuilding the
   * volume chain, after a rescan when enabled, if no volume is selected), any
   * other status loads a kernel and executes it, or gives control back to PXE
   * on a network boot when the load fails, or else goes round again.
   */
  method CommonBootLoop(attempts: seq<Attempt>, rescanEnabled: bool) returns (e: Exit, rebuilds: nat, rescans: nat)
    ensures e == LoopExit(attempts)
    ensures rebuilds == Rebuilds(attempts[..PassesUsed(attempts)])
    ensures rescans == Rescans(attempts[..PassesUsed(attempts)], rescanEnabled)
    ensures rescans <= rebuilds
    ensures !rescanEnabled ==> rescans == 0
    ensures RescanOn(attempts[..PassesUsed(attempts)], rescanEnabled) ==> rescans == rebuilds
  {
    var i := 0;
    var enabled := rescanEnabled;
    rebuilds, rescans := 0, 0;
    while i < |attempts|
      invariant i <= |attempts|
      invariant LoopExit(attempts) == LoopExit(attempts[i..])
      invariant PassesUsed(attempts) == i + PassesUsed(attempts[i..])
      invariant rebuilds == Rebuilds(attempts[..i])
      invariant enabled == RescanOn(attempts[..i], rescanEnabled)
      invariant rescans == Rescans(attempts[..i], rescanEnabled)
      invariant enabled ==> rescanEnabled
      invariant rescans <= rebuilds && (!rescanEnabled ==> rescans == 0) && (enabled ==> rescans == rebuilds)
    {
      var a := attempts[i];
      assert attempts[i..][1..] == attempts[i + 1..];
      assert attempts[..i + 1][..i] == attempts[..i];
      RebuildsStep(attempts, i);
      // a '?norescan' at this pass's prompt is seen by the rescan check below
      enabled := enabled && !a.norescan;
      if a.status == 1 {
        e := ChainBoot;
        assert attempts[..PassesUsed(attempts)] == attempts[..i + 1];
        return;
      }
      if a.status == -1 {
        if a.volumeNull {
          rebuilds := rebuilds + 1;
          if enabled {
            rescans := rescans + 1;
          }
        }
        i := i + 1;
        continue;
      }
      if a.loadRet > 0 {
        e := ExecKernel;
        assert attempts[..PassesUsed(attempts)] == attempts[..i + 1];
        return;
      }
      if a.network {
        e := ReturnToPxe;
        assert attempts[..PassesUsed(attempts)] == attempts[..i + 1];
        return;
      }
      i := i + 1;
    }
    assert attempts[i..] == [];
    assert attempts[..PassesUsed(attempts)] == attempts[..i];
    e := NoMoreInput;
  }

  /** Counting rebuilds one pass further. */
  lemma RebuildsStep(attempts: seq<Attempt>, i: nat)
    requires i < |attempts|
    ensures Rebuilds(attempts[..i + 1]) ==
            Rebuilds(attempts[..i]) + (if attempts[i].status == -1 && attempts[i].volumeNull then 1 else 0)
  {
    var p := attempts[..i];
    var q := attempts[..i + 1];
    var sp := set k | 0 <= k < |p| && p[k].status == -1 && p[k].volumeNull;
    var sq := set k | 0 <= k < |q| && q[k].status == -1 && q[k].volumeNull;
    if attempts[i].status == -1 && attempts[i].volumeNull {
      assert sq == sp + {i};
    } else {
      assert sq == sp;
    }
  }

  /** A chain-load request ends the loop before any later kernel is loaded. */
  lemma {:induction false} ChainBootFirst(attempts: seq<Attempt>, k: nat)
    requires k < |attempts| && attempts[k].status == 1
    requires forall j :: 0 <= j < k ==> attempts[j].status == -1 || (attempts[j].loadRet <= 0 && !attempts[j].network)
    ensures LoopExit(attempts) == ChainBoot
  {
    if k > 0 {
      assert attempts[0].status == -1 || (attempts[0].loadRet <= 0 && !attempts[0].network);
      assert forall j :: 0 <= j < k - 1 ==> attempts[1..][j] == attempts[j + 1];
      ChainBootFirst(attempts[1..], k - 1);
    }
  }
}
