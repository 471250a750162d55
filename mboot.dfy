/**
 * The Multiboot entry of the boot loader (boot2/mboot.c): finding a safe
 * high address for the Multiboot information, the bump allocator that
 * deep-copies it there, the `biosdev=`, `timeout=` and `partno=`
 * command-line arguments, the ramdisk hooks that serve Multiboot modules
 * as BIOS devices 0x100 and up, and the chain-load signature check.
 *
 * Physical memory is a byte sequence indexed by address (0 beyond the
 * modelled bytes); the bytes written to high memory by the copy are kept
 * in a separate map, which is sound because every source byte the copy
 * reads lies below the safe address (`SafeHiAddrLeast`).
 */
module Mboot {
  import opened Wrappers
  import opened Bytes
  import opened StringTable
  import opened CLib

  const MULTIBOOT_INFO_MAGIC: int := 0x2BAD_B002
  const HAS_MEMORY: bv32 := 0x1
  const HAS_BOOT_DEVICE: bv32 := 0x2
  const HAS_CMDLINE: bv32 := 0x4
  const HAS_MODS: bv32 := 0x8
  const HAS_LOADER_NAME: bv32 := 0x200
  /** `sizeof(struct multiboot_module)` */
  const MODULE_SIZE: nat := 16
  /** `sizeof(struct multiboot_info)` */
  const INFO_SIZE: nat := 88
  /** Lowest address the copy may use (libsa/memory.h). */
  const PREBOOT_DATA: nat := 0x1A08_0000
  const BAD_BOOT_DEVICE: nat := 0xFFFF_FFFF

  /** One Multiboot module descriptor. */
  datatype Module = Module(modStart: nat, modEnd: nat, str: nat, reserved: nat)

  /**
   * The Multiboot information structure: the fields the boot loader reads
   * or rewrites, and `rest`, the remaining words copied unchanged.
   */
  datatype Info = Info(flags: bv32, memLower: nat, memUpper: nat, bootDrive: byte, cmdline: nat,
                       modsCount: nat, modsAddr: nat, loaderName: nat, rest: seq<nat>)

  /** `flags & bit` */
  predicate HasFlag(flags: bv32, bit: bv32)
  {
    flags & bit != 0
  }

  // ---------------------------------------------------------------------
  // C strings in memory

  /** Length of the NUL-terminated string at address `a`. */
  function StrLenAt(mem: seq<byte>, a: nat): nat
    decreases |mem| - a
  {
    if a < |mem| && mem[a] != 0 then 1 + StrLenAt(mem, a + 1) else 0
  }

  /** The string at `a` lies in memory, holds no NUL, and is followed by one. */
  lemma {:induction false} StrLenAtFacts(mem: seq<byte>, a: nat)
    ensures var n := StrLenAt(mem, a);
            (a + n <= |mem| || (a >= |mem| && n == 0))
            && (forall k :: a <= k < a + n ==> mem[k] != 0)
            && ByteAt(mem, a + n) == 0
    decreases |mem| - a
  {
    if a < |mem| && mem[a] != 0 {
      StrLenAtFacts(mem, a + 1);
    }
  }

  /** One past the NUL of the string at `a` (`++end` after the scan). */
  function StrEnd(mem: seq<byte>, a: nat): (e: nat)
    ensures a < e
  {
    a + StrLenAt(mem, a) + 1
  }

  /** The string at `a` as text. */
  function TextAt(mem: seq<byte>, a: nat): (t: string)
    ensures |t| == StrLenAt(mem, a)
    ensures forall k :: 0 <= k < |t| ==> t[k] != '\0' && t[k] as int == ByteAt(mem, a + k)
  {
    StrLenAtFacts(mem, a);
    var n := StrLenAt(mem, a);
    seq(n, k requires 0 <= k < n => mem[a + k] as char)
  }

  /** The scan `for(; *end != '\0'; ++end); ++end;`. */
  method StringEnd(mem: seq<byte>, a: nat) returns (e: nat)
    ensures e == StrEnd(mem, a)
  {
    StrLenAtFacts(mem, a);
    e := a;
    while ByteAt(mem, e) != 0
      invariant a <= e <= a + StrLenAt(mem, a)
      decreases |mem| - e
    {
      e := e + 1;
    }
    e := e + 1;
  }

  // ---------------------------------------------------------------------
  // determine_safe_hi_addr

  function Max(hi: nat, x: nat): (r: nat)
    ensures hi <= r && x <= r
  {
    if x > hi then x else hi
  }

  /** The running maximum after the three checks for module `i`. */
  function ModuleBound(hi: nat, addr: nat, i: nat, m: Module, mem: seq<byte>): nat
  {
    Max(Max(Max(hi, addr + 16 * (i + 1)), m.modEnd), StrEnd(mem, m.str))
  }

  /** The running maximum after the first `n` modules, starting from `hi`. */
  function ModsBound(hi: nat, addr: nat, mods: seq<Module>, mem: seq<byte>, n: nat): nat
    requires n <= |mods|
  {
    if n == 0 then hi else ModuleBound(ModsBound(hi, addr, mods, mem, n - 1), addr, n - 1, mods[n - 1], mem)
  }

  /** The starting bound, raised past the command line when there is one. */
  function CmdlineBound(info: Info, mem: seq<byte>): nat
  {
    if HasFlag(info.flags, HAS_CMDLINE) && info.cmdline != 0
    then Max(PREBOOT_DATA, StrEnd(mem, info.cmdline))
    else PREBOOT_DATA
  }

  /** The highest end of everything that must not be overwritten, before rounding. */
  function RawBound(info: Info, mods: seq<Module>, mem: seq<byte>): nat
    requires |mods| == info.modsCount
  {
    if HasFlag(info.flags, HAS_MODS)
    then ModsBound(CmdlineBound(info, mem), info.modsAddr, mods, mem, |mods|)
    else CmdlineBound(info, mem)
  }

  /** `(x + 0xfff) & ~0xfff` on 32-bit values. */
  function RoundUpPage(x: nat): (r: nat)
  {
    ((x + 0xFFF) % 0x1_0000_0000) / 0x1000 * 0x1000
  }

  /** `determine_safe_hi_addr`: None stands for NULL on a wrong magic. */
  function SafeHiAddr(magic: int, info: Info, mods: seq<Module>, mem: seq<byte>): Option<nat>
    requires |mods| == info.modsCount
  {
    if magic != MULTIBOOT_INFO_MAGIC then None else Some(RoundUpPage(RawBound(info, mods, mem)))
  }

  /** Module `i`'s descriptor, contents and name all end at or below `b`. */
  predicate ModuleCovered(b: nat, addr: nat, i: nat, m: Module, mem: seq<byte>)
  {
    addr + 16 * (i + 1) <= b && m.modEnd <= b && StrEnd(mem, m.str) <= b
  }

  /** Everything the copy must preserve ends at or below `b`. */
  predicate Covers(b: nat, info: Info, mods: seq<Module>, mem: seq<byte>)
  {
    PREBOOT_DATA <= b
    && (HasFlag(info.flags, HAS_CMDLINE) && info.cmdline != 0 ==> StrEnd(mem, info.cmdline) <= b)
    && (HasFlag(info.flags, HAS_MODS) ==> forall i :: 0 <= i < |mods| ==> ModuleCovered(b, info.modsAddr, i, mods[i], mem))
  }

  /** The running maximum covers every module seen and is at least its start. */
  lemma {:induction false} ModsBoundCovers(hi: nat, addr: nat, mods: seq<Module>, mem: seq<byte>, n: nat)
    requires n <= |mods|
    ensures hi <= ModsBound(hi, addr, mods, mem, n)
    ensures forall i :: 0 <= i < n ==> ModuleCovered(ModsBound(hi, addr, mods, mem, n), addr, i, mods[i], mem)
  {
    if n > 0 {
      ModsBoundCovers(hi, addr, mods, mem, n - 1);
      var prev := ModsBound(hi, addr, mods, mem, n - 1);
      var cur := ModsBound(hi, addr, mods, mem, n);
      assert prev <= cur;
      forall i | 0 <= i < n
        ensures ModuleCovered(cur, addr, i, mods[i], mem)
      {
        if i < n - 1 {
          assert ModuleCovered(prev, addr, i, mods[i], mem);
        }
      }
    }
  }

  /** ... and it is the least such bound. */
  lemma {:induction false} ModsBoundLeast(hi: nat, addr: nat, mods: seq<Module>, mem: seq<byte>, n: nat, b: nat)
    requires n <= |mods| && hi <= b
    requires forall i :: 0 <= i < n ==> ModuleCovered(b, addr, i, mods[i], mem)
    ensures ModsBound(hi, addr, mods, mem, n) <= b
  {
    if n > 0 {
      ModsBoundLeast(hi, addr, mods, mem, n - 1, b);
      assert ModuleCovered(b, addr, n - 1, mods[n - 1], mem);
    }
  }

  /** The unrounded bound is the least bound that covers everything. */
  lemma RawBoundLeast(info: Info, mods: seq<Module>, mem: seq<byte>, b: nat)
    requires |mods| == info.modsCount
    ensures Covers(RawBound(info, mods, mem), info, mods, mem)
    ensures Covers(b, info, mods, mem) ==> RawBound(info, mods, mem) <= b
  {
    var h0 := CmdlineBound(info, mem);
    if HasFlag(info.flags, HAS_MODS) {
      ModsBoundCovers(h0, info.modsAddr, mods, mem, |mods|);
      if Covers(b, info, mods, mem) {
        ModsBoundLeast(h0, info.modsAddr, mods, mem, |mods|, b);
      }
    }
  }

  /** A larger bound still covers. */
  lemma CoversMono(b: nat, c: nat, info: Info, mods: seq<Module>, mem: seq<byte>)
    requires Covers(b, info, mods, mem) && b <= c
    ensures Covers(c, info, mods, mem)
  {
    if HasFlag(info.flags, HAS_MODS) {
      forall i | 0 <= i < |mods|
        ensures ModuleCovered(c, info.modsAddr, i, mods[i], mem)
      {
        assert ModuleCovered(b, info.modsAddr, i, mods[i], mem);
      }
    }
  }

  /** Without 32-bit overflow, rounding gives the least page multiple at or above `x`. */
  lemma RoundUpPageLeast(x: nat, b: nat)
    requires x + 0xFFF < TWO32
    ensures x <= RoundUpPage(x) < x + 0x1000 && RoundUpPage(x) % 0x1000 == 0
    ensures x <= b && b % 0x1000 == 0 ==> RoundUpPage(x) <= b
  {
    var q := (x + 0xFFF) / 0x1000;
    assert RoundUpPage(x) == q * 0x1000;
  }

  /** An end within the last page of the 32-bit space rounds to 0, i.e. NULL. */
  lemma RoundUpPageWraps(x: nat)
    requires TWO32 - 0xFFF <= x < TWO32
    ensures RoundUpPage(x) == 0
  {
    assert (x + 0xFFF) % 0x1_0000_0000 == x + 0xFFF - TWO32;
  }

  /**
   * With the right magic and no overflow, the safe address is the least
   * page multiple at or above PREBOOT_DATA, the command line, and every
   * module's descriptor, contents and name.
   */
  lemma SafeHiAddrLeast(info: Info, mods: seq<Module>, mem: seq<byte>, b: nat)
    requires |mods| == info.modsCount
    requires RawBound(info, mods, mem) + 0xFFF < TWO32
    ensures SafeHiAddr(MULTIBOOT_INFO_MAGIC, info, mods, mem).Some?
    ensures var r := SafeHiAddr(MULTIBOOT_INFO_MAGIC, info, mods, mem).value;
            r % 0x1000 == 0 && Covers(r, info, mods, mem)
            && (Covers(b, info, mods, mem) && b % 0x1000 == 0 ==> r <= b)
  {
    var x := RawBound(info, mods, mem);
    RawBoundLeast(info, mods, mem, b);
    RoundUpPageLeast(x, b);
    CoversMono(x, RoundUpPage(x), info, mods, mem);
  }

  /** `determine_safe_hi_addr`: the running-maximum loop. */
  method DetermineSafeHiAddr(magic: int, info: Info, mods: seq<Module>, mem: seq<byte>) returns (r: Option<nat>)
    requires |mods| == info.modsCount
    ensures r == SafeHiAddr(magic, info, mods, mem)
  {
    var hi := PREBOOT_DATA;
    if magic != MULTIBOOT_INFO_MAGIC {
      return None;
    }
    if HasFlag(info.flags, HAS_CMDLINE) && info.cmdline != 0 {
      var end := StringEnd(mem, info.cmdline);
      if end > hi {
        hi := end;
      }
    }
    if HasFlag(info.flags, HAS_MODS) {
      var h0 := hi;
      var i := 0;
      while i < info.modsCount
        invariant 0 <= i <= |mods|
        invariant hi == ModsBound(h0, info.modsAddr, mods, mem, i)
      {
        ghost var prev := hi;
        var modinfoEnd := info.modsAddr + 16 * (i + 1);
        if modinfoEnd > hi {
          hi := modinfoEnd;
        }
        modinfoEnd := mods[i].modEnd;
        if modinfoEnd > hi {
          hi := modinfoEnd;
        }
        modinfoEnd := StringEnd(mem, mods[i].str);
        if modinfoEnd > hi {
          hi := modinfoEnd;
        }
        assert hi == ModuleBound(prev, info.modsAddr, i, mods[i], mem);
        i := i + 1;
      }
    }
    r := Some(RoundUpPage(hi));
  }

  // ---------------------------------------------------------------------
  // _hi_malloc / _hi_strdup

  /** `n` bytes of memory from `src` placed at `dst`. */
  function CopyOf(mem: seq<byte>, src: nat, dst: nat, n: nat): (m: map<nat, byte>)
    ensures forall a :: a in m <==> dst <= a < dst + n
  {
    map a: nat | dst <= a < dst + n :: Source(mem, src, dst, a)
  }

  /** The source byte copied to address `a`. */
  function Source(mem: seq<byte>, src: nat, dst: nat, a: nat): byte
    requires dst <= a
  {
    ByteAt(mem, src + (a - dst))
  }

  /** `high` holds, at `dst`, the `n` bytes of memory from `src`. */
  predicate HoldsCopy(high: map<nat, byte>, dst: nat, mem: seq<byte>, src: nat, n: nat)
  {
    forall a :: dst <= a < dst + n ==> a in high && high[a] == ByteAt(mem, src + (a - dst))
  }

  /** `high` holds, at `dst`, the string at `src` with its NUL. */
  predicate HoldsString(high: map<nat, byte>, dst: nat, mem: seq<byte>, src: nat)
  {
    HoldsCopy(high, dst, mem, src, StrLenAt(mem, src) + 1)
  }

  /** `h2` keeps every byte of `h1`. */
  predicate Extends(h1: map<nat, byte>, h2: map<nat, byte>)
  {
    forall a :: a in h1 ==> a in h2 && h2[a] == h1[a]
  }

  /** A held copy stays held when memory is only added to. */
  lemma HoldsCopyKept(h1: map<nat, byte>, h2: map<nat, byte>, dst: nat, mem: seq<byte>, src: nat, n: nat)
    requires HoldsCopy(h1, dst, mem, src, n) && Extends(h1, h2)
    ensures HoldsCopy(h2, dst, mem, src, n)
  {
  }

  /** A copy read back yields the original string: same bytes up to the same NUL. */
  lemma {:induction false} HeldStringReadsBack(high: map<nat, byte>, dst: nat, mem: seq<byte>, src: nat, k: nat)
    requires HoldsString(high, dst, mem, src) && k <= StrLenAt(mem, src)
    ensures high[dst + k] == 0 <==> k == StrLenAt(mem, src)
  {
    StrLenAtFacts(mem, src);
    assert high[dst + k] == ByteAt(mem, src + k);
  }

  /** The cursor `*hi_addr` and the bytes stored at and above the safe address. */
  class HiArena {
    var cursor: nat
    var high: map<nat, byte>

    /** Nothing is stored at or above the cursor. */
    ghost predicate Valid()
      reads this
    {
      forall a :: a in high ==> a < cursor
    }

    constructor (start: nat)
      ensures Valid() && cursor == start && high == map[]
    {
      cursor := start;
      high := map[];
    }

    /** `_hi_malloc`: hand out the cursor and advance it by `size`. */
    method Malloc(size: nat) returns (p: nat)
      requires Valid()
      modifies this
      ensures Valid()
      ensures p == old(cursor) && cursor == old(cursor) + size && high == old(high)
    {
      p := cursor;
      cursor := cursor + size;
    }

    /** `memcpy` into a block already handed out. */
    method Store(dst: nat, mem: seq<byte>, src: nat, n: nat)
      requires Valid() && dst + n <= cursor
      modifies this
      ensures Valid()
      ensures cursor == old(cursor) && high == old(high) + CopyOf(mem, src, dst, n)
    {
      high := high + CopyOf(mem, src, dst, n);
    }

    /** `_hi_strdup`: copy the string and its NUL to the cursor, advancing past them. */
    method StrDup(mem: seq<byte>, src: nat) returns (p: nat)
      requires Valid()
      modifies this
      ensures Valid()
      ensures p == old(cursor) && cursor == p + StrLenAt(mem, src) + 1
      ensures high == old(high) + CopyOf(mem, src, p, StrLenAt(mem, src) + 1)
    {
      StrLenAtFacts(mem, src);
      p := cursor;
      var i := 0;
      ghost var h0 := high;
      while ByteAt(mem, src + i) != 0
        invariant i <= StrLenAt(mem, src)
        invariant cursor == p + i
        invariant high == h0 + CopyOf(mem, src, p, i)
        invariant forall a :: a in high ==> a < cursor
        decreases |mem| - (src + i)
      {
        CopyOfStep(h0, mem, src, p, i);
        high := high[cursor := ByteAt(mem, src + i)];
        CopyBelow(h0, mem, src, p, i + 1);
        i := i + 1;
        cursor := cursor + 1;
      }
      CopyOfStep(h0, mem, src, p, i);
      high := high[cursor := 0];
      cursor := cursor + 1;
      CopyBelow(h0, mem, src, p, i + 1);
    }
  }

  /** A string copied to the cursor is held, and nothing stored before is disturbed. */
  lemma StringStored(h0: map<nat, byte>, mem: seq<byte>, src: nat, p: nat)
    requires forall a :: a in h0 ==> a < p
    ensures var h := h0 + CopyOf(mem, src, p, StrLenAt(mem, src) + 1);
            Extends(h0, h) && HoldsString(h, p, mem, src)
  {
    FreshExtends(h0, CopyOf(mem, src, p, StrLenAt(mem, src) + 1), p);
    StoredCopyHeld(h0, mem, src, p, StrLenAt(mem, src) + 1);
  }

  /** A copy placed at the cursor ends below the advanced cursor. */
  lemma CopyBelow(h0: map<nat, byte>, mem: seq<byte>, src: nat, dst: nat, n: nat)
    requires forall a :: a in h0 ==> a < dst
    ensures forall a :: a in h0 + CopyOf(mem, src, dst, n) ==> a < dst + n
  {
  }

  /** Storing one more byte extends a copy by one. */
  lemma CopyOfStep(h0: map<nat, byte>, mem: seq<byte>, src: nat, dst: nat, n: nat)
    ensures h0 + CopyOf(mem, src, dst, n + 1) == (h0 + CopyOf(mem, src, dst, n))[dst + n := ByteAt(mem, src + n)]
  {
    var l := h0 + CopyOf(mem, src, dst, n + 1);
    var r := (h0 + CopyOf(mem, src, dst, n))[dst + n := ByteAt(mem, src + n)];
    assert l.Keys == r.Keys;
    forall a | a in l.Keys
      ensures l[a] == r[a]
    {
    }
  }

  // ---------------------------------------------------------------------
  // copyMultibootInfo

  /** `mi_flags & (MEMORY | BOOT_DEVICE | CMDLINE | LOADER_NAME | MODS)`. */
  function KeepFlags(f: bv32): (r: bv32)
    ensures HasFlag(r, HAS_MEMORY) == HasFlag(f, HAS_MEMORY)
    ensures HasFlag(r, HAS_BOOT_DEVICE) == HasFlag(f, HAS_BOOT_DEVICE)
    ensures HasFlag(r, HAS_CMDLINE) == HasFlag(f, HAS_CMDLINE)
    ensures HasFlag(r, HAS_MODS) == HasFlag(f, HAS_MODS)
    ensures HasFlag(r, HAS_LOADER_NAME) == HasFlag(f, HAS_LOADER_NAME)
    ensures r & !0x20F == 0
  {
    f & (HAS_MEMORY | HAS_BOOT_DEVICE | HAS_CMDLINE | HAS_LOADER_NAME | HAS_MODS)
  }

  /** `mm_mod_end - mm_mod_start` as a 32-bit unsigned value. */
  function ModLength(m: Module): (n: nat)
    ensures n < TWO32
    ensures m.modStart <= m.modEnd < m.modStart + TWO32 ==> n == m.modEnd - m.modStart
  {
    (m.modEnd - m.modStart) % 0x1_0000_0000
  }

  /** Module `d` in high memory is a deep copy of module `s`: same length, contents, name and reserved word. */
  predicate ModuleCopied(high: map<nat, byte>, d: Module, s: Module, mem: seq<byte>)
  {
    ModLength(d) == ModLength(s) && d.modEnd == d.modStart + ModLength(s) && d.reserved == s.reserved
    && HoldsCopy(high, d.modStart, mem, s.modStart, ModLength(s))
    && HoldsString(high, d.str, mem, s.str)
  }

  /** A deep copy stays intact when memory is only added to. */
  lemma ModuleCopiedKept(h1: map<nat, byte>, h2: map<nat, byte>, d: Module, s: Module, mem: seq<byte>)
    requires ModuleCopied(h1, d, s, mem) && Extends(h1, h2)
    ensures ModuleCopied(h2, d, s, mem)
  {
    HoldsCopyKept(h1, h2, d.modStart, mem, s.modStart, ModLength(s));
    HoldsCopyKept(h1, h2, d.str, mem, s.str, StrLenAt(mem, s.str) + 1);
  }

  /** What was just stored is held. */
  lemma StoredCopyHeld(h: map<nat, byte>, mem: seq<byte>, src: nat, dst: nat, n: nat)
    ensures HoldsCopy(h + CopyOf(mem, src, dst, n), dst, mem, src, n)
  {
  }

  lemma ExtendsTrans(h0: map<nat, byte>, h1: map<nat, byte>, h2: map<nat, byte>)
    requires Extends(h0, h1) && Extends(h1, h2)
    ensures Extends(h0, h2)
  {
  }

  /** Adding bytes at and above every stored address keeps what was stored. */
  lemma FreshExtends(h: map<nat, byte>, c: map<nat, byte>, cursor: nat)
    requires forall a :: a in h ==> a < cursor
    requires forall a :: a in c ==> cursor <= a
    ensures Extends(h, h + c)
  {
  }

  /** The body of the module loop: descriptor fields, contents, then name. */
  method CopyModule(arena: HiArena, mem: seq<byte>, s: Module) returns (d: Module)
    requires arena.Valid()
    modifies arena
    ensures arena.Valid() && old(arena.cursor) <= arena.cursor
    ensures Extends(old(arena.high), arena.high)
    ensures ModuleCopied(arena.high, d, s, mem)
  {
    ghost var h0 := arena.high;
    var length := ModLength(s);
    var start := arena.Malloc(length);
    arena.Store(start, mem, s.modStart, length);
    ghost var h1 := arena.high;
    FreshExtends(h0, CopyOf(mem, s.modStart, start, length), start);
    StoredCopyHeld(h0, mem, s.modStart, start, length);
    var name := DupString(arena, mem, s.str);
    HoldsCopyKept(h1, arena.high, start, mem, s.modStart, length);
    ExtendsTrans(h0, h1, arena.high);
    d := Module(start, start + length, name, s.reserved);
  }

  /** A string copy, when there is one, stays held when memory is only added to. */
  lemma KeptString(h1: map<nat, byte>, h2: map<nat, byte>, present: bool, dst: nat, mem: seq<byte>, src: nat)
    requires Extends(h1, h2)
    requires present ==> HoldsString(h1, dst, mem, src)
    ensures present ==> HoldsString(h2, dst, mem, src)
  {
    if present {
      HoldsCopyKept(h1, h2, dst, mem, src, StrLenAt(mem, src) + 1);
    }
  }

  /** `hi_strdup(src)` as `copyMultibootInfo` relies on it: the copy is held and earlier copies are kept. */
  method DupString(arena: HiArena, mem: seq<byte>, src: nat) returns (p: nat)
    requires arena.Valid()
    modifies arena
    ensures arena.Valid() && old(arena.cursor) <= arena.cursor
    ensures Extends(old(arena.high), arena.high) && HoldsString(arena.high, p, mem, src)
  {
    ghost var h0 := arena.high;
    p := arena.StrDup(mem, src);
    StringStored(h0, mem, src, p);
  }

  /** The module loop of `copyMultibootInfo`. */
  method CopyModules(arena: HiArena, mem: seq<byte>, mods: seq<Module>) returns (table: seq<Module>)
    requires arena.Valid()
    modifies arena
    ensures arena.Valid() && Extends(old(arena.high), arena.high)
    ensures |table| == |mods| && forall j :: 0 <= j < |mods| ==> ModuleCopied(arena.high, table[j], mods[j], mem)
  {
    ghost var h0 := arena.high;
    table := [];
    var i := 0;
    while i < |mods|
      invariant 0 <= i <= |mods| && |table| == i
      invariant arena.Valid() && Extends(h0, arena.high)
      invariant forall j :: 0 <= j < i ==> ModuleCopied(arena.high, table[j], mods[j], mem)
    {
      ghost var hb := arena.high;
      var d := CopyModule(arena, mem, mods[i]);
      forall j | 0 <= j < i
        ensures ModuleCopied(arena.high, table[j], mods[j], mem)
      {
        ModuleCopiedKept(hb, arena.high, table[j], mods[j], mem);
      }
      ExtendsTrans(h0, hb, arena.high);
      table := table + [d];
      i := i + 1;
    }
  }

  /** The command line and loader name of `copyMultibootInfo`, each duplicated when its flag is set. */
  method CopyStrings(arena: HiArena, info: Info, mem: seq<byte>) returns (copy: Info)
    requires arena.Valid()
    modifies arena
    ensures arena.Valid() && Extends(old(arena.high), arena.high)
    ensures copy == info.(cmdline := copy.cmdline, loaderName := copy.loaderName)
    ensures HasFlag(info.flags, HAS_CMDLINE) ==> HoldsString(arena.high, copy.cmdline, mem, info.cmdline)
    ensures HasFlag(info.flags, HAS_LOADER_NAME) ==> HoldsString(arena.high, copy.loaderName, mem, info.loaderName)
  {
    ghost var h0 := arena.high;
    copy := info;
    if HasFlag(info.flags, HAS_CMDLINE) {
      var p := DupString(arena, mem, info.cmdline);
      copy := copy.(cmdline := p);
    }
    ghost var hc := arena.high;
    if HasFlag(info.flags, HAS_LOADER_NAME) {
      var p := DupString(arena, mem, info.loaderName);
      copy := copy.(loaderName := p);
    }
    KeptString(hc, arena.high, HasFlag(info.flags, HAS_CMDLINE), copy.cmdline, mem, info.cmdline);
    ExtendsTrans(h0, hc, arena.high);
  }

  /** The copied information: where it sits, its fields, and its module table. */
  datatype Copy = Copy(at: nat, info: Info, mods: seq<Module>)

  /**
   * `copyMultibootInfo`: None stands for NULL. The copy sits at the safe
   * address, keeps only the five flags the boot loader deep-copies, and
   * holds its own copies of the command line, the loader name and every
   * module (contents and name).
   */
  method CopyMultibootInfo(magic: int, info: Info, mods: seq<Module>, mem: seq<byte>)
      returns (r: Option<Copy>, high: map<nat, byte>)
    requires |mods| == info.modsCount
    ensures r.None? <==> SafeHiAddr(magic, info, mods, mem) in {None, Some(0)}
    ensures r.Some? ==> r.value.at == SafeHiAddr(magic, info, mods, mem).value
    ensures r.Some? ==> var c := r.value.info;
              c.flags == KeepFlags(info.flags) && c.memLower == info.memLower && c.memUpper == info.memUpper
              && c.bootDrive == info.bootDrive && c.modsCount == info.modsCount && c.rest == info.rest
    ensures r.Some? && HasFlag(info.flags, HAS_CMDLINE) ==> HoldsString(high, r.value.info.cmdline, mem, info.cmdline)
    ensures r.Some? && HasFlag(info.flags, HAS_LOADER_NAME) ==> HoldsString(high, r.value.info.loaderName, mem, info.loaderName)
    ensures r.Some? && HasFlag(info.flags, HAS_MODS) ==>
              |r.value.mods| == |mods| && forall i :: 0 <= i < |mods| ==> ModuleCopied(high, r.value.mods[i], mods[i], mem)
  {
    var hiAddr := DetermineSafeHiAddr(magic, info, mods, mem);
    if hiAddr.None? || hiAddr.value == 0 {
      return None, map[];
    }
    var arena := new HiArena(hiAddr.value);
    var at := arena.Malloc(INFO_SIZE);
    var copy := CopyStrings(arena, info, mem);
    var table := mods;
    ghost var hn := arena.high;
    if HasFlag(info.flags, HAS_MODS) {
      var dst := arena.Malloc(16 * info.modsCount);
      copy := copy.(modsAddr := dst);
      table := CopyModules(arena, mem, mods);
    }
    KeptString(hn, arena.high, HasFlag(info.flags, HAS_CMDLINE), copy.cmdline, mem, info.cmdline);
    KeptString(hn, arena.high, HasFlag(info.flags, HAS_LOADER_NAME), copy.loaderName, mem, info.loaderName);
    copy := copy.(flags := KeepFlags(info.flags));
    r := Some(Copy(at, copy, table));
    high := arena.high;
  }

  // ---------------------------------------------------------------------
  // multiboot(): boot device and command-line arguments

  /** What one `key=` argument contributes. */
  datatype Arg = Absent | Rejected | Accepted(value: int)

  /** `*endptr == '\0' || *endptr == ' ' || *endptr == '\t'` */
  predicate Separator(c: char)
  {
    c == '\0' || c == ' ' || c == '\t'
  }

  /**
   * The test applied to a found value as written: the value is not empty
   * and `strtol` stops at NUL, space or tab. A value that is empty but
   * followed by white space passes with no digits read.
   */
  function ParseValueAsWritten(v: Value, base: nat): (r: Arg)
    requires base == 0 || base == 16
    ensures r != Absent
  {
    var p := StrToL(v.rest, 0, base);
    if At(v.rest, 0) != '\0' && Separator(At(v.rest, p.end)) then Accepted(p.value) else Rejected
  }

  /** The test as intended: as written, and at least one digit was read. */
  function ParseValue(v: Value, base: nat): (r: Arg)
    requires base == 0 || base == 16
    ensures r != Absent
    ensures r.Accepted? ==> -(LONG_MIN_MAGNITUDE as int) <= r.value <= LONG_MAX
  {
    var p := StrToL(v.rest, 0, base);
    if At(v.rest, 0) != '\0' && ScanNumber(v.rest, 0, base).count > 0 && Separator(At(v.rest, p.end))
    then Accepted(p.value) else Rejected
  }

  /** A value that is only white space is accepted as 0 by the test as written. */
  lemma BlankValueAcceptedAsWritten()
    ensures ParseValueAsWritten(Value("", " "), 16) == Accepted(0)
  {
    assert SkipWhite(" ", 0) == 1;
  }

  /** The intended test never accepts a value without digits. */
  lemma {:induction false} BlankValueRejected(v: Value, base: nat)
    requires base == 0 || base == 16
    requires forall k :: 0 <= k < |v.rest| ==> IsSpace(v.rest[k])
    ensures ParseValue(v, base) == Rejected
  {
    var j := SkipWhite(v.rest, 0);
    assert At(v.rest, j) == '\0';
  }

  /** Up to seven hexadecimal digits ending at a separator are accepted with their value. */
  lemma HexValueAccepted(v: Value, n: nat)
    requires 0 < n <= 7 && n <= |v.rest|
    requires forall k :: 0 <= k < n ==> IsHexDigit(v.rest[k])
    requires Separator(At(v.rest, n))
    ensures ParseValue(v, 16) == Accepted(HexValue(v.rest[..n]))
  {
    HexPrefix(v.rest, n);
    assert IsHexDigit(v.rest[0]);
  }

  /** `strtol` in base 16 reads exactly the leading hex digits. */
  lemma HexPrefix(s: string, n: nat)
    requires 0 < n <= 7 && n <= |s|
    requires forall k :: 0 <= k < n ==> IsHexDigit(s[k])
    requires Separator(At(s, n))
    ensures StrToL(s, 0, 16) == Parsed(HexValue(s[..n]), n)
    ensures ScanNumber(s, 0, 16).count == n
  {
    StrToLHex(s, 0, n);
    ScanHex(s, 0, n);
    assert s[0..0 + n] == s[..n];
  }

  /** Decimal digits not starting with 0 are read in base 10 when the base is 0. */
  lemma Base0Decimal(s: string)
    requires 0 < |s| && '1' <= s[0] <= '9'
    ensures ScanNumber(s, 0, 0) == ScanNumber(s, 0, 10)
    ensures StrToL(s, 0, 0) == StrToL(s, 0, 10)
  {
    assert SkipWhite(s, 0) == 0;
  }

  /** A decimal number without leading zero ending at a separator is accepted with its value. */
  lemma DecimalValueAccepted(v: Value, n: nat)
    requires 0 < n <= |v.rest| && '1' <= v.rest[0] <= '9'
    requires forall k :: 0 <= k < n ==> IsDigit(v.rest[k])
    requires Separator(At(v.rest, n))
    requires DecValue(v.rest[..n]) <= LONG_MAX
    ensures ParseValue(v, 0) == Accepted(DecValue(v.rest[..n]))
  {
    Base0Decimal(v.rest);
    StrToLDecimal(v.rest, n);
    assert RunIn(v.rest, 0, 10) == n by { RunInExact(v.rest, 0, n, 10); }
  }

  /** A key looked up on the command line: a C string. */
  type Key = k: string | NoNul(k) witness ""

  const BIOSDEV_KEY: Key := "biosdev"
  const TIMEOUT_KEY: Key := "timeout"
  const PARTNO_KEY: Key := "partno"

  /** `getValueForBootKey(cmdline, key)` followed by the test. */
  function ParseArg(line: string, key: Key, base: nat): (r: Arg)
    requires base == 0 || base == 16
    ensures r == Absent <==> GetValueForBootKey(line, key).None?
  {
    match GetValueForBootKey(line, key)
    case None => Absent
    case Some(v) => ParseValue(v, base)
  }

  /** The globals `multiboot_timeout(_set)` and `multiboot_partition(_set)`. */
  datatype Settings = Settings(timeout: int, timeoutSet: bool, partition: int, partitionSet: bool)

  /** The boot device handed back (as a 32-bit value) and the globals afterwards. */
  datatype Outcome = Outcome(device: nat, settings: Settings)

  /** An `int` returned as `uint32_t`. */
  function ToU32(x: int): (r: nat)
    ensures r < TWO32
    ensures 0 <= x < TWO32 ==> r == x
  {
    x % 0x1_0000_0000
  }

  /** The `int` value of `BAD_BOOT_DEVICE`. */
  const BAD_DEVICE_INT: int := -1

  /** The device before `selectAlternateBootDevice`, and whether it is called. */
  datatype Choice = Choice(device: int, select: bool)

  /** The boot device from the information and the `biosdev=` argument. */
  function ChooseDevice(info: Info, line: string): (c: Choice)
  {
    var c0 := if HasFlag(info.flags, HAS_BOOT_DEVICE) then Choice(info.bootDrive, false) else Choice(BAD_DEVICE_INT, true);
    if !HasFlag(info.flags, HAS_CMDLINE) then c0
    else match ParseArg(line, BIOSDEV_KEY, 16)
      case Absent => c0
      case Rejected => c0.(select := true)
      case Accepted(x) => Choice(x, false)
  }

  /** `timeout=` and `partno=` applied to the globals. */
  function ApplySettings(info: Info, line: string, s: Settings): (r: Settings)
  {
    if !HasFlag(info.flags, HAS_CMDLINE) then s
    else
      var t := ParseArg(line, TIMEOUT_KEY, 0);
      var p := ParseArg(line, PARTNO_KEY, 0);
      Settings(if t.Accepted? then t.value else s.timeout, s.timeoutSet || t.Accepted?,
               if p.Accepted? then p.value else s.partition, s.partitionSet || p.Accepted?)
  }

  /** `multiboot()`; `select` is `selectAlternateBootDevice`. */
  function MultibootOutcome(magic: int, info: Info, mem: seq<byte>, select: int -> int, s: Settings): (r: Outcome)
    ensures magic != MULTIBOOT_INFO_MAGIC ==> r == Outcome(BAD_BOOT_DEVICE, s)
    ensures !HasFlag(info.flags, HAS_CMDLINE) ==> r.settings == s
    ensures r.device < TWO32
  {
    if magic != MULTIBOOT_INFO_MAGIC then Outcome(BAD_BOOT_DEVICE, s)
    else
      var line := TextAt(mem, info.cmdline);
      var c := ChooseDevice(info, line);
      Outcome(ToU32(if c.select then select(c.device) else c.device), ApplySettings(info, line, s))
  }

  /** The reported drive is used as is when there is no accepted `biosdev=` to override it. */
  lemma ReportedDriveKept(info: Info, mem: seq<byte>, select: int -> int, s: Settings)
    requires HasFlag(info.flags, HAS_BOOT_DEVICE)
    requires !HasFlag(info.flags, HAS_CMDLINE) || ParseArg(TextAt(mem, info.cmdline), BIOSDEV_KEY, 16) == Absent
    ensures MultibootOutcome(MULTIBOOT_INFO_MAGIC, info, mem, select, s).device == info.bootDrive
  {
  }

  /** A `biosdev=` of one to seven hex digits ending at a separator overrides the device, with no selection. */
  lemma BiosdevOverrides(info: Info, mem: seq<byte>, select: int -> int, s: Settings, v: Value, n: nat)
    requires HasFlag(info.flags, HAS_CMDLINE)
    requires GetValueForBootKey(TextAt(mem, info.cmdline), BIOSDEV_KEY) == Some(v)
    requires 0 < n <= 7 && n <= |v.rest|
    requires forall k :: 0 <= k < n ==> IsHexDigit(v.rest[k])
    requires Separator(At(v.rest, n))
    ensures MultibootOutcome(MULTIBOOT_INFO_MAGIC, info, mem, select, s).device == HexValue(v.rest[..n])
  {
    HexValueAccepted(v, n);
    HexBound(v.rest, 0, n);
    MagnitudeHex(v.rest, 0, n);
  }

  /** A `biosdev=` that is present but not accepted leaves the choice to `selectAlternateBootDevice`. */
  lemma RejectedBiosdevSelects(info: Info, mem: seq<byte>, select: int -> int, s: Settings)
    requires HasFlag(info.flags, HAS_CMDLINE)
    requires ParseArg(TextAt(mem, info.cmdline), BIOSDEV_KEY, 16) == Rejected
    ensures var d := if HasFlag(info.flags, HAS_BOOT_DEVICE) then info.bootDrive as int else BAD_DEVICE_INT;
            MultibootOutcome(MULTIBOOT_INFO_MAGIC, info, mem, select, s).device == ToU32(select(d))
  {
  }

  /** `timeout=` with a plain decimal number sets the timeout and its flag. */
  lemma TimeoutDecimal(info: Info, mem: seq<byte>, select: int -> int, s: Settings, v: Value, n: nat)
    requires HasFlag(info.flags, HAS_CMDLINE)
    requires GetValueForBootKey(TextAt(mem, info.cmdline), TIMEOUT_KEY) == Some(v)
    requires 0 < n <= |v.rest| && '1' <= v.rest[0] <= '9'
    requires forall k :: 0 <= k < n ==> IsDigit(v.rest[k])
    requires Separator(At(v.rest, n)) && DecValue(v.rest[..n]) <= LONG_MAX
    ensures var r := MultibootOutcome(MULTIBOOT_INFO_MAGIC, info, mem, select, s).settings;
            r.timeout == DecValue(v.rest[..n]) && r.timeoutSet
  {
    DecimalValueAccepted(v, n);
  }

  /** A setting changes only through an accepted argument; otherwise its value and flag are kept. */
  lemma SettingsNeedAcceptance(magic: int, info: Info, mem: seq<byte>, select: int -> int, s: Settings)
    ensures var r := MultibootOutcome(magic, info, mem, select, s).settings;
            var line := TextAt(mem, info.cmdline);
            ((r.timeout, r.timeoutSet) != (s.timeout, s.timeoutSet) ==>
               magic == MULTIBOOT_INFO_MAGIC && HasFlag(info.flags, HAS_CMDLINE) && ParseArg(line, TIMEOUT_KEY, 0).Accepted?)
            && ((r.partition, r.partitionSet) != (s.partition, s.partitionSet) ==>
               magic == MULTIBOOT_INFO_MAGIC && HasFlag(info.flags, HAS_CMDLINE) && ParseArg(line, PARTNO_KEY, 0).Accepted?)
  {
  }

  /** The globals of mboot.c that `multiboot()` sets. */
  class BootGlobals {
    var timeout: int
    var timeoutSet: bool
    var partition: int
    var partitionSet: bool

    function State(): Settings
      reads this
    {
      Settings(timeout, timeoutSet, partition, partitionSet)
    }

    constructor ()
      ensures State() == Settings(0, false, 0, false)
    {
      timeout := 0;
      timeoutSet := false;
      partition := 0;
      partitionSet := false;
    }

    /** `multiboot()`: the boot device to hand back; the globals are updated from the command line. */
    method Multiboot(magic: int, info: Info, mem: seq<byte>, select: int -> int) returns (device: nat)
      modifies this
      ensures Outcome(device, State()) == MultibootOutcome(magic, info, mem, select, old(State()))
    {
      if magic != MULTIBOOT_INFO_MAGIC {
        return BAD_BOOT_DEVICE;
      }
      var line := TextAt(mem, info.cmdline);
      var bootdevice, doSelectDevice := ChooseBootDevice(info, line);
      ApplyArguments(info, line);
      if doSelectDevice {
        bootdevice := select(bootdevice);
      }
      device := ToU32(bootdevice);
    }

    /** The `timeout=` and `partno=` part of `multiboot()`. */
    method ApplyArguments(info: Info, line: string)
      modifies this
      ensures State() == ApplySettings(info, line, old(State()))
    {
      if HasFlag(info.flags, HAS_CMDLINE) {
        var t := ParseArg(line, TIMEOUT_KEY, 0);
        if t.Accepted? {
          timeout := t.value;
          timeoutSet := true;
        }
        var p := ParseArg(line, PARTNO_KEY, 0);
        if p.Accepted? {
          partition := p.value;
          partitionSet := true;
        }
      }
    }
  }

  /** The boot-device part of `multiboot()`: the device, and whether to ask for another. */
  method ChooseBootDevice(info: Info, line: string) returns (bootdevice: int, doSelectDevice: bool)
    ensures Choice(bootdevice, doSelectDevice) == ChooseDevice(info, line)
  {
    bootdevice := info.bootDrive;
    doSelectDevice := false;
    if !HasFlag(info.flags, HAS_BOOT_DEVICE) {
      doSelectDevice := true;
      bootdevice := BAD_DEVICE_INT;
    }
    if HasFlag(info.flags, HAS_CMDLINE) {
      var b := ParseArg(line, BIOSDEV_KEY, 16);
      if b.Accepted? {
        bootdevice := b.value;
        doSelectDevice := false;
      } else if b.Rejected? {
        doSelectDevice := true;
      }
    }
  }

  // ---------------------------------------------------------------------
  // Ramdisk hooks

  /** The `n` bytes of memory from `a`. */
  function ReadMem(mem: seq<byte>, a: nat, n: nat): (r: seq<byte>)
    ensures |r| == n && forall k :: 0 <= k < n ==> r[k] == ByteAt(mem, a + k)
  {
    if n == 0 then [] else ReadMem(mem, a, n - 1) + [ByteAt(mem, a + n - 1)]
  }

  /** The module serving BIOS device `biosdev`: units 0x100 .. 0x100 + count - 1. */
  function RamdiskModule(info: Info, mods: seq<Module>, biosdev: int): (r: Option<Module>)
    requires |mods| == info.modsCount
    ensures r.Some? <==> 0x100 <= biosdev < 0x100 + |mods|
    ensures r.Some? ==> r.value == mods[biosdev - 0x100]
  {
    if biosdev < 0x100 then None
    else if biosdev >= 0x100 + info.modsCount then None
    else Some(mods[biosdev - 0x100])
  }

  /** The drive description a ramdisk unit reports. */
  datatype DriveInfo = DriveInfo(biosdev: int, usesEbios: bool, physSectors: nat, valid: bool)

  /** `(mm_mod_end - mm_mod_start + 511) / 512` in 32-bit unsigned arithmetic. */
  function RamdiskSectors(m: Module): nat
  {
    ((m.modEnd - m.modStart + 511) % 0x1_0000_0000) / 512
  }

  /** `multiboot_get_ramdisk_info`: None stands for -1. */
  function RamdiskInfo(info: Info, mods: seq<Module>, biosdev: int): (r: Option<DriveInfo>)
    requires |mods| == info.modsCount
    ensures r.Some? <==> RamdiskModule(info, mods, biosdev).Some?
    ensures r.Some? ==> r.value.biosdev == biosdev && r.value.valid
  {
    match RamdiskModule(info, mods, biosdev)
    case None => None
    case Some(m) => Some(DriveInfo(biosdev, true, RamdiskSectors(m), true))
  }

  /** The reported sector count is the module length in 512-byte sectors, rounded up. */
  lemma RamdiskSectorsCeil(m: Module)
    requires m.modStart <= m.modEnd && m.modEnd - m.modStart + 511 < TWO32
    ensures var n := RamdiskSectors(m); var len := m.modEnd - m.modStart;
            len <= n * 512 < len + 512
  {
  }

  /** Address of byte `byteoff` of block `blkno`, as the 32-bit pointer sum. */
  function RamdiskAddress(m: Module, blkno: nat, byteoff: nat): nat
  {
    (m.modStart + (blkno * 512) % 0x1_0000_0000 + byteoff) % 0x1_0000_0000
  }

  /** `multibootRamdiskReadBytes`: None stands for -1; otherwise the bytes copied into the buffer. */
  function RamdiskReadBytes(info: Info, mods: seq<Module>, mem: seq<byte>, biosdev: int,
                            blkno: nat, byteoff: nat, count: nat): (r: Option<seq<byte>>)
    requires |mods| == info.modsCount
    ensures r.Some? <==> RamdiskModule(info, mods, biosdev).Some?
    ensures r.Some? ==> |r.value| == count
  {
    match RamdiskModule(info, mods, biosdev)
    case None => None
    case Some(m) =>
      var a := RamdiskAddress(m, blkno, byteoff);
      Some(ReadMem(mem, a, count))
  }

  /** Without 32-bit overflow, a read returns the module bytes from `start + blkno*512 + byteoff`. */
  lemma RamdiskReadsModule(info: Info, mods: seq<Module>, mem: seq<byte>, biosdev: int,
                           blkno: nat, byteoff: nat, count: nat)
    requires |mods| == info.modsCount && 0x100 <= biosdev < 0x100 + |mods|
    requires mods[biosdev - 0x100].modStart + blkno * 512 + byteoff < TWO32
    ensures var r := RamdiskReadBytes(info, mods, mem, biosdev, blkno, byteoff, count);
            var a := mods[biosdev - 0x100].modStart + blkno * 512 + byteoff;
            r.Some? && forall k :: 0 <= k < count ==> r.value[k] == ByteAt(mem, a + k)
  {
    var m := mods[biosdev - 0x100];
    assert (blkno * 512) % 0x1_0000_0000 == blkno * 512;
    assert RamdiskAddress(m, blkno, byteoff) == m.modStart + blkno * 512 + byteoff;
  }

  // ---------------------------------------------------------------------
  // chainLoad

  /** What `chainLoad` does with the sector loaded at 0x7C00. */
  datatype ChainAction = Jump | BadMagic(b1: byte, b2: byte)

  /** `chainLoad`: jump to the chain booter only when the sector ends in 0x55 0xAA. */
  function ChainLoad(bootcode: seq<byte>): (r: ChainAction)
    ensures r.Jump? <==> 0x200 <= |bootcode| && bootcode[0x1FE] == 0x55 && bootcode[0x1FF] == 0xAA
  {
    if ByteAt(bootcode, 0x1FE) == 0x55 && ByteAt(bootcode, 0x1FF) == 0xAA then Jump
    else BadMagic(ByteAt(bootcode, 0x1FE), ByteAt(bootcode, 0x1FF))
  }

  /** The check is the usual boot-sector signature: the little-endian word at 0x1FE is 0xAA55. */
  lemma ChainLoadSignature(bootcode: seq<byte>)
    requires 0x200 <= |bootcode|
    ensures ChainLoad(bootcode).Jump? <==> LE16(bootcode, 0x1FE) == 0xAA55
  {
    var w := LE16(bootcode, 0x1FE);
    if w == 0xAA55 {
      assert w % 256 == 0x55 && w / 256 == 0xAA;
    }
  }
}
