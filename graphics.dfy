/**
 * The graphics helpers of the second-stage boot loader: run-length decoding
 * of the boot images, the colour look-up that turns an 8-bit CLUT index into
 * a 16- or 32-bit pixel, the 6-bit palette handed to the VGA DAC, the choice
 * of a VESA mode among those the controller reports, and the parsing of the
 * "Graphics Mode" setting ("1280x1024x32@60") into a mode request.
 *
 * The VBE BIOS calls are parameters: `getVBEInfo` is an `Option<VbeInfo>`
 * and `getVBEModeInfo` a function from mode numbers to an optional answer.
 * The colour table `appleClut8` is a parameter of 768 bytes.
 */
module Graphics {
  import opened Wrappers
  import opened Bytes
  import opened CLib

  // ---------------------------------------------------------------------
  // decodeRLE

  /** One block of a run-length encoded image: `count` copies of `value`. */
  datatype RLEBlock = RLEBlock(count: byte, value: byte)

  /** Number of bytes the blocks expand to. */
  function Total(blocks: seq<RLEBlock>): nat
  {
    if blocks == [] then 0 else Total(blocks[..|blocks| - 1]) + blocks[|blocks| - 1].count
  }

  /** `count` copies of `value`. */
  function Run(value: byte, count: nat): (r: seq<byte>)
    ensures |r| == count && forall k :: 0 <= k < count ==> r[k] == value
  {
    if count == 0 then [] else Run(value, count - 1) + [value]
  }

  /** The decoded image: the runs of the blocks, one after the other. */
  function Expand(blocks: seq<RLEBlock>): (r: seq<byte>)
    ensures |r| == Total(blocks)
  {
    if blocks == [] then []
    else Expand(blocks[..|blocks| - 1]) + Run(blocks[|blocks| - 1].value, blocks[|blocks| - 1].count)
  }

  /** A prefix of the blocks expands to no more bytes than all of them. */
  lemma {:induction false} TotalPrefix(blocks: seq<RLEBlock>, j: nat)
    requires j <= |blocks|
    ensures Total(blocks[..j]) <= Total(blocks)
    decreases |blocks|
  {
    if j < |blocks| {
      var init := blocks[..|blocks| - 1];
      assert init[..j] == blocks[..j];
      TotalPrefix(init, j);
    } else {
      assert blocks[..j] == blocks;
    }
  }

  /** Block `j` occupies `count` bytes of the image from the total of the blocks before it, all equal to its value. */
  lemma {:induction false} ExpandBlock(blocks: seq<RLEBlock>, j: nat, k: nat)
    requires j < |blocks| && k < blocks[j].count
    ensures Total(blocks[..j]) + k < |Expand(blocks)|
    ensures Expand(blocks)[Total(blocks[..j]) + k] == blocks[j].value
    decreases |blocks|
  {
    var init := blocks[..|blocks| - 1];
    if j == |blocks| - 1 {
      assert blocks[..j] == init;
    } else {
      assert init[..j] == blocks[..j];
      ExpandBlock(init, j, k);
    }
  }

  /**
   * `decodeRLE`: a buffer of `outBytes` bytes whose first bytes hold, block
   * by block, `count` copies of each block's value. The source writes past
   * the buffer when the blocks expand to more than `outBytes`.
   */
  method DecodeRLE(blocks: seq<RLEBlock>, outBytes: nat) returns (out: array<byte>)
    requires Total(blocks) <= outBytes
    ensures fresh(out) && out.Length == outBytes
    ensures out[..Total(blocks)] == Expand(blocks)
  {
    out := new byte[outBytes];
    var cp := 0;
    var j := 0;
    while j < |blocks|
      invariant 0 <= j <= |blocks|
      invariant cp == Total(blocks[..j]) <= outBytes
      invariant out[..cp] == Expand(blocks[..j])
    {
      var b := blocks[j];
      assert blocks[..j + 1][..j] == blocks[..j];
      TotalPrefix(blocks, j + 1);
      var k := 0;
      while k < b.count
        invariant 0 <= k <= b.count
        invariant out[..cp + k] == Expand(blocks[..j]) + Run(b.value, k)
      {
        out[cp + k] := b.value;
        assert out[..cp + k + 1] == out[..cp + k] + [b.value];
        k := k + 1;
      }
      cp := cp + b.count;
      j := j + 1;
    }
    assert blocks[..j] == blocks;
  }

  // ---------------------------------------------------------------------
  // lookUpCLUTIndex and setupPalette

  /** The top 5 bits of each component packed as a 1:5:5:5 pixel with the top bit clear. */
  function Pack555(red: bv8, green: bv8, blue: bv8): bv16
  {
    ((red as bv16 & 0xF8) << 7) | ((green as bv16 & 0xF8) << 2) | ((blue as bv16 & 0xF8) >> 3)
  }

  /** The fields of `Pack555`: five bits per component, from the top, and a clear top bit. */
  lemma Pack555Fields(red: bv8, green: bv8, blue: bv8)
    ensures var c := Pack555(red, green, blue);
      && c & 0x8000 == 0
      && (c >> 10) & 0x1F == (red >> 3) as bv16 && (c >> 5) & 0x1F == (green >> 3) as bv16
      && c & 0x1F == (blue >> 3) as bv16
  {
  }

  /** A 16-bit value repeated in both halves of a 32-bit word. */
  function BothHalves(c: bv16): bv32
  {
    (c as bv32) | ((c as bv32) << 16)
  }

  /** Both halves of `BothHalves(c)` are `c`. */
  lemma BothHalvesFields(c: bv16)
    ensures BothHalves(c) >> 16 == c as bv32 && BothHalves(c) & 0xFFFF == c as bv32
  {
  }

  /** An 8:8:8 pixel with a zero top byte. */
  function Pixel32(red: bv8, green: bv8, blue: bv8): (r: bv32)
    ensures r >> 16 == red as bv32 && (r >> 8) & 0xFF == green as bv32 && r & 0xFF == blue as bv32
  {
    (red as bv32 << 16) | (green as bv32 << 8) | blue as bv32
  }

  /** An 8-bit value repeated in both bytes of a 16-bit half. */
  function BothBytes(index: bv8): (c: bv16)
    ensures c >> 8 == index as bv16 && c & 0xFF == index as bv16
  {
    (index as bv16) | ((index as bv16) << 8)
  }

  /**
   * `lookUpCLUTIndex`: the pixel value of CLUT entry `index` at `depth`
   * bits per pixel. At 16 bits the 5:5:5 pixel is repeated in both halves,
   * at 32 bits it is the 8:8:8 colour, and at any other depth the index
   * itself is repeated in all four bytes (the lemmas below state the fields
   * of each form).
   */
  function LookUpCLUTIndex(clut: seq<bv8>, index: bv8, depth: bv8): (r: bv32)
    requires |clut| == 768
  {
    var red := clut[3 * index as int];
    var green := clut[3 * index as int + 1];
    var blue := clut[3 * index as int + 2];
    if depth == 16 then BothHalves(Pack555(red, green, blue))
    else if depth == 32 then Pixel32(red, green, blue)
    else BothHalves(BothBytes(index))
  }

  /**
   * At 16 bits: the 5:5:5 colour of the entry in both halves (`Pack555Fields`
   * and `BothHalvesFields` state the bits of each).
   */
  lemma LookUpCLUT16(clut: seq<bv8>, index: bv8)
    requires |clut| == 768
    ensures var i := 3 * index as int;
      LookUpCLUTIndex(clut, index, 16) == BothHalves(Pack555(clut[i], clut[i + 1], clut[i + 2]))
  {
  }

  /** At 32 bits: the 8:8:8 colour with a zero top byte. */
  lemma LookUpCLUT32(clut: seq<bv8>, index: bv8)
    requires |clut| == 768
    ensures var r := LookUpCLUTIndex(clut, index, 32);
      var i := 3 * index as int;
      && r >> 16 == clut[i] as bv32 && (r >> 8) & 0xFF == clut[i + 1] as bv32 && r & 0xFF == clut[i + 2] as bv32
  {
  }

  /** At any other depth: the index in all four bytes. */
  lemma LookUpCLUTOther(clut: seq<bv8>, index: bv8, depth: bv8)
    requires |clut| == 768 && depth != 16 && depth != 32
    ensures var r := LookUpCLUTIndex(clut, index, depth);
      && r >> 24 == index as bv32 && (r >> 16) & 0xFF == index as bv32
      && (r >> 8) & 0xFF == index as bv32 && r & 0xFF == index as bv32
  {
    BothHalvesFields(BothBytes(index));
  }

  /** Palette entry `i`: the three 8-bit components of CLUT entry `i` cut to the DAC's 6 bits. */
  function PaletteEntry(g: seq<bv8>, i: nat): (e: bv32)
    requires 3 * i + 2 < |g|
    ensures e >> 16 == (g[3 * i] >> 2) as bv32 && (e >> 8) & 0xFF == (g[3 * i + 1] >> 2) as bv32 &&
            e & 0xFF == (g[3 * i + 2] >> 2) as bv32
  {
    ((g[3 * i] as bv32 >> 2) << 16) | ((g[3 * i + 1] as bv32 >> 2) << 8) | (g[3 * i + 2] as bv32 >> 2)
  }

  /** `setupPalette`: fills the 256 palette entries from the colour table, three bytes per entry. */
  method SetupPalette(p: array<bv32>, g: seq<bv8>)
    requires p.Length == 256 && |g| >= 768
    modifies p
    ensures forall i :: 0 <= i < 256 ==> p[i] == PaletteEntry(g, i)
  {
    var source := 0;
    for i := 0 to 256
      invariant source == 3 * i
      invariant forall k :: 0 <= k < i ==> p[k] == PaletteEntry(g, k)
    {
      p[i] := 0;
      p[i] := p[i] | ((g[source] as bv32 >> 2) << 16);
      source := source + 1;
      p[i] := p[i] | ((g[source] as bv32 >> 2) << 8);
      source := source + 1;
      p[i] := p[i] | (g[source] as bv32 >> 2);
      source := source + 1;
    }
  }

  // ---------------------------------------------------------------------
  // getVESAModeWithProperties

  /** The terminator of the controller's mode list, also returned when no mode is found. */
  const MODE_END_OF_LIST: nat := 0xFFFF

  /** The fields of a VBE mode information block the search looks at. */
  datatype ModeInfo = ModeInfo(attributes: bv16, xRes: nat, yRes: nat, bitsPerPixel: nat,
                               memoryModel: nat, redMaskSize: nat, greenMaskSize: nat, blueMaskSize: nat)

  /** The cleared block the search starts from. */
  const NO_MODE_INFO := ModeInfo(0, 0, 0, 0, 0, 0, 0, 0)

  /** The controller's answer to `getVBEInfo`: its version and its mode list. */
  datatype VbeInfo = VbeInfo(version: nat, modes: seq<nat>)

  /** What the caller asks for. */
  datatype ModeRequest = ModeRequest(width: nat, height: nat, bitsPerPixel: nat,
                                     attributesSet: bv16, attributesClear: bv16)

  /** The formats the search accepts: 4-bit text, 8-bit packed, 5:5:5 direct and 8:8:8 direct colour. */
  predicate Qualifies(req: ModeRequest, m: ModeInfo)
  {
    && m.attributes & req.attributesSet == req.attributesSet
    && m.attributes & req.attributesClear == 0
    && m.bitsPerPixel in {4, 8, 16, 32}
    && m.xRes <= req.width && m.yRes <= req.height
  }

  /** The depth filter; a 15- or 16-bit 5:5:5 mode is reported as 16 bits per pixel. */
  function SupportedFormat(m: ModeInfo): (r: Option<ModeInfo>)
    ensures r.Some? ==> r.value == m.(bitsPerPixel := r.value.bitsPerPixel)
    ensures r.Some? ==> r.value.bitsPerPixel in {4, 8, 16, 32}
    ensures m.bitsPerPixel !in {4, 8, 15, 16, 32} ==> r.None?
  {
    if m.bitsPerPixel == 4 && m.memoryModel == 0 then Some(m)
    else if m.bitsPerPixel == 8 && m.memoryModel == 4 then Some(m)
    else if (m.bitsPerPixel == 16 || m.bitsPerPixel == 15) && m.memoryModel == 6
      && m.redMaskSize == 5 && m.greenMaskSize == 5 && m.blueMaskSize == 5
    then Some(m.(bitsPerPixel := 16))
    else if m.bitsPerPixel == 32 && m.memoryModel == 6
      && m.redMaskSize == 8 && m.greenMaskSize == 8 && m.blueMaskSize == 8
    then Some(m)
    else None
  }

  /**
   * The filters applied to one entry of the list: the mode information
   * must be available, the attribute bits right, the format supported and
   * the resolution no larger than requested.
   */
  function Candidate(req: ModeRequest, answer: Option<ModeInfo>): (r: Option<ModeInfo>)
    ensures r.Some? ==> Qualifies(req, r.value)
    ensures r.Some? ==> answer.Some? && SupportedFormat(answer.value) == r
  {
    match answer
    case None => None
    case Some(m) =>
      if m.attributes & req.attributesSet != req.attributesSet || m.attributes & req.attributesClear != 0 then None
      else
        match SupportedFormat(m)
        case None => None
        case Some(c) => if c.xRes > req.width || c.yRes > req.height then None else Some(c)
  }

  /** The requested resolution and depth exactly. */
  predicate Exact(req: ModeRequest, m: ModeInfo)
  {
    m.xRes == req.width && m.yRes == req.height && m.bitsPerPixel == req.bitsPerPixel
  }

  /** No smaller than `a` in width, height and depth. */
  predicate AtLeast(m: ModeInfo, a: ModeInfo)
  {
    a.xRes <= m.xRes && a.yRes <= m.yRes && a.bitsPerPixel <= m.bitsPerPixel
  }

  /** The search state: the kept mode and its information, and whether an exact match ended the search. */
  datatype Search = Search(mode: nat, info: ModeInfo, done: bool)

  const START := Search(MODE_END_OF_LIST, NO_MODE_INFO, false)

  /**
   * One entry of the list considered: an exact match ends the search,
   * and otherwise the kept mode is replaced only by one no smaller in
   * width, height and depth that is not the same resolution at a depth no
   * greater.
   */
  function Consider(req: ModeRequest, s: Search, mode: nat, c: Option<ModeInfo>): (r: Search)
    ensures c.None? ==> r == s
    ensures c.Some? && Exact(req, c.value) ==> r == Search(mode, c.value, true)
    ensures c.Some? && !Exact(req, c.value) && r != s ==>
      r == Search(mode, c.value, false) && AtLeast(c.value, s.info) &&
      (!(c.value.xRes == s.info.xRes && c.value.yRes == s.info.yRes) || c.value.bitsPerPixel > s.info.bitsPerPixel)
    ensures r == s || r.mode == mode
  {
    match c
    case None => s
    case Some(m) =>
      if Exact(req, m) then Search(mode, m, true)
      else if m.xRes == s.info.xRes && m.yRes == s.info.yRes && m.bitsPerPixel <= s.info.bitsPerPixel then s
      else if m.xRes < s.info.xRes || m.yRes < s.info.yRes || m.bitsPerPixel < s.info.bitsPerPixel then s
      else Search(mode, m, false)
  }

  /** Number of entries of the list before its terminator. */
  function ListLength(modes: seq<nat>): (n: nat)
    ensures n <= |modes|
    ensures forall k :: 0 <= k < n ==> modes[k] != MODE_END_OF_LIST
    ensures n < |modes| ==> modes[n] == MODE_END_OF_LIST
  {
    if modes == [] || modes[0] == MODE_END_OF_LIST then 0
    else
      var n := ListLength(modes[1..]);
      assert forall k :: 1 <= k < 1 + n ==> modes[k] == modes[1..][k - 1];
      1 + n
  }

  /** The search state after the first `n` entries of the list. */
  function SearchUpTo(req: ModeRequest, modes: seq<nat>, query: nat -> Option<ModeInfo>, n: nat): Search
    requires n <= |modes|
  {
    if n == 0 then START
    else
      var s := SearchUpTo(req, modes, query, n - 1);
      if s.done then s else Consider(req, s, modes[n - 1], Candidate(req, query(modes[n - 1])))
  }

  /** What `getVESAModeWithProperties` returns: the mode number, the mode information and the VBE version. */
  datatype Selected = Selected(mode: nat, info: ModeInfo, version: Option<nat>)

  function SelectMode(req: ModeRequest, vbe: Option<VbeInfo>, query: nat -> Option<ModeInfo>): Selected
  {
    match vbe
    case None => Selected(MODE_END_OF_LIST, NO_MODE_INFO, None)
    case Some(v) =>
      var s := SearchUpTo(req, v.modes, query, ListLength(v.modes));
      Selected(s.mode, s.info, Some(v.version))
  }

  /** The entry of the list at `k` passes the filters. */
  predicate Found(req: ModeRequest, modes: seq<nat>, query: nat -> Option<ModeInfo>, k: nat)
    requires k < |modes|
  {
    Candidate(req, query(modes[k])).Some?
  }

  /** The entry at `k` passes the filters and is an exact match. */
  predicate FoundExact(req: ModeRequest, modes: seq<nat>, query: nat -> Option<ModeInfo>, k: nat)
    requires k < |modes|
  {
    Found(req, modes, query, k) && Exact(req, Candidate(req, query(modes[k])).value)
  }

  /** The search keeps nothing exactly when no entry so far passed the filters. */
  lemma {:induction false} SearchEmpty(req: ModeRequest, modes: seq<nat>, query: nat -> Option<ModeInfo>, n: nat)
    requires n <= ListLength(modes)
    ensures var s := SearchUpTo(req, modes, query, n);
      && (s.mode == MODE_END_OF_LIST <==> forall k :: 0 <= k < n ==> !Found(req, modes, query, k))
      && (s.mode == MODE_END_OF_LIST ==> s == START)
  {
    if n > 0 {
      SearchEmpty(req, modes, query, n - 1);
      var p := SearchUpTo(req, modes, query, n - 1);
      var c := Candidate(req, query(modes[n - 1]));
      assert modes[n - 1] != MODE_END_OF_LIST;
      if c.Some? {
        assert Found(req, modes, query, n - 1);
        if !p.done && p == START {
          assert c.value.bitsPerPixel > 0;
        }
      }
    }
  }

  /** A kept mode is an entry of the list that passed the filters, kept with its filtered information. */
  lemma {:induction false} SearchKeepsListed(req: ModeRequest, modes: seq<nat>, query: nat -> Option<ModeInfo>, n: nat)
    requires n <= ListLength(modes)
    ensures var s := SearchUpTo(req, modes, query, n);
      s.mode != MODE_END_OF_LIST ==>
        exists k :: 0 <= k < n && modes[k] == s.mode && Candidate(req, query(modes[k])) == Some(s.info)
  {
    if n > 0 {
      SearchKeepsListed(req, modes, query, n - 1);
      var p := SearchUpTo(req, modes, query, n - 1);
      var s := SearchUpTo(req, modes, query, n);
      if s != p {
        assert modes[n - 1] == s.mode && Candidate(req, query(modes[n - 1])) == Some(s.info);
      }
    }
  }

  /** The search stops exactly when an entry matches exactly, and then holds the first such entry. */
  lemma {:induction false} SearchStopsAtExact(req: ModeRequest, modes: seq<nat>, query: nat -> Option<ModeInfo>, n: nat)
    requires n <= ListLength(modes)
    ensures var s := SearchUpTo(req, modes, query, n);
      && (s.done <==> exists k :: 0 <= k < n && FoundExact(req, modes, query, k))
      && (s.done ==>
            exists k :: (0 <= k < n && modes[k] == s.mode && Candidate(req, query(modes[k])) == Some(s.info)
                         && Exact(req, s.info) && forall j :: 0 <= j < k ==> !FoundExact(req, modes, query, j)))
  {
    if n > 0 {
      SearchStopsAtExact(req, modes, query, n - 1);
      var p := SearchUpTo(req, modes, query, n - 1);
      var s := SearchUpTo(req, modes, query, n);
      if !p.done && s.done {
        assert FoundExact(req, modes, query, n - 1);
      }
    }
  }

  /** Once stopped, the search stays where it is. */
  lemma {:induction false} StoppedSearchStays(req: ModeRequest, modes: seq<nat>, query: nat -> Option<ModeInfo>, i: nat, n: nat)
    requires i <= n <= |modes|
    requires SearchUpTo(req, modes, query, i).done
    ensures SearchUpTo(req, modes, query, n) == SearchUpTo(req, modes, query, i)
    decreases n
  {
    if i < n {
      StoppedSearchStays(req, modes, query, i, n - 1);
    }
  }

  /** Until an exact match stops it, the kept mode only grows in width, height and depth. */
  lemma {:induction false} KeptModeGrows(req: ModeRequest, modes: seq<nat>, query: nat -> Option<ModeInfo>, i: nat, n: nat)
    requires i <= n <= |modes|
    requires !SearchUpTo(req, modes, query, n).done
    ensures AtLeast(SearchUpTo(req, modes, query, n).info, SearchUpTo(req, modes, query, i).info)
    decreases n
  {
    if i < n {
      var p := SearchUpTo(req, modes, query, n - 1);
      assert !p.done;
      KeptModeGrows(req, modes, query, i, n - 1);
    }
  }

  /**
   * `getVESAModeWithProperties`: walks the controller's mode list up to
   * its terminator, stops at the first exact match and otherwise keeps the
   * best mode seen; reports the VBE version when the controller answered.
   */
  method GetVESAModeWithProperties(req: ModeRequest, vbe: Option<VbeInfo>, query: nat -> Option<ModeInfo>)
    returns (matchedMode: nat, outInfo: ModeInfo, vesaVersion: Option<nat>)
    ensures Selected(matchedMode, outInfo, vesaVersion) == SelectMode(req, vbe, query)
  {
    outInfo := NO_MODE_INFO;
    matchedMode := MODE_END_OF_LIST;
    vesaVersion := None;
    if vbe.None? {
      return;
    }
    vesaVersion := Some(vbe.value.version);
    var modes := vbe.value.modes;
    var i := 0;
    while i < |modes| && modes[i] != MODE_END_OF_LIST
      invariant i <= ListLength(modes)
      invariant SearchUpTo(req, modes, query, i) == Search(matchedMode, outInfo, false)
    {
      var mode := modes[i];
      var c := Candidate(req, query(mode));
      i := i + 1;
      if c.None? {
        continue;
      }
      var m := c.value;
      if m.xRes == req.width && m.yRes == req.height && m.bitsPerPixel == req.bitsPerPixel {
        matchedMode := mode;
        outInfo := m;
        StoppedSearchStays(req, modes, query, i, ListLength(modes));
        return;
      }
      if m.xRes == outInfo.xRes && m.yRes == outInfo.yRes && m.bitsPerPixel <= outInfo.bitsPerPixel {
        continue;
      }
      if m.xRes < outInfo.xRes || m.yRes < outInfo.yRes || m.bitsPerPixel < outInfo.bitsPerPixel {
        continue;
      }
      matchedMode := mode;
      outInfo := m;
    }
  }

  // ---------------------------------------------------------------------
  // getNumberArrayFromProperty and initGraphicsMode

  /** Skips the characters that are neither a decimal digit nor the terminator. */
  function SkipNonDigits(s: string, p: nat): (q: nat)
    ensures p <= q && (p <= |s| ==> q <= |s|)
    decreases |s| - p
  {
    if At(s, p) != '\0' && !IsDigit(At(s, p)) then SkipNonDigits(s, p + 1) else p
  }

  /** Where `SkipNonDigits` stops: at a digit or the terminator, after non-digits only. */
  lemma {:induction false} SkipNonDigitsFacts(s: string, p: nat)
    ensures var q := SkipNonDigits(s, p);
      && (At(s, q) == '\0' || IsDigit(At(s, q)))
      && forall k :: p <= k < q ==> k < |s| && s[k] != '\0' && !IsDigit(s[k])
    decreases |s| - p
  {
    if At(s, p) != '\0' && !IsDigit(At(s, p)) {
      SkipNonDigitsFacts(s, p + 1);
    }
  }

  /**
   * A number reader as the loop below uses `strtoul`: on the string it gives
   * a value that is not negative and either stays where it started or moves
   * forward without leaving the string, and it moves forward from a digit.
   */
  ghost predicate ReadsForward(s: string, read: nat -> Parsed)
  {
    forall p: nat :: p < |s| ==>
      && 0 <= read(p).value
      && (read(p).end == p || p < read(p).end <= |s|)
      && (IsDigit(s[p]) ==> read(p).end != p)
  }

  /** `strtoul(s + p, &end, 10)` as a reader of `s`. */
  function Strtoul10(s: string): nat -> Parsed
  {
    (p: nat) => StrToUL(s, p, 10)
  }

  /** `strtoul` in base 10 is such a reader. */
  lemma Strtoul10ReadsForward(s: string)
    ensures ReadsForward(s, Strtoul10(s))
  {
    forall p: nat | p < |s|
      ensures 0 <= Strtoul10(s)(p).value
      ensures (Strtoul10(s)(p).end == p || p < Strtoul10(s)(p).end <= |s|)
      ensures IsDigit(s[p]) ==> Strtoul10(s)(p).end != p
    {
      Strtoul10At(s, p);
    }
  }

  /** `strtoul` in base 10 from one position of `s`. */
  lemma Strtoul10At(s: string, p: nat)
    requires p < |s|
    ensures var r := StrToUL(s, p, 10);
      && (r.end == p || p < r.end <= |s|)
      && (IsDigit(s[p]) ==> r.end != p)
  {
    if IsDigit(s[p]) {
      assert SkipWhite(s, p) == p;
      assert RunIn(s, p, 10) > 0;
    }
  }

  /**
   * The numbers read from the C string `s` from `p`, at most `maxCount`:
   * each round reads one number, keeps it when a digit was read, and moves
   * on to the next digit.
   */
  function NumbersFrom(s: string, p: nat, maxCount: nat, read: nat -> Parsed): (r: seq<nat>)
    requires ReadsForward(s, read)
    ensures |r| <= maxCount
    decreases |s| - p
  {
    if maxCount == 0 || At(s, p) == '\0' then []
    else
      var parsed := read(p);
      if parsed.end != p then
        [parsed.value as nat] + NumbersFrom(s, SkipNonDigits(s, parsed.end), maxCount - 1, read)
      else NumbersFrom(s, SkipNonDigits(s, p), maxCount, read)
  }

  /** The numbers of a setting, none when the key is missing. */
  function NumberArray(prop: Option<string>, maxCount: nat): (r: seq<nat>)
    ensures |r| <= maxCount
  {
    match prop
    case None => []
    case Some(s) => Strtoul10ReadsForward(s); NumbersFrom(s, 0, maxCount, Strtoul10(s))
  }

  /** The loop of `getNumberArrayFromProperty` over the setting's text, with `read` for `strtoul`. */
  method ReadNumbers(s: string, maxCount: nat, read: nat -> Parsed) returns (numbers: seq<nat>)
    requires ReadsForward(s, read)
    ensures numbers == NumbersFrom(s, 0, maxCount, read)
  {
    numbers := [];
    var p := 0;
    var left := maxCount;
    while left > 0 && At(s, p) != '\0'
      invariant p <= |s|
      invariant numbers + NumbersFrom(s, p, left, read) == NumbersFrom(s, 0, maxCount, read)
      decreases |s| - p
    {
      ghost var done := numbers;
      ghost var todo := NumbersFrom(s, p, left, read);
      var parsed := read(p);
      if parsed.end != p {
        numbers := numbers + [parsed.value as nat];
        left := left - 1;
        p := parsed.end;
        assert todo == [parsed.value as nat] + NumbersFrom(s, SkipNonDigits(s, p), left, read);
        assert numbers + NumbersFrom(s, SkipNonDigits(s, p), left, read) == done + todo;
      } else {
        assert todo == NumbersFrom(s, SkipNonDigits(s, p), left, read);
      }
      ghost var q := SkipNonDigits(s, p);
      SkipNonDigitsFacts(s, p);
      while At(s, p) != '\0' && !IsDigit(At(s, p))
        invariant p <= q && SkipNonDigits(s, p) == q
        decreases |s| - p
      {
        p := p + 1;
      }
      assert p == q;
    }
  }

  /**
   * `getNumberArrayFromProperty`: the numbers of the setting whose text is
   * `prop` (`newStringForKey` of the key), at most `maxCount` of them.
   */
  method GetNumberArrayFromProperty(prop: Option<string>, maxCount: nat) returns (numbers: seq<nat>)
    ensures numbers == NumberArray(prop, maxCount)
  {
    numbers := [];
    if prop.Some? {
      Strtoul10ReadsForward(prop.value);
      numbers := ReadNumbers(prop.value, maxCount, Strtoul10(prop.value));
    }
  }

  /** A number at most `ULONG_MAX`, the largest otherwise. */
  function Saturated(v: nat): (r: nat)
    ensures r <= ULONG_MAX && (v <= ULONG_MAX ==> r == v)
  {
    if v > ULONG_MAX then ULONG_MAX else v
  }

  /** The values of the maximal runs of decimal digits in the C string from `p`, saturated at `ULONG_MAX`. */
  function DigitRuns(s: string, p: nat): seq<nat>
    decreases |s| - p
  {
    if At(s, p) == '\0' then []
    else if IsDigit(At(s, p)) then
      var n := DigitRun(s, p);
      var w := s[p..p + n];
      assert forall k :: 0 <= k < |w| ==> IsDigit(w[k]);
      [Saturated(DecValue(w))] + DigitRuns(s, p + n)
    else DigitRuns(s, p + 1)
  }

  /** At most the first `n` elements. */
  function Take(xs: seq<nat>, n: nat): (r: seq<nat>)
    ensures |r| <= n && r <= xs
  {
    if |xs| <= n then xs else xs[..n]
  }

  lemma TakeCons(x: nat, xs: seq<nat>, n: nat)
    requires n > 0
    ensures Take([x] + xs, n) == [x] + Take(xs, n - 1)
  {
    if |xs| > n - 1 {
      assert ([x] + xs)[..n] == [x] + xs[..n - 1];
    }
  }

  /** Taking one more element after putting one in front. */
  lemma TakeStep(v: nat, tail: seq<nat>, rest: seq<nat>, all: seq<nat>, runs: seq<nat>, n: nat, m: nat)
    requires n == m + 1 && tail == Take(rest, m) && all == [v] + tail && runs == [v] + rest
    ensures all == Take(runs, n)
  {
    TakeCons(v, rest, n);
  }

  /** Characters that are neither digits nor the terminator do not change the runs. */
  lemma {:induction false} SkipKeepsRuns(s: string, p: nat, q: nat)
    requires p <= q
    requires forall k :: p <= k < q ==> k < |s| && s[k] != '\0' && !IsDigit(s[k])
    ensures DigitRuns(s, p) == DigitRuns(s, q)
    decreases q - p
  {
    if p < q {
      SkipKeepsRuns(s, p + 1, q);
    }
  }

  /** In base 10 `strtoul` reads exactly the run of decimal digits. */
  lemma DecimalRun(s: string, d: nat)
    ensures RunIn(s, d, 10) == DigitRun(s, d)
  {
    var n := DigitRun(s, d);
    if d + n <= |s| {
      RunInExact(s, d, n, 10);
    }
  }

  /**
   * A reader that, from any position where the text does not start with a
   * minus sign, reads the first maximal run of digits and gives its value.
   */
  ghost predicate ReadsRuns(s: string, read: nat -> Parsed)
  {
    forall p: nat :: p < |s| && At(s, SkipWhite(s, p)) != '-' && read(p).end != p ==>
      read(p).value >= 0 && DigitRuns(s, p) == [read(p).value as nat] + DigitRuns(s, read(p).end)
  }

  /** `strtoul` in base 10 reads the runs of digits. */
  lemma Strtoul10ReadsRuns(s: string)
    ensures ReadsRuns(s, Strtoul10(s))
  {
    forall p: nat | p < |s| && At(s, SkipWhite(s, p)) != '-' && Strtoul10(s)(p).end != p
      ensures DigitRuns(s, p) == [Strtoul10(s)(p).value as nat] + DigitRuns(s, Strtoul10(s)(p).end)
    {
      var v, e := ReadFirstRun(s, p);
      SameRuns(s, e, Strtoul10(s)(p).end, v, Strtoul10(s)(p).value as nat);
    }
  }

  /**
   * When `strtoul` reads a number and the text does not start with a minus
   * sign, it reads the first maximal run of digits and gives its value.
   */
  lemma ReadFirstRun(s: string, p: nat) returns (v: nat, e: nat)
    requires At(s, SkipWhite(s, p)) != '-' && StrToUL(s, p, 10).end != p
    ensures StrToUL(s, p, 10) == Parsed(v, e)
    ensures DigitRuns(s, p) == [v] + DigitRuns(s, e)
  {
    var d, n := DecimalParse(s, p);
    DigitRunsAtDigit(s, d, n);
    v := Saturated(DecValue(s[d..d + n]));
    e := d + n;
    SameSeq(DigitRuns(s, p), DigitRuns(s, d), [v] + DigitRuns(s, e));
  }

  /** Equality of sequences is transitive (keeps the solver from unfolding both sides). */
  lemma SameSeq(a: seq<nat>, b: seq<nat>, c: seq<nat>)
    requires a == b && b == c
    ensures a == c
  {
  }

  /** Equal positions and values give equal runs (keeps the solver from unfolding both sides). */
  lemma SameRuns(s: string, a: nat, b: nat, x: nat, y: nat)
    requires a == b && x == y
    ensures [x] + DigitRuns(s, a) == [y] + DigitRuns(s, b)
  {
  }

  /**
   * `strtoul` in base 10 without a minus sign: after white space and a plus
   * sign it reads the `n` digits at `d`, their value saturated at `ULONG_MAX`.
   */
  lemma DecimalParse(s: string, p: nat) returns (d: nat, n: nat)
    requires At(s, SkipWhite(s, p)) != '-' && StrToUL(s, p, 10).end != p
    ensures p <= d && n == DigitRun(s, d) && 0 < n && d + n <= |s|
    ensures DigitRuns(s, p) == DigitRuns(s, d)
    ensures var w := s[d..d + n];
      forall k :: 0 <= k < |w| ==> IsDigit(w[k])
    ensures StrToUL(s, p, 10) == Parsed(Saturated(DecValue(s[d..d + n])), d + n)
  {
    var sc := ScanNumber(s, p, 10);
    d := sc.start;
    n := sc.count;
    assert n > 0 && !sc.neg && sc.base == 10;
    DecimalRun(s, d);
    WhiteThenDigits(s, p, d);
    SkipKeepsRuns(s, p, d);
    MagnitudeDecimal(s, d, n);
  }

  /** From a digit, the runs are the value of this run followed by the runs after it. */
  lemma DigitRunsAtDigit(s: string, d: nat, n: nat)
    requires IsDigit(At(s, d)) && n == DigitRun(s, d)
    ensures var w := s[d..d + n];
      forall k :: 0 <= k < |w| ==> IsDigit(w[k])
    ensures DigitRuns(s, d) == [Saturated(DecValue(s[d..d + n]))] + DigitRuns(s, d + n)
  {
  }

  /**
   * For a reader of runs, unless the text starts, after white space, with a
   * minus sign, the numbers read are the values of the maximal runs of
   * decimal digits, in order, at most `maxCount` of them.
   */
  lemma {:induction false} NumbersAreDigitRuns(s: string, p: nat, maxCount: nat, read: nat -> Parsed)
    requires ReadsForward(s, read) && ReadsRuns(s, read)
    requires At(s, SkipWhite(s, p)) != '-'
    ensures NumbersFrom(s, p, maxCount, read) == Take(DigitRuns(s, p), maxCount)
    decreases |s| - p, 1
  {
    if maxCount == 0 || At(s, p) == '\0' {
      return;
    }
    if read(p).end != p {
      NumberCase(s, p, maxCount, read);
    } else {
      var q := BlankStep(s, p, maxCount, read);
      NumbersAreDigitRuns(s, q, maxCount, read);
    }
  }

  /** The inductive step of `NumbersAreDigitRuns` when a number is read. */
  lemma {:induction false} NumberCase(s: string, p: nat, maxCount: nat, read: nat -> Parsed)
    requires ReadsForward(s, read) && ReadsRuns(s, read)
    requires maxCount > 0 && At(s, p) != '\0'
    requires At(s, SkipWhite(s, p)) != '-' && read(p).end != p
    ensures NumbersFrom(s, p, maxCount, read) == Take(DigitRuns(s, p), maxCount)
    decreases |s| - p, 0
  {
    var m := maxCount - 1;
    var q := NumberStep(s, p, maxCount, read);
    NumbersAreDigitRuns(s, q, m, read);
    CountDown(s, q, maxCount, m, read);
    ReplaceTail(read(p).value as nat, NumbersFrom(s, p, maxCount, read),
                NumbersFrom(s, q, maxCount - 1, read), NumbersFrom(s, q, m, read));
    TakeStep(read(p).value as nat, NumbersFrom(s, q, m, read), DigitRuns(s, q),
             NumbersFrom(s, p, maxCount, read), DigitRuns(s, p), maxCount, m);
  }

  /** One number read: it is the first run of digits, and reading resumes at the next digit. */
  lemma NumberStep(s: string, p: nat, maxCount: nat, read: nat -> Parsed) returns (q: nat)
    requires ReadsForward(s, read) && ReadsRuns(s, read)
    requires maxCount > 0 && At(s, p) != '\0'
    requires At(s, SkipWhite(s, p)) != '-' && read(p).end != p
    ensures p < q <= |s| && At(s, SkipWhite(s, q)) != '-' && read(p).value >= 0
    ensures NumbersFrom(s, p, maxCount, read) == [read(p).value as nat] + NumbersFrom(s, q, maxCount - 1, read)
    ensures DigitRuns(s, p) == [read(p).value as nat] + DigitRuns(s, q)
  {
    var e := read(p).end;
    q := SkipNonDigits(s, e);
    SkipNonDigitsFacts(s, e);
    SkipKeepsRuns(s, e, q);
    assert SkipWhite(s, q) == q;
  }

  /** One count lower, with the count as a variable (keeps the solver from unfolding both sides). */
  lemma CountDown(s: string, q: nat, n: nat, m: nat, read: nat -> Parsed)
    requires ReadsForward(s, read) && n == m + 1
    ensures NumbersFrom(s, q, n - 1, read) == NumbersFrom(s, q, m, read)
  {
  }

  /** A sequence that is `x` followed by `tail` is `x` followed by anything equal to `tail`. */
  lemma ReplaceTail(x: nat, whole: seq<nat>, tail: seq<nat>, tail': seq<nat>)
    requires whole == [x] + tail && tail == tail'
    ensures whole == [x] + tail'
  {
  }

  /** Nothing read: reading resumes at the next digit, and the runs are unchanged. */
  lemma BlankStep(s: string, p: nat, maxCount: nat, read: nat -> Parsed) returns (q: nat)
    requires ReadsForward(s, read)
    requires maxCount > 0 && At(s, p) != '\0' && read(p).end == p
    ensures p < q <= |s| && At(s, SkipWhite(s, q)) != '-'
    ensures NumbersFrom(s, p, maxCount, read) == NumbersFrom(s, q, maxCount, read)
    ensures DigitRuns(s, p) == DigitRuns(s, q)
  {
    q := SkipNonDigits(s, p);
    SkipNonDigitsFacts(s, p);
    SkipKeepsRuns(s, p, q);
    assert SkipWhite(s, q) == q;
  }

  /**
   * `getNumberArrayFromProperty` on a setting that does not start with a
   * minus sign gives the values of its first `maxCount` runs of digits.
   */
  lemma NumberArrayIsDigitRuns(s: string, maxCount: nat)
    requires At(s, SkipWhite(s, 0)) != '-'
    ensures NumberArray(Some(s), maxCount) == Take(DigitRuns(s, 0), maxCount)
  {
    Strtoul10ReadsForward(s);
    Strtoul10ReadsRuns(s);
    NumbersAreDigitRuns(s, 0, maxCount, Strtoul10(s));
  }

  /** Before the first digit `strtoul` reads only white space and a sign. */
  lemma WhiteThenDigits(s: string, p: nat, d: nat)
    requires d == ScanNumber(s, p, 10).start && At(s, SkipWhite(s, p)) != '-'
    ensures forall k :: p <= k < d ==> k < |s| && s[k] != '\0' && !IsDigit(s[k])
  {
    WhiteSpan(s, p);
  }

  /** `SkipWhite` passes over white space only. */
  lemma {:induction false} WhiteSpan(s: string, p: nat)
    ensures forall k :: p <= k < SkipWhite(s, p) ==> k < |s| && IsSpace(s[k])
    decreases |s| - p
  {
    if p < |s| && IsSpace(s[p]) {
      WhiteSpan(s, p + 1);
      assert SkipWhite(s, p) == SkipWhite(s, p + 1);
    } else {
      assert SkipWhite(s, p) == p;
    }
  }

  // ---------------------------------------------------------------------
  // initGraphicsMode

  /** Screen size used when the GUI has not set one. */
  const DEFAULT_SCREEN_WIDTH: nat := 1024
  const DEFAULT_SCREEN_HEIGHT: nat := 768

  /** An `unsigned short`. */
  type u16 = x: int | 0 <= x < 0x10000

  /** The size of the GUI's screen window (`gui.screen`). */
  datatype Screen = Screen(width: u16, height: u16)

  /** The arguments handed to `setVESAGraphicsMode`, cut to its parameter types. */
  datatype ModeArgs = ModeArgs(width: u16, height: u16, bitsPerPixel: byte, refreshRate: u16)

  /** What `initGraphicsMode` leaves behind: the screen window's size and the mode asked for. */
  datatype GraphicsInit = GraphicsInit(screen: Screen, args: ModeArgs)

  /** A depth written as a pixel format: 256 colours, 5:5:5 or 8:8:8. */
  function PixelDepth(d: nat): (r: nat)
    ensures d == 256 ==> r == 8
    ensures d == 555 ==> r == 16
    ensures d == 888 ==> r == 32
    ensures d != 256 && d != 555 && d != 888 ==> r == d
  {
    if d == 256 then 8 else if d == 555 then 16 else if d == 888 then 32 else d
  }

  /**
   * `initGraphicsMode`: the numbers of the "Graphics Mode" setting are width,
   * height, depth and refresh rate. With fewer than three of them the screen
   * window's size is used (1024x768 when either side is still 0) at 32 bits
   * per pixel; the refresh rate is 0 unless a fourth number is given.
   */
  function InitGraphicsMode(setting: Option<string>, screen: Screen): (r: GraphicsInit)
    ensures var n := NumberArray(setting, 4);
      |n| < 3 ==>
        && r.screen == (if screen.width == 0 || screen.height == 0
                        then Screen(DEFAULT_SCREEN_WIDTH, DEFAULT_SCREEN_HEIGHT) else screen)
        && r.args == ModeArgs(r.screen.width, r.screen.height, 32, 0)
    ensures var n := NumberArray(setting, 4);
      |n| >= 3 ==>
        && r.screen == screen
        && r.args.width == n[0] % 0x10000 && r.args.height == n[1] % 0x10000
        && r.args.bitsPerPixel == PixelDepth(n[2]) % 0x100
        && r.args.refreshRate == (if |n| == 4 then n[3] % 0x10000 else 0)
  {
    var n := NumberArray(setting, 4);
    var s := if |n| < 3 && (screen.width == 0 || screen.height == 0)
             then Screen(DEFAULT_SCREEN_WIDTH, DEFAULT_SCREEN_HEIGHT) else screen;
    var params := if |n| < 3 then [s.width, s.height, 32, 0] else if |n| == 3 then n + [0] else n;
    GraphicsInit(s, ModeArgs(params[0] % 0x10000, params[1] % 0x10000,
                             PixelDepth(params[2]) % 0x100, params[3] % 0x10000))
  }

  /**
   * A setting with at least three runs of digits, not starting with a minus
   * sign, asks for the mode its first runs of digits name.
   */
  lemma GraphicsModeFromRuns(setting: string, screen: Screen)
    requires At(setting, SkipWhite(setting, 0)) != '-' && |DigitRuns(setting, 0)| >= 3
    ensures var runs := DigitRuns(setting, 0);
      var r := InitGraphicsMode(Some(setting), screen);
      && r.screen == screen
      && r.args.width == runs[0] % 0x10000 && r.args.height == runs[1] % 0x10000
      && r.args.bitsPerPixel == PixelDepth(runs[2]) % 0x100
      && r.args.refreshRate == (if |runs| >= 4 then runs[3] % 0x10000 else 0)
  {
    NumberArrayIsDigitRuns(setting, 4);
  }

  /** Without the setting the default screen is asked for at 32 bits per pixel. */
  lemma NoSettingUsesScreen(screen: Screen)
    ensures var r := InitGraphicsMode(None, screen);
      && r.args.bitsPerPixel == 32 && r.args.refreshRate == 0
      && r.args.width > 0 && r.args.height > 0
      && (screen.width > 0 && screen.height > 0 ==> r.args.width == screen.width && r.args.height == screen.height)
  {
  }
}
