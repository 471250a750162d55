/**
 * The boot prompt and the kernel command line (boot2/options.c): the
 * typed line editor, the volume menu, the key loop of getBootOptions and
 * the command line processBootOptions assembles from the typed line, the
 * kernel flags and the configuration.
 *
 * Keyboard, screen and timer are inputs or left out: a key is a number
 * the caller passes in, and nothing is drawn.
 */
module Options {
  import opened Wrappers
  import opened Bytes
  import opened StringTable
  import DiskScan

  /** BOOT_STRING_LEN: the size of the typed line and of the kernel command line. */
  const BOOT_STRING_LEN: nat := 1024
  const NUL: char := '\0'

  // Key codes as getc returns them.
  const BACKSPACE_KEY: nat := 0x08
  const TAB_KEY: nat := 0x09
  const RETURN_KEY: nat := 0x0d
  const ESCAPE_KEY: nat := 0x1b
  const F5_KEY: nat := 0x3f00
  const F8_KEY: nat := 0x4200
  const F10_KEY: nat := 0x4400
  const UP_ARROW_KEY: nat := 0x4800
  const DOWN_ARROW_KEY: nat := 0x5000

  /** kMenuMaxItems: rows of the menu window. */
  const MENU_MAX_ITEMS: nat := 10
  /** kBootTimeout: no countdown, quiet boot. */
  const BOOT_TIMEOUT: int := -1
  /** kCDBootTimeout, in seconds. */
  const CD_BOOT_TIMEOUT: int := 8
  const DEFAULT_KERNEL: string := "mach_kernel"

  function Min(a: int, b: int): int { if a < b then a else b }
  function Max(a: int, b: int): int { if a < b then b else a }

  function Zeros(n: nat): (r: string)
    ensures |r| == n && forall k :: 0 <= k < n ==> r[k] == NUL
  {
    seq(n, _ => NUL)
  }

  // ---------------------------------------------------------------------
  // The typed line (gBootArgs, updateBootArgs)

  /** What a keystroke means for the typed line: backspace removes the last character, a printable character is appended while there is room. */
  function Edited(text: string, key: nat): (r: string)
    ensures key % 128 == BACKSPACE_KEY ==> r == (if |text| > 0 then text[..|text| - 1] else text)
    ensures key % 128 != BACKSPACE_KEY && key % 128 >= 32 && |text| < BOOT_STRING_LEN - 1 ==> r == text + [(key % 128) as char]
    ensures key % 128 != BACKSPACE_KEY && !(key % 128 >= 32 && |text| < BOOT_STRING_LEN - 1) ==> r == text
  {
    var k := key % 128;
    if k == BACKSPACE_KEY then (if |text| > 0 then text[..|text| - 1] else text)
    else if k >= 32 && |text| < BOOT_STRING_LEN - 1 then text + [k as char]
    else text
  }

  /** `buf` holds `text` at its start and NUL everywhere after it. */
  ghost predicate Holds(buf: seq<char>, text: string)
  {
    |text| <= |buf| && buf[..|text|] == text && forall k :: |text| <= k < |buf| ==> buf[k] == NUL
  }

  /** One keystroke on the buffer and its cursor, the removed character cleared. */
  function Step(buf: seq<char>, pos: nat, key: nat): (r: (seq<char>, nat))
    requires pos < |buf| == BOOT_STRING_LEN
    ensures |r.0| == |buf| && r.1 < |buf|
  {
    var k := key % 128;
    if k == BACKSPACE_KEY then
      if pos > 0 then (buf[pos - 1 := NUL], pos - 1) else (buf, pos)
    else if k >= 32 && pos < BOOT_STRING_LEN - 1 then (buf[pos := k as char], pos + 1)
    else (buf, pos)
  }

  /** The keystroke as written: backspace clears the cell at the cursor, which already holds NUL, and then steps back. */
  function StepAsWritten(buf: seq<char>, pos: nat, key: nat): (r: (seq<char>, nat))
    requires pos < |buf| == BOOT_STRING_LEN
    ensures |r.0| == |buf| && r.1 < |buf|
  {
    var k := key % 128;
    if k == BACKSPACE_KEY then
      if pos > 0 then (buf[pos := NUL], pos - 1) else (buf, pos)
    else if k >= 32 && pos < BOOT_STRING_LEN - 1 then (buf[pos := k as char], pos + 1)
    else (buf, pos)
  }

  /** The corrected keystroke keeps the buffer holding exactly the edited line. */
  lemma StepEdits(buf: seq<char>, text: string, key: nat)
    requires |buf| == BOOT_STRING_LEN && |text| < BOOT_STRING_LEN
    requires Holds(buf, text) && NoNul(text)
    ensures Step(buf, |text|, key).1 == |Edited(text, key)|
    ensures Holds(Step(buf, |text|, key).0, Edited(text, key))
    ensures NoNul(Edited(text, key))
  {
    var r := Step(buf, |text|, key);
    var t := Edited(text, key);
    assert r.0[..|t|] == t;
  }

  /** The C string of a buffer that holds a line is that line. */
  lemma HoldsLine(buf: seq<char>, text: string)
    requires Holds(buf, text) && NoNul(text)
    ensures CStr(buf, 0) == text
  {
    HoldsLineFrom(buf, text, 0);
  }

  lemma {:induction false} HoldsLineFrom(buf: seq<char>, text: string, i: nat)
    requires Holds(buf, text) && NoNul(text) && i <= |text|
    ensures CStr(buf, i) == text[i..]
    decreases |text| - i
  {
    if i < |text| {
      assert buf[i] == buf[..|text|][i] == text[i];
      HoldsLineFrom(buf, text, i + 1);
      assert text[i..] == [text[i]] + text[i + 1..];
    }
  }

  /** "abc" typed into an empty line. */
  function TypedAbc(): (b: seq<char>)
    ensures |b| == BOOT_STRING_LEN
  {
    "abc" + Zeros(BOOT_STRING_LEN - 3)
  }

  /**
   * As written, a backspace after "abc" moves the cursor back but clears
   * the cell after the 'c': the line is still "abc" where the user has
   * removed the 'c'.
   */
  lemma BackspaceAsWrittenKeepsChar()
    ensures var s1 := StepAsWritten(TypedAbc(), 3, BACKSPACE_KEY);
            s1.1 == 2 && CStr(s1.0, 0) == "abc"
    ensures Edited("abc", BACKSPACE_KEY) == "ab"
  {
    var s1 := StepAsWritten(TypedAbc(), 3, BACKSPACE_KEY);
    assert s1.0 == TypedAbc();
    assert Holds(s1.0, "abc") by {
      assert s1.0[..3] == "abc";
    }
    HoldsLine(s1.0, "abc");
  }

  /** The corrected backspace after "abc" leaves "ab". */
  lemma BackspaceRemovesChar()
    ensures var s1 := Step(TypedAbc(), 3, BACKSPACE_KEY);
            s1.1 == 2 && CStr(s1.0, 0) == "ab"
  {
    assert Holds(TypedAbc(), "abc") by {
      assert TypedAbc()[..3] == "abc";
    }
    StepEdits(TypedAbc(), "abc", BACKSPACE_KEY);
    HoldsLine(Step(TypedAbc(), 3, BACKSPACE_KEY).0, "ab");
  }

  /**
   * The typed line, gBootArgs with its cursor gBootArgsPtr. `text` is the
   * line the keystrokes so far have produced.
   */
  class BootArgs {
    var buf: array<char>
    var pos: nat
    ghost var text: string

    ghost predicate Valid()
      reads this, buf
    {
      buf.Length == BOOT_STRING_LEN && pos < BOOT_STRING_LEN && |text| == pos
      && NoNul(text) && Holds(buf[..], text)
    }

    /** The line as a C string. */
    function Line(): string
      reads this, buf
    {
      CStr(buf[..], 0)
    }

    /** The C string in the buffer is the typed line. */
    lemma LineIsText()
      requires Valid()
      ensures Line() == text
    {
      HoldsLine(buf[..], text);
    }

    /** A static buffer: zero-filled, the cursor at its start. */
    constructor()
      ensures Valid() && text == "" && pos == 0 && fresh(buf)
    {
      buf := new char[BOOT_STRING_LEN](_ => NUL);
      pos := 0;
      text := "";
    }

    /** clearBootArgs: the cursor back to the start, the buffer all NUL. */
    method Clear()
      requires buf.Length == BOOT_STRING_LEN
      modifies this, buf
      ensures Valid() && text == "" && pos == 0 && buf == old(buf)
    {
      pos := 0;
      forall k | 0 <= k < buf.Length {
        buf[k] := NUL;
      }
      text := "";
    }

    /** updateBootArgs with the cleared cell before the cursor. */
    method Update(key: nat)
      requires Valid()
      modifies this, buf
      ensures Valid() && buf == old(buf)
      ensures text == Edited(old(text), key)
      ensures (buf[..], pos) == Step(old(buf[..]), old(pos), key)
    {
      StepEdits(buf[..], text, key);
      var k := key % 128;
      if k == BACKSPACE_KEY {
        if pos > 0 {
          pos := pos - 1;
          buf[pos] := NUL;
        }
      } else if k >= 32 && pos < BOOT_STRING_LEN - 1 {
        buf[pos] := k as char;
        pos := pos + 1;
      }
      text := Edited(text, key);
    }

    /** updateBootArgs as written. */
    method UpdateAsWritten(key: nat)
      requires buf.Length == BOOT_STRING_LEN && pos < BOOT_STRING_LEN
      modifies this, buf
      ensures buf == old(buf) && pos < BOOT_STRING_LEN
      ensures (buf[..], pos) == StepAsWritten(old(buf[..]), old(pos), key)
    {
      var k := key % 128;
      if k == BACKSPACE_KEY {
        if pos > 0 {
          buf[pos] := NUL;
          pos := pos - 1;
        }
      } else if k >= 32 && pos < BOOT_STRING_LEN - 1 {
        buf[pos] := k as char;
        pos := pos + 1;
      }
    }

    /** Appends " -" and a flag letter when four more cells fit before the last one. */
    method AppendFlag(on: bool, letter: char)
      requires Valid() && letter != NUL
      modifies this, buf
      ensures Valid() && buf == old(buf)
      ensures text == if on && old(pos) + 3 < BOOT_STRING_LEN - 1 then old(text) + [' ', '-', letter] else old(text)
    {
      if on && pos + 3 < BOOT_STRING_LEN - 1 {
        ghost var t := text + [' ', '-', letter];
        buf[pos] := ' ';
        buf[pos + 1] := '-';
        buf[pos + 2] := letter;
        pos := pos + 3;
        text := t;
        assert buf[..|t|] == t;
      }
    }

    /**
     * The early flags and what follows them: " -v" and " -s" are appended
     * for a quiet first run, and then `clearBootArgs` runs at once, so the
     * line the prompt starts from is empty whatever was appended.
     */
    method EarlyFlags(quiet: bool, firstRun: bool, early: EarlyKeys)
      requires Valid()
      modifies this, buf
      ensures Valid() && buf == old(buf) && text == "" && pos == 0
      ensures forall k :: 0 <= k < buf.Length ==> buf[k] == NUL
    {
      AppendFlag(quiet && firstRun && early.v, 'v');
      AppendFlag(quiet && firstRun && early.s, 's');
      Clear();
    }

    /** skipblanks from the start of the line. */
    method SkipLeadingBlanks() returns (cp: nat)
      requires Valid()
      ensures cp == SkipBlanks(buf[..], 0) && cp <= pos
    {
      cp := 0;
      while cp < buf.Length && (buf[cp] == ' ' || buf[cp] == '\t')
        invariant cp <= buf.Length
        invariant SkipBlanks(buf[..], 0) == SkipBlanks(buf[..], cp)
      {
        cp := cp + 1;
      }
      BlanksStopAtNul(buf[..], 0, pos);
    }

    /**
     * extractKernelName at `cursor`: a name is taken when it starts with
     * a letter or '/' and is not ended by '='; the blank after it is
     * overwritten with NUL and the cursor moves past it.
     */
    method ExtractKernelName(cursor: nat) returns (kernel: Option<string>, next: nat)
      requires Valid() && cursor <= pos
      modifies buf
      ensures kernel == KernelName(old(buf[..]), cursor)
      ensures kernel.None? ==> next == cursor && buf[..] == old(buf[..])
      ensures kernel.Some? && At(old(buf[..]), cursor + |kernel.value|) == NUL ==>
                next == cursor + |kernel.value| && buf[..] == old(buf[..])
      ensures kernel.Some? && At(old(buf[..]), cursor + |kernel.value|) != NUL ==>
                next == cursor + |kernel.value| + 1 && next <= BOOT_STRING_LEN
                && buf[..] == old(buf[..])[cursor + |kernel.value| := NUL]
    {
      HoldsLine(buf[..], text);
      if !NameStart(At(buf[..], cursor)) {
        return None, cursor;
      }
      var cp := cursor;
      while cp < buf.Length && buf[cp] != NUL && buf[cp] != '=' && buf[cp] != ' ' && buf[cp] != '\t'
        invariant cursor <= cp <= buf.Length
        invariant NameEnd(buf[..], cursor) == NameEnd(buf[..], cp)
      {
        cp := cp + 1;
      }
      if cp < buf.Length && buf[cp] == '=' {
        return None, cursor;
      }
      kernel := Some(buf[cursor..cp]);
      if cp < buf.Length && buf[cp] != NUL {
        buf[cp] := NUL;
        cp := cp + 1;
      }
      next := cp;
    }
  }

  /** First position from `i` holding neither a space nor a tab. */
  function SkipBlanks(s: string, i: nat): (j: nat)
    requires i <= |s|
    ensures i <= j <= |s| && At(s, j) != ' ' && At(s, j) != '\t'
    decreases |s| - i
  {
    if i < |s| && (s[i] == ' ' || s[i] == '\t') then SkipBlanks(s, i + 1) else i
  }

  lemma {:induction false} BlanksStopAtNul(s: string, i: nat, n: nat)
    requires i <= n < |s| && s[n] == NUL
    ensures SkipBlanks(s, i) <= n
    decreases n - i
  {
    if i < n && (s[i] == ' ' || s[i] == '\t') {
      BlanksStopAtNul(s, i + 1, n);
    }
  }

  /** `c | 0x20` is a lower-case letter or '/'. */
  predicate NameStart(c: char)
  {
    var o := c as int;
    var lower := if (o / 32) % 2 == 1 then o else o + 32;
    ('a' as int <= lower <= 'z' as int) || lower == '/' as int
  }

  /** First position from `j` holding NUL, '=', a space or a tab. */
  function NameEnd(s: string, j: nat): (e: nat)
    requires j <= |s|
    ensures j <= e <= |s|
    ensures At(s, e) == NUL || At(s, e) == '=' || At(s, e) == ' ' || At(s, e) == '\t'
    ensures forall k :: j <= k < e ==> s[k] != NUL && s[k] != '=' && s[k] != ' ' && s[k] != '\t'
    decreases |s| - j
  {
    if j < |s| && s[j] != NUL && s[j] != '=' && s[j] != ' ' && s[j] != '\t' then NameEnd(s, j + 1) else j
  }

  /** The kernel name at `i`, if the word there is one. */
  function KernelName(s: string, i: nat): (r: Option<string>)
    requires i <= |s|
    ensures r.Some? ==> |r.value| > 0 && NoNul(r.value) && i + |r.value| <= |s|
    ensures r.Some? ==> forall k :: 0 <= k < |r.value| ==> r.value[k] != ' ' && r.value[k] != '\t' && r.value[k] != '='
    ensures r.Some? ==> At(s, i + |r.value|) == NUL || At(s, i + |r.value|) == ' ' || At(s, i + |r.value|) == '\t'
  {
    if !NameStart(At(s, i)) then None
    else
      var e := NameEnd(s, i);
      if At(s, e) == '=' then None else Some(s[i..e])
  }

  /** A word that starts like a name and is followed by a blank is the kernel name. */
  lemma KernelNameWord(w: string, rest: string)
    requires |w| > 0 && NameStart(w[0])
    requires forall k :: 0 <= k < |w| ==> w[k] != NUL && w[k] != '=' && w[k] != ' ' && w[k] != '\t'
    ensures KernelName(w + " " + rest, 0) == Some(w)
    ensures KernelName(w, 0) == Some(w)
  {
    var s := w + " " + rest;
    NameEndWord(s, w, 0);
    NameEndWord(w, w, 0);
  }

  /** A word followed by '=' is a key, never a kernel name. */
  lemma KeyIsNotKernelName(w: string, rest: string)
    requires forall k :: 0 <= k < |w| ==> w[k] != NUL && w[k] != '=' && w[k] != ' ' && w[k] != '\t'
    ensures KernelName(w + "=" + rest, 0) == None
  {
    var s := w + "=" + rest;
    if NameStart(At(s, 0)) {
      NameEndWord(s, w, 0);
    }
  }

  lemma {:induction false} NameEndWord(s: string, w: string, j: nat)
    requires |w| <= |s| && s[..|w|] == w && j <= |w|
    requires forall k :: 0 <= k < |w| ==> w[k] != NUL && w[k] != '=' && w[k] != ' ' && w[k] != '\t'
    requires |w| == |s| || s[|w|] == NUL || s[|w|] == '=' || s[|w|] == ' ' || s[|w|] == '\t'
    ensures NameEnd(s, j) == |w|
    decreases |w| - j
  {
    if j < |w| {
      assert s[j] == s[..|w|][j];
      NameEndWord(s, w, j + 1);
    }
  }

  // ---------------------------------------------------------------------
  // The volume menu (showMenu, updateMenu in text mode)

  /** The visible rows of the menu and the selected one. */
  datatype Window = Window(top: int, bottom: int, selection: int)

  /**
   * updateMenu in text mode on a menu of `n` items: the arrows move the
   * selection one row, scrolling the window by one row when the selection
   * is at its edge; nothing moves past either end, or when no menu is shown.
   */
  function MoveWindow(w: Window, key: nat, n: nat, shown: bool): (r: (Window, bool))
  {
    if !shown then (w, false)
    else if key == UP_ARROW_KEY && w.selection != w.top then (w.(selection := w.selection - 1), true)
    else if key == UP_ARROW_KEY && w.top > 0 then (Window(w.top - 1, w.bottom - 1, w.selection - 1), true)
    else if key == DOWN_ARROW_KEY && w.selection != w.bottom then (w.(selection := w.selection + 1), true)
    else if key == DOWN_ARROW_KEY && w.bottom < n - 1 then (Window(w.top + 1, w.bottom + 1, w.selection + 1), true)
    else (w, false)
  }

  /**
   * The menu window: `items` are the params of the menu items (indices
   * into the volume chain), `top`..`bottom` the visible rows and
   * `selection` the highlighted one. `shown` is false while there is no
   * menu (gMenuItems is NULL).
   */
  class Menu {
    var items: seq<nat>
    var shown: bool
    var height: nat
    var top: int
    var bottom: int
    var selection: int

    /** The selection is visible and the window is as tall as the menu allows. */
    ghost predicate Valid()
      reads this
    {
      shown ==> 0 <= top <= selection <= bottom < |items| && bottom - top == Min(|items|, height) - 1
    }

    constructor()
      ensures Valid() && !shown
    {
      items, shown, height, top, bottom, selection := [], false, 0, 0, 0, 0;
    }

    /**
     * showMenu: an empty menu changes nothing; otherwise the window
     * starts at the first row and is shifted down just far enough to show
     * the selection.
     */
    method Show(newItems: seq<nat>, sel: nat, h: nat)
      requires Valid() && h > 0 && (|newItems| > 0 ==> sel < |newItems|)
      modifies this
      ensures Valid()
      ensures |newItems| == 0 ==>
                items == old(items) && shown == old(shown) && height == old(height)
                && top == old(top) && bottom == old(bottom) && selection == old(selection)
      ensures |newItems| > 0 ==> shown && items == newItems && height == h && selection == sel
      ensures |newItems| > 0 ==> top == 0 || selection == bottom
    {
      if |newItems| == 0 {
        return;
      }
      items, height, shown := newItems, h, true;
      top := 0;
      bottom := Min(|newItems|, h) - 1;
      selection := sel;
      if selection > bottom {
        top := top + (selection - bottom);
        bottom := selection;
      }
    }

    /**
     * updateMenu in text mode: the up and down arrows move the selection
     * one row, scrolling the window when the selection is at its edge;
     * nothing moves past either end of the menu. A move reports the
     * param of the newly selected item.
     */
    method Move(key: nat) returns (moved: bool, param: nat)
      requires Valid()
      modifies this
      ensures Valid()
      ensures items == old(items) && shown == old(shown) && height == old(height)
      ensures bottom - top == old(bottom - top)
      ensures !moved ==> top == old(top) && bottom == old(bottom) && selection == old(selection)
      ensures moved <==> shown && ((key == UP_ARROW_KEY && old(selection) > 0)
                                   || (key == DOWN_ARROW_KEY && old(selection) < |items| - 1))
      ensures moved && key == UP_ARROW_KEY ==> selection == old(selection) - 1
      ensures moved && key == DOWN_ARROW_KEY ==> selection == old(selection) + 1
      ensures moved && key == UP_ARROW_KEY ==> top == (if old(selection) == old(top) then old(top) - 1 else old(top))
      ensures moved && key == DOWN_ARROW_KEY ==> bottom == (if old(selection) == old(bottom) then old(bottom) + 1 else old(bottom))
      ensures moved ==> 0 <= selection < |items| && param == items[selection]
      ensures (Window(top, bottom, selection), moved) == MoveWindow(Window(old(top), old(bottom), old(selection)), key, |items|, shown)
    {
      moved, param := false, 0;
      if !shown {
        return;
      }
      if key == UP_ARROW_KEY {
        if selection != top {
          selection := selection - 1;
          moved := true;
        } else if top > 0 {
          top, bottom := top - 1, bottom - 1;
          selection := selection - 1;
          moved := true;
        }
      } else if key == DOWN_ARROW_KEY {
        if selection != bottom {
          selection := selection + 1;
          moved := true;
        } else if bottom < |items| - 1 {
          top, bottom := top + 1, bottom + 1;
          selection := selection + 1;
          moved := true;
        }
      }
      if moved {
        param := items[selection];
      }
    }
  }

  // ---------------------------------------------------------------------
  // Building the menu (getBootOptions)

  /** Indices of the visible volumes of a chain, in chain order. */
  function VisibleIndices(chain: seq<DiskScan.Volume>): (r: seq<nat>)
    ensures |r| == DiskScan.CountVisible(chain)
    ensures forall a :: 0 <= a < |r| ==> r[a] < |chain| && chain[r[a]].visible
  {
    if chain == [] then []
    else VisibleIndices(chain[..|chain| - 1]) + (if chain[|chain| - 1].visible then [|chain| - 1] else [])
  }

  /** The visible indices are in increasing order. */
  lemma {:induction false} VisibleSorted(chain: seq<DiskScan.Volume>)
    ensures forall a, b :: 0 <= a < b < |VisibleIndices(chain)| ==> VisibleIndices(chain)[a] < VisibleIndices(chain)[b]
  {
    if chain != [] {
      VisibleSorted(chain[..|chain| - 1]);
    }
  }

  /** Every visible record is listed. */
  lemma {:induction false} VisibleComplete(chain: seq<DiskScan.Volume>, k: nat)
    requires k < |chain| && chain[k].visible
    ensures k in VisibleIndices(chain)
  {
    if k < |chain| - 1 {
      VisibleComplete(chain[..|chain| - 1], k);
    }
  }

  /** The visible indices of one more record. */
  lemma VisibleStep(chain: seq<DiskScan.Volume>, j: nat)
    requires j < |chain|
    ensures VisibleIndices(chain[..j + 1]) == VisibleIndices(chain[..j]) + (if chain[j].visible then [j] else [])
  {
    assert chain[..j + 1][..j] == chain[..j];
  }

  lemma {:induction false} CountVisiblePrefix(chain: seq<DiskScan.Volume>, j: nat)
    requires j <= |chain|
    ensures DiskScan.CountVisible(chain[..j]) <= DiskScan.CountVisible(chain)
    decreases |chain| - j
  {
    if j < |chain| {
      CountVisiblePrefix(chain, j + 1);
      assert chain[..j + 1][..j] == chain[..j];
    } else {
      assert chain[..j] == chain;
    }
  }

  /**
   * The menu items of getBootOptions: one per visible volume, the first
   * visible volume in the last slot, and the slot of the default volume
   * (slot 0 when it has none).
   */
  method BuildMenu(chain: seq<DiskScan.Volume>, deviceCount: nat, menuVolume: Option<nat>)
      returns (items: seq<nat>, selectIndex: nat)
    requires deviceCount == DiskScan.CountVisible(chain)
    ensures |items| == deviceCount
    ensures forall k :: 0 <= k < |items| ==> items[k] == VisibleIndices(chain)[|items| - 1 - k]
    ensures forall k: nat :: k in items <==> k < |chain| && chain[k].visible
    ensures menuVolume.Some? && menuVolume.value in items ==>
              selectIndex < |items| && items[selectIndex] == menuVolume.value
    ensures !(menuVolume.Some? && menuVolume.value in items) ==> selectIndex == 0
  {
    items := seq(deviceCount, _ => 0);
    selectIndex := 0;
    var i: int := deviceCount - 1;
    ghost var seen: seq<nat> := [];
    for j := 0 to |chain|
      invariant Slots(chain, deviceCount, menuVolume, j, items, selectIndex, i, seen)
    {
      items, selectIndex, i, seen := PlaceItem(chain, deviceCount, menuVolume, j, items, selectIndex, i, seen);
    }
    assert chain[..|chain|] == chain;
    ItemsAreVisible(chain, items);
    if menuVolume.Some? {
      assert menuVolume.value in items <==> Seen(menuVolume, chain, |chain|);
    }
  }

  /** The default volume is among the first `j` records and visible. */
  ghost predicate Seen(menuVolume: Option<nat>, chain: seq<DiskScan.Volume>, j: nat)
  {
    menuVolume.Some? && menuVolume.value < j && menuVolume.value < |chain| && chain[menuVolume.value].visible
  }

  /**
   * BuildMenu after the first `j` records: the visible ones so far fill
   * the slots from the last down, `i` is the next free slot, and
   * `selectIndex` is the default volume's slot once it has been placed.
   */
  ghost predicate Slots(chain: seq<DiskScan.Volume>, deviceCount: nat, menuVolume: Option<nat>, j: nat,
                        items: seq<nat>, selectIndex: nat, i: int, seen: seq<nat>)
  {
    j <= |chain| && |items| == deviceCount && seen == VisibleIndices(chain[..j])
    && i == deviceCount - 1 - |seen| && |seen| <= deviceCount
    && (forall k :: 0 <= k < |seen| ==> items[deviceCount - 1 - k] == seen[k])
    && (Seen(menuVolume, chain, j) ==> i < selectIndex < deviceCount && items[selectIndex] == menuVolume.value)
    && (!Seen(menuVolume, chain, j) ==> selectIndex == 0)
  }

  /** One record of the BuildMenu loop: a visible one takes the next slot down. */
  method PlaceItem(chain: seq<DiskScan.Volume>, deviceCount: nat, menuVolume: Option<nat>, j: nat,
                   items: seq<nat>, selectIndex: nat, i: int, ghost seen: seq<nat>)
      returns (items': seq<nat>, selectIndex': nat, i': int, ghost seen': seq<nat>)
    requires deviceCount == DiskScan.CountVisible(chain) && j < |chain|
    requires Slots(chain, deviceCount, menuVolume, j, items, selectIndex, i, seen)
    ensures seen' == VisibleIndices(chain[..j + 1])
    ensures Slots(chain, deviceCount, menuVolume, j + 1, items', selectIndex', i', VisibleIndices(chain[..j + 1]))
  {
    VisibleStep(chain, j);
    CountVisiblePrefix(chain, j + 1);
    items', selectIndex', i', seen' := items, selectIndex, i, seen;
    if chain[j].visible {
      items' := items[i := j];
      if menuVolume == Some(j) {
        selectIndex' := i;
      } else if Seen(menuVolume, chain, j) {
        assert items'[selectIndex] == items[selectIndex];
      }
      i' := i - 1;
      seen' := seen + [j];
    } else {
      assert Seen(menuVolume, chain, j + 1) == Seen(menuVolume, chain, j);
    }
  }

  lemma ItemsAreVisible(chain: seq<DiskScan.Volume>, items: seq<nat>)
    requires |items| == |VisibleIndices(chain)|
    requires forall k :: 0 <= k < |items| ==> items[k] == VisibleIndices(chain)[|items| - 1 - k]
    ensures forall k: nat :: k in items <==> k < |chain| && chain[k].visible
  {
    var v := VisibleIndices(chain);
    forall k: nat
      ensures k in items <==> k < |chain| && chain[k].visible
    {
      if k in items {
        var a :| 0 <= a < |items| && items[a] == k;
        assert v[|items| - 1 - a] == k;
      }
      if k < |chain| && chain[k].visible {
        VisibleComplete(chain, k);
        var a :| 0 <= a < |v| && v[a] == k;
        assert items[|items| - 1 - a] == k;
      }
    }
  }

  // ---------------------------------------------------------------------
  // Before the menu (getBootOptions)

  /** The kBootModeQuiet and kBootModeSafe bits of gBootMode. */
  datatype BootMode = BootMode(quiet: bool, safe: bool)

  /**
   * The countdown length: multiboot's timeout when it set one, else the
   * "Timeout" key, else 8 seconds from a CD, no countdown (quiet) when a
   * configuration was loaded, and 0, the menu at once, when none was.
   */
  function InitialTimeout(multiboot: Option<int>, configured: Option<int>, isCDROM: bool, sysConfigValid: bool): int
  {
    if multiboot.Some? then multiboot.value
    else if configured.Some? then configured.value
    else if isCDROM then CD_BOOT_TIMEOUT
    else if sysConfigValid then BOOT_TIMEOUT
    else 0
  }

  /** The early keystrokes getBootOptions drains: F8, and 's' or 'v' in the low byte. */
  datatype EarlyKeys = EarlyKeys(f8: bool, s: bool, v: bool)

  predicate SKey(k: nat) { k % 256 == 's' as nat || k % 256 == 'S' as nat }
  predicate VKey(k: nat) { k % 256 == 'v' as nat || k % 256 == 'V' as nat }

  function ScanEarlyKeys(keys: seq<nat>): (e: EarlyKeys)
    ensures e.f8 <==> F8_KEY in keys
    ensures e.s <==> exists i :: 0 <= i < |keys| && SKey(keys[i])
    ensures e.v <==> exists i :: 0 <= i < |keys| && VKey(keys[i])
  {
    if keys == [] then EarlyKeys(false, false, false)
    else
      var e := ScanEarlyKeys(keys[1..]);
      var k := keys[0];
      assert forall i :: 0 < i < |keys| ==> keys[i] == keys[1..][i - 1];
      assert forall i :: 0 <= i < |keys| - 1 ==> keys[1..][i] == keys[i + 1];
      EarlyKeys(e.f8 || k == F8_KEY, e.s || SKey(k), e.v || VKey(k))
  }

  /**
   * The boot mode and timeout once the keyboard has been looked at: a
   * negative timeout means a quiet boot, a held modifier (shift flags in
   * the low nibble) means safe mode, and F8 cancels quiet mode and the
   * countdown.
   */
  function StartMode(mode: BootMode, timeout: int, shiftFlags: nat, early: EarlyKeys): (r: (BootMode, int))
    ensures r.0.quiet ==> r.1 < 0 || mode.quiet
    ensures early.f8 ==> !r.0.quiet && r.1 == 0
    ensures !early.f8 ==> r.1 == timeout && (r.0.quiet <==> mode.quiet || timeout < 0)
    ensures r.0.safe <==> mode.safe || shiftFlags % 16 != 0
  {
    var quiet := mode.quiet || timeout < 0;
    var safe := mode.safe || shiftFlags % 16 != 0;
    if early.f8 then (BootMode(false, safe), 0) else (BootMode(quiet, safe), timeout)
  }

  /**
   * The CD-ROM option key: a numeric "CD-ROM Option Key", else the first
   * character of its value, else F8.
   */
  function CdOptionKey(numeric: Option<int>, value: Option<Value>): int
  {
    if numeric.Some? then numeric.value
    else if value.Some? && |value.value.text| >= 1 then value.value.text[0] as int
    else F8_KEY
  }

  /** The last system volume of the chain that is not on drive `dev`. */
  function LastSystemVolumeElsewhere(chain: seq<DiskScan.Volume>, dev: int): (r: Option<nat>)
    ensures r.Some? ==> r.value < |chain| && DiskScan.Has(chain[r.value].flags, DiskScan.kBVFlagSystemVolume)
                        && chain[r.value].biosdev != dev
    ensures r.Some? ==> forall k :: r.value < k < |chain| ==>
              !(DiskScan.Has(chain[k].flags, DiskScan.kBVFlagSystemVolume) && chain[k].biosdev != dev)
    ensures r.None? ==> forall k :: 0 <= k < |chain| ==>
              !(DiskScan.Has(chain[k].flags, DiskScan.kBVFlagSystemVolume) && chain[k].biosdev != dev)
  {
    if chain == [] then None
    else
      var last := chain[|chain| - 1];
      if DiskScan.Has(last.flags, DiskScan.kBVFlagSystemVolume) && last.biosdev != dev then Some(|chain| - 1)
      else LastSystemVolumeElsewhere(chain[..|chain| - 1], dev)
  }

  /**
   * The answer to the CD-ROM prompt: the option key opens the menu;
   * otherwise 'h' in the low byte picks the last system volume on another
   * drive (the default stays when there is none) and any other key boots
   * the default.
   */
  method CdPromptAnswer(key: int, optionKey: int, chain: seq<DiskScan.Volume>, dev: int, current: Option<nat>)
      returns (openMenu: bool, volume: Option<nat>)
    ensures openMenu <==> key == optionKey
    ensures openMenu ==> volume == current
    ensures !openMenu && key % 256 != 'h' as int ==> volume == current
    ensures !openMenu && key % 256 == 'h' as int ==>
              volume == (if LastSystemVolumeElsewhere(chain, dev).Some? then LastSystemVolumeElsewhere(chain, dev) else current)
  {
    volume := current;
    if key == optionKey {
      return true, current;
    }
    openMenu := false;
    if key % 256 == 'h' as int {
      for k := 0 to |chain|
        invariant volume == (if LastSystemVolumeElsewhere(chain[..k], dev).Some? then LastSystemVolumeElsewhere(chain[..k], dev) else current)
      {
        assert chain[..k + 1][..k] == chain[..k];
        if DiskScan.Has(chain[k].flags, DiskScan.kBVFlagSystemVolume) && chain[k].biosdev != dev {
          volume := Some(k);
        }
      }
      assert chain[..|chain|] == chain;
    }
  }

  // ---------------------------------------------------------------------
  // The key loop (getBootOptions)

  /** The prompt is shown when there are no volumes or the selected one boots natively. */
  predicate PromptShown(chain: seq<DiskScan.Volume>, deviceCount: nat, menuVolume: Option<nat>)
  {
    deviceCount == 0
    || (menuVolume.Some? && menuVolume.value < |chain|
        && DiskScan.Has(chain[menuVolume.value].flags, DiskScan.kBVFlagNativeBoot))
  }

  /** A line starting with '?' is a booter command. */
  predicate IsCommand(text: string)
  {
    |text| >= 1 && text[0] == '?'
  }

  /** The command word after the '?'. */
  function CommandWord(text: string): string
    requires IsCommand(text)
  {
    NextArg(text, 1).0
  }

  /**
   * What a keystroke can change at the prompt: the typed line, the menu
   * window and selection, the highlighted and chosen volumes, whether the
   * prompt is shown and the rescan switches.
   */
  datatype PromptState = PromptState(text: string, top: int, bottom: int, selection: int,
                                     menuVolume: Option<nat>, bootVolume: Option<nat>, showPrompt: bool,
                                     rescanEnabled: bool, scanSingleDrive: bool, rescanned: bool, biosDev: int)

  /** updateMenu in text mode on the prompt's copy of the window. */
  function MenuStep(s: PromptState, key: nat, items: seq<nat>, shown: bool): (r: (PromptState, bool))
  {
    var (w, moved) := MoveWindow(Window(s.top, s.bottom, s.selection), key, |items|, shown);
    (s.(top := w.top, bottom := w.bottom, selection := w.selection), moved)
  }

  /**
   * The part of the key loop before the switch: the menu moves, a new
   * selection is highlighted, a change of the prompt's visibility clears
   * the line, and the key is typed when the prompt is shown.
   */
  function RefreshStep(s: PromptState, key: nat, items: seq<nat>, shown: bool,
                       chain: seq<DiskScan.Volume>, deviceCount: nat): PromptState
  {
    TypeStep(HighlightStep(s, key, items, shown), key, chain, deviceCount)
  }

  /** The menu moves and a new selection is highlighted. */
  function HighlightStep(s: PromptState, key: nat, items: seq<nat>, shown: bool): PromptState
  {
    var (m, moved) := MenuStep(s, key, items, shown);
    m.(menuVolume := if moved && 0 <= m.selection < |items| then Some(items[m.selection]) else m.menuVolume)
  }

  /** The prompt's visibility follows the highlight, clearing the line when it changes; the key is typed when shown. */
  function TypeStep(s: PromptState, key: nat, chain: seq<DiskScan.Volume>, deviceCount: nat): PromptState
  {
    var show := PromptShown(chain, deviceCount, s.menuVolume);
    var text := if show != s.showPrompt then "" else s.text;
    s.(showPrompt := show, text := if show then Edited(text, key) else text)
  }

  /** The switch on the key; the flag is whether the key loop ends. */
  function DispatchStep(s: PromptState, key: nat, chain: seq<DiskScan.Volume>): (r: (PromptState, bool))
  {
    if key == RETURN_KEY then
      if IsCommand(s.text) then
        if CommandWord(s.text) == "norescan" && s.rescanEnabled then (s.(rescanEnabled := false), true)
        else (s.(text := ""), false)
      else
        var dev := if s.menuVolume.Some? && s.menuVolume.value < |chain| then chain[s.menuVolume.value].biosdev else s.biosDev;
        (s.(bootVolume := s.menuVolume, biosDev := dev), true)
    else if key == ESCAPE_KEY then (s.(text := ""), true)
    else if key == F5_KEY then (if s.rescanEnabled then s.(bootVolume := None, text := "") else s, true)
    else if key == F10_KEY then (s.(scanSingleDrive := false, rescanned := true, bootVolume := None, text := ""), true)
    else (s, false)
  }

  /** One pass of the key loop. */
  function KeyStep(s: PromptState, key: nat, items: seq<nat>, shown: bool,
                   chain: seq<DiskScan.Volume>, deviceCount: nat): (PromptState, bool)
  {
    DispatchStep(RefreshStep(s, key, items, shown, chain, deviceCount), key, chain)
  }

  /** One pass of the key loop on a fixed menu and chain; the flag is whether the loop ends. */
  type KeyHandler = (PromptState, nat) -> (PromptState, bool)

  function Handler(items: seq<nat>, shown: bool, chain: seq<DiskScan.Volume>, deviceCount: nat): KeyHandler
  {
    (s: PromptState, key: nat) => KeyStep(s, key, items, shown, chain, deviceCount)
  }

  /**
   * The key loop over the keys typed: each key is handled in turn until
   * one ends the loop. The result is the state after it, whether a key
   * ended the loop, and how many keys were handled.
   */
  function RunKeys(step: KeyHandler, s: PromptState, keys: seq<nat>): (r: (PromptState, bool, nat))
    ensures r.2 <= |keys| && (!r.1 ==> r.2 == |keys|) && (r.1 ==> r.2 >= 1)
    decreases |keys|
  {
    if keys == [] then (s, false, 0)
    else
      var (t, d) := step(s, keys[0]);
      if d then (t, true, 1)
      else
        var (u, e, n) := RunKeys(step, t, keys[1..]);
        (u, e, n + 1)
  }

  /** `whole` is what the loop makes of `s` and the keys `rest` still to come, after `used` keys. */
  ghost predicate Pending(step: KeyHandler, whole: (PromptState, bool, nat), s: PromptState, rest: seq<nat>, used: nat)
  {
    var r := RunKeys(step, s, rest);
    whole == (r.0, r.1, r.2 + used)
  }

  /** The loop's bookkeeping over one key. */
  lemma RunKeysAdvance(step: KeyHandler, whole: (PromptState, bool, nat), before: PromptState, after: PromptState,
                       done: bool, keys: seq<nat>, used: nat)
    requires used < |keys| && step(before, keys[used]) == (after, done)
    requires Pending(step, whole, before, keys[used..], used)
    ensures done ==> whole == (after, true, used + 1)
    ensures !done ==> Pending(step, whole, after, keys[used + 1..], used + 1)
  {
    assert keys[used..][1..] == keys[used + 1..];
  }

  /** The keys after the one that ends the loop are never read: the loop over the keys it handled gives the same result. */
  lemma {:induction false} RunKeysPrefix(step: KeyHandler, s: PromptState, keys: seq<nat>, n: nat)
    requires RunKeys(step, s, keys).2 <= n <= |keys|
    ensures RunKeys(step, s, keys[..n]) == RunKeys(step, s, keys)
    decreases |keys|
  {
    if keys != [] && n > 0 {
      var (t, d) := step(s, keys[0]);
      assert keys[..n][0] == keys[0];
      if !d {
        assert keys[..n][1..] == keys[1..][..n - 1];
        RunKeysPrefix(step, t, keys[1..], n - 1);
      }
    }
  }

  /** The keys that end the loop: Escape, F5 and F10 always do, and any key but these and Return never does. */
  ghost predicate EndsOn(step: KeyHandler)
  {
    forall s: PromptState, key: nat ::
      && (key == ESCAPE_KEY || key == F5_KEY || key == F10_KEY ==> step(s, key).1)
      && (key != RETURN_KEY && key != ESCAPE_KEY && key != F5_KEY && key != F10_KEY ==> !step(s, key).1)
  }

  /**
   * The loop ends only on Return, Escape, F5 or F10, and no key it
   * handled before that one was Escape, F5 or F10.
   */
  lemma {:induction false} RunKeysStops(step: KeyHandler, s: PromptState, keys: seq<nat>)
    requires EndsOn(step)
    ensures var r := RunKeys(step, s, keys);
      && (r.1 ==> keys[r.2 - 1] in {RETURN_KEY, ESCAPE_KEY, F5_KEY, F10_KEY})
      && forall j :: 0 <= j < r.2 - 1 ==> keys[j] != ESCAPE_KEY && keys[j] != F5_KEY && keys[j] != F10_KEY
    decreases |keys|
  {
    if keys != [] {
      var (t, d) := step(s, keys[0]);
      if !d {
        RunKeysStops(step, t, keys[1..]);
        assert forall j :: 1 <= j < |keys| ==> keys[j] == keys[1..][j - 1];
      }
    }
  }

  /** The prompt's key loop ends on Return, Escape, F5 or F10, and on no Escape, F5 or F10 before that. */
  lemma HandlerStops(items: seq<nat>, shown: bool, chain: seq<DiskScan.Volume>, deviceCount: nat,
                     s: PromptState, keys: seq<nat>, t: PromptState, done: bool, used: nat)
    requires (t, done, used) == RunKeys(Handler(items, shown, chain, deviceCount), s, keys)
    ensures used <= |keys| && (!done ==> used == |keys|)
    ensures done ==> used >= 1 && keys[used - 1] in {RETURN_KEY, ESCAPE_KEY, F5_KEY, F10_KEY}
    ensures forall j :: 0 <= j < used - 1 ==> keys[j] != ESCAPE_KEY && keys[j] != F5_KEY && keys[j] != F10_KEY
  {
    HandlerEnds(items, shown, chain, deviceCount);
    RunKeysStops(Handler(items, shown, chain, deviceCount), s, keys);
  }

  /**
   * What one pass of the key loop does, key by key, from a state where
   * the prompt's visibility matches the highlight and the selection is
   * on the menu.
   */
  lemma KeyStepCases(s: PromptState, key: nat, items: seq<nat>, shown: bool, chain: seq<DiskScan.Volume>, deviceCount: nat)
    requires s.showPrompt == PromptShown(chain, deviceCount, s.menuVolume)
    requires shown ==> 0 <= s.top <= s.selection <= s.bottom < |items|
    ensures var (t, done) := KeyStep(s, key, items, shown, chain, deviceCount);
      && (key == ESCAPE_KEY ==> done && t.text == "" && t.bootVolume == s.bootVolume)
      && (key == F5_KEY ==> done)
      && (key == F5_KEY && s.rescanEnabled ==> t.bootVolume.None? && t.text == "")
      && (key == F5_KEY && !s.rescanEnabled ==> t.bootVolume == s.bootVolume)
      && (key == F10_KEY ==> done && t.bootVolume.None? && !t.scanSingleDrive && t.rescanned && t.text == "")
      && (key == RETURN_KEY && !IsCommand(s.text) ==>
            && done && t.menuVolume == s.menuVolume && t.bootVolume == t.menuVolume
            && (t.menuVolume.Some? && t.menuVolume.value < |chain| ==> t.biosDev == chain[t.menuVolume.value].biosdev))
      && (key == RETURN_KEY && IsCommand(s.text) ==>
            && (done <==> CommandWord(s.text) == "norescan" && s.rescanEnabled)
            && (done ==> !t.rescanEnabled)
            && (!done ==> t.text == "")
            && t.bootVolume == s.bootVolume)
      && (key != RETURN_KEY && key != ESCAPE_KEY && key != F5_KEY && key != F10_KEY ==>
            !done && t.bootVolume == s.bootVolume)
      && (key != UP_ARROW_KEY && key != DOWN_ARROW_KEY ==> t.menuVolume == s.menuVolume)
  {
    var r := RefreshStep(s, key, items, shown, chain, deviceCount);
    RefreshKeeps(s, key, items, shown, chain, deviceCount);
    assert KeyStep(s, key, items, shown, chain, deviceCount) == DispatchStep(r, key, chain);
  }

  /** The refresh before the switch leaves the chosen volume and the switches alone; a key other than an arrow also leaves the highlight, and Return the line. */
  lemma RefreshKeeps(s: PromptState, key: nat, items: seq<nat>, shown: bool, chain: seq<DiskScan.Volume>, deviceCount: nat)
    requires s.showPrompt == PromptShown(chain, deviceCount, s.menuVolume)
    ensures var r := RefreshStep(s, key, items, shown, chain, deviceCount);
      && r.bootVolume == s.bootVolume && r.rescanEnabled == s.rescanEnabled && r.biosDev == s.biosDev
      && (key != UP_ARROW_KEY && key != DOWN_ARROW_KEY ==> r.menuVolume == s.menuVolume)
      && (key == RETURN_KEY ==> r.text == s.text)
  {
    var h := HighlightStep(s, key, items, shown);
    if key != UP_ARROW_KEY && key != DOWN_ARROW_KEY {
      assert h == s;
    }
    if key == RETURN_KEY {
      assert Edited(s.text, key) == s.text;
    }
  }

  /** An arrow that moves the selection keeps it on the menu and highlights the item under it. */
  lemma KeyStepMoves(s: PromptState, key: nat, items: seq<nat>, shown: bool, chain: seq<DiskScan.Volume>, deviceCount: nat)
    requires shown ==> 0 <= s.top <= s.selection <= s.bottom < |items|
    requires key == UP_ARROW_KEY || key == DOWN_ARROW_KEY
    ensures var t := KeyStep(s, key, items, shown, chain, deviceCount).0;
      t.selection != s.selection ==> 0 <= t.selection < |items| && t.menuVolume == Some(items[t.selection])
  {
    var (m, moved) := MenuStep(s, key, items, shown);
    assert moved <==> m.selection != s.selection;
    var h := HighlightStep(s, key, items, shown);
    assert KeyStep(s, key, items, shown, chain, deviceCount).0 == TypeStep(h, key, chain, deviceCount);
  }

  /** The prompt's key loop ends exactly as the booter's switch says. */
  lemma HandlerEnds(items: seq<nat>, shown: bool, chain: seq<DiskScan.Volume>, deviceCount: nat)
    ensures EndsOn(Handler(items, shown, chain, deviceCount))
  {
    var step := Handler(items, shown, chain, deviceCount);
    forall s: PromptState, key: nat
      ensures key == ESCAPE_KEY || key == F5_KEY || key == F10_KEY ==> step(s, key).1
      ensures key != RETURN_KEY && key != ESCAPE_KEY && key != F5_KEY && key != F10_KEY ==> !step(s, key).1
    {
      assert step(s, key) == KeyStep(s, key, items, shown, chain, deviceCount);
    }
  }

  /**
   * The state of the boot prompt: the typed line, the menu over the
   * volume chain, the highlighted volume (menuBVR), the chosen one
   * (gBootVolume) and the rescan switches.
   */
  class Prompt {
    const args: BootArgs
    const menu: Menu
    const chain: seq<DiskScan.Volume>
    const deviceCount: nat
    var menuVolume: Option<nat>
    var bootVolume: Option<nat>
    var showPrompt: bool
    var rescanEnabled: bool
    var scanSingleDrive: bool
    /** scanDisks was asked to rescan the drives. */
    var rescanned: bool
    var biosDev: int

    ghost predicate Valid()
      reads this, args, args.buf, menu
    {
      Ready() && showPrompt == PromptShown(chain, deviceCount, menuVolume)
    }

    /** Everything `Valid` asks but the prompt's visibility, which lags one step behind a new highlight. */
    ghost predicate Ready()
      reads this, args, args.buf, menu
    {
      args.Valid() && menu.Valid()
      && (menu.shown ==> forall k :: 0 <= k < |menu.items| ==> menu.items[k] < |chain|)
      && (menuVolume.Some? ==> menuVolume.value < |chain|)
      && (deviceCount > 0 ==> menuVolume.Some?)
    }

    /** The part of the prompt a keystroke can change. */
    ghost function State(): PromptState
      reads this, args, menu
    {
      PromptState(args.text, menu.top, menu.bottom, menu.selection, menuVolume, bootVolume, showPrompt,
                  rescanEnabled, scanSingleDrive, rescanned, biosDev)
    }

    /**
     * The menu and prompt getBootOptions sets up: the menu of the visible
     * volumes with the default highlighted, and an empty typed line.
     */
    constructor(a: BootArgs, m: Menu, c: seq<DiskScan.Volume>, count: nat, selected: Option<nat>,
                rescan: bool, scanSingle: bool, dev: int)
      requires a.buf.Length == BOOT_STRING_LEN && m.Valid()
      requires m.shown ==> forall k :: 0 <= k < |m.items| ==> m.items[k] < |c|
      requires count == DiskScan.CountVisible(c)
      requires selected.Some? ==> selected.value < |c|
      requires count > 0 ==> selected.Some?
      modifies a, a.buf, m
      ensures Valid()
      ensures args == a && menu == m && chain == c && deviceCount == count
      ensures menuVolume == selected && bootVolume == selected
      ensures args.text == ""
      ensures count > 0 ==> menu.shown && menu.items == BuildMenuItems(c)
      ensures rescanEnabled == rescan && scanSingleDrive == scanSingle && !rescanned && biosDev == dev
    {
      var items, selectIndex := BuildMenu(c, count, selected);
      ItemsInChain(c, items);
      if count > 0 {
        m.Show(items, selectIndex, MENU_MAX_ITEMS);
      }
      a.Clear();
      args, menu, chain, deviceCount := a, m, c, count;
      menuVolume, bootVolume := selected, selected;
      rescanEnabled, scanSingleDrive, rescanned, biosDev := rescan, scanSingle, false, dev;
      showPrompt := PromptShown(c, count, selected);
    }

    /**
     * One pass of the key loop: the arrows move the highlight; a change
     * of the prompt's visibility clears the line; the key is typed when
     * the prompt is shown; then Return boots the highlighted volume or
     * runs a '?' command, Escape clears the line, F5 (when rescanning is
     * enabled) and F10 drop the chosen volume, and F10 rescans every
     * drive. `done` is whether the loop ends.
     */
    method HandleKey(key: nat) returns (done: bool)
      requires Valid()
      modifies this, args, args.buf, menu
      ensures Valid()
      ensures args.buf == old(args.buf)
      ensures menu.items == old(menu.items) && menu.shown == old(menu.shown)
      ensures (State(), done) == Handler(menu.items, menu.shown, chain, deviceCount)(old(State()), key)
    {
      ghost var s0 := State();
      Refresh(key);
      ghost var s1 := State();
      assert s1 == RefreshStep(s0, key, menu.items, menu.shown, chain, deviceCount);
      done := Dispatch(key);
    }

    /**
     * Before the switch: the arrows move the highlight, a change of the
     * prompt's visibility clears the line, and the key is typed when the
     * prompt is shown.
     */
    method Refresh(key: nat)
      requires Valid()
      modifies this, args, args.buf, menu
      ensures Valid() && args.buf == old(args.buf)
      ensures menu.items == old(menu.items) && menu.shown == old(menu.shown)
      ensures State() == RefreshStep(old(State()), key, menu.items, menu.shown, chain, deviceCount)
    {
      Highlight(key);
      TypeKey(key);
    }

    /** The arrows move the menu selection, and a new selection is highlighted. */
    method Highlight(key: nat)
      requires Valid()
      modifies this, menu
      ensures Ready()
      ensures menu.items == old(menu.items) && menu.shown == old(menu.shown)
      ensures State() == HighlightStep(old(State()), key, menu.items, menu.shown)
    {
      var moved, param := menu.Move(key);
      if moved {
        menuVolume := Some(param);
      }
    }

    /** A change of the prompt's visibility clears the line, and the key is typed when the prompt is shown. */
    method TypeKey(key: nat)
      requires Ready()
      modifies this, args, args.buf
      ensures Valid() && args.buf == old(args.buf)
      ensures menuVolume == old(menuVolume)
      ensures State() == TypeStep(old(State()), key, chain, deviceCount)
    {
      var newShow := PromptShown(chain, deviceCount, menuVolume);
      if newShow != showPrompt {
        showPrompt := newShow;
        args.Clear();
      }
      if showPrompt {
        args.Update(key);
      }
    }

    /** The switch on the key, after the line and the menu have seen it. */
    method Dispatch(key: nat) returns (done: bool)
      requires Valid()
      modifies this, args, args.buf
      ensures Valid() && menuVolume == old(menuVolume) && args.buf == old(args.buf)
      ensures (State(), done) == DispatchStep(old(State()), key, chain)
    {
      done := false;
      if key == RETURN_KEY {
        done := OnReturn();
      } else if key == ESCAPE_KEY {
        args.Clear();
        done := true;
      } else if key == F5_KEY {
        if rescanEnabled {
          bootVolume := None;
          args.Clear();
        }
        done := true;
      } else if key == F10_KEY {
        scanSingleDrive := false;
        rescanned := true;
        bootVolume := None;
        args.Clear();
        done := true;
      }
    }

    /** Return: a '?' line runs a booter command, any other line boots the highlighted volume. */
    method OnReturn() returns (done: bool)
      requires Valid()
      modifies this, args, args.buf
      ensures Valid() && menuVolume == old(menuVolume) && args.buf == old(args.buf)
      ensures (State(), done) == DispatchStep(old(State()), RETURN_KEY, chain)
    {
      args.LineIsText();
      var line := args.Line();
      if |line| >= 1 && line[0] == '?' {
        done := OnCommand(line);
        return;
      }
      bootVolume := menuVolume;
      if menuVolume.Some? {
        biosDev := chain[menuVolume.value].biosdev;
      }
      done := true;
    }

    /** Return on a line starting with '?': "?norescan" turns rescanning off and ends the loop; any other command is cleared. */
    method OnCommand(line: string) returns (done: bool)
      requires Valid() && line == args.text && IsCommand(line)
      modifies this, args, args.buf
      ensures Valid() && menuVolume == old(menuVolume) && args.buf == old(args.buf)
      ensures (State(), done) == DispatchStep(old(State()), RETURN_KEY, chain)
    {
      var command, next := GetNextArg(line, 1);
      if command == "norescan" && rescanEnabled {
        rescanEnabled := false;
        return true;
      }
      args.Clear();
      done := false;
    }

    /** One pass of the do-while loop on the key `keys[used]`, with what it means for the loop's result. */
    method Pass(keys: seq<nat>, used: nat, ghost step: KeyHandler, ghost whole: (PromptState, bool, nat))
        returns (done: bool)
      requires Valid() && used < |keys| && step == Handler(menu.items, menu.shown, chain, deviceCount)
      requires Pending(step, whole, State(), keys[used..], used)
      modifies this, args, args.buf, menu
      ensures Valid() && args.buf == old(args.buf)
      ensures menu.items == old(menu.items) && menu.shown == old(menu.shown)
      ensures done ==> whole == (State(), true, used + 1)
      ensures !done ==> Pending(step, whole, State(), keys[used + 1..], used + 1)
    {
      ghost var before := State();
      done := HandleKey(keys[used]);
      RunKeysAdvance(step, whole, before, State(), done, keys, used);
    }

    /**
     * The do-while loop over the keys typed: each is handled in turn
     * until one ends the loop, which is always Return, Escape, F5 or F10;
     * no key before it was Escape, F5 or F10. The state after the loop is
     * the keystroke model run over the keys.
     */
    method Run(keys: seq<nat>) returns (used: nat, done: bool)
      requires Valid()
      modifies this, args, args.buf, menu
      ensures Valid() && args.buf == old(args.buf)
      ensures used <= |keys|
      ensures !done ==> used == |keys|
      ensures done ==> used >= 1 && keys[used - 1] in {RETURN_KEY, ESCAPE_KEY, F5_KEY, F10_KEY}
      ensures forall j :: 0 <= j < used - 1 ==> keys[j] != ESCAPE_KEY && keys[j] != F5_KEY && keys[j] != F10_KEY
      ensures menu.items == old(menu.items) && menu.shown == old(menu.shown)
      ensures (State(), done, used) == RunKeys(Handler(menu.items, menu.shown, chain, deviceCount), old(State()), keys)
    {
      ghost var s0 := State();
      ghost var step := Handler(menu.items, menu.shown, chain, deviceCount);
      ghost var whole := RunKeys(step, s0, keys);
      used, done := 0, false;
      assert keys[0..] == keys;
      while used < |keys| && !done
        invariant Valid() && args.buf == old(args.buf)
        invariant used <= |keys|
        invariant menu.items == old(menu.items) && menu.shown == old(menu.shown)
        invariant done ==> whole == (State(), true, used)
        invariant !done ==> Pending(step, whole, State(), keys[used..], used)
      {
        done := Pass(keys, used, step, whole);
        used := used + 1;
      }
      assert (State(), done, used) == whole;
      HandlerStops(menu.items, menu.shown, chain, deviceCount, s0, keys, State(), done, used);
    }
  }

  /** Menu items are records of the chain. */
  lemma ItemsInChain(chain: seq<DiskScan.Volume>, items: seq<nat>)
    requires |items| == |VisibleIndices(chain)|
    requires forall k :: 0 <= k < |items| ==> items[k] == VisibleIndices(chain)[|items| - 1 - k]
    ensures items == BuildMenuItems(chain)
    ensures forall k :: 0 <= k < |items| ==> items[k] < |chain|
  {
  }

  /** The menu items BuildMenu produces: the visible volumes, last first. */
  function BuildMenuItems(chain: seq<DiskScan.Volume>): (r: seq<nat>)
    ensures |r| == DiskScan.CountVisible(chain)
    ensures forall k :: 0 <= k < |r| ==> r[k] == VisibleIndices(chain)[|r| - 1 - k]
  {
    var v := VisibleIndices(chain);
    seq(|v|, k requires 0 <= k < |v| => v[|v| - 1 - k])
  }

  // ---------------------------------------------------------------------
  // The kernel command line (copyArgument, processBootArgument)

  /** `b` with `s` written from position `i`. */
  function Written(b: seq<char>, i: nat, s: string): (r: seq<char>)
    requires i + |s| <= |b|
    ensures |r| == |b| && r[..i] == b[..i] && r[i..i + |s|] == s && r[i + |s|..] == b[i + |s|..]
  {
    b[..i] + s + b[i + |s|..]
  }

  /** strncpy of |t| characters from `t`: its characters up to the first NUL, then NUL padding. */
  function NulPad(t: string): (r: string)
    ensures |r| == |t|
    ensures NoNul(t) ==> r == t
  {
    var c := CStr(t, 0);
    if NoNul(t) then HoldsLine(t, t); assert t[..|t|] == t; c + Zeros(|t| - |c|)
    else c + Zeros(|t| - |c|)
  }

  /** What copyArgument writes: `name=` when named, the value, and a space. */
  function ArgText(name: Option<string>, val: string): (r: string)
    ensures |r| == (if name.Some? then |name.value| + 1 else 0) + |val| + 1
  {
    (if name.Some? then name.value + "=" else "") + NulPad(val) + " "
  }

  /** The corrected copyArgument: the argument when all of it fits in the room left, else nothing. */
  function CopyResult(name: Option<string>, val: string, room: nat): (r: string)
    ensures |r| <= room
    ensures r == "" || r == ArgText(name, val)
  {
    if |ArgText(name, val)| <= room then ArgText(name, val) else ""
  }

  /**
   * copyArgument's room check as written: it compares the name, value and
   * space against the room, and only then charges one more for the '='.
   * The result is whether it copies and the room left afterwards.
   */
  function CopyBudgetAsWritten(nameLen: Option<nat>, cnt: nat, room: int): (r: (bool, int))
  {
    var len := (if nameLen.Some? then nameLen.value else 0) + cnt + 1;
    if len > room then (false, room)
    else (true, room - (if nameLen.Some? then len + 1 else len))
  }

  /** A named argument that exactly fills the room is copied as written and leaves the room at -1: "rd=1234567 " is 11 characters in a room of 10. */
  lemma CopyOverrunsAsWritten()
    ensures CopyBudgetAsWritten(Some(2), 7, 10) == (true, -1)
    ensures |ArgText(Some("rd"), "1234567")| == 11
  {
  }

  /** Corrected, that argument is not copied; an unnamed one is treated the same as written. */
  lemma CopyBudgetCorrected(name: Option<string>, val: string, room: nat)
    ensures CopyResult(name, val, room) == ArgText(name, val) <==> |ArgText(name, val)| <= room
    ensures name.None? ==> (CopyResult(name, val, room) != "" <==> CopyBudgetAsWritten(None, |val|, room).0)
    ensures name.None? && |ArgText(name, val)| <= room ==>
              CopyBudgetAsWritten(None, |val|, room).1 == room - |CopyResult(name, val, room)|
  {
  }

  /** The keys processBootOptions looks up hold no NUL. */
  lemma KeysHaveNoNul()
    ensures NoNul("boot-uuid") && NoNul("rd") && NoNul("Boot Device") && NoNul("Root UUID") && NoNul("-x")
  {
  }

  /** The typed value of a key: the typed line first, then the kernel flags. */
  function TypedArg(name: string, user: string, flags: string): Option<Value>
    requires NoNul(name)
  {
    var u := GetValueForBootKey(user, name);
    if u.Some? then u else GetValueForBootKey(flags, name)
  }

  /**
   * The kernel command line being assembled (bootArgs->CommandLine): the
   * cursor argP and the room left, cntRemaining, which keeps one cell for
   * the NUL and one for a space.
   */
  class KernelArgs {
    var line: array<char>
    var at: nat
    var remaining: nat

    ghost predicate Valid()
      reads this
    {
      line.Length == BOOT_STRING_LEN && at + remaining == BOOT_STRING_LEN - 2
    }

    /** The buffer, the cursor and the room left. */
    function State(): LineState
      reads this, line
    {
      LineState(line[..], at, remaining)
    }

    /** The command line as a C string, which getValueForKey reads. */
    function Line(): string
      reads this`line, line
    {
      CStr(line[..], 0)
    }

    /** A command line holding `initial`, the cursor at its start. */
    constructor(initial: seq<char>)
      requires |initial| == BOOT_STRING_LEN
      ensures Valid() && line[..] == initial && at == 0 && fresh(line)
    {
      var a := new char[BOOT_STRING_LEN](k requires 0 <= k < BOOT_STRING_LEN => initial[k]);
      assert a[..] == initial;
      line := a;
      at, remaining := 0, BOOT_STRING_LEN - 2;
    }

    /** Writes `s` at the cursor and moves past it. */
    method Put(s: string)
      requires line.Length == BOOT_STRING_LEN && at + |s| <= line.Length
      modifies this, line
      ensures line == old(line) && remaining == old(remaining)
      ensures at == old(at) + |s| && line[..] == Written(old(line[..]), old(at), s)
    {
      forall k | 0 <= k < |s| {
        line[at + k] := s[k];
      }
      assert line[..] == Written(old(line[..]), at, s);
      at := at + |s|;
    }

    /** copyArgument, with the '=' counted in the room check. */
    method CopyArgument(name: Option<string>, val: string) returns (ok: bool)
      requires Valid()
      modifies this, line
      ensures Valid() && line == old(line)
      ensures ok <==> |ArgText(name, val)| <= old(remaining)
      ensures State() == Advance(old(State()), CopyResult(name, val, old(remaining)))
    {
      var w := ArgText(name, val);
      if |w| > remaining {
        assert Written(line[..], at, "") == line[..];
        return false;
      }
      Put(w);
      remaining := remaining - |w|;
      ok := true;
    }

    /**
     * processBootArgument: a value typed at the prompt or given in the
     * kernel flags is left for the end of the line; one only in the
     * configuration is copied now. `found` is whether the key was found
     * anywhere, and `foundVal` its value as a C string.
     */
    method ProcessBootArgument(name: string, user: string, flags: string, config: ConfigFile, overrideConfig: ConfigFile)
        returns (found: bool, foundVal: string)
      requires Valid() && NoNul(name)
      modifies this, line
      ensures Valid() && line == old(line)
      ensures (found, foundVal, State()) == ArgPhase(old(State()), name, user, flags, config, overrideConfig)
    {
      var t := TypedArg(name, user, flags);
      if t.Some? {
        return true, CStr(t.value.text, 0);
      }
      var c := GetValueForKey(name, Line(), config, overrideConfig);
      if c.Some? {
        var _ := CopyArgument(Some(name), c.value.text);
        return true, CStr(c.value.text, 0);
      }
      return false, "";
    }

    /** The boot-uuid step of processBootOptions. */
    method AddBootUuid(user: string, flags: string, config: ConfigFile, overrideConfig: ConfigFile,
                       booter: bool, helper: Option<ConfigFile>, fsUuid: Option<string>)
        returns (uuidSet: bool)
      requires Valid()
      modifies this, line
      ensures Valid() && line == old(line)
      ensures (uuidSet, State()) == UuidPhase(old(State()), user, flags, config, overrideConfig, booter, helper, fsUuid)
    {
      KeysHaveNoNul();
      var cmd := Line();
      var found, _ := ProcessBootArgument("boot-uuid", user, flags, config, overrideConfig);
      if found {
        return true;
      }
      var h := HelperUuid(booter, helper, cmd, overrideConfig);
      if h.Some? {
        var _ := CopyArgument(Some("boot-uuid"), h.value.text);
        return true;
      }
      if fsUuid.Some? {
        var _ := CopyArgument(Some("boot-uuid"), fsUuid.value);
        return true;
      }
      return false;
    }

    /** The root device step: returns gRootDevice. */
    method AddRootDevice(user: string, flags: string, config: ConfigFile, overrideConfig: ConfigFile, uuidSet: bool)
        returns (rootDevice: string)
      requires Valid()
      modifies this, line
      ensures Valid() && line == old(line)
      ensures (rootDevice, State()) == RootPhase(old(State()), user, flags, config, overrideConfig, uuidSet)
    {
      KeysHaveNoNul();
      var cmd := Line();
      var found, foundVal := ProcessBootArgument("rd", user, flags, config, overrideConfig);
      if found {
        return foundVal;
      }
      rootDevice := AddBootDevice(GetValueForKey("Boot Device", cmd, config, overrideConfig), uuidSet);
    }

    /** The end of the root device step, when "rd" is given nowhere. */
    method AddBootDevice(bootDevice: Option<Value>, uuidSet: bool) returns (rootDevice: string)
      requires Valid()
      modifies this, line
      ensures Valid() && line == old(line)
      ensures (rootDevice, State()) == DevicePhase(old(State()), bootDevice, uuidSet)
    {
      var val := "";
      if bootDevice.Some? {
        val := "*" + bootDevice.value.text;
      } else if uuidSet {
        val := "*uuid";
      }
      if |val| > 0 {
        var _ := CopyArgument(Some("rd"), val);
      }
      rootDevice := CStr(val, 0);
    }

    /** The safe-mode step: "-x" when safe mode is on and "-x" is not already given. */
    method AddSafeMode(user: string, flags: string, safeMode: bool)
      requires Valid()
      modifies this, line
      ensures Valid() && line == old(line)
      ensures State() == SafePhase(old(State()), user, flags, safeMode)
    {
      KeysHaveNoNul();
      if GetValueForBootKey(user, "-x").None? && GetValueForBootKey(flags, "-x").None? && safeMode {
        var _ := CopyArgument(None, "-x");
      } else {
        assert Written(line[..], at, "") == line[..];
      }
    }

    /**
     * The end of the line: the kernel flags cut to the room left and a
     * space, which takes the cell kept for it, then as much of the typed
     * line as still fits, and the NUL.
     */
    method AppendTail(flags: string, user: string)
      requires Valid()
      modifies this, line
      ensures line == old(line)
      ensures old(at) + |TailText(flags, user, old(remaining))| < BOOT_STRING_LEN
      ensures line[..] == Written(old(line[..]), old(at), TailText(flags, user, old(remaining)) + [NUL])
      ensures line[..] == TailPhase(old(State()), flags, user)
    {
      ghost var line0 := line[..];
      ghost var at0 := at;
      var cnt := |flags|;
      ghost var head := "";
      if cnt > 0 {
        if cnt > remaining {
          cnt := remaining;
        }
        head := flags[..cnt] + " ";
        Put(flags[..cnt] + " ");
        remaining := remaining - cnt;
      } else {
        assert Written(line0, at0, "") == line0;
      }
      var userCnt := |user|;
      if userCnt > remaining {
        userCnt := remaining;
      }
      Put(user[..userCnt] + [NUL]);
      WrittenTwice(line0, at0, head, user[..userCnt] + [NUL]);
      TailPieces(flags, user, old(remaining), cnt, head, userCnt);
    }

    /**
     * processBootOptions: no volume fails with -1; a foreign volume is
     * chain-loaded from its drive (1); a native one gets its kernel and
     * command line (0). The typed line loses the blank after the kernel
     * name, which is cut off with a NUL.
     */
    method ProcessBootOptions(typed: BootArgs, volume: Option<DiskScan.Volume>, config: ConfigFile,
                              overrideConfig: ConfigFile, helper: Option<ConfigFile>, fsUuid: Option<string>,
                              safeMode: bool)
        returns (rc: int, chainDev: Option<int>, choice: Option<BootChoice>)
      requires Valid() && typed.Valid() && typed.buf != line
      modifies this, line, typed.buf
      ensures line == old(line)
      ensures volume.None? ==> rc == -1 && chainDev.None? && choice.None?
      ensures volume.Some? && !DiskScan.Has(volume.value.flags, DiskScan.kBVFlagNativeBoot) ==>
                rc == 1 && chainDev == Some(volume.value.biosdev) && choice.None?
      ensures rc != 0 ==> line[..] == old(line[..]) && typed.buf[..] == old(typed.buf[..])
      ensures volume.Some? && DiskScan.Has(volume.value.flags, DiskScan.kBVFlagNativeBoot) ==>
                rc == 0 && chainDev.None? && choice.Some?
                && (line[..], choice.value) == NativeOutcome(old(line[..]), old(typed.buf[..]),
                     DiskScan.Has(volume.value.flags, DiskScan.kBVFlagBooter), config, overrideConfig, helper, fsUuid, safeMode)
    {
      ghost var line0, typed0 := line[..], typed.buf[..];
      var cp := typed.SkipLeadingBlanks();
      if volume.None? {
        return -1, None, None;
      }
      if !DiskScan.Has(volume.value.flags, DiskScan.kBVFlagNativeBoot) {
        return 1, Some(volume.value.biosdev), None;
      }
      var cmd0 := Line();
      var name, next := typed.ExtractKernelName(cp);
      var kernel := ChooseKernel(name, GetValueForKey("Kernel", cmd0, config, overrideConfig));
      var user := CStr(typed.buf[..], next);
      UserArgs(typed0, typed.buf[..], cp, name, next);
      var flags := KernelFlags(user, cmd0, config, overrideConfig);
      var booter := DiskScan.Has(volume.value.flags, DiskScan.kBVFlagBooter);
      var rootDevice := BuildLine(user, flags, config, overrideConfig, booter, helper, fsUuid, safeMode);
      var modes := Modes(Line(), config, overrideConfig);
      rc, chainDev := 0, None;
      choice := Some(BootChoice(kernel, rootDevice, modes.0, modes.1, modes.2));
    }

    /**
     * The command line processBootOptions writes from the start of the
     * buffer: boot-uuid, rd, -x, then the flags and the typed line.
     * Returns gRootDevice.
     */
    method BuildLine(user: string, flags: string, config: ConfigFile, overrideConfig: ConfigFile,
                     booter: bool, helper: Option<ConfigFile>, fsUuid: Option<string>, safeMode: bool)
        returns (rootDevice: string)
      requires line.Length == BOOT_STRING_LEN
      modifies this, line
      ensures line == old(line)
      ensures (line[..], rootDevice) == LineOutcome(old(line[..]), user, flags, config, overrideConfig, booter, helper, fsUuid, safeMode)
    {
      at, remaining := 0, BOOT_STRING_LEN - 2;
      assert State() == LineState(old(line[..]), 0, BOOT_STRING_LEN - 2);
      var uuidSet := AddBootUuid(user, flags, config, overrideConfig, booter, helper, fsUuid);
      rootDevice := AddRootDevice(user, flags, config, overrideConfig, uuidSet);
      AddSafeMode(user, flags, safeMode);
      AppendTail(flags, user);
    }
  }

  /** The flags piece and the typed piece, with the NUL, make up the tail. */
  lemma TailPieces(flags: string, user: string, room: nat, cnt: nat, head: string, userCnt: nat)
    requires |flags| > 0 ==> cnt == Min(|flags|, room) && head == flags[..cnt] + " "
    requires |flags| == 0 ==> cnt == 0 && head == ""
    requires cnt <= room && userCnt == Min(|user|, room - cnt)
    ensures head + (user[..userCnt] + [NUL]) == TailText(flags, user, room) + [NUL]
  {
    assert TailText(flags, user, room) == head + user[..userCnt];
  }

  /** Writing `s` and then `t` after it is writing `s + t`. */
  lemma WrittenTwice(b: seq<char>, i: nat, s: string, t: string)
    requires i + |s| + |t| <= |b|
    ensures Written(Written(b, i, s), i + |s|, t) == Written(b, i, s + t)
  {
  }

  /** The typed arguments: the C string after the kernel name and its blank, which the NUL written over the blank does not reach. */
  lemma UserArgs(typed0: seq<char>, typed1: seq<char>, cp: nat, name: Option<string>, next: nat)
    requires |typed0| == BOOT_STRING_LEN && cp <= |typed0| && cp == SkipBlanks(typed0, 0)
    requires name == KernelName(typed0, cp)
    requires name.None? ==> next == cp && typed1 == typed0
    requires name.Some? && At(typed0, cp + |name.value|) == NUL ==> next == cp + |name.value| && typed1 == typed0
    requires name.Some? && At(typed0, cp + |name.value|) != NUL ==>
               next == cp + |name.value| + 1 && next <= BOOT_STRING_LEN
               && typed1 == typed0[cp + |name.value| := NUL]
    ensures next == ArgsStart(typed0) && CStr(typed1, next) == CStr(typed0, next)
  {
    if name.Some? && At(typed0, cp + |name.value|) != NUL {
      CStrPastWrite(typed0, cp + |name.value|, next);
    }
  }

  /** A C string read from `i` does not see a write before `i`. */
  lemma {:induction false} CStrPastWrite(s: string, e: nat, i: nat)
    requires e < i <= |s|
    ensures CStr(s[e := NUL], i) == CStr(s, i)
    decreases |s| - i
  {
    if i < |s| && s[i] != NUL {
      CStrPastWrite(s, e, i + 1);
    }
  }

  // ---------------------------------------------------------------------
  // processBootOptions, as functions of its inputs

  /** The kernel the booter loads, and whether it counts as overridden, which keeps the kernel cache out. */
  datatype KernelChoice = KernelChoice(bootFile: string, overrideKernel: bool)

  /** What processBootOptions decides besides the command line: kernel, gRootDevice, gVerboseMode, safe mode and gMKextName. */
  datatype BootChoice = BootChoice(kernel: KernelChoice, rootDevice: string, verbose: bool, safe: bool,
                                   mkext: Option<string>)

  /**
   * The kernel: a name typed at the prompt, else the "Kernel" key, else
   * mach_kernel. The kernel counts as overridden exactly when it was
   * typed or is not mach_kernel.
   */
  function ChooseKernel(typed: Option<string>, configured: Option<Value>): (r: KernelChoice)
    ensures typed.Some? ==> r == KernelChoice(typed.value, true)
    ensures typed.None? && configured.Some? ==> r.bootFile == CStr(configured.value.text, 0)
    ensures typed.None? && configured.None? ==> r == KernelChoice(DEFAULT_KERNEL, false)
    ensures r.overrideKernel <==> typed.Some? || r.bootFile != DEFAULT_KERNEL
  {
    if typed.Some? then KernelChoice(typed.value, true)
    else if configured.Some? then
      var f := CStr(configured.value.text, 0);
      KernelChoice(f, f != DEFAULT_KERNEL)
    else KernelChoice(DEFAULT_KERNEL, false)
  }

  /** Where the typed arguments start: after the kernel name and the blank that ends it. */
  function ArgsStart(s: string): (j: nat)
    ensures j <= |s|
  {
    var cp := SkipBlanks(s, 0);
    var k := KernelName(s, cp);
    if k.None? then cp
    else if At(s, cp + |k.value|) == NUL then cp + |k.value|
    else cp + |k.value| + 1
  }

  /** The configured kernel flags, unless "-F" is typed. */
  function KernelFlags(user: string, cmdline: string, config: ConfigFile, overrideConfig: ConfigFile): (r: string)
    ensures NoNul(r)
  {
    var v := GetValueForKey("Kernel Flags", cmdline, config, overrideConfig);
    if GetValueForBootKey(user, "-F").Some? || v.None? then "" else CStr(v.value.text, 0)
  }

  /** The helper partition's "Root UUID", looked up only for a booter volume with a helper configuration. */
  function HelperUuid(booter: bool, helper: Option<ConfigFile>, cmdline: string, overrideConfig: ConfigFile): Option<Value>
  {
    if booter && helper.Some? then GetValueForKey("Root UUID", cmdline, helper.value, overrideConfig) else None
  }

  /**
   * The boot-uuid step, given the typed value, the configured one, the
   * helper's and the file system's: whether a boot-uuid is set, and what
   * is copied for it. A typed one is left for the end of the line.
   */
  function UuidArg(typed: Option<Value>, configured: Option<Value>, helperUuid: Option<Value>, fsUuid: Option<string>,
                   room: nat): (r: (bool, string))
    ensures |r.1| <= room
    ensures r.0 <==> typed.Some? || configured.Some? || helperUuid.Some? || fsUuid.Some?
  {
    if typed.Some? then (true, "")
    else if configured.Some? then (true, CopyResult(Some("boot-uuid"), configured.value.text, room))
    else if helperUuid.Some? then (true, CopyResult(Some("boot-uuid"), helperUuid.value.text, room))
    else if fsUuid.Some? then (true, CopyResult(Some("boot-uuid"), fsUuid.value, room))
    else (false, "")
  }

  /**
   * The root device step, given the typed "rd", the configured one and
   * "Boot Device": gRootDevice and what is copied for "rd". A typed one
   * is left for the end of the line; otherwise the configured one, then
   * '*' and the boot device, then "*uuid" once a boot-uuid is set.
   */
  function RootArg(typed: Option<Value>, configured: Option<Value>, bootDevice: Option<Value>, uuidSet: bool,
                   room: nat): (r: (string, string))
    ensures |r.1| <= room
  {
    if typed.Some? then (CStr(typed.value.text, 0), "")
    else if configured.Some? then (CStr(configured.value.text, 0), CopyResult(Some("rd"), configured.value.text, room))
    else if bootDevice.Some? then (CStr("*" + bootDevice.value.text, 0), CopyResult(Some("rd"), "*" + bootDevice.value.text, room))
    else if uuidSet then ("*uuid", CopyResult(Some("rd"), "*uuid", room))
    else ("", "")
  }

  /** The boot-uuid step with its lookups made in the command line as it stands. */
  function UuidStep(user: string, flags: string, cmdline: string, config: ConfigFile, overrideConfig: ConfigFile,
                    booter: bool, helper: Option<ConfigFile>, fsUuid: Option<string>, room: nat): (r: (bool, string))
    ensures |r.1| <= room
  {
    UuidArg(TypedArg("boot-uuid", user, flags), GetValueForKey("boot-uuid", cmdline, config, overrideConfig),
            HelperUuid(booter, helper, cmdline, overrideConfig), fsUuid, room)
  }

  /** The root device step with its lookups made in the command line as it stands. */
  function RootStep(user: string, flags: string, cmdline: string, config: ConfigFile, overrideConfig: ConfigFile,
                    uuidSet: bool, room: nat): (r: (string, string))
    ensures |r.1| <= room
  {
    RootArg(TypedArg("rd", user, flags), GetValueForKey("rd", cmdline, config, overrideConfig),
            GetValueForKey("Boot Device", cmdline, config, overrideConfig), uuidSet, room)
  }

  /** "-x" is copied when safe mode is on and neither the typed line nor the flags hold it. */
  function SafeArg(user: string, flags: string, safeMode: bool, room: nat): (r: string)
    ensures |r| <= room
  {
    if GetValueForBootKey(user, "-x").None? && GetValueForBootKey(flags, "-x").None? && safeMode
    then CopyResult(None, "-x", room) else ""
  }

  /** The end of the line: the flags cut to the room and a space, then as much of the typed line as the rest of the room holds. */
  function TailText(flags: string, user: string, room: nat): (r: string)
    ensures |r| <= room + 1
  {
    var f := Min(|flags|, room);
    var head := if |flags| > 0 then flags[..f] + " " else "";
    head + user[..Min(|user|, room - f)]
  }

  /**
   * The room arithmetic of the tail as written: the flags and their space
   * are charged as one more than was checked. The result is the room left
   * and the count of typed characters copied.
   */
  function TailBudgetAsWritten(flagsLen: nat, userLen: nat, room: int): (r: (int, int))
  {
    var cnt := if flagsLen > 0 then (if flagsLen > room then room else flagsLen) + 1 else 0;
    var left := room - cnt;
    (left, if userLen > left then left else userLen)
  }

  /** Flags exactly as long as the room leave it at -1, and the typed line is then copied with a count of -1, which strncpy takes as its largest size. */
  lemma TailOverrunsAsWritten()
    ensures TailBudgetAsWritten(5, 0, 5) == (-1, -1)
  {
  }

  /** gVerboseMode, the safe-mode bit and gMKextName from the finished command line and the configuration. */
  function Modes(cmdline: string, config: ConfigFile, overrideConfig: ConfigFile): (r: (bool, bool, Option<string>))
  {
    var verbose := GetValueForKey("-v", cmdline, config, overrideConfig).Some?
                   || GetValueForKey("-s", cmdline, config, overrideConfig).Some?;
    var safe := GetValueForKey("-x", cmdline, config, overrideConfig).Some?
                || GetValueForKey("-f", cmdline, config, overrideConfig).Some?;
    var mk := GetValueForKey("MKext Cache", cmdline, config, overrideConfig);
    (verbose, safe, if mk.Some? then Some(CStr(mk.value.text, 0)) else None)
  }

  /** The command line while processBootOptions writes it: the buffer, the cursor and the room left. */
  datatype LineState = LineState(line: seq<char>, at: nat, room: nat)
  {
    ghost predicate Valid()
    {
      |line| == BOOT_STRING_LEN && at + room == BOOT_STRING_LEN - 2
    }
  }

  /** `w` written at the cursor, which moves past it, using up as much room. */
  function Advance(st: LineState, w: string): (r: LineState)
    requires st.Valid() && |w| <= st.room
    ensures r.Valid()
  {
    LineState(Written(st.line, st.at, w), st.at + |w|, st.room - |w|)
  }

  /**
   * processBootArgument on a command line: whether the key is found, its
   * value, and the line after it. Only a value from the configuration is
   * copied; a typed one waits for the end of the line.
   */
  function ArgPhase(st: LineState, name: string, user: string, flags: string, config: ConfigFile,
                    overrideConfig: ConfigFile): (r: (bool, string, LineState))
    requires st.Valid() && NoNul(name)
    ensures r.2.Valid()
  {
    var t := TypedArg(name, user, flags);
    if t.Some? then (true, CStr(t.value.text, 0), st)
    else
      var c := GetValueForKey(name, CStr(st.line, 0), config, overrideConfig);
      if c.Some? then (true, CStr(c.value.text, 0), Advance(st, CopyResult(Some(name), c.value.text, st.room)))
      else (false, "", st)
  }

  /** The boot-uuid step on a command line: whether a boot-uuid is set, and the line after it. */
  function UuidPhase(st: LineState, user: string, flags: string, config: ConfigFile, overrideConfig: ConfigFile,
                     booter: bool, helper: Option<ConfigFile>, fsUuid: Option<string>): (r: (bool, LineState))
    requires st.Valid()
    ensures r.1.Valid()
  {
    KeysHaveNoNul();
    var a := ArgPhase(st, "boot-uuid", user, flags, config, overrideConfig);
    var h := HelperUuid(booter, helper, CStr(st.line, 0), overrideConfig);
    if a.0 then (true, a.2)
    else if h.Some? then (true, Advance(st, CopyResult(Some("boot-uuid"), h.value.text, st.room)))
    else if fsUuid.Some? then (true, Advance(st, CopyResult(Some("boot-uuid"), fsUuid.value, st.room)))
    else (false, st)
  }

  /** The root device step on a command line: gRootDevice and the line after it. */
  function RootPhase(st: LineState, user: string, flags: string, config: ConfigFile, overrideConfig: ConfigFile,
                     uuidSet: bool): (r: (string, LineState))
    requires st.Valid()
    ensures r.1.Valid()
  {
    KeysHaveNoNul();
    var a := ArgPhase(st, "rd", user, flags, config, overrideConfig);
    if a.0 then (a.1, a.2)
    else DevicePhase(st, GetValueForKey("Boot Device", CStr(st.line, 0), config, overrideConfig), uuidSet)
  }

  /** The root device when "rd" is given nowhere: '*' and the boot device, else "*uuid" once a boot-uuid is set. */
  function DevicePhase(st: LineState, bootDevice: Option<Value>, uuidSet: bool): (r: (string, LineState))
    requires st.Valid()
    ensures r.1.Valid()
  {
    var val := if bootDevice.Some? then "*" + bootDevice.value.text else if uuidSet then "*uuid" else "";
    (CStr(val, 0), if |val| > 0 then Advance(st, CopyResult(Some("rd"), val, st.room)) else st)
  }

  /** Writing nothing leaves the command line as it is. */
  lemma AdvanceNothing(st: LineState)
    requires st.Valid()
    ensures Advance(st, "") == st
  {
    assert Written(st.line, st.at, "") == st.line;
  }

  /**
   * The boot-uuid step as the code takes it agrees with its reference
   * definition: the first of the typed value, the configured one, the
   * helper's and the file system's is set, and copied unless it was typed.
   */
  lemma UuidPhaseAgrees(st: LineState, user: string, flags: string, config: ConfigFile, overrideConfig: ConfigFile,
                        booter: bool, helper: Option<ConfigFile>, fsUuid: Option<string>)
    requires st.Valid()
    ensures var u := UuidStep(user, flags, CStr(st.line, 0), config, overrideConfig, booter, helper, fsUuid, st.room);
            UuidPhase(st, user, flags, config, overrideConfig, booter, helper, fsUuid) == (u.0, Advance(st, u.1))
  {
    KeysHaveNoNul();
    var cmd := CStr(st.line, 0);
    var t := TypedArg("boot-uuid", user, flags);
    var c := GetValueForKey("boot-uuid", cmd, config, overrideConfig);
    var h := HelperUuid(booter, helper, cmd, overrideConfig);
    var a := ArgPhase(st, "boot-uuid", user, flags, config, overrideConfig);
    assert UuidStep(user, flags, cmd, config, overrideConfig, booter, helper, fsUuid, st.room) == UuidArg(t, c, h, fsUuid, st.room);
    if t.Some? {
      assert a.0 && a.2 == st;
      AdvanceNothing(st);
    } else if c.Some? {
      assert a.0 && a.2 == Advance(st, CopyResult(Some("boot-uuid"), c.value.text, st.room));
    } else {
      assert !a.0;
      if h.None? && fsUuid.None? {
        AdvanceNothing(st);
      }
    }
  }

  /**
   * The root device step as the code takes it agrees with its reference
   * definition: the typed "rd", else the configured one, else '*' and the
   * boot device, else "*uuid" once a boot-uuid is set, else nothing.
   */
  lemma RootPhaseAgrees(st: LineState, user: string, flags: string, config: ConfigFile, overrideConfig: ConfigFile,
                        uuidSet: bool)
    requires st.Valid()
    ensures var r := RootStep(user, flags, CStr(st.line, 0), config, overrideConfig, uuidSet, st.room);
            RootPhase(st, user, flags, config, overrideConfig, uuidSet) == (r.0, Advance(st, r.1))
  {
    KeysHaveNoNul();
    var cmd := CStr(st.line, 0);
    var t := TypedArg("rd", user, flags);
    var c := GetValueForKey("rd", cmd, config, overrideConfig);
    var d := GetValueForKey("Boot Device", cmd, config, overrideConfig);
    var a := ArgPhase(st, "rd", user, flags, config, overrideConfig);
    assert RootStep(user, flags, cmd, config, overrideConfig, uuidSet, st.room) == RootArg(t, c, d, uuidSet, st.room);
    if t.Some? {
      assert a == (true, CStr(t.value.text, 0), st);
      AdvanceNothing(st);
    } else if c.Some? {
      assert a == (true, CStr(c.value.text, 0), Advance(st, CopyResult(Some("rd"), c.value.text, st.room)));
    } else {
      assert !a.0;
      if d.None? && !uuidSet {
        AdvanceNothing(st);
      } else if d.None? {
        HoldsLine("*uuid", "*uuid");
      }
    }
  }

  /** The safe-mode step on a command line. */
  function SafePhase(st: LineState, user: string, flags: string, safeMode: bool): (r: LineState)
    requires st.Valid()
    ensures r.Valid()
  {
    Advance(st, SafeArg(user, flags, safeMode, st.room))
  }

  /** The end of the line: the flags, the typed line and the NUL, which may use the cell kept for the space. */
  function TailPhase(st: LineState, flags: string, user: string): (r: seq<char>)
    requires st.Valid()
    ensures |r| == BOOT_STRING_LEN
  {
    Written(st.line, st.at, TailText(flags, user, st.room) + [NUL])
  }

  /**
   * The command line written from the start of `line0`, and gRootDevice.
   * Each configuration lookup reads the command line as written so far.
   */
  function LineOutcome(line0: seq<char>, user: string, flags: string, config: ConfigFile, overrideConfig: ConfigFile,
                       booter: bool, helper: Option<ConfigFile>, fsUuid: Option<string>, safeMode: bool): (r: (seq<char>, string))
    requires |line0| == BOOT_STRING_LEN
  {
    var st0 := LineState(line0, 0, BOOT_STRING_LEN - 2);
    var (uuidSet, st1) := UuidPhase(st0, user, flags, config, overrideConfig, booter, helper, fsUuid);
    var (rootDevice, st2) := RootPhase(st1, user, flags, config, overrideConfig, uuidSet);
    (TailPhase(SafePhase(st2, user, flags, safeMode), flags, user), rootDevice)
  }

  /** The command line processBootOptions leaves ends with a NUL inside the buffer. */
  lemma LineOutcomeTerminated(line0: seq<char>, user: string, flags: string, config: ConfigFile, overrideConfig: ConfigFile,
                              booter: bool, helper: Option<ConfigFile>, fsUuid: Option<string>, safeMode: bool)
    requires |line0| == BOOT_STRING_LEN
    ensures var r := LineOutcome(line0, user, flags, config, overrideConfig, booter, helper, fsUuid, safeMode).0;
            |r| == BOOT_STRING_LEN && exists k :: 0 <= k < BOOT_STRING_LEN && r[k] == NUL
  {
    var st0 := LineState(line0, 0, BOOT_STRING_LEN - 2);
    var u := UuidPhase(st0, user, flags, config, overrideConfig, booter, helper, fsUuid);
    var rd := RootPhase(u.1, user, flags, config, overrideConfig, u.0);
    var st3 := SafePhase(rd.1, user, flags, safeMode);
    var tail := TailText(flags, user, st3.room) + [NUL];
    var r := Written(st3.line, st3.at, tail);
    assert r[st3.at..st3.at + |tail|] == tail;
    assert r[st3.at + |tail| - 1] == NUL;
  }

  /** When the flags and the typed line fit in the room, the tail holds all of both. */
  lemma TailKeepsAll(flags: string, user: string, room: nat)
    requires |flags| + |user| <= room
    ensures TailText(flags, user, room) == (if |flags| > 0 then flags + " " else "") + user
  {
    assert flags[..|flags|] == flags && user[..|user|] == user;
  }

  /**
   * processBootOptions on a native volume, as a function of the command
   * line it starts from and the typed line: the command line it leaves
   * and what it decides. Each configuration lookup reads the command line
   * as written so far.
   */
  function NativeOutcome(line0: seq<char>, typed0: seq<char>, booter: bool, config: ConfigFile, overrideConfig: ConfigFile,
                         helper: Option<ConfigFile>, fsUuid: Option<string>, safeMode: bool): (r: (seq<char>, BootChoice))
    requires |line0| == BOOT_STRING_LEN
  {
    var cmd0 := CStr(line0, 0);
    var kernel := ChooseKernel(KernelName(typed0, SkipBlanks(typed0, 0)), GetValueForKey("Kernel", cmd0, config, overrideConfig));
    var user := CStr(typed0, ArgsStart(typed0));
    var flags := KernelFlags(user, cmd0, config, overrideConfig);
    var (line, rootDevice) := LineOutcome(line0, user, flags, config, overrideConfig, booter, helper, fsUuid, safeMode);
    var m := Modes(CStr(line, 0), config, overrideConfig);
    (line, BootChoice(kernel, rootDevice, m.0, m.1, m.2))
  }
}
