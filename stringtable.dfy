/**
 * Key lookup of the boot loader (libsaio/stringTable.c): the kernel command
 * line parser, the typed accessors built on it (boolean, integer, screen
 * dimension, colour), the layered lookup command line > override config >
 * base config, and the argument splitter of the boot prompt.
 *
 * A C string is a `string` buffer read through `At`, which yields NUL past
 * the end; the buffer may hold further characters after its first NUL.
 */
module StringTable {
  import opened Wrappers
  import opened Bytes
  import opened CLib

  /** A C string argument: no NUL inside it. */
  predicate NoNul(s: string)
  {
    forall k :: 0 <= k < |s| ==> s[k] != '\0'
  }

  /** The `n` characters from `b` (NUL past the end of the buffer). */
  function Slice(s: string, b: nat, n: nat): (r: string)
    ensures |r| == n
    ensures forall k :: 0 <= k < n ==> r[k] == At(s, b + k)
    ensures b + n <= |s| ==> r == s[b..b + n]
  {
    seq(n, k requires 0 <= k < n => At(s, b + k))
  }

  /**
   * A value found for a key: `text` is the `size` characters the caller is
   * given, `rest` is the C string at the value pointer, which is what a
   * caller that ignores `size` (strtol, stringToUUID) reads.
   */
  datatype Value = Value(text: string, rest: string)

  // ---------------------------------------------------------------------
  // stringLength

  /** First position from `j` holding NUL or '"'. */
  function QuoteEnd(s: string, j: nat): (e: nat)
    ensures j <= e && (e <= |s| || e == j)
    ensures At(s, e) == '\0' || At(s, e) == '"'
    decreases |s| - j
  {
    if j < |s| && s[j] != '\0' && s[j] != '"' then QuoteEnd(s, j + 1) else j
  }

  /** Everything before the quote end is neither NUL nor '"'. */
  lemma {:induction false} QuoteEndClean(s: string, j: nat)
    ensures forall k :: j <= k < QuoteEnd(s, j) ==> k < |s| && s[k] != '\0' && s[k] != '"'
    decreases |s| - j
  {
    if j < |s| && s[j] != '\0' && s[j] != '"' {
      QuoteEndClean(s, j + 1);
    }
  }

  /**
   * `stringLength(table + i, compress)`: characters up to the first '"' or
   * NUL, where a backslash escape (two characters) counts 1 when
   * compressing and 2 otherwise.
   */
  function StringLength(s: string, i: nat, compress: bool): (n: nat)
    requires i <= |s| + 1
    decreases |s| + 1 - i
  {
    if At(s, i) == '\0' then 0
    else if At(s, i) == '\\' then (if compress then 1 else 2) + StringLength(s, i + 2, compress)
    else if At(s, i) == '"' then 0
    else 1 + StringLength(s, i + 1, compress)
  }

  /** Without escapes the length is the distance to the closing quote or NUL. */
  lemma {:induction false} StringLengthPlain(s: string, i: nat, compress: bool)
    requires i <= |s|
    requires forall k :: i <= k < |s| ==> s[k] != '\\'
    ensures StringLength(s, i, compress) == QuoteEnd(s, i) - i
    decreases |s| - i
  {
    if i < |s| && s[i] != '\0' && s[i] != '"' {
      StringLengthPlain(s, i + 1, compress);
    }
  }

  /** Compressing can only shorten, and at most halves, the length. */
  lemma {:induction false} StringLengthCompress(s: string, i: nat)
    requires i <= |s| + 1
    ensures StringLength(s, i, true) <= StringLength(s, i, false) <= 2 * StringLength(s, i, true)
    decreases |s| + 1 - i
  {
    if At(s, i) == '\0' || At(s, i) == '"' {
    } else if At(s, i) == '\\' {
      StringLengthCompress(s, i + 2);
    } else {
      StringLengthCompress(s, i + 1);
    }
  }

  // ---------------------------------------------------------------------
  // getToken / getValueForBootKey

  /** First position from `j` holding NUL, white space or '='. */
  function WordEnd(s: string, j: nat): (e: nat)
    ensures j <= e && (e <= |s| || e == j)
    ensures At(s, e) == '\0' || IsSpace(At(s, e)) || At(s, e) == '='
    decreases |s| - j
  {
    if j < |s| && s[j] != '\0' && !IsSpace(s[j]) && s[j] != '=' then WordEnd(s, j + 1) else j
  }

  /** A token: where its text begins, its length, and where scanning resumes. */
  datatype Token = Token(begin: nat, len: nat, next: nat)

  /**
   * `getToken(line + i)`. A quoted token is the text up to the closing
   * quote, which is consumed; any other token runs up to white space, '='
   * or NUL. With `pastNul` the cursor also steps over the NUL that ends an
   * unterminated quote, as the C code does (`line++` unconditionally).
   */
  function GetToken(s: string, i: nat, pastNul: bool): (t: Token)
    requires i <= |s|
    ensures i <= t.begin && t.begin + t.len <= t.next && t.next <= |s| + 1
    ensures t.begin + t.len <= |s|
    ensures !pastNul ==> t.next <= |s|
    ensures At(s, i) != '\0' && !IsSpace(At(s, i)) && At(s, i) != '=' ==> i < t.next
  {
    if At(s, i) == '"' then
      var e := QuoteEnd(s, i + 1);
      Token(i + 1, e - (i + 1), if At(s, e) == '"' || pastNul then e + 1 else e)
    else
      var e := WordEnd(s, i);
      Token(i, e - i, e)
  }

  /** The key and value tokens read by one pass of the lookup loop. */
  datatype Item = Item(key: Token, val: Token)

  /**
   * One pass of the `while (*line)` loop of `getValueForBootKey`: skip
   * white space, read a key token, then a value token after a non-space
   * separator, or else an empty value at the separator.
   */
  function ReadItem(s: string, i: nat, pastNul: bool): (it: Item)
    requires i < |s| && s[i] != '\0'
    ensures i < it.val.next <= |s| + 1
    ensures !pastNul ==> it.val.next <= |s|
    ensures it.key.begin + it.key.len <= it.val.next && it.key.begin + it.key.len <= |s|
    ensures !pastNul ==> it.val.begin + it.val.len <= it.val.next
  {
    var key := GetToken(s, SkipWhite(s, i), pastNul);
    if At(s, key.next) != '\0' && !IsSpace(At(s, key.next)) then Item(key, GetToken(s, key.next + 1, pastNul))
    else Item(key, Token(key.next, 0, key.next))
  }

  /**
   * `getValueForBootKey` from position `i`: every key equal to `m` records
   * its value (the `size` characters and the C string at the value); the
   * last one wins.
   */
  function ScanBootKey(s: string, m: string, i: nat, acc: Option<Value>, pastNul: bool): Option<Value>
    requires i <= |s| + 1
    decreases |s| + 1 - i
  {
    if At(s, i) == '\0' then acc
    else
      var it := ReadItem(s, i, pastNul);
      ScanBootKey(s, m, it.val.next, Record(s, m, it, acc), pastNul)
  }

  /** The value an item contributes when its key is `m`. */
  function Record(s: string, m: string, it: Item, acc: Option<Value>): Option<Value>
  {
    if Slice(s, it.key.begin, it.key.len) == m
    then Some(Value(Slice(s, it.val.begin, it.val.len), CStr(s, it.val.begin)))
    else acc
  }

  /** `getValueForBootKey` as written: an unterminated quote steps past the NUL. */
  function GetValueForBootKeyAsWritten(line: string, m: string): Option<Value>
    requires NoNul(m)
  {
    ScanBootKey(line, m, 0, None, true)
  }

  /** `getValueForBootKey` with the scan held at the terminating NUL. */
  function GetValueForBootKey(line: string, m: string): Option<Value>
    requires NoNul(m)
  {
    ScanBootKey(line, m, 0, None, false)
  }

  /** Two buffers agree up to and including the NUL at `n`. */
  predicate Agree(s: string, t: string, n: nat)
  {
    At(s, n) == '\0' && forall k :: 0 <= k <= n ==> At(s, k) == At(t, k)
  }

  lemma {:induction false} SkipWhiteAgree(s: string, t: string, n: nat, j: nat)
    requires Agree(s, t, n) && j <= n
    ensures SkipWhite(s, j) == SkipWhite(t, j) <= n
    decreases n - j
  {
    assert At(s, j) == At(t, j);
    if IsSpace(At(s, j)) {
      SkipWhiteAgree(s, t, n, j + 1);
    }
  }

  lemma {:induction false} QuoteEndAgree(s: string, t: string, n: nat, j: nat)
    requires Agree(s, t, n) && j <= n
    ensures QuoteEnd(s, j) == QuoteEnd(t, j) <= n
    decreases n - j
  {
    assert At(s, j) == At(t, j);
    if At(s, j) != '\0' && At(s, j) != '"' {
      QuoteEndAgree(s, t, n, j + 1);
    }
  }

  lemma {:induction false} WordEndAgree(s: string, t: string, n: nat, j: nat)
    requires Agree(s, t, n) && j <= n
    ensures WordEnd(s, j) == WordEnd(t, j) <= n
    decreases n - j
  {
    assert At(s, j) == At(t, j);
    if At(s, j) != '\0' && !IsSpace(At(s, j)) && At(s, j) != '=' {
      WordEndAgree(s, t, n, j + 1);
    }
  }

  lemma {:induction false} CStrAgree(s: string, t: string, n: nat, j: nat)
    requires Agree(s, t, n) && j <= n
    ensures CStr(s, j) == CStr(t, j)
    decreases n - j
  {
    assert At(s, j) == At(t, j);
    if At(s, j) != '\0' {
      CStrAgree(s, t, n, j + 1);
    }
  }

  lemma SliceAgree(s: string, t: string, n: nat, b: nat, l: nat)
    requires Agree(s, t, n) && b + l <= n
    ensures Slice(s, b, l) == Slice(t, b, l)
  {
    assert forall k :: 0 <= k < l ==> Slice(s, b, l)[k] == At(s, b + k) == At(t, b + k);
  }

  lemma GetTokenAgree(s: string, t: string, n: nat, j: nat)
    requires Agree(s, t, n) && j <= n && n <= |s| && n <= |t|
    ensures GetToken(s, j, false) == GetToken(t, j, false)
    ensures GetToken(s, j, false).next <= n
  {
    assert At(s, j) == At(t, j);
    if At(s, j) == '"' {
      QuoteEndAgree(s, t, n, j + 1);
      var e := QuoteEnd(s, j + 1);
      assert At(s, e) == At(t, e);
    } else {
      WordEndAgree(s, t, n, j);
    }
  }

  lemma ReadItemAgree(s: string, t: string, n: nat, i: nat)
    requires Agree(s, t, n) && i < n && n <= |s| && n <= |t| && s[i] != '\0'
    ensures t[i] != '\0'
    ensures ReadItem(s, i, false) == ReadItem(t, i, false)
    ensures ReadItem(s, i, false).val.next <= n
  {
    assert At(s, i) == At(t, i);
    SkipWhiteAgree(s, t, n, i);
    var k := SkipWhite(s, i);
    GetTokenAgree(s, t, n, k);
    var key := GetToken(s, k, false);
    assert At(s, key.next) == At(t, key.next);
    if At(s, key.next) != '\0' && !IsSpace(At(s, key.next)) {
      GetTokenAgree(s, t, n, key.next + 1);
    }
  }

  lemma {:induction false} ScanAgree(s: string, t: string, n: nat, m: string, i: nat, acc: Option<Value>)
    requires Agree(s, t, n) && i <= n && n <= |s| && n <= |t|
    ensures ScanBootKey(s, m, i, acc, false) == ScanBootKey(t, m, i, acc, false)
    decreases n - i
  {
    assert At(s, i) == At(t, i);
    if At(s, i) != '\0' {
      ReadItemAgree(s, t, n, i);
      var it := ReadItem(s, i, false);
      SliceAgree(s, t, n, it.key.begin, it.key.len);
      SliceAgree(s, t, n, it.val.begin, it.val.len);
      CStrAgree(s, t, n, it.val.begin);
      assert Record(s, m, it, acc) == Record(t, m, it, acc);
      ScanAgree(s, t, n, m, it.val.next, Record(s, m, it, acc));
    }
  }

  /** The corrected lookup reads nothing past the first NUL of the line. */
  lemma BootKeyStopsAtNul(line: string, m: string)
    requires NoNul(m)
    ensures GetValueForBootKey(line, m) == GetValueForBootKey(CStr(line, 0), m)
  {
    var c := CStr(line, 0);
    assert |c| <= |line| by {
      if |c| > 0 {
        assert |c| - 1 < |line|;
      }
    }
    assert Agree(line, c, |c|);
    ScanAgree(line, c, |c|, m, 0, None);
  }

  /**
   * The lookup as written does read past the NUL: after the unterminated
   * quote in `k="v` it resumes beyond the terminator and finds `x=1`, a key
   * that is not in the C string.
   */
  lemma BootKeyAsWrittenReadsPastNul()
    ensures GetValueForBootKeyAsWritten("k=\"v\0x=1", "x") == Some(Value("1", "1"))
    ensures GetValueForBootKeyAsWritten(CStr("k=\"v\0x=1", 0), "x") == None
  {
    var s := "k=\"v\0x=1";
    PastNulItems();
    assert Slice(s, 0, 1) == "k";
    assert Slice(s, 5, 1) == "x" && Slice(s, 7, 1) == "1";
    assert CStr(s, 7) == "1" by { assert CStr(s, 8) == ""; }
    assert ScanBootKey(s, "x", 8, Some(Value("1", "1")), true) == Some(Value("1", "1"));
    assert ScanBootKey(s, "x", 5, None, true) == Some(Value("1", "1"));
    assert ScanBootKey(s, "x", 0, None, true) == Some(Value("1", "1"));
    TruncatedLine();
  }

  /** The two items the as-written scan reads from `k="v<NUL>x=1`, the second one past the NUL. */
  lemma PastNulItems()
    ensures ReadItem("k=\"v\0x=1", 0, true) == Item(Token(0, 1, 1), Token(3, 1, 5))
    ensures ReadItem("k=\"v\0x=1", 5, true) == Item(Token(5, 1, 6), Token(7, 1, 8))
  {
    var s := "k=\"v\0x=1";
    assert SkipWhite(s, 0) == 0;
    assert GetToken(s, 0, true) == Token(0, 1, 1) by {
      assert WordEnd(s, 0) == 1 by { assert WordEnd(s, 1) == 1; }
    }
    assert GetToken(s, 2, true) == Token(3, 1, 5) by {
      assert QuoteEnd(s, 3) == 4 by { assert QuoteEnd(s, 4) == 4; }
    }
    assert SkipWhite(s, 5) == 5;
    assert GetToken(s, 5, true) == Token(5, 1, 6) by {
      assert WordEnd(s, 5) == 6 by { assert WordEnd(s, 6) == 6; }
    }
    assert GetToken(s, 7, true) == Token(7, 1, 8) by {
      assert WordEnd(s, 7) == 8;
    }
  }

  /** The C string `k="v` alone holds no `x`. */
  lemma TruncatedLine()
    ensures CStr("k=\"v\0x=1", 0) == "k=\"v"
    ensures GetValueForBootKeyAsWritten("k=\"v", "x") == None
  {
    var s := "k=\"v\0x=1";
    assert CStr(s, 4) == "";
    assert CStr(s, 3) == "v";
    assert CStr(s, 2) == "\"v";
    assert CStr(s, 1) == "=\"v";
    var t := "k=\"v";
    assert WordEnd(t, 0) == 1 by { assert WordEnd(t, 1) == 1; }
    assert QuoteEnd(t, 3) == 4;
    assert ReadItem(t, 0, true) == Item(Token(0, 1, 1), Token(3, 1, 5));
    assert Slice(t, 0, 1) == "k";
    assert ScanBootKey(t, "x", 0, None, true) == ScanBootKey(t, "x", 5, None, true);
  }

  /** A run of characters that can form an unquoted token. */
  predicate Plain(w: string)
  {
    forall k :: 0 <= k < |w| ==> w[k] != '\0' && !IsSpace(w[k]) && w[k] != '=' && w[k] != '"'
  }

  /** The `n` characters of `s` from `i` can form an unquoted token. */
  predicate PlainAt(s: string, i: nat, n: nat)
  {
    i + n <= |s| && forall k :: i <= k < i + n ==> s[k] != '\0' && !IsSpace(s[k]) && s[k] != '=' && s[k] != '"'
  }

  lemma {:induction false} WordEndExact(s: string, j: nat, n: nat)
    requires PlainAt(s, j, n)
    requires At(s, j + n) == '\0' || IsSpace(At(s, j + n)) || At(s, j + n) == '='
    ensures WordEnd(s, j) == j + n
    decreases n
  {
    if n > 0 {
      WordEndExact(s, j + 1, n - 1);
    }
  }

  lemma {:induction false} QuoteEndExact(s: string, j: nat, n: nat)
    requires j + n <= |s|
    requires forall k :: j <= k < j + n ==> s[k] != '\0' && s[k] != '"'
    requires At(s, j + n) == '\0' || At(s, j + n) == '"'
    ensures QuoteEnd(s, j) == j + n
    decreases n
  {
    if n > 0 {
      QuoteEndExact(s, j + 1, n - 1);
    }
  }

  lemma {:induction false} CStrExact(s: string, j: nat, n: nat)
    requires j + n <= |s|
    requires forall k :: j <= k < j + n ==> s[k] != '\0'
    requires At(s, j + n) == '\0'
    ensures CStr(s, j) == s[j..j + n]
    decreases n
  {
    if n > 0 {
      CStrExact(s, j + 1, n - 1);
      assert s[j..j + n] == [s[j]] + s[j + 1..j + n];
    }
  }

  /** One plain `key=value` item at `i`, ending at white space or NUL. */
  lemma ReadPair(s: string, i: nat, kl: nat, vl: nat)
    requires kl > 0 && PlainAt(s, i, kl) && At(s, i + kl) == '=' && PlainAt(s, i + kl + 1, vl)
    requires At(s, i + kl + 1 + vl) == '\0' || IsSpace(At(s, i + kl + 1 + vl))
    ensures s[i] != '\0'
    ensures ReadItem(s, i, false) == Item(Token(i, kl, i + kl), Token(i + kl + 1, vl, i + kl + 1 + vl))
  {
    assert SkipWhite(s, i) == i;
    WordEndExact(s, i, kl);
    WordEndExact(s, i + kl + 1, vl);
    if vl == 0 {
      assert At(s, i + kl + 1) != '"';
    }
  }

  /** A plain key alone, ending at white space or NUL, records an empty value. */
  lemma ReadKey(s: string, i: nat, kl: nat)
    requires kl > 0 && PlainAt(s, i, kl)
    requires At(s, i + kl) == '\0' || IsSpace(At(s, i + kl))
    ensures s[i] != '\0'
    ensures ReadItem(s, i, false) == Item(Token(i, kl, i + kl), Token(i + kl, 0, i + kl))
  {
    assert SkipWhite(s, i) == i;
    WordEndExact(s, i, kl);
  }

  lemma PlainConcat(a: string, w: string, b: string)
    requires Plain(w)
    ensures PlainAt(a + w + b, |a|, |w|)
  {
    var s := a + w + b;
    assert forall k :: |a| <= k < |a| + |w| ==> s[k] == w[k - |a|];
  }

  /** `key=value` alone on the line gives exactly that value. */
  lemma KeyValueFound(m: string, v: string)
    requires NoNul(m) && |m| > 0 && Plain(m) && Plain(v)
    ensures GetValueForBootKey(m + "=" + v, m) == Some(Value(v, v))
  {
    var x := m + "=";
    var s := x + v;
    var kl := |m|;
    assert s[..kl] == m && s[kl] == '=' && s[kl + 1..] == v;
    OnlyPair(s, m, kl, |v|);
  }

  /** A line made of one plain `m=value` item yields that value. */
  lemma OnlyPair(s: string, m: string, kl: nat, vl: nat)
    requires kl > 0 && kl + 1 + vl == |s| && s[kl] == '=' && Plain(m)
    requires s[..kl] == m && Plain(s[kl + 1..])
    ensures ScanBootKey(s, m, 0, None, false) == Some(Value(s[kl + 1..], s[kl + 1..]))
  {
    var v := s[kl + 1..];
    assert s[0..kl] == m && s[kl + 1..kl + 1 + vl] == v;
    PlainSlice(s, 0, m);
    PlainSlice(s, kl + 1, v);
    CStrExact(s, kl + 1, vl);
    assert s[kl + 1..|s|] == v && CStr(s, kl + 1) == v;
    var fin := Some(Value(v, v));
    ScanPair(s, m, 0, kl, vl, |s|, None);
    assert (if s[0..kl] == m then Some(Value(s[kl + 1..|s|], CStr(s, kl + 1))) else None) == fin;
    assert ScanBootKey(s, m, |s|, fin, false) == fin;
  }

  /** A key only matches when it is the whole key token: `k=v` is not found under another name. */
  lemma OtherKeyNotFound(k: string, m: string, v: string)
    requires NoNul(m) && |k| > 0 && Plain(k) && Plain(v) && k != m
    ensures GetValueForBootKey(k + "=" + v, m) == None
  {
    var s := k + "=" + v;
    PlainConcat([], k, "=" + v);
    assert [] + k + ("=" + v) == s;
    PlainConcat(k + "=", v, []);
    assert k + "=" + v + [] == s;
    ReadPair(s, 0, |k|, |v|);
    var it := ReadItem(s, 0, false);
    assert s[0..|k|] == k;
    assert Record(s, m, it, None) == None;
    assert ScanBootKey(s, m, |s|, None, false) == None;
  }

  /** The scan over one plain `key=value` item. */
  lemma ScanPair(s: string, m: string, i: nat, kl: nat, vl: nat, e: nat, acc: Option<Value>)
    requires e == i + kl + 1 + vl
    requires kl > 0 && PlainAt(s, i, kl) && At(s, i + kl) == '=' && PlainAt(s, i + kl + 1, vl)
    requires At(s, e) == '\0' || IsSpace(At(s, e))
    ensures ScanBootKey(s, m, i, acc, false)
         == ScanBootKey(s, m, e, if s[i..i + kl] == m then Some(Value(s[i + kl + 1..e], CStr(s, i + kl + 1))) else acc, false)
  {
    ReadPair(s, i, kl, vl);
    ScanItem(s, m, i, kl, vl, e, acc);
  }

  lemma ScanItem(s: string, m: string, i: nat, kl: nat, vl: nat, e: nat, acc: Option<Value>)
    requires e == i + kl + 1 + vl && e <= |s| && s[i] != '\0'
    requires ReadItem(s, i, false) == Item(Token(i, kl, i + kl), Token(i + kl + 1, vl, e))
    ensures ScanBootKey(s, m, i, acc, false)
         == ScanBootKey(s, m, e, if s[i..i + kl] == m then Some(Value(s[i + kl + 1..e], CStr(s, i + kl + 1))) else acc, false)
  {
    ScanStep(s, m, i, acc);
    RecordPair(s, m, i, kl, vl, e, acc);
  }

  lemma ScanStep(s: string, m: string, i: nat, acc: Option<Value>)
    requires i < |s| && s[i] != '\0'
    ensures ScanBootKey(s, m, i, acc, false)
         == ScanBootKey(s, m, ReadItem(s, i, false).val.next, Record(s, m, ReadItem(s, i, false), acc), false)
  {
  }

  lemma RecordPair(s: string, m: string, i: nat, kl: nat, vl: nat, e: nat, acc: Option<Value>)
    requires e == i + kl + 1 + vl && e <= |s|
    ensures Record(s, m, Item(Token(i, kl, i + kl), Token(i + kl + 1, vl, e)), acc)
         == if s[i..i + kl] == m then Some(Value(s[i + kl + 1..e], CStr(s, i + kl + 1))) else acc
  {
  }

  /** A white-space character before a token is skipped. */
  lemma ScanSpace(s: string, m: string, i: nat, acc: Option<Value>)
    requires i + 1 < |s| && IsSpace(s[i]) && s[i + 1] != '\0' && !IsSpace(s[i + 1])
    ensures ScanBootKey(s, m, i, acc, false) == ScanBootKey(s, m, i + 1, acc, false)
  {
    assert SkipWhite(s, i) == i + 1 by {
      assert SkipWhite(s, i + 1) == i + 1;
    }
    assert ReadItem(s, i, false) == ReadItem(s, i + 1, false);
  }

  /**
   * The last occurrence wins: the scan from `i` returns what it finds from
   * `i` on, and falls back to what earlier items recorded only when
   * nothing from `i` on matches.
   */
  lemma {:induction false} ScanKeepsLast(s: string, m: string, i: nat, acc: Option<Value>, pastNul: bool)
    requires i <= |s| + 1
    ensures var later := ScanBootKey(s, m, i, None, pastNul);
      ScanBootKey(s, m, i, acc, pastNul) == if later.Some? then later else acc
    decreases |s| + 1 - i
  {
    if At(s, i) != '\0' {
      var it := ReadItem(s, i, pastNul);
      ScanKeepsLast(s, m, it.val.next, Record(s, m, it, acc), pastNul);
      ScanKeepsLast(s, m, it.val.next, Record(s, m, it, None), pastNul);
    }
  }

  /** Once a later item matches, nothing recorded before it can show through. */
  lemma LaterMatchHides(s: string, m: string, i: nat, acc1: Option<Value>, acc2: Option<Value>)
    requires i <= |s| + 1 && ScanBootKey(s, m, i, None, false).Some?
    ensures ScanBootKey(s, m, i, acc1, false) == ScanBootKey(s, m, i, acc2, false)
  {
    ScanKeepsLast(s, m, i, acc1, false);
    ScanKeepsLast(s, m, i, acc2, false);
  }

  lemma PlainSlice(s: string, i: nat, w: string)
    requires i + |w| <= |s| && s[i..i + |w|] == w && Plain(w)
    ensures PlainAt(s, i, |w|)
  {
    forall k | i <= k < i + |w|
      ensures s[k] != '\0' && !IsSpace(s[k]) && s[k] != '=' && s[k] != '"'
    {
      assert s[k] == w[k - i];
    }
  }

  /** A key given without '=' is found with an empty value. */
  lemma KeyWithoutValue(m: string)
    requires NoNul(m) && |m| > 0 && Plain(m)
    ensures GetValueForBootKey(m, m) == Some(Value("", ""))
  {
    PlainConcat([], m, []);
    assert [] + m + [] == m;
    ReadKey(m, 0, |m|);
    var it := ReadItem(m, 0, false);
    assert m[0..|m|] == m;
    assert Record(m, m, it, None) == Some(Value("", ""));
    assert ScanBootKey(m, m, |m|, Some(Value("", "")), false) == Some(Value("", ""));
  }

  /** A quoted value is the text between the quotes. */
  lemma QuotedValue(m: string, v: string)
    requires NoNul(m) && |m| > 0 && Plain(m)
    requires forall k :: 0 <= k < |v| ==> v[k] != '\0' && v[k] != '"'
    ensures GetValueForBootKey(m + "=\"" + v + "\"", m) == Some(Value(v, v + "\""))
  {
    var x := m + "=\"";
    var s := x + v + "\"";
    var kl, b := |m|, |m| + 2;
    assert s[..kl] == m && s[kl] == '=' && s[kl + 1] == '"' && s[b + |v|] == '"';
    assert s[b..b + |v|] == v && s[b..] == v + "\"";
    forall k | b <= k < b + |v|
      ensures s[k] != '\0' && s[k] != '"'
    {
      assert s[k] == v[k - b];
    }
    PlainSlice(s, 0, m);
    ReadQuoted(s, kl, |v|);
    CStrExact(s, b, |v| + 1);
    var fin := Some(Value(v, v + "\""));
    ScanStep(s, m, 0, None);
    assert s[b..b + |v| + 1] == s[b..];
    assert Slice(s, 0, kl) == m && Slice(s, b, |v|) == v && CStr(s, b) == v + "\"";
    assert Record(s, m, ReadItem(s, 0, false), None) == fin;
    assert ScanBootKey(s, m, |s|, fin, false) == fin;
  }

  /** A plain key, '=', then a quoted value closing at the end of `s`. */
  lemma ReadQuoted(s: string, kl: nat, vl: nat)
    requires kl > 0 && PlainAt(s, 0, kl) && kl + 2 + vl + 1 == |s|
    requires s[kl] == '=' && s[kl + 1] == '"' && s[kl + 2 + vl] == '"'
    requires forall k :: kl + 2 <= k < kl + 2 + vl ==> s[k] != '\0' && s[k] != '"'
    ensures s[0] != '\0'
    ensures ReadItem(s, 0, false) == Item(Token(0, kl, kl), Token(kl + 2, vl, |s|))
  {
    assert SkipWhite(s, 0) == 0;
    WordEndExact(s, 0, kl);
    QuoteEndExact(s, kl + 2, vl);
  }

  // ---------------------------------------------------------------------
  // Configuration files and getValueForKey

  /** A property of a parsed XML configuration dictionary. */
  datatype Tag = StringTag(str: string) | OtherTag

  /** A loaded configuration (an absent dictionary is an empty map). */
  datatype ConfigFile = ConfigFile(dict: map<string, Tag>, canOverride: bool)

  /** `getValueForConfigTableKey`: only string properties are values. */
  function ConfigTableValue(c: ConfigFile, key: string): (r: Option<Value>)
    ensures r.Some? <==> key in c.dict && c.dict[key].StringTag?
    ensures r.Some? ==> r.value.text == r.value.rest && NoNul(r.value.text)
  {
    if key in c.dict && c.dict[key].StringTag? then
      var v := CStr(c.dict[key].str, 0);
      Some(Value(v, v))
    else None
  }

  /**
   * `getValueForKey`: the kernel command line first; then, for a config
   * that can be overridden, the override config's value unless the base
   * config has the key and it is "Kernel" overridden by "mach_kernel" or
   * "Kernel Flags" overridden by an empty value; then the base config.
   */
  function GetValueForKey(key: string, cmdline: string, config: ConfigFile, overrideConfig: ConfigFile): Option<Value>
    requires NoNul(key)
  {
    var line := GetValueForBootKey(cmdline, key);
    if line.Some? then line
    else
      var base := ConfigTableValue(config, key);
      var over := ConfigTableValue(overrideConfig, key);
      if config.canOverride && over.Some?
         && !(base.Some? && key == "Kernel" && over.value.text == "mach_kernel")
         && !(base.Some? && key == "Kernel Flags" && |over.value.text| == 0)
      then over
      else base
  }

  /** The three layers in order of precedence. */
  lemma ValueForKeyPrecedence(key: string, cmdline: string, config: ConfigFile, overrideConfig: ConfigFile)
    requires NoNul(key)
    ensures GetValueForBootKey(cmdline, key).Some? ==>
              GetValueForKey(key, cmdline, config, overrideConfig) == GetValueForBootKey(cmdline, key)
    ensures GetValueForBootKey(cmdline, key).None? && !config.canOverride ==>
              GetValueForKey(key, cmdline, config, overrideConfig) == ConfigTableValue(config, key)
    ensures GetValueForBootKey(cmdline, key).None? && config.canOverride
            && ConfigTableValue(config, key).None? ==>
              GetValueForKey(key, cmdline, config, overrideConfig) == ConfigTableValue(overrideConfig, key)
    ensures GetValueForBootKey(cmdline, key).None? && config.canOverride
            && ConfigTableValue(overrideConfig, key).Some?
            && key != "Kernel" && key != "Kernel Flags" ==>
              GetValueForKey(key, cmdline, config, overrideConfig) == ConfigTableValue(overrideConfig, key)
  {
  }

  /** The "Kernel" exception: a base kernel name is never replaced by "mach_kernel" from the override. */
  lemma KernelOverrideException(cmdline: string, config: ConfigFile, overrideConfig: ConfigFile)
    requires GetValueForBootKey(cmdline, "Kernel").None?
    requires ConfigTableValue(config, "Kernel").Some?
    ensures GetValueForKey("Kernel", cmdline, config, overrideConfig).Some?
    ensures GetValueForKey("Kernel", cmdline, config, overrideConfig).value.text == "mach_kernel" ==>
              ConfigTableValue(config, "Kernel").value.text == "mach_kernel"
  {
  }

  // ---------------------------------------------------------------------
  // Typed accessors

  /** `getBoolForKey`: found or not, and then whether the value starts with 'Y' or 'y'. */
  function BoolForValue(v: Option<Value>): (r: Option<bool>)
    ensures r.Some? <==> v.Some?
    ensures r == Some(true) <==> v.Some? && |v.value.text| >= 1 && (v.value.text[0] == 'Y' || v.value.text[0] == 'y')
  {
    match v
    case None => None
    case Some(x) => Some(|x.text| >= 1 && (x.text[0] == 'Y' || x.text[0] == 'y'))
  }

  predicate AllDigits(s: string)
  {
    forall k :: 0 <= k < |s| ==> IsDigit(s[k])
  }

  /** `getIntForKey`: an optional '-' then decimal digits only; an empty value is not a number. */
  function IntForValue(v: Option<Value>): (r: Option<int>)
  {
    match v
    case None => None
    case Some(x) =>
      if |x.text| == 0 then None
      else
        var neg := x.text[0] == '-';
        var digits := if neg then x.text[1..] else x.text;
        if AllDigits(digits) then
          var n: int := DecValue(digits);
          Some(if neg then -n else n)
        else None
  }

  /** Decimal rendering of a natural number (the inverse the parser is checked against). */
  function Decimal(n: nat): (r: string)
    ensures |r| > 0 && AllDigits(r)
  {
    if n < 10 then ['0' + n as char] else Decimal(n / 10) + ['0' + (n % 10) as char]
  }

  lemma {:induction false} DecimalRoundTrip(n: nat)
    ensures DecValue(Decimal(n)) == n
  {
    if n >= 10 {
      DecimalRoundTrip(n / 10);
      var r := Decimal(n);
      assert r[..|r| - 1] == Decimal(n / 10);
    } else {
      assert Decimal(n)[..0] == [];
    }
  }

  /** Integer values round-trip through their decimal text, with or without a sign. */
  lemma IntRoundTrip(n: nat, rest: string)
    ensures IntForValue(Some(Value(Decimal(n), rest))) == Some(n)
    ensures IntForValue(Some(Value("-" + Decimal(n), rest))) == Some(-(n as int))
  {
    DecimalRoundTrip(n);
    var d := Decimal(n);
    assert d[0] != '-';
    assert ("-" + d)[1..] == d;
  }

  /** Any character other than a digit after the optional sign rejects the value. */
  lemma IntRejectsNonDigit(x: Value, k: nat)
    requires k < |x.text| && !IsDigit(x.text[k]) && !(k == 0 && x.text[0] == '-')
    ensures IntForValue(Some(x)) == None
  {
    if x.text[0] == '-' {
      assert x.text[1..][k - 1] == x.text[k];
    }
  }

  /** Wrap-around of C `unsigned int` arithmetic. */
  function U32(x: int): (r: nat)
    ensures r < TWO32
  {
    x % TWO32
  }

  /** `dimension_max * n / 100` in `unsigned int` arithmetic. */
  function Percent(dmax: nat, n: nat): (r: nat)
    ensures r < TWO32
  {
    U32(dmax * n) / 100
  }

  lemma U32Small(x: int)
    requires 0 <= x < TWO32
    ensures U32(x) == x
  {
  }

  /**
   * `getDimensionForKey`: "N" is N, "N%" is dimension_max·N/100, a
   * leading '-' measures from the opposite edge, an empty value centres
   * the object; arithmetic is `unsigned int` and the result is truncated
   * to 16 bits.
   */
  function DimensionForValue(v: Option<Value>, dmax: nat, osize: nat): (r: Option<nat>)
    requires dmax < TWO32 && osize < TWO32
    ensures r.Some? ==> r.value < TWO16
    ensures v.None? ==> r.None?
  {
    match v
    case None => None
    case Some(x) =>
      if |x.text| == 0 then Some(U32(dmax - osize) / 2 % TWO16)
      else
        var neg := x.text[0] == '-';
        var u := if neg then x.text[1..] else x.text;
        var pct := |u| > 0 && u[|u| - 1] == '%';
        var digits := if pct then u[..|u| - 1] else u;
        if !AllDigits(digits) then None
        else
          var n := DecValue(digits);
          var a := if pct then Percent(dmax, n) else n;
          var b := if neg then U32(U32(dmax - osize) - a) else a;
          Some(b % TWO16)
  }

  /** An empty value centres the object. */
  lemma DimensionCentred(dmax: nat, osize: nat, rest: string)
    requires osize <= dmax < TWO32
    ensures DimensionForValue(Some(Value("", rest)), dmax, osize) == Some((dmax - osize) / 2 % TWO16)
  {
  }

  /** A plain number is taken as it is. */
  lemma DimensionPlain(d: string, dmax: nat, osize: nat, rest: string)
    requires AllDigits(d) && 0 < |d| && DecValue(d) < TWO16 && dmax < TWO32 && osize < TWO32
    ensures DimensionForValue(Some(Value(d, rest)), dmax, osize) == Some(DecValue(d))
  {
    assert IsDigit(d[0]) && IsDigit(d[|d| - 1]);
  }

  /** "N%" is that percentage of the maximum. */
  lemma DimensionPercent(d: string, dmax: nat, osize: nat, rest: string)
    requires AllDigits(d) && DecValue(d) <= 100 && osize <= dmax < TWO16
    ensures DimensionForValue(Some(Value(d + "%", rest)), dmax, osize) == Some(dmax * DecValue(d) / 100)
  {
    var t := d + "%";
    assert t[..|t| - 1] == d;
    assert t[0] != '-' by {
      if |d| > 0 { assert t[0] == d[0] && IsDigit(d[0]); }
    }
    assert DimensionForValue(Some(Value(t, rest)), dmax, osize) == Some(Percent(dmax, DecValue(d)) % TWO16);
    PercentNoWrap(dmax, DecValue(d));
  }

  /** A percentage of a 16-bit maximum neither wraps nor is truncated. */
  lemma PercentNoWrap(dmax: nat, n: nat)
    requires dmax < TWO16 && n <= 100
    ensures Percent(dmax, n) % TWO16 == dmax * n / 100
  {
    var x := dmax * n;
    MulLe(dmax, n, 100);
    assert U32(x) == x;
    assert (x / 100) * 100 <= x;
  }

  /** "-N" measures N back from the far edge. */
  lemma DimensionFromEnd(d: string, dmax: nat, osize: nat, rest: string)
    requires AllDigits(d) && 0 < |d| && osize <= dmax < TWO16 && DecValue(d) <= dmax - osize
    ensures DimensionForValue(Some(Value("-" + d, rest)), dmax, osize) == Some(dmax - osize - DecValue(d))
  {
    var t := "-" + d;
    assert t[1..] == d;
    assert IsDigit(d[|d| - 1]);
    assert DimensionForValue(Some(Value(t, rest)), dmax, osize)
        == Some(U32(U32(dmax - osize) - DecValue(d)) % TWO16);
    FromEndNoWrap(dmax - osize, DecValue(d));
  }

  lemma FromEndNoWrap(w: nat, n: nat)
    requires w < TWO16 && n <= w
    ensures U32(U32(w) - n) % TWO16 == w - n
  {
    assert U32(w) == w;
    assert U32(w - n) == w - n;
  }

  /** Any non-digit other than a leading '-' or a trailing '%' rejects the value. */
  lemma DimensionRejects(pre: string, c: char, post: string, dmax: nat, osize: nat, rest: string)
    requires dmax < TWO32 && osize < TWO32
    requires !IsDigit(c) && !(pre == [] && c == '-') && !(post == [] && c == '%')
    ensures DimensionForValue(Some(Value(pre + [c] + post, rest)), dmax, osize) == None
  {
    var t := pre + [c] + post;
    var k := |pre|;
    assert t[k] == c;
    var neg := t[0] == '-';
    var u := if neg then t[1..] else t;
    var pct := |u| > 0 && u[|u| - 1] == '%';
    var digits := if pct then u[..|u| - 1] else u;
    var j := if neg then k - 1 else k;
    assert u[j] == c;
    assert j < |digits| && digits[j] == c;
  }

  /** `getColorForKey`: only a '#' prefix is accepted, and the rest is read by `strtol(…, 16)`. */
  function ColorForValue(v: Option<Value>): (r: Option<nat>)
    ensures r.Some? <==> v.Some? && At(v.value.rest, 0) == '#'
    ensures r.Some? ==> r.value < TWO32
  {
    match v
    case None => None
    case Some(x) => if At(x.rest, 0) == '#' then Some(U32(StrToL(x.rest, 1, 16).value)) else None
  }

  /** "#RRGGBB" reads as the hexadecimal value of its digits. */
  lemma ColorHex(digits: string, text: string)
    requires 0 < |digits| <= 7 && forall k :: 0 <= k < |digits| ==> IsHexDigit(digits[k])
    ensures ColorForValue(Some(Value(text, "#" + digits))) == Some(HexValue(digits))
  {
    var s := "#" + digits;
    var n := |digits|;
    assert s[1..1 + n] == digits;
    forall k | 1 <= k < 1 + n
      ensures IsHexDigit(s[k])
    {
      assert s[k] == digits[k - 1];
    }
    assert At(s, 1 + n) == '\0';
    StrToLHex(s, 1, n);
    var r := StrToL(s, 1, 16);
    var h := HexValue(digits);
    assert r.value == h && h <= LONG_MAX;
    U32Small(h);
    assert ColorForValue(Some(Value(text, s))) == Some(U32(r.value));
  }

  // ---------------------------------------------------------------------
  // getNextArg

  /**
   * Specification of `getNextArg(&ptr, val)` on `line` from `i`: skip
   * spaces and '='; a quoted argument is the text up to the closing quote,
   * which is consumed; any other argument runs up to a space, '=' or NUL.
   */
  function NextArg(s: string, i: nat): (r: (string, nat))
    requires i <= |s|
  {
    var j := SkipSeparators(s, i);
    if At(s, j) == '"' then
      var e := QuoteEnd(s, j + 1);
      (s[j + 1..e], if At(s, e) == '"' then e + 1 else e)
    else
      var e := ArgEnd(s, j);
      (s[j..e], e)
  }

  function SkipSeparators(s: string, i: nat): (j: nat)
    requires i <= |s|
    ensures i <= j <= |s|
    ensures At(s, j) != ' ' && At(s, j) != '='
    ensures forall k :: i <= k < j ==> s[k] == ' ' || s[k] == '='
    decreases |s| - i
  {
    if i < |s| && (s[i] == ' ' || s[i] == '=') then SkipSeparators(s, i + 1) else i
  }

  function ArgEnd(s: string, j: nat): (e: nat)
    requires j <= |s|
    ensures j <= e <= |s|
    ensures At(s, e) == '\0' || At(s, e) == ' ' || At(s, e) == '='
    ensures forall k :: j <= k < e ==> s[k] != '\0' && s[k] != ' ' && s[k] != '='
    decreases |s| - j
  {
    if j < |s| && s[j] != '\0' && s[j] != ' ' && s[j] != '=' then ArgEnd(s, j + 1) else j
  }

  /** `getNextArg`: returns the argument text and the new command-line position. */
  method GetNextArg(line: string, ptr: nat) returns (val: string, next: nat)
    requires ptr <= |line|
    ensures (val, next) == NextArg(line, ptr)
  {
    var p := ptr;
    while p < |line| && (line[p] == ' ' || line[p] == '=')
      invariant ptr <= p <= |line|
      invariant SkipSeparators(line, ptr) == SkipSeparators(line, p)
    {
      p := p + 1;
    }
    var start := p;
    var quoted := false;
    if p < |line| && line[p] == '"' {
      quoted := true;
      p := p + 1;
      start := start + 1;
    }
    while p < |line| && line[p] != '\0'
          && !((quoted && line[p] == '"') || (!quoted && (line[p] == ' ' || line[p] == '=')))
      invariant start <= p <= |line|
      invariant quoted ==> QuoteEnd(line, start) == QuoteEnd(line, p)
      invariant !quoted ==> ArgEnd(line, start) == ArgEnd(line, p)
    {
      p := p + 1;
    }
    val := line[start..p];
    if p < |line| && quoted && line[p] == '"' {
      p := p + 1;
    }
    next := p;
  }

  /** An argument is never empty of meaning: it holds no separator, and the cursor moves past it. */
  lemma NextArgShape(s: string, i: nat)
    requires i <= |s|
    ensures var (v, n) := NextArg(s, i);
      i <= n <= |s| && NoNul(v) && |v| <= n - i
  {
    var j := SkipSeparators(s, i);
    if At(s, j) == '"' {
      QuoteEndClean(s, j + 1);
    }
  }

  /** A plain word after separators comes back unchanged, and the cursor stops right after it. */
  lemma NextArgPlain(pre: string, w: string, rest: string)
    requires forall k :: 0 <= k < |pre| ==> pre[k] == ' ' || pre[k] == '='
    requires |w| > 0 && w[0] != '"' && forall k :: 0 <= k < |w| ==> w[k] != '\0' && w[k] != ' ' && w[k] != '='
    requires At(rest, 0) == '\0' || At(rest, 0) == ' ' || At(rest, 0) == '='
    ensures NextArg(pre + w + rest, 0) == (w, |pre| + |w|)
  {
    var s := pre + w + rest;
    SkipSeparatorsExact(s, 0, |pre|);
    assert At(s, |pre| + |w|) == At(rest, 0);
    ArgEndExact(s, |pre|, |w|);
    assert s[|pre|..|pre| + |w|] == w;
  }

  /** A quoted argument comes back without its quotes, and the closing quote is consumed. */
  lemma NextArgQuoted(w: string, rest: string)
    requires forall k :: 0 <= k < |w| ==> w[k] != '\0' && w[k] != '"'
    ensures NextArg("\"" + w + "\"" + rest, 0) == (w, |w| + 2)
  {
    var s := "\"" + w + "\"" + rest;
    assert SkipSeparators(s, 0) == 0;
    assert forall k :: 1 <= k < 1 + |w| ==> s[k] == w[k - 1];
    QuoteEndExact(s, 1, |w|);
    assert s[1..1 + |w|] == w;
  }

  lemma {:induction false} SkipSeparatorsExact(s: string, i: nat, n: nat)
    requires i + n <= |s|
    requires forall k :: i <= k < i + n ==> s[k] == ' ' || s[k] == '='
    requires At(s, i + n) != ' ' && At(s, i + n) != '='
    ensures SkipSeparators(s, i) == i + n
    decreases n
  {
    if n > 0 {
      SkipSeparatorsExact(s, i + 1, n - 1);
    }
  }

  lemma {:induction false} ArgEndExact(s: string, j: nat, n: nat)
    requires j + n <= |s|
    requires forall k :: j <= k < j + n ==> s[k] != '\0' && s[k] != ' ' && s[k] != '='
    requires At(s, j + n) == '\0' || At(s, j + n) == ' ' || At(s, j + n) == '='
    ensures ArgEnd(s, j) == j + n
    decreases n
  {
    if n > 0 {
      ArgEndExact(s, j + 1, n - 1);
    }
  }
}
