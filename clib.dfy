/**
 * The number parsers of the boot loader's C library (`strtol`, `strtoul`)
 * as its C files use them: leading white space, an optional sign, an
 * optional "0x" prefix for base 16 or 0, base 0 choosing 8 or 10 from a
 * leading '0', saturation on overflow, and an end position that falls back
 * to the start of the text when no digit was read.
 */
module CLib {
  import opened Bytes

  const LONG_MAX: nat := 0x7FFF_FFFF
  const LONG_MIN_MAGNITUDE: nat := 0x8000_0000
  const ULONG_MAX: nat := 0xFFFF_FFFF

  /** Value of `c` as a digit of `base`, or `base` itself when it is not one. */
  function DigitIn(c: char, base: nat): (v: nat)
    ensures v <= base
  {
    var d: int :=
      if '0' <= c <= '9' then (c - '0') as int
      else if 'a' <= c <= 'z' then (c - 'a') as int + 10
      else if 'A' <= c <= 'Z' then (c - 'A') as int + 10
      else -1;
    if 0 <= d < base then d else base
  }

  /** Number of consecutive digits of `base` from `i`. */
  function RunIn(s: string, i: nat, base: nat): (n: nat)
    ensures i + n <= |s| || (i >= |s| && n == 0)
    ensures forall k :: i <= k < i + n ==> DigitIn(s[k], base) < base
    ensures DigitIn(At(s, i + n), base) == base
    decreases |s| - i
  {
    if i < |s| && DigitIn(s[i], base) < base then 1 + RunIn(s, i + 1, base)
    else 0
  }

  /** Value of the `n` digits of `base` starting at `i`. */
  function Magnitude(s: string, i: nat, n: nat, base: nat): nat
    requires n == 0 || i + n <= |s|
  {
    if n == 0 then 0
    else Shift(base, Magnitude(s, i, n - 1, base)) + DigitIn(s[i + n - 1], base)
  }

  /** One digit position up: `base * m`. */
  function Shift(base: nat, m: nat): nat
  {
    base * m
  }

  /** Skips the characters `isspace` accepts. */
  function SkipWhite(s: string, i: nat): (j: nat)
    ensures i <= j && (j <= |s| || j == i)
    ensures !IsSpace(At(s, j))
    decreases |s| - i
  {
    if i < |s| && IsSpace(s[i]) then SkipWhite(s, i + 1) else i
  }

  /** What the scanner read: sign, digits (their position and count) and the base used. */
  datatype Scan = Scan(neg: bool, start: nat, count: nat, base: nat)

  /** The common front end of `strtol` and `strtoul`; `base` is 0, 10 or 16. */
  function ScanNumber(s: string, i: nat, base: nat): (r: Scan)
    requires base == 0 || base == 10 || base == 16
    ensures r.base == 8 || r.base == 10 || r.base == 16
    ensures base != 0 ==> r.base == base
    ensures r.start + r.count <= |s| || r.count == 0
    ensures i <= r.start
  {
    var j := SkipWhite(s, i);
    var neg := At(s, j) == '-';
    var k := if At(s, j) == '-' || At(s, j) == '+' then j + 1 else j;
    var hex := (base == 0 || base == 16) && At(s, k) == '0' && (At(s, k + 1) == 'x' || At(s, k + 1) == 'X');
    var d := if hex then k + 2 else k;
    var b := if hex then 16 else if base == 0 then (if At(s, d) == '0' then 8 else 10) else base;
    Scan(neg, d, RunIn(s, d, b), b)
  }

  /** A parsed number and the position where parsing stopped (`*endptr`). */
  datatype Parsed = Parsed(value: int, end: nat)

  /** `strtol(s + i, &end, base)` with a 32-bit `long`. */
  function StrToL(s: string, i: nat, base: nat): (r: Parsed)
    requires base == 0 || base == 10 || base == 16
    ensures -(LONG_MIN_MAGNITUDE as int) <= r.value <= LONG_MAX
    ensures ScanNumber(s, i, base).count == 0 ==> r == Parsed(0, i)
  {
    var sc := ScanNumber(s, i, base);
    var m := Magnitude(s, sc.start, sc.count, sc.base);
    var v := if sc.neg then -(if m > LONG_MIN_MAGNITUDE then LONG_MIN_MAGNITUDE else m)
             else if m > LONG_MAX then LONG_MAX else m;
    if sc.count == 0 then Parsed(0, i) else Parsed(v, sc.start + sc.count)
  }

  /** `strtoul(s + i, &end, base)` with a 32-bit `unsigned long`. */
  function StrToUL(s: string, i: nat, base: nat): (r: Parsed)
    requires base == 0 || base == 10 || base == 16
    ensures 0 <= r.value <= ULONG_MAX
    ensures ScanNumber(s, i, base).count == 0 ==> r == Parsed(0, i)
  {
    var sc := ScanNumber(s, i, base);
    var m := Magnitude(s, sc.start, sc.count, sc.base);
    var v := if m > ULONG_MAX then ULONG_MAX else if sc.neg then (TWO32 - m) % TWO32 else m;
    if sc.count == 0 then Parsed(0, i) else Parsed(v, sc.start + sc.count)
  }

  /** Decimal digits agree with the decimal value used elsewhere in the model. */
  lemma {:induction false} MagnitudeDecimal(s: string, i: nat, n: nat)
    requires i + n <= |s|
    requires forall k :: i <= k < i + n ==> IsDigit(s[k])
    ensures Magnitude(s, i, n, 10) == DecValue(s[i..i + n])
  {
    if n > 0 {
      MagnitudeDecimal(s, i, n - 1);
      var w := s[i..i + n];
      assert w[..n - 1] == s[i..i + n - 1] && w[n - 1] == s[i + n - 1];
    }
  }

  /** A plain run of decimal digits followed by a terminator parses to its value and stops after it. */
  lemma StrToLDecimal(s: string, n: nat)
    requires 0 < n <= |s|
    requires forall k :: 0 <= k < n ==> IsDigit(s[k])
    requires !IsDigit(At(s, n))
    requires DecValue(s[..n]) <= LONG_MAX
    ensures StrToL(s, 0, 10) == Parsed(DecValue(s[..n]), n)
  {
    assert SkipWhite(s, 0) == 0;
    assert RunIn(s, 0, 10) == n by { RunInExact(s, 0, n, 10); }
    MagnitudeDecimal(s, 0, n);
  }

  lemma {:induction false} RunInExact(s: string, i: nat, n: nat, base: nat)
    requires i + n <= |s|
    requires forall k :: i <= k < i + n ==> DigitIn(s[k], base) < base
    requires DigitIn(At(s, i + n), base) == base
    ensures RunIn(s, i, base) == n
    decreases n
  {
    if n > 0 {
      RunInExact(s, i + 1, n - 1, base);
    }
  }

  function Pow(b: nat, n: nat): (r: nat)
    ensures b > 0 ==> r > 0
  {
    if n == 0 then 1 else b * Pow(b, n - 1)
  }

  lemma {:induction false} MagnitudeBound(s: string, i: nat, n: nat, base: nat)
    requires i + n <= |s| && base > 0
    requires forall k :: i <= k < i + n ==> DigitIn(s[k], base) < base
    ensures Magnitude(s, i, n, base) < Pow(base, n)
  {
    if n > 0 {
      MagnitudeBound(s, i, n - 1, base);
      DigitStep(base, Magnitude(s, i, n - 1, base), DigitIn(s[i + n - 1], base), Pow(base, n - 1));
    }
  }

  lemma DigitStep(base: nat, m: nat, d: nat, p: nat)
    requires d < base && m < p
    ensures base * m + d < base * p
  {
    MulLe(base, m + 1, p);
    assert base * (m + 1) == base * m + base;
  }

  lemma MulLe(a: nat, x: nat, y: nat)
    requires x <= y
    ensures a * x <= a * y
  {
  }

  /** Hexadecimal digits agree with the hexadecimal value used elsewhere in the model. */
  lemma {:induction false} MagnitudeHex(s: string, i: nat, n: nat)
    requires i + n <= |s|
    requires forall k :: i <= k < i + n ==> IsHexDigit(s[k])
    ensures Magnitude(s, i, n, 16) == HexValue(s[i..i + n])
  {
    if n > 0 {
      MagnitudeHex(s, i, n - 1);
      var w := s[i..i + n];
      assert w[..n - 1] == s[i..i + n - 1] && w[n - 1] == s[i + n - 1];
      DigitInHex(s[i + n - 1]);
    }
  }

  lemma DigitInHex(c: char)
    requires IsHexDigit(c)
    ensures DigitIn(c, 16) == HexVal(c)
  {
  }

  /** Up to seven hexadecimal digits followed by a non-digit (and not an 'x') parse to their value in base 16. */
  lemma StrToLHex(s: string, i: nat, n: nat)
    requires 0 < n <= 7 && i + n <= |s|
    requires forall k :: i <= k < i + n ==> IsHexDigit(s[k])
    requires !IsHexDigit(At(s, i + n)) && At(s, i + n) != 'x' && At(s, i + n) != 'X'
    ensures StrToL(s, i, 16) == Parsed(HexValue(s[i..i + n]), i + n)
  {
    ScanHex(s, i, n);
    MagnitudeHex(s, i, n);
    HexBound(s, i, n);
  }

  /** The scanner reads exactly the `n` hexadecimal digits at `i`. */
  lemma ScanHex(s: string, i: nat, n: nat)
    requires 0 < n && i + n <= |s|
    requires forall k :: i <= k < i + n ==> IsHexDigit(s[k])
    requires !IsHexDigit(At(s, i + n)) && At(s, i + n) != 'x' && At(s, i + n) != 'X'
    ensures ScanNumber(s, i, 16) == Scan(false, i, n, 16)
  {
    assert IsHexDigit(s[i]);
    assert SkipWhite(s, i) == i;
    assert n > 1 ==> IsHexDigit(s[i + 1]);
    assert !(At(s, i + 1) == 'x' || At(s, i + 1) == 'X');
    RunInExact(s, i, n, 16);
  }

  /** Up to seven hexadecimal digits stay below 2^28. */
  lemma HexBound(s: string, i: nat, n: nat)
    requires 0 < n <= 7 && i + n <= |s|
    requires forall k :: i <= k < i + n ==> IsHexDigit(s[k])
    ensures Magnitude(s, i, n, 16) < 0x1000_0000
  {
    MagnitudeBound(s, i, n, 16);
    PowMono(16, n, 7);
    assert Pow(16, 7) == 0x1000_0000;
  }

  lemma {:induction false} PowMono(b: nat, n: nat, m: nat)
    requires b > 0 && n <= m
    ensures Pow(b, n) <= Pow(b, m)
    decreases m
  {
    if n < m {
      PowMono(b, n, m - 1);
      assert Pow(b, m) == b * Pow(b, m - 1);
    }
  }
}
