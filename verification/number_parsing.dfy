/** The part of ECMAScript `parseFloat` that the form relies on: leading white
    space is skipped, then the longest prefix that reads as a decimal literal
    (optional sign, digits with an optional fraction, optional exponent) is
    taken; with no digit at all the result is NaN, modelled as `None`.
    Values are exact reals: the rounding to the nearest double is not modelled. */
module NumberParsing {
  import opened Wrappers

  predicate IsDigit(c: char) {
    '0' <= c <= '9'
  }

  function DigitValue(c: char): (n: nat)
    requires IsDigit(c)
    ensures n < 10
  {
    c as int - '0' as int
  }

  function DigitChar(n: nat): (c: char)
    requires n < 10
    ensures IsDigit(c) && DigitValue(c) == n
  {
    ('0' as int + n) as char
  }

  /** ECMAScript WhiteSpace and LineTerminator code points (section 12.2 and
      12.3 of ECMA-262), the characters `parseFloat` trims from the front. */
  predicate IsWhiteSpace(c: char) {
    || 0x09 <= c as int <= 0x0D
    || c as int == 0x20 || c as int == 0xA0 || c as int == 0x1680
    || 0x2000 <= c as int <= 0x200A
    || c as int == 0x2028 || c as int == 0x2029 || c as int == 0x202F
    || c as int == 0x205F || c as int == 0x3000 || c as int == 0xFEFF
  }

  /** Length of the longest prefix of `s` whose characters satisfy the digit test. */
  function DigitRun(s: string): (n: nat)
    ensures n <= |s|
    ensures forall i :: 0 <= i < n ==> IsDigit(s[i])
    ensures n < |s| ==> !IsDigit(s[n])
  {
    if |s| == 0 || !IsDigit(s[0]) then 0 else 1 + DigitRun(s[1..])
  }

  /** Length of the leading white space of `s`. */
  function SpaceRun(s: string): (n: nat)
    ensures n <= |s|
    ensures forall i :: 0 <= i < n ==> IsWhiteSpace(s[i])
    ensures n < |s| ==> !IsWhiteSpace(s[n])
  {
    if |s| == 0 || !IsWhiteSpace(s[0]) then 0 else 1 + SpaceRun(s[1..])
  }

  predicate AllDigits(s: string) {
    forall i :: 0 <= i < |s| ==> IsDigit(s[i])
  }

  /** The number a string of decimal digits denotes, most significant first. */
  function DigitsValue(s: string): nat
    requires AllDigits(s)
  {
    if |s| == 0 then 0 else 10 * DigitsValue(s[..|s| - 1]) + DigitValue(s[|s| - 1])
  }

  function Pow10(n: nat): (p: nat)
    ensures p >= 1
  {
    if n == 0 then 1 else 10 * Pow10(n - 1)
  }

  /** m * 10^e for a signed exponent, one decimal place at a time. */
  function Scale(m: real, e: int): (r: real)
    ensures m >= 0.0 ==> r >= 0.0
    decreases if e >= 0 then e else -e
  {
    if e == 0 then m
    else if e > 0 then 10.0 * Scale(m, e - 1)
    else Scale(m, e + 1) / 10.0
  }

  /** Scaling by a positive exponent multiplies by that power of ten. */
  lemma {:induction false} ScaleUp(m: real, k: nat)
    ensures Scale(m, k) == m * Pow10(k) as real
  {
    if k > 0 {
      ScaleUp(m, k - 1);
    }
  }

  /** Scaling by a negative exponent divides by that power of ten. */
  lemma {:induction false} ScaleDown(m: real, k: nat)
    ensures Scale(m, -(k as int)) == m / Pow10(k) as real
  {
    if k > 0 {
      ScaleDown(m, k - 1);
      var p := Pow10(k - 1) as real;
      assert m / p / 10.0 == m / (10.0 * p);
    }
  }

  /** The exponent that a (possibly absent) exponent part at the front of `w`
      contributes: `e`/`E`, an optional sign, at least one digit; otherwise 0,
      because `parseFloat` then stops before the `e`. */
  function ExponentOf(w: string): int
  {
    if |w| > 0 && (w[0] == 'e' || w[0] == 'E') then
      var x := w[1..];
      var neg := |x| > 0 && x[0] == '-';
      var y := if |x| > 0 && (x[0] == '-' || x[0] == '+') then x[1..] else x;
      var k := DigitRun(y);
      if k == 0 then 0 else if neg then -(DigitsValue(y[..k]) as int) else DigitsValue(y[..k]) as int
    else 0
  }

  /** What follows the integer digits of a literal: the fraction digits
      after a point (none when there is no point), and the text after them. */
  datatype Fraction = Fraction(digits: string, rest: string)

  /** Reads an optional point and the fraction digits after it at the front
      of `v`. Without a point nothing is read. */
  function FractionPart(v: string): (r: Fraction)
    ensures AllDigits(r.digits)
    ensures |r.digits| > 0 ==> |v| > 1 && v[0] == '.' && IsDigit(v[1])
  {
    if |v| > 0 && v[0] == '.' then
      var w := v[1..];
      var f := DigitRun(w);
      assert f > 0 ==> w[0] == v[1];
      Fraction(w[..f], w[f..])
    else Fraction([], v)
  }

  /** An unsigned decimal literal as section 7.1.4.1 of ECMA-262 values it:
      the integer its digits spell with the point removed, and the power of
      ten to scale that integer by (the exponent less the number of fraction
      digits). */
  datatype Literal = Literal(digits: string, exponent: int)

  function LiteralValue(l: Literal): (r: real)
    requires AllDigits(l.digits)
    ensures r >= 0.0
  {
    Scale(DigitsValue(l.digits) as real, l.exponent)
  }

  /** The longest prefix of `u` that reads as an unsigned decimal literal
      (StrUnsignedDecimalLiteral without Infinity): digits, an optional point
      and fraction digits with at least one digit in all, then an optional
      exponent. */
  function UnsignedLiteral(u: string): (r: Option<Literal>)
    ensures r.Some? ==> AllDigits(r.value.digits) && |r.value.digits| > 0
    ensures r.Some? ==> (|u| > 0 && IsDigit(u[0])) || (|u| > 1 && u[0] == '.' && IsDigit(u[1]))
  {
    var i := DigitRun(u);
    var fraction := FractionPart(u[i..]);
    if i + |fraction.digits| == 0 then None
    else
      assert i == 0 ==> u[i..] == u;
      var digits := u[..i] + fraction.digits;
      assert AllDigits(digits) by {
        assert forall k :: 0 <= k < |digits| ==> digits[k] == if k < i then u[k] else fraction.digits[k - i];
      }
      Some(Literal(digits, ExponentOf(fraction.rest) - |fraction.digits|))
  }

  /** `parseFloat(s)`, with NaN as `None`: white space is skipped, a sign is
      taken, and the rest must start an unsigned literal. A number is read
      only when the text holds a digit. */
  function ParseFloat(s: string): (r: Option<real>)
    ensures r.Some? ==> exists k :: 0 <= k < |s| && IsDigit(s[k])
  {
    var t := s[SpaceRun(s)..];
    var neg := |t| > 0 && t[0] == '-';
    var u := if |t| > 0 && (t[0] == '-' || t[0] == '+') then t[1..] else t;
    match UnsignedLiteral(u)
    case None => None
    case Some(l) =>
      var off := |s| - |u|;
      assert u == s[off..];
      assert IsDigit(s[off]) || IsDigit(s[off + 1]);
      var m := LiteralValue(l);
      Some(if neg then -m else m)
  }

  /** `parseFloat(value) || 0`: NaN and both zeros become 0, every other
      parsed value is kept. */
  function NumericEntry(text: string): (v: real)
    ensures ParseFloat(text).None? ==> v == 0.0
    ensures ParseFloat(text).Some? ==> v == ParseFloat(text).value
  {
    match ParseFloat(text)
    case None => 0.0
    case Some(x) => if x == 0.0 then 0.0 else x
  }

  /** Text without a single digit is NaN to `parseFloat`, so the field becomes 0. */
  lemma NoDigitMeansNaN(s: string)
    requires forall i :: 0 <= i < |s| ==> !IsDigit(s[i])
    ensures ParseFloat(s).None?
    ensures NumericEntry(s) == 0.0
  {
    var t := s[SpaceRun(s)..];
    var u := if |t| > 0 && (t[0] == '-' || t[0] == '+') then t[1..] else t;
    assert |u| > 0 ==> u[0] == s[|s| - |u|];
    var i := DigitRun(u);
    assert i == 0;
    var hasDot := i < |u| && u[i] == '.';
    if hasDot {
      var v := u[1..];
      assert |v| > 0 ==> v[0] == s[|s| - |v|];
      assert DigitRun(v) == 0;
    }
  }

  /** The decimal text of a natural number, as `String(n)` writes it. */
  function NatText(n: nat): (s: string)
    ensures |s| > 0 && AllDigits(s)
    decreases n
  {
    if n < 10 then [DigitChar(n)] else NatText(n / 10) + [DigitChar(n % 10)]
  }

  lemma {:induction false} NatTextValue(n: nat)
    ensures DigitsValue(NatText(n)) == n
    decreases n
  {
    var s := NatText(n);
    if n < 10 {
      assert s[..|s| - 1] == [];
    } else {
      assert s[..|s| - 1] == NatText(n / 10);
      NatTextValue(n / 10);
    }
  }

  /** The digit test stops exactly where a digit string ends. */
  lemma {:induction false} DigitRunOfDigits(d: string, w: string)
    requires AllDigits(d)
    requires |w| > 0 ==> !IsDigit(w[0])
    ensures DigitRun(d + w) == |d|
    decreases |d|
  {
    if |d| > 0 {
      assert (d + w)[1..] == d[1..] + w;
      DigitRunOfDigits(d[1..], w);
    } else {
      assert d + w == w;
    }
  }

  /** A string of digits is read to its end. */
  lemma {:induction false} DigitRunAll(d: string)
    requires AllDigits(d)
    ensures DigitRun(d) == |d|
    decreases |d|
  {
    if |d| > 0 {
      DigitRunAll(d[1..]);
    }
  }

  /** How `parseFloat` takes apart a non-empty digit string `d` followed by
      a tail that does not start with a digit. */
  lemma LeadingDigits(d: string, w: string)
    requires |d| > 0 && AllDigits(d)
    requires |w| > 0 ==> !IsDigit(w[0])
    ensures SpaceRun(d + w) == 0
    ensures DigitRun(d + w) == |d|
    ensures (d + w)[0..] == d + w
    ensures (d + w)[..|d|] == d
    ensures (d + w)[|d|..] == w
  {
    assert IsDigit((d + w)[0]);
    DigitRunOfDigits(d, w);
  }

  /** A text that starts with a digit has no white space or sign to skip. */
  lemma UnsignedStart(d: string, w: string, l: Literal)
    requires |d| > 0 && AllDigits(d)
    requires |w| > 0 ==> !IsDigit(w[0])
    requires UnsignedLiteral(d + w) == Some(l)
    ensures ParseFloat(d + w) == Some(LiteralValue(l))
  {
    LeadingDigits(d, w);
    assert IsDigit((d + w)[0]);
  }

  /** The unsigned literal at the front of `u`, split into its integer
      digits `d` and the text `w` after them. */
  lemma UnsignedThen(u: string, d: string, w: string)
    requires |d| > 0 && AllDigits(d)
    requires DigitRun(u) == |d| && u[..|d|] == d && u[|d|..] == w
    ensures UnsignedLiteral(u) == Some(Literal(d + FractionPart(w).digits,
                                               ExponentOf(FractionPart(w).rest) - |FractionPart(w).digits|))
  {
    UnsignedDigits(u, d, w);
    UnsignedExponent(u, d, w);
  }

  lemma UnsignedDigits(u: string, d: string, w: string)
    requires |d| > 0 && AllDigits(d)
    requires DigitRun(u) == |d| && u[..|d|] == d && u[|d|..] == w
    ensures UnsignedLiteral(u).Some?
    ensures UnsignedLiteral(u).value.digits == d + FractionPart(w).digits
  {
  }

  lemma UnsignedExponent(u: string, d: string, w: string)
    requires |d| > 0 && AllDigits(d)
    requires DigitRun(u) == |d| && u[..|d|] == d && u[|d|..] == w
    ensures UnsignedLiteral(u).Some?
    ensures UnsignedLiteral(u).value.exponent == ExponentOf(FractionPart(w).rest) - |FractionPart(w).digits|
  {
  }

  /** A digit string followed by a tail that does not start with a digit:
      the digits and any fraction digits the tail starts with, read as one
      integer, scaled by the exponent that follows less the number of
      fraction digits. */
  lemma ParseDigitsThen(d: string, w: string)
    requires |d| > 0 && AllDigits(d)
    requires |w| > 0 ==> !IsDigit(w[0])
    ensures ParseFloat(d + w) == Some(LiteralValue(Literal(d + FractionPart(w).digits,
                                                           ExponentOf(FractionPart(w).rest) - |FractionPart(w).digits|)))
  {
    LeadingDigits(d, w);
    UnsignedThen(d + w, d, w);
    UnsignedStart(d, w, UnsignedLiteral(d + w).value);
  }

  /** Without a point there are no fraction digits. */
  lemma NoPoint(w: string)
    requires |w| > 0 ==> w[0] != '.'
    ensures FractionPart(w) == Fraction([], w)
  {
  }

  lemma AppendNothing(d: string)
    ensures d + [] == d
  {
  }

  /** A digit string followed by a tail with no point is a literal of those
      digits alone, with the tail's exponent. */
  lemma ParseDigitsLiteral(d: string, w: string)
    requires |d| > 0 && AllDigits(d)
    requires |w| > 0 ==> !IsDigit(w[0]) && w[0] != '.'
    ensures ParseFloat(d + w) == Some(LiteralValue(Literal(d, ExponentOf(w))))
  {
    assert Literal(d + FractionPart(w).digits, ExponentOf(FractionPart(w).rest) - |FractionPart(w).digits|)
      == Literal(d, ExponentOf(w)) by {
      NoPoint(w);
      AppendNothing(d);
    }
    ParseDigitsThen(d, w);
  }

  /** A digit string followed by a tail with no point: the digits' value
      scaled by the tail's exponent. */
  lemma ParseDigitsNoFraction(d: string, w: string)
    requires |d| > 0 && AllDigits(d)
    requires |w| > 0 ==> !IsDigit(w[0]) && w[0] != '.'
    ensures ParseFloat(d + w) == Some(Scale(DigitsValue(d) as real, ExponentOf(w)))
  {
    ParseDigitsLiteral(d, w);
  }

  /** Reading stops at the first character that cannot continue a number, so
      an entry such as "120 years" is read as 120. */
  lemma ParseDigitsWithTail(d: string, w: string)
    requires |d| > 0 && AllDigits(d)
    requires |w| > 0 ==> !IsDigit(w[0]) && w[0] != '.' && w[0] != 'e' && w[0] != 'E'
    ensures ParseFloat(d + w) == Some(DigitsValue(d) as real)
    ensures NumericEntry(d + w) == DigitsValue(d) as real
  {
    assert ExponentOf(w) == 0;
    ParseDigitsNoFraction(d, w);
  }

  /** Reading back the decimal text of a natural number gives that number, so
      whole-number entries reach the form unchanged. */
  lemma ParseNatText(n: nat)
    ensures ParseFloat(NatText(n)) == Some(n as real)
    ensures NumericEntry(NatText(n)) == n as real
  {
    assert NatText(n) + [] == NatText(n);
    ParseDigitsWithTail(NatText(n), []);
    NatTextValue(n);
  }

  lemma WholeSlices(d: string)
    ensures d[..|d|] == d && d[|d|..] == []
  {
  }

  /** A digit string alone is a literal with exponent 0. */
  lemma DigitsLiteral(d: string)
    requires |d| > 0 && AllDigits(d)
    ensures UnsignedLiteral(d) == Some(Literal(d, 0))
  {
    DigitRunAll(d);
    WholeSlices(d);
    NoPoint([]);
    AppendNothing(d);
    UnsignedThen(d, d, []);
  }

  /** A sign at the front: no white space, and the sign is skipped. */
  lemma SignStart(c: char, d: string)
    requires c == '-' || c == '+'
    ensures SpaceRun([c] + d) == 0
    ensures ([c] + d)[0..] == [c] + d
    ensures ([c] + d)[1..] == d
  {
    assert !IsWhiteSpace(([c] + d)[0]);
  }

  /** A sign in front of a digit string: a minus negates the value, a plus
      leaves it as it is. */
  lemma ParseSignedDigits(c: char, d: string)
    requires c == '-' || c == '+'
    requires |d| > 0 && AllDigits(d)
    ensures ParseFloat([c] + d) == Some(if c == '-' then -(DigitsValue(d) as real) else DigitsValue(d) as real)
  {
    var s := [c] + d;
    SignStart(c, d);
    DigitsLiteral(d);
    WholeLiteral(d);
    if c == '-' {
      MinusParse(s, Literal(d, 0));
    } else {
      PlusParse(s, Literal(d, 0));
    }
  }

  lemma WholeLiteral(d: string)
    requires AllDigits(d)
    ensures LiteralValue(Literal(d, 0)) == DigitsValue(d) as real
  {
  }

  /** How `parseFloat` reads a minus sign and then an unsigned literal `l`. */
  lemma MinusParse(s: string, l: Literal)
    requires |s| > 0 && s[0] == '-'
    requires SpaceRun(s) == 0 && s[0..] == s
    requires UnsignedLiteral(s[1..]) == Some(l)
    ensures AllDigits(l.digits)
    ensures ParseFloat(s) == Some(-LiteralValue(l))
  {
  }

  /** How `parseFloat` reads a plus sign and then an unsigned literal `l`. */
  lemma PlusParse(s: string, l: Literal)
    requires |s| > 0 && s[0] == '+'
    requires SpaceRun(s) == 0 && s[0..] == s
    requires UnsignedLiteral(s[1..]) == Some(l)
    ensures AllDigits(l.digits)
    ensures ParseFloat(s) == Some(LiteralValue(l))
  {
  }

  /** The decimal text of a natural number after a sign reads back as that
      number, negated by a minus. */
  lemma ParseSignedNatText(c: char, n: nat)
    requires c == '-' || c == '+'
    ensures ParseFloat([c] + NatText(n)) == Some(if c == '-' then -(n as real) else n as real)
  {
    ParseSignedDigits(c, NatText(n));
    NatTextValue(n);
  }

  /** A point followed by fraction digits and nothing else. */
  lemma FractionOfDigits(ds: string)
    requires AllDigits(ds)
    ensures FractionPart("." + ds) == Fraction(ds, [])
  {
    var v := "." + ds;
    assert v[1..] == ds;
    DigitRunAll(ds);
    assert ds[..|ds|] == ds;
  }

  /** A fraction part after the point: "7.25" is read as 725 scaled down by
      two places (`DecimalValue` gives this as 7 + 25/100); "7." is 7. */
  lemma ParseDecimalText(d: string, ds: string)
    requires |d| > 0 && AllDigits(d) && AllDigits(ds)
    ensures ParseFloat(d + "." + ds) == Some(Scale(DigitsValue(d + ds) as real, -|ds|))
  {
    assert d + "." + ds == d + ("." + ds);
    FractionOfDigits(ds);
    assert ExponentOf([]) == 0;
    ParseDigitsThen(d, "." + ds);
  }

  lemma AllDigitsAppend(d: string, ds: string)
    requires AllDigits(d) && AllDigits(ds)
    ensures AllDigits(d + ds)
  {
    forall i | 0 <= i < |d + ds|
      ensures IsDigit((d + ds)[i])
    {
      if i < |d| {
        assert (d + ds)[i] == d[i];
      } else {
        assert (d + ds)[i] == ds[i - |d|];
      }
    }
  }

  /** Appending digits shifts the value left by that many places. */
  lemma {:induction false} DigitsValueAppend(d: string, ds: string)
    requires AllDigits(d) && AllDigits(ds)
    ensures DigitsValue(d + ds) == DigitsValue(d) * Pow10(|ds|) + DigitsValue(ds)
    decreases |ds|
  {
    AllDigitsAppend(d, ds);
    if |ds| > 0 {
      var init := ds[..|ds| - 1];
      assert (d + ds)[..|d + ds| - 1] == d + init;
      assert (d + ds)[|d + ds| - 1] == ds[|ds| - 1];
      DigitsValueAppend(d, init);
      ShiftDigit(DigitsValue(d), DigitsValue(init), Pow10(|init|), DigitValue(ds[|ds| - 1]));
    } else {
      assert d + ds == d;
    }
  }

  /** One more digit at the end: the arithmetic step of `DigitsValueAppend`. */
  lemma ShiftDigit(a: int, b: int, p: int, c: int)
    ensures 10 * (a * p + b) + c == a * (10 * p) + (10 * b + c)
  {
  }

  lemma CastSum(a: int, p: int, b: int)
    ensures (a * p + b) as real == (a as real) * (p as real) + b as real
  {
  }

  lemma DivideSum(a: real, b: real, p: real)
    requires p > 0.0
    ensures (a * p + b) / p == a + b / p
  {
    assert (a + b / p) * p == a * p + b;
  }

  /** The arithmetic of `DecimalValue`, on plain numbers. */
  lemma ScaleDownSum(x: int, a: int, b: int, n: nat)
    requires x == a * Pow10(n) + b
    ensures Scale(x as real, -(n as int)) == a as real + b as real / Pow10(n) as real
  {
    var p := Pow10(n);
    CastSum(a, p, b);
    ScaleDown(x as real, n);
    DivideSum(a as real, b as real, p as real);
  }

  /** The decimal reading of integer digits `d` and fraction digits `ds`:
      the integer plus the fraction's digits over ten to their count. */
  lemma DecimalValue(d: string, ds: string)
    requires AllDigits(d) && AllDigits(ds)
    ensures Scale(DigitsValue(d + ds) as real, -|ds|)
      == DigitsValue(d) as real + DigitsValue(ds) as real / Pow10(|ds|) as real
  {
    AllDigitsAppend(d, ds);
    DigitsValueAppend(d, ds);
    ScaleDownSum(DigitsValue(d + ds), DigitsValue(d), DigitsValue(ds), |ds|);
  }

  /** The text between the mantissa and the exponent digits: `e` or `E`,
      then an optional sign. */
  predicate ExponentMark(x: string) {
    && 1 <= |x| <= 2
    && (x[0] == 'e' || x[0] == 'E')
    && (|x| == 2 ==> x[1] == '+' || x[1] == '-')
  }

  predicate NegativeMark(x: string) {
    |x| == 2 && x[1] == '-'
  }

  /** The exponent part `x` + `e` is worth the value of the digits `e`,
      negated when the mark carries a minus sign. */
  lemma ExponentOfMark(x: string, e: string)
    requires ExponentMark(x)
    requires |e| > 0 && AllDigits(e)
    ensures ExponentOf(x + e) == if NegativeMark(x) then -(DigitsValue(e) as int) else DigitsValue(e)
  {
    var w := x + e;
    var v := w[1..];
    assert v == x[1..] + e;
    var y := if |v| > 0 && (v[0] == '-' || v[0] == '+') then v[1..] else v;
    assert y == e;
    DigitRunAll(e);
    WholeSlices(e);
  }

  lemma Associate(a: string, b: string, c: string)
    ensures a + b + c == a + (b + c)
  {
  }

  /** An exponent part scales by a power of ten in either direction
      (`Scale`, with `ScaleUp` and `ScaleDown`): "3e2" and "3E+2" are
      3 * 10^2, "3e-2" is 3 / 10^2. */
  lemma ParseExponentText(d: string, x: string, e: string)
    requires |d| > 0 && AllDigits(d)
    requires ExponentMark(x)
    requires |e| > 0 && AllDigits(e)
    ensures !NegativeMark(x) ==> ParseFloat(d + x + e) == Some(Scale(DigitsValue(d) as real, DigitsValue(e)))
    ensures NegativeMark(x) ==> ParseFloat(d + x + e) == Some(Scale(DigitsValue(d) as real, -(DigitsValue(e) as int)))
  {
    ExponentOfMark(x, e);
    ParseExponentPart(d, x, e, ExponentOf(x + e));
  }

  /** A digit string followed by an exponent part `x` + `e` worth `k`. */
  lemma ParseExponentPart(d: string, x: string, e: string, k: int)
    requires |d| > 0 && AllDigits(d)
    requires |x| > 0 && (x[0] == 'e' || x[0] == 'E')
    requires ExponentOf(x + e) == k
    ensures ParseFloat(d + x + e) == Some(Scale(DigitsValue(d) as real, k))
  {
    var w := x + e;
    assert w[0] == x[0];
    Associate(d, x, e);
    ParseDigitsNoFraction(d, w);
  }
}
