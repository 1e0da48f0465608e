/** Python's `float(word)` on a word without whitespace, and `int(x)` on the
    float it gives. Values are exact reals: IEEE rounding and the overflow of
    huge exponents to infinity are not modelled. */
module PyFloat {
  import opened Wrappers
  import opened Text

  datatype FloatValue = Finite(x: real) | Infinite(negative: bool) | NotANumber | Malformed

  predicate IsDigit(c: char) { '0' <= c <= '9' }

  predicate AllDigits(s: string) {
    forall k :: 0 <= k < |s| ==> IsDigit(s[k])
  }

  function DigitValue(c: char): nat
    requires IsDigit(c)
  {
    (c as int - '0' as int) as nat
  }

  /** The number a run of decimal digits denotes (`0` for the empty run). */
  function DigitsValue(ds: string): (v: nat)
    requires AllDigits(ds)
    ensures v < Pow10(|ds|)
  {
    if ds == [] then 0
    else
      var front := DigitsValue(ds[..|ds| - 1]);
      assert front + 1 <= Pow10(|ds| - 1);
      assert (front + 1) * 10 <= Pow10(|ds| - 1) * 10;
      front * 10 + DigitValue(ds[|ds| - 1])
  }

  function Pow10(n: nat): (p: nat)
    ensures p >= 1
  {
    if n == 0 then 1 else 10 * Pow10(n - 1)
  }

  /** The value of the digits after a decimal point. */
  function FractionValue(ds: string): (r: real)
    requires AllDigits(ds)
    ensures 0.0 <= r < 1.0
  {
    var v, p := DigitsValue(ds) as real, Pow10(|ds|) as real;
    QuotientBelowOne(v, p);
    v / p
  }

  lemma QuotientBelowOne(v: real, p: real)
    requires 0.0 <= v < p
    ensures 0.0 <= v / p < 1.0
  {
    var r := v / p;
    assert r * p == v;
    assert (r - 1.0) * p == v - p;
  }

  /** ASCII lower-casing, as Python compares `inf` and `nan` case-blind. */
  function Lower(s: string): (r: string)
    ensures |r| == |s|
  {
    if s == [] then []
    else
      var c := s[0];
      [if 'A' <= c <= 'Z' then (c as int + 32) as char else c] + Lower(s[1..])
  }

  /** The index of the first `e` or `E` in `s`, or `|s|` when there is none. */
  function ExponentMark(s: string): (i: nat)
    ensures i <= |s|
    ensures forall k :: 0 <= k < i ==> s[k] != 'e' && s[k] != 'E'
    ensures i < |s| ==> s[i] == 'e' || s[i] == 'E'
  {
    if s == [] then 0
    else if s[0] == 'e' || s[0] == 'E' then 0
    else 1 + ExponentMark(s[1..])
  }

  /** A signed exponent such as `-3` or `+12`. */
  function ParseExponent(s: string): (r: Option<int>)
  {
    var neg := |s| > 0 && s[0] == '-';
    var digits := if |s| > 0 && (s[0] == '+' || s[0] == '-') then s[1..] else s;
    if digits == [] || !AllDigits(digits) then None
    else
      var n := DigitsValue(digits);
      Some(if neg then -(n as int) else n)
  }

  /** Scaling by a power of ten given as a whole (possibly negative) number. */
  function ScaleByPow10(x: real, e: int): (r: real)
    ensures x >= 0.0 ==> r >= 0.0
  {
    if e >= 0 then x * Pow10(e) as real else x / Pow10(-e) as real
  }

  /** Digits with at most one decimal point and at least one digit. */
  function ParseMantissa(mantissa: string): (r: Option<real>)
    ensures r.Some? ==> r.value >= 0.0
  {
    var pieces := Split(mantissa, '.');
    if |pieces| > 2 then None
    else
      var whole := pieces[0];
      var frac := if |pieces| == 2 then pieces[1] else "";
      if !AllDigits(whole) || !AllDigits(frac) || whole + frac == [] then None
      else Some(DigitsValue(whole) as real + FractionValue(frac))
  }

  /** An unsigned decimal: a mantissa, then an optional exponent. */
  function ParseUnsigned(body: string): (r: FloatValue)
    ensures r.Finite? ==> r.x >= 0.0
    ensures !r.Infinite? && !r.NotANumber?
  {
    var m := ExponentMark(body);
    var exponent := if m < |body| then ParseExponent(body[m + 1..]) else Some(0);
    match (ParseMantissa(body[..m]), exponent)
    case (Some(value), Some(e)) => Finite(ScaleByPow10(value, e))
    case _ => Malformed
  }

  /** `float(w)`: an optional sign, then `inf`, `infinity` or `nan` in any
      case, or a decimal number. */
  function ParseFloat(w: string): (r: FloatValue)
  {
    var signed := |w| > 0 && (w[0] == '+' || w[0] == '-');
    var negative := signed && w[0] == '-';
    var body := if signed then w[1..] else w;
    var word := Lower(body);
    if word == "inf" || word == "infinity" then Infinite(negative)
    else if word == "nan" then NotANumber
    else
      match ParseUnsigned(body)
      case Finite(x) => Finite(if negative then -x else x)
      case other => other
  }

  /** `int(x)` for a finite float: truncation toward zero. */
  function Trunc(x: real): (r: int)
    ensures x >= 0.0 ==> 0 <= r && r as real <= x < r as real + 1.0
    ensures x < 0.0 ==> r <= 0 && r as real - 1.0 < x <= r as real
  {
    if x >= 0.0 then x.Floor else -((-x).Floor)
  }

  /** The decimal rendering of a natural number, most significant digit
      first and without leading zeros. */
  function NatString(n: nat): (s: string)
    ensures s != [] && AllDigits(s)
  {
    if n < 10 then ['0' + n as char] else NatString(n / 10) + ['0' + (n % 10) as char]
  }

  /** Reading back a rendered natural number gives the number. */
  lemma {:induction false} NatStringValue(n: nat)
    ensures DigitsValue(NatString(n)) == n
  {
    if n >= 10 {
      NatStringValue(n / 10);
      var s := NatString(n);
      assert s[..|s| - 1] == NatString(n / 10);
    }
  }

  /** A plain run of digits reads as the whole number it denotes. */
  lemma DigitsParse(s: string)
    requires s != [] && AllDigits(s)
    ensures ParseUnsigned(s) == Finite(DigitsValue(s) as real)
  {
    var m := ExponentMark(s);
    NoExponentInDigits(s);
    assert s[..m] == s;
    MantissaOfDigits(s[..m]);
    UnscaledValue(DigitsValue(s) as real);
  }

  lemma UnscaledValue(x: real)
    ensures ScaleByPow10(x, 0) == x
  {
  }

  lemma NoExponentInDigits(s: string)
    requires AllDigits(s)
    ensures ExponentMark(s) == |s|
  {
    var m := ExponentMark(s);
    assert m < |s| ==> IsDigit(s[m]);
  }

  lemma MantissaOfDigits(s: string)
    requires s != [] && AllDigits(s)
    ensures ParseMantissa(s) == Some(DigitsValue(s) as real)
  {
    assert forall k :: 0 <= k < |s| ==> s[k] != '.';
    SplitJoin([s], '.');
    assert Split(s, '.') == [s];
    assert FractionValue("") == 0.0;
  }

  /** A mantissa with a decimal point denotes its whole part plus its
      fraction (`"12.5"` is 12.5, `".5"` is 0.5, `"3."` is 3). */
  lemma MantissaWithPoint(w: string, f: string)
    requires AllDigits(w) && AllDigits(f) && w + f != []
    ensures ParseMantissa(w + "." + f) == Some(DigitsValue(w) as real + FractionValue(f))
  {
    DigitsHaveNo(w, '.');
    DigitsHaveNo(f, '.');
    SplitAtPoint(w, f);
    MantissaOfPieces(w + "." + f, w, f);
  }

  lemma MantissaOfPieces(mantissa: string, w: string, f: string)
    requires Split(mantissa, '.') == [w, f]
    requires AllDigits(w) && AllDigits(f) && w + f != []
    ensures ParseMantissa(mantissa) == Some(DigitsValue(w) as real + FractionValue(f))
  {
  }

  lemma SplitAtPoint(w: string, f: string)
    requires '.' !in w && '.' !in f
    ensures Split(w + "." + f, '.') == [w, f]
  {
    assert w + "." + f == w + ['.'] + f;
    SplitAround(w, f, '.');
    SplitWithout(w, '.');
    SplitWithout(f, '.');
  }

  lemma DigitsHaveNo(s: string, c: char)
    requires AllDigits(s) && !IsDigit(c)
    ensures c !in s
  {
    forall k | 0 <= k < |s| ensures s[k] != c {
      assert IsDigit(s[k]);
    }
  }

  /** The exponent mark of a number is the first `e` after its mantissa. */
  lemma MarkAfterMantissa(m: string, rest: string)
    requires 'e' !in m && 'E' !in m
    ensures ExponentMark(m + "e" + rest) == |m|
  {
    var body := m + "e" + rest;
    assert body[|m|] == 'e';
    assert forall k :: 0 <= k < |m| ==> body[k] == m[k];
  }

  /** A number with an exponent is its mantissa scaled by the exponent. */
  lemma UnsignedWithExponent(m: string, d: string, v: real, e: int)
    requires 'e' !in m && 'E' !in m
    requires ParseMantissa(m) == Some(v) && ParseExponent(d) == Some(e)
    ensures ParseUnsigned(m + "e" + d) == Finite(ScaleByPow10(v, e))
  {
    var body := m + "e" + d;
    MarkAfterMantissa(m, d);
    assert body[..|m|] == m;
    assert body[|m| + 1..] == d;
  }

  /** An unsigned exponent reads as the number its digits denote. */
  lemma ExponentOfDigits(d: string)
    requires d != [] && AllDigits(d)
    ensures ParseExponent(d) == Some(DigitsValue(d))
  {
    assert IsDigit(d[0]);
  }

  /** A negative exponent reads as minus the number its digits denote. */
  lemma NegativeExponentOfDigits(d: string)
    requires d != [] && AllDigits(d)
    ensures ParseExponent("-" + d) == Some(-(DigitsValue(d) as int))
  {
    assert ("-" + d)[1..] == d;
  }

  /** An exponent `e<digits>` scales the mantissa up by ten to the power
      the digits denote (`ScaleUp`). */
  lemma PositiveExponentScales(m: string, d: string)
    requires 'e' !in m && 'E' !in m && ParseMantissa(m).Some?
    requires d != [] && AllDigits(d)
    ensures ParseUnsigned(m + "e" + d) == Finite(ScaleByPow10(ParseMantissa(m).value, DigitsValue(d)))
  {
    var v := ParseMantissa(m).value;
    ExponentOfDigits(d);
    UnsignedWithExponent(m, d, v, DigitsValue(d));
  }

  /** Scaling by a natural power multiplies by ten to that power. */
  lemma ScaleUp(x: real, n: nat)
    ensures ScaleByPow10(x, n) == x * Pow10(n) as real
  {
  }

  /** An exponent `e-<digits>` scales the mantissa down by ten to the
      power the digits denote. */
  lemma NegativeExponentScales(m: string, d: string)
    requires 'e' !in m && 'E' !in m && ParseMantissa(m).Some?
    requires d != [] && AllDigits(d)
    ensures ParseUnsigned(m + "e" + ("-" + d)) == Finite(ParseMantissa(m).value / Pow10(DigitsValue(d)) as real)
  {
    var v := ParseMantissa(m).value;
    NegativeExponentOfDigits(d);
    UnsignedWithExponent(m, "-" + d, v, -(DigitsValue(d) as int));
    ScaleDown(v, DigitsValue(d));
  }

  lemma ScaleDown(x: real, n: nat)
    ensures ScaleByPow10(x, -(n as int)) == x / Pow10(n) as real
  {
    if n == 0 {
      assert Pow10(0) == 1;
    }
  }

  /** `float()` of a rendered natural number is that number. */
  lemma NatStringParses(n: nat)
    ensures ParseFloat(NatString(n)) == Finite(n as real)
  {
    var s := NatString(n);
    NatStringValue(n);
    DigitsParse(s);
    UnsignedDigits(s);
  }

  /** A word of digits is neither signed nor a special value, so `float()`
      reads it as an unsigned decimal. */
  lemma UnsignedDigits(w: string)
    requires w != [] && AllDigits(w)
    ensures ParseFloat(w) == ParseUnsigned(w)
  {
    assert Lower(w)[0] == w[0];
    assert IsDigit(w[0]);
  }

  /** A minus sign negates what the rest of the word denotes. */
  lemma NegativeSign(w: string)
    requires |w| > 0 && w[0] != '+' && w[0] != '-'
    ensures ParseFloat("-" + w) == match ParseFloat(w)
                                  case Finite(x) => Finite(-x)
                                  case Infinite(_) => Infinite(true)
                                  case other => other
  {
    assert ("-" + w)[1..] == w;
  }
}
