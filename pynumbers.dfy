/** Python's `int(text)` and `float(text)` on the decimal texts the scraper
    reads. */
module PyNumbers {
  import opened Wrappers
  import opened PyText

  predicate IsDigit(c: char) {
    '0' <= c <= '9'
  }

  predicate AllDigits(s: string) {
    forall i :: 0 <= i < |s| ==> IsDigit(s[i])
  }

  function DigitValue(c: char): (d: nat)
    requires IsDigit(c)
    ensures d < 10
  {
    (c as int) - ('0' as int)
  }

  function Pow10(n: nat): (p: nat)
    ensures p >= 1
  {
    if n == 0 then 1 else 10 * Pow10(n - 1)
  }

  /** The number a string of decimal digits denotes, most significant first. */
  function DigitsValue(ds: string): (v: nat)
    requires AllDigits(ds)
    ensures v < Pow10(|ds|)
    decreases |ds|
  {
    if ds == [] then 0 else DigitsValue(ds[..|ds| - 1]) * 10 + DigitValue(ds[|ds| - 1])
  }

  /** A digit string holds no whitespace, sign, separator or letter. */
  lemma DigitsHoldNoMark(s: string)
    requires AllDigits(s)
    ensures forall c :: c in s ==> IsDigit(c) && !IsSpace(c)
    ensures '-' !in s && '+' !in s && '.' !in s && ',' !in s && 'h' !in s && 'm' !in s && '€' !in s
  {
  }

  /** The text of a number after its optional sign. */
  function Unsigned(t: string): string {
    if |t| > 0 && (t[0] == '-' || t[0] == '+') then t[1..] else t
  }

  predicate Negative(t: string) {
    |t| > 0 && t[0] == '-'
  }

  /** Python's `int(text)` in base 10: optional surrounding whitespace, an
      optional sign, then one or more ASCII digits; anything else raises. */
  function ParseInt(text: string): Option<int> {
    var t := Strip(text);
    var digits := Unsigned(t);
    if digits != [] && AllDigits(digits) then
      var v: int := DigitsValue(digits);
      Some(if Negative(t) then -v else v)
    else None
  }

  /** A minus sign after stripping was in the text itself. */
  lemma SignFromText(text: string)
    ensures Negative(Strip(text)) ==> '-' in text
  {
    var t := Strip(text);
    if Negative(t) {
      assert t[0] in t;
      StripChars(text);
    }
  }

  /** `int()` raises on a blank text, and reads a text without a minus sign
      as a number that is not negative. */
  lemma ParseIntSign(text: string)
    ensures Strip(text) == [] ==> ParseInt(text).None?
    ensures ParseInt(text).Some? && '-' !in text ==> ParseInt(text).value >= 0
  {
    SignFromText(text);
  }

  /** `int` of a plain digit string is its decimal value, leading zeros included. */
  lemma ParseIntDigits(ds: string)
    requires ds != [] && AllDigits(ds)
    ensures ParseInt(ds) == Some(DigitsValue(ds))
  {
    DigitsHoldNoMark(ds);
    assert ds[0] in ds && ds[|ds| - 1] in ds;
    assert Trimmed(ds);
  }

  /** A proper fraction lies in [0, 1). */
  lemma ProperFraction(n: nat, d: nat)
    requires n < d
    ensures 0.0 <= n as real / d as real < 1.0
  {
    var q := n as real / d as real;
    assert q * d as real == n as real;
  }

  /** The value of `whole.frac` in decimal notation. */
  function DecimalValue(whole: string, frac: string): (v: real)
    requires AllDigits(whole) && AllDigits(frac)
    ensures DigitsValue(whole) as real <= v < DigitsValue(whole) as real + 1.0
  {
    ProperFraction(DigitsValue(frac), Pow10(|frac|));
    DigitsValue(whole) as real + DigitsValue(frac) as real / Pow10(|frac|) as real
  }

  /** Python's `float(text)` on plain decimal notation: optional surrounding
      whitespace, an optional sign, digits with at most one `.`, and at least
      one digit; anything else raises. The value is exact. */
  function ParseFloat(text: string): Option<real> {
    var t := Strip(text);
    var parts := Split(Unsigned(t), '.');
    var whole := parts[0];
    var frac := if |parts| == 2 then parts[1] else [];
    if |parts| <= 2 && AllDigits(whole) && AllDigits(frac) && |whole| + |frac| > 0 then
      var v := DecimalValue(whole, frac);
      Some(if Negative(t) then -v else v)
    else None
  }

  /** `float()` raises on a blank text, and reads a text without a minus sign
      as a number that is not negative. */
  lemma ParseFloatSign(text: string)
    ensures Strip(text) == [] ==> ParseFloat(text).None?
    ensures ParseFloat(text).Some? && '-' !in text ==> ParseFloat(text).value >= 0.0
  {
    SignFromText(text);
  }

  /** `float` of an unsigned, trimmed `whole.frac`. */
  lemma ParseFloatPoint(s: string, whole: string, frac: string)
    requires Trimmed(s) && Unsigned(s) == s && !Negative(s)
    requires Split(s, '.') == [whole, frac]
    requires AllDigits(whole) && AllDigits(frac) && whole != []
    ensures ParseFloat(s) == Some(DecimalValue(whole, frac))
  {
  }

  /** `whole + "." + frac` is trimmed, unsigned, and splits at its one point. */
  lemma PointTextShape(whole: string, frac: string)
    requires whole != [] && AllDigits(whole) && AllDigits(frac)
    ensures var s := whole + "." + frac;
      Trimmed(s) && Unsigned(s) == s && !Negative(s) && Split(s, '.') == [whole, frac]
  {
    var s := whole + "." + frac;
    DigitsHoldNoMark(whole);
    DigitsHoldNoMark(frac);
    assert !IsSpace(s[0]) by { assert s[0] == whole[0] && whole[0] in whole; }
    assert !IsSpace(s[|s| - 1]) by {
      if frac != [] { assert s[|s| - 1] == frac[|frac| - 1] && frac[|frac| - 1] in frac; }
    }
    assert s[0] == whole[0];
    SplitFirst(whole, frac, '.');
    SplitNoSeparator(frac, '.');
  }

  /** `float(whole + "." + frac)` is the decimal value of the digits. */
  lemma ParseFloatDecimal(whole: string, frac: string)
    requires whole != [] && AllDigits(whole) && AllDigits(frac)
    ensures ParseFloat(whole + "." + frac) == Some(DecimalValue(whole, frac))
  {
    PointTextShape(whole, frac);
    ParseFloatPoint(whole + "." + frac, whole, frac);
  }

  /** `float` of a plain digit string is its value. */
  lemma ParseFloatWhole(ds: string)
    requires ds != [] && AllDigits(ds)
    ensures ParseFloat(ds) == Some(DigitsValue(ds) as real)
  {
    DigitsHoldNoMark(ds);
    assert ds[0] in ds && ds[|ds| - 1] in ds;
    assert Trimmed(ds);
    assert Unsigned(ds) == ds;
    SplitNoSeparator(ds, '.');
    assert DecimalValue(ds, []) == DigitsValue(ds) as real;
  }

  /** Digits with no fractional part are worth their integer value. */
  lemma NoFraction(ds: string)
    requires AllDigits(ds)
    ensures DecimalValue(ds, []) == DigitsValue(ds) as real
  {
  }

  /** `float` of a trimmed, negative text whose digits hold no point. */
  lemma ParseFloatMinus(s: string, ds: string)
    requires Trimmed(s) && Unsigned(s) == ds && Negative(s)
    requires Split(ds, '.') == [ds] && ds != [] && AllDigits(ds)
    ensures ParseFloat(s) == Some(-DecimalValue(ds, []))
  {
  }

  /** `"-" + ds`: trimmed, negative, with `ds` as its unsigned part and no point. */
  lemma NegatedTextShape(ds: string)
    requires ds != [] && AllDigits(ds)
    ensures var s := "-" + ds;
      Trimmed(s) && Unsigned(s) == ds && Negative(s) && Split(ds, '.') == [ds]
  {
    var s := "-" + ds;
    DigitsHoldNoMark(ds);
    assert s[|s| - 1] == ds[|ds| - 1] && ds[|ds| - 1] in ds;
    SplitNoSeparator(ds, '.');
  }

  /** `float` of a minus sign followed by digits is the negated value. */
  lemma ParseFloatNegated(ds: string)
    requires ds != [] && AllDigits(ds)
    ensures ParseFloat("-" + ds) == Some(-(DigitsValue(ds) as real))
  {
    NegatedTextShape(ds);
    ParseFloatMinus("-" + ds, ds);
    NoFraction(ds);
  }
}
