/** How `extract_rdv_data` turns the text of one detail overlay into field
    values: the duration and price grammars, the sex toggle buttons, the
    postal-code fallback, and the plain text fields. */
module Fields {
  import opened Wrappers
  import opened PyText
  import opened PyNumbers

  /** A plain text field: the element's stripped text, or "" when the element
      is missing or reading it raises. */
  function TextOr(raw: Option<string>): (r: string)
    ensures Trimmed(r)
    ensures raw.None? ==> r == ""
    ensures raw.Some? ==> r == Strip(raw.value)
  {
    match raw
    case None => ""
    case Some(t) => Strip(t)
  }

  // ---------------------------------------------------------------- duration

  /** `text.replace("min", "")`. */
  function DropMinutes(s: string): string {
    Replace(s, "min", "")
  }

  /** The duration in minutes read from the element's raw text, or None where
      the source's `int()` raises: the grammar below, on the stripped text. */
  function ParseDuration(raw: string): Option<int> {
    DurationOfText(Strip(raw))
  }

  /** Text holding an "h" is read as hours and minutes around the first "h"
      (an empty side counts as 0, pieces after a second "h" are ignored);
      other text is read as a number of minutes. "min" is dropped first. */
  function DurationOfText(text: string): Option<int> {
    if 'h' in text then HoursAndMinutes(Split(DropMinutes(text), 'h'))
    else ParseInt(Strip(DropMinutes(text)))
  }

  /** One piece of the hour grammar: empty counts as 0, otherwise `int(piece)`. */
  function PieceValue(piece: string): Option<int> {
    if piece == [] then Some(0) else ParseInt(piece)
  }

  /** Hours from the first piece, minutes from the second when there is one. */
  function HoursAndMinutes(parts: seq<string>): Option<int>
    requires parts != []
  {
    var h := PieceValue(parts[0]);
    var m := if |parts| > 1 then PieceValue(parts[1]) else Some(0);
    if h.Some? && m.Some? then Some(h.value * 60 + m.value) else None
  }

  /** `duree_min` of a record: the parsed duration, or the default 0 when the
      element is missing or its text does not parse. */
  function DurationOr0(raw: Option<string>): int {
    match raw
    case None => 0
    case Some(t) => ParseDuration(t).GetOr(0)
  }

  /** In the hour grammar the text always splits into at least two pieces, so
      the `len(parts) > 1` guard never fails there. */
  lemma HourGrammarHasMinutesPiece(raw: string)
    requires 'h' in Strip(raw)
    ensures |Split(DropMinutes(Strip(raw)), 'h')| >= 2
  {
    var t := DropMinutes(Strip(raw));
    ReplaceKeeps(Strip(raw), "min", "", 'h');
    CountPositive(t, 'h');
  }

  /** Hour-grammar pieces without a minus sign give a duration that is not
      negative. */
  lemma PiecesNonNegative(parts: seq<string>)
    requires parts != [] && '-' !in parts[0] && (|parts| > 1 ==> '-' !in parts[1])
    ensures HoursAndMinutes(parts).Some? ==> HoursAndMinutes(parts).value >= 0
  {
    ParseIntSign(parts[0]);
    if |parts| > 1 { ParseIntSign(parts[1]); }
  }

  /** A duration whose text holds no minus sign is never negative. */
  lemma DurationNonNegative(raw: string)
    requires '-' !in raw
    ensures ParseDuration(raw).Some? ==> ParseDuration(raw).value >= 0
  {
    var text := Strip(raw);
    assert '-' !in text by {
      StripChars(raw);
    }
    var d := DropMinutes(text);
    assert '-' !in d by {
      ReplaceChars(text, "min", "");
    }
    if 'h' in text {
      var parts := Split(d, 'h');
      assert '-' !in parts[0] && (|parts| > 1 ==> '-' !in parts[1]) by {
        SplitChars(d, 'h');
      }
      HourGrammarApplies(text);
      PiecesNonNegative(parts);
    } else {
      assert '-' !in Strip(d) by {
        StripChars(d);
      }
      ParseIntSign(Strip(d));
    }
  }

  /** A signed duration is read with its sign: nothing clamps it at 0. */
  lemma NegativeDurationKept()
    ensures ParseDuration("-5") == Some(-5)
  {
    var s := "-5";
    assert Trimmed(s);
    assert 'h' !in s && 'm' !in s;
    NoMinutesMarker(s);
    assert Unsigned(s) == "5" && Negative(s);
    assert DigitsValue("5") == 5;
    assert ParseInt(s) == Some(-5);
    MinutesForm(s, -5);
    DurationOfTrimmed(s, Some(-5));
  }

  /** Proof step: a text with no whitespace at either end is read as it
      is. It steers the solver past `Strip` and states no property of the
      scraper of its own. */
  lemma DurationOfTrimmed(text: string, d: Option<int>)
    requires Trimmed(text) && DurationOfText(text) == d
    ensures ParseDuration(text) == d
  {
  }

  /** Proof step: unfolds the minutes branch of `DurationOfText` for the
      solver; it states no property of the scraper of its own. */
  lemma MinutesForm(text: string, m: int)
    requires 'h' !in text && ParseInt(Strip(DropMinutes(text))) == Some(m)
    ensures DurationOfText(text) == Some(m)
  {
  }

  /** Proof step: unfolds the hour branch of `DurationOfText` for the
      solver; it states no property of the scraper of its own. */
  lemma HourGrammarApplies(text: string)
    requires 'h' in text
    ensures DurationOfText(text) == HoursAndMinutes(Split(DropMinutes(text), 'h'))
  {
  }

  /** The hour grammar reads hours times 60 plus minutes from its first two pieces. */
  lemma HoursFromPieces(parts: seq<string>, h: int, m: int)
    requires |parts| >= 2 && PieceValue(parts[0]) == Some(h) && PieceValue(parts[1]) == Some(m)
    ensures HoursAndMinutes(parts) == Some(60 * h + m)
  {
    var hv, mv := PieceValue(parts[0]), PieceValue(parts[1]);
    assert HoursAndMinutes(parts) == Some(hv.value * 60 + mv.value);
  }

  /** The hour grammar, from the first two pieces. */
  lemma HourForm(text: string, hs: string, ms: string, h: int, m: int)
    requires 'h' in text
    requires var parts := Split(DropMinutes(text), 'h'); |parts| >= 2 && parts[0] == hs && parts[1] == ms
    requires PieceValue(hs) == Some(h) && PieceValue(ms) == Some(m)
    ensures DurationOfText(text) == Some(60 * h + m)
  {
    HourGrammarApplies(text);
    HoursFromPieces(Split(DropMinutes(text), 'h'), h, m);
  }

  /** A trimmed text holding an "h" is read by the hour grammar. */
  lemma HourText(text: string, hs: string, ms: string, h: int, m: int)
    requires Trimmed(text) && 'h' in text
    requires var parts := Split(DropMinutes(text), 'h'); |parts| >= 2 && parts[0] == hs && parts[1] == ms
    requires PieceValue(hs) == Some(h) && PieceValue(ms) == Some(m)
    ensures ParseDuration(text) == Some(60 * h + m)
  {
    HourForm(text, hs, ms, h, m);
  }

  /** A text that holds no "m" loses nothing to `replace("min", "")`, and
      neither does it when a final "min" follows it. */
  lemma NoMinutesMarker(a: string)
    requires 'm' !in a
    ensures DropMinutes(a) == a
    ensures DropMinutes(a + "min") == a
  {
    ReplaceAbsent(a, "min", "");
    ReplaceFreePrefix(a, "min", "min", "");
    ReplaceWhole("min", "");
    assert a + "" == a;
  }

  /** A text that starts with a digit and ends with anything but whitespace
      is left alone by `strip()`. */
  lemma DigitLedTrimmed(s: string, first: string, lastPiece: string)
    requires first != [] && AllDigits(first) && |first| <= |s| && s[..|first|] == first
    requires lastPiece != [] && |lastPiece| <= |s| && s[|s| - |lastPiece|..] == lastPiece
    requires !IsSpace(lastPiece[|lastPiece| - 1])
    ensures Trimmed(s)
  {
    DigitsHoldNoMark(first);
    assert s[0] == first[0] && first[0] in first;
    assert s[|s| - 1] == lastPiece[|lastPiece| - 1];
  }

  /** Proof step: a character found in neither part is not in their
      concatenation. It unfolds a definition for the solver and states no
      property of the scraper. */
  lemma AbsentFromBoth(a: string, b: string, c: char)
    requires c !in a && c !in b
    ensures c !in a + b
  {
  }

  /** Two pieces free of "h" around one "h" split back into those pieces. */
  lemma SplitAtMarker(hs: string, ms: string)
    requires 'h' !in hs && 'h' !in ms
    ensures Split(hs + "h" + ms, 'h') == [hs, ms]
  {
    SplitFirst(hs, ms, 'h');
    SplitNoSeparator(ms, 'h');
    assert [hs] + [ms] == [hs, ms];
  }

  /** Three pieces, the first two free of "h", separated by "h": the first two
      pieces of the split are the first two pieces. */
  lemma SplitAtTwoMarkers(hs: string, ms: string, rest: string)
    requires 'h' !in hs && 'h' !in ms
    ensures var parts := Split(hs + "h" + ms + "h" + rest, 'h'); |parts| >= 2 && parts[0] == hs && parts[1] == ms
  {
    var tail := ms + "h" + rest;
    assert hs + "h" + ms + "h" + rest == hs + ['h'] + tail;
    assert tail == ms + ['h'] + rest;
    SplitFirst(hs, tail, 'h');
    SplitFirst(ms, rest, 'h');
  }

  /** A digit string, alone or followed by "min", is read by the minutes grammar. */
  lemma MinutesTextShape(ms: string)
    requires ms != [] && AllDigits(ms)
    ensures Trimmed(ms) && 'h' !in ms && DropMinutes(ms) == ms
    ensures Trimmed(ms + "min") && 'h' !in ms + "min" && DropMinutes(ms + "min") == ms
  {
    DigitsHoldNoMark(ms);
    AbsentFromBoth(ms, "min", 'h');
    NoMinutesMarker(ms);
    DigitLedTrimmed(ms, ms, [ms[|ms| - 1]]);
    DigitLedTrimmed(ms + "min", ms, "n");
  }

  /** A number of minutes, with or without "min" ("50min", "50"), is read as
      that many minutes. */
  lemma DurationMinutes(ms: string)
    requires ms != [] && AllDigits(ms)
    ensures ParseDuration(ms + "min") == Some(DigitsValue(ms))
    ensures ParseDuration(ms) == Some(DigitsValue(ms))
  {
    ParseIntDigits(ms);
    MinutesTextShape(ms);
    MinutesForm(ms, DigitsValue(ms));
    DurationOfTrimmed(ms, Some(DigitsValue(ms)));
    MinutesForm(ms + "min", DigitsValue(ms));
    DurationOfTrimmed(ms + "min", Some(DigitsValue(ms)));
  }

  /** `hs + "h" + ms` with or without a final "min": trimmed, holding the
      hour marker, and splitting into the hours and minutes pieces. */
  lemma HourTextShape(hs: string, ms: string)
    requires hs != [] && AllDigits(hs) && AllDigits(ms)
    ensures var a := hs + "h" + ms;
      Trimmed(a) && 'h' in a && DropMinutes(a) == a && Split(a, 'h') == [hs, ms]
    ensures var b := hs + "h" + ms + "min";
      Trimmed(b) && 'h' in b && DropMinutes(b) == hs + "h" + ms
  {
    DigitsHoldNoMark(hs);
    DigitsHoldNoMark(ms);
    var a := hs + "h" + ms;
    assert 'm' !in a && a[|hs|] == 'h';
    NoMinutesMarker(a);
    SplitAtMarker(hs, ms);
    if ms == [] {
      DigitLedTrimmed(a, hs, "h");
    } else {
      assert ms[|ms| - 1] in ms;
      DigitLedTrimmed(a, hs, ms);
    }
    DigitLedTrimmed(a + "min", hs, "n");
    assert (a + "min")[|hs|] == 'h';
  }

  /** Hours, "h", then minutes, with or without a final "min" ("1h30",
      "1h30min", "2h"): hours times 60 plus minutes, where each piece is read
      with `int()` and an empty minutes piece counts as 0. */
  lemma DurationHoursMinutes(hs: string, ms: string, h: int, m: int)
    requires hs != [] && AllDigits(hs) && AllDigits(ms)
    requires PieceValue(hs) == Some(h) && PieceValue(ms) == Some(m)
    ensures ParseDuration(hs + "h" + ms) == Some(60 * h + m)
    ensures ParseDuration(hs + "h" + ms + "min") == Some(60 * h + m)
  {
    var a := hs + "h" + ms;
    HourTextShape(hs, ms);
    HourText(a, hs, ms, h, m);
    HourText(a + "min", hs, ms, h, m);
  }

  /** A digit piece of the hour grammar is worth its decimal value, an empty
      one 0. */
  lemma DigitPiece(ds: string)
    requires AllDigits(ds)
    ensures PieceValue(ds) == Some(DigitsValue(ds))
  {
    if ds != [] { ParseIntDigits(ds); }
  }

  /** `hs + "h" + ms + "h" + rest`: trimmed, and its first two pieces are the
      hours and the minutes. */
  lemma LaterPiecesTextShape(hs: string, ms: string, rest: string)
    requires hs != [] && AllDigits(hs) && AllDigits(ms) && AllDigits(rest)
    ensures Trimmed(hs + "h" + ms + "h" + rest)
    ensures 'h' in hs + "h" + ms + "h" + rest
    ensures DropMinutes(hs + "h" + ms + "h" + rest) == hs + "h" + ms + "h" + rest
    ensures var parts := Split(hs + "h" + ms + "h" + rest, 'h'); |parts| >= 2 && parts[0] == hs && parts[1] == ms
  {
    var a := hs + "h" + ms + "h" + rest;
    assert a[|hs|] == 'h';
    assert DropMinutes(a) == a by {
      DigitsHoldNoMark(hs);
      DigitsHoldNoMark(ms);
      DigitsHoldNoMark(rest);
      AbsentFromBoth(hs, "h", 'm');
      AbsentFromBoth(hs + "h", ms, 'm');
      AbsentFromBoth(hs + "h" + ms, "h", 'm');
      AbsentFromBoth(hs + "h" + ms + "h", rest, 'm');
      NoMinutesMarker(a);
    }
    assert Trimmed(a) by {
      if rest == [] {
        DigitLedTrimmed(a, hs, "h");
      } else {
        DigitsHoldNoMark(rest);
        assert rest[|rest| - 1] in rest;
        DigitLedTrimmed(a, hs, rest);
      }
    }
    DigitsHoldNoMark(hs);
    DigitsHoldNoMark(ms);
    SplitAtTwoMarkers(hs, ms, rest);
  }

  /** Pieces after a second "h" are ignored ("1h30h15" is 90 minutes). */
  lemma DurationIgnoresLaterPieces(hs: string, ms: string, rest: string, h: int, m: int)
    requires hs != [] && AllDigits(hs) && AllDigits(ms) && AllDigits(rest)
    requires PieceValue(hs) == Some(h) && PieceValue(ms) == Some(m)
    ensures ParseDuration(hs + "h" + ms + "h" + rest) == Some(60 * h + m)
  {
    var text := hs + "h" + ms + "h" + rest;
    LaterPiecesTextShape(hs, ms, rest);
    HourText(text, hs, ms, h, m);
  }

  /** `hs + "h"`: trimmed, holding the hour marker, and splitting into the
      hours piece and an empty minutes piece. */
  lemma WholeHoursTextShape(hs: string)
    requires hs != [] && AllDigits(hs)
    ensures var text := hs + "h";
      Trimmed(text) && 'h' in text && DropMinutes(text) == text && Split(text, 'h') == [hs, []]
  {
    var text := hs + "h";
    DigitsHoldNoMark(hs);
    assert 'm' !in text && text[|hs|] == 'h';
    NoMinutesMarker(text);
    DigitLedTrimmed(text, hs, "h");
    assert text == hs + ['h'] + [];
    SplitFirst(hs, [], 'h');
    SplitNoSeparator([], 'h');
  }

  /** Whole hours with nothing after the "h" ("2h" is 120 minutes): the empty
      minutes piece counts as 0. */
  lemma DurationWholeHours(hs: string, h: int)
    requires hs != [] && AllDigits(hs) && PieceValue(hs) == Some(h)
    ensures ParseDuration(hs + "h") == Some(60 * h)
  {
    WholeHoursTextShape(hs);
    HourText(hs + "h", hs, [], h, 0);
  }

  /** Worked example: "50min" is 50 minutes. */
  lemma FiftyMinutesExample()
    ensures ParseDuration("50min") == Some(50)
  {
    assert "50" + "min" == "50min";
    assert DigitsValue("50") == 50;
    DurationMinutes("50");
  }

  /** Worked example: "1h30" is 90 minutes. */
  lemma HourThirtyExample()
    ensures ParseDuration("1h30") == Some(90)
  {
    assert "1" + "h" + "30" == "1h30";
    assert DigitsValue("1") == 1 && DigitsValue("30") == 30;
    DigitPiece("1");
    DigitPiece("30");
    DurationHoursMinutes("1", "30", 1, 30);
  }

  /** Worked example: "1h30min" is 90 minutes. */
  lemma HourThirtyMinExample()
    ensures ParseDuration("1h30min") == Some(90)
  {
    assert "1" + "h" + "30" + "min" == "1h30min";
    assert DigitsValue("1") == 1 && DigitsValue("30") == 30;
    DigitPiece("1");
    DigitPiece("30");
    DurationHoursMinutes("1", "30", 1, 30);
  }

  /** Worked example: "2h" is 120 minutes. */
  lemma TwoHoursExample()
    ensures ParseDuration("2h") == Some(120)
  {
    assert "2" + "h" == "2h";
    assert PieceValue("2") == Some(2) by {
      assert "2"[..0] == [];
      DigitPiece("2");
    }
    DurationWholeHours("2", 2);
  }

  // ------------------------------------------------------------------- price

  /** `text.strip().replace("€", "").replace(",", ".").strip()`. */
  function NormalisePrice(raw: string): string {
    Strip(Replace(Replace(Strip(raw), "€", ""), ",", "."))
  }

  /** The normalised price text is trimmed, holds no euro sign and no comma,
      and every character in it comes from the raw text or is the point. */
  lemma NormalisedPriceText(raw: string)
    ensures var t := NormalisePrice(raw);
      '€' !in t && ',' !in t && Trimmed(t) && forall c :: c in t ==> c in raw || c == '.'
  {
    var stripped := Strip(raw);
    var noEuro := Replace(stripped, "€", "");
    var dotted := Replace(noEuro, ",", ".");
    StripChars(raw);
    ReplaceChars(stripped, "€", "");
    ReplaceChars(noEuro, ",", ".");
    StripChars(dotted);
  }

  /** The price read from the element's raw text, or None where `float()` raises. */
  function ParsePrice(raw: string): Option<real> {
    ParseFloat(NormalisePrice(raw))
  }

  /** `prix` of a record: the parsed price, or the default 0.0. */
  function PriceOr0(raw: Option<string>): real {
    match raw
    case None => 0.0
    case Some(t) => ParsePrice(t).GetOr(0.0)
  }

  /** A price whose text holds no minus sign is never negative. */
  lemma PriceNonNegative(raw: string)
    requires '-' !in raw
    ensures ParsePrice(raw).Some? ==> ParsePrice(raw).value >= 0.0
  {
    NormalisedPriceText(raw);
    ParseFloatSign(NormalisePrice(raw));
  }

  /** A signed price is read with its sign: nothing clamps it at 0. */
  lemma NegativePriceKept()
    ensures ParsePrice("-3") == Some(-3.0)
  {
    var s := "-3";
    assert "-" + "3" == s;
    assert DigitsValue("3") == 3;
    ParseFloatNegated("3");
    assert NormalisePrice(s) == s by {
      assert Trimmed(s);
      ReplaceAbsent(s, "€", "");
      ReplaceAbsent(s, ",", ".");
    }
  }

  /** A final euro sign is removed. */
  lemma DropEuroSuffix(a: string)
    requires '€' !in a
    ensures Replace(a + "€", "€", "") == a
  {
    ReplaceFreePrefix(a, "€", "€", "");
    ReplaceWhole("€", "");
    assert a + "" == a;
  }

  /** The decimal comma of "E,CC " becomes a point. */
  lemma CommaToPoint(es: string, cents: string)
    requires ',' !in es && ',' !in cents
    ensures Replace(es + "," + cents + " ", ",", ".") == es + "." + cents + " "
  {
    AbsentFromBoth(cents, " ", ',');
    ReplaceOnce(es, cents + " ", ',', ".");
    assert es + [','] + (cents + " ") == es + "," + cents + " ";
    assert es + "." + (cents + " ") == es + "." + cents + " ";
  }

  /** A trimmed price text ending in "€" loses the sign, then its commas
      become points and the result is stripped. */
  lemma EuroSuffixNormalised(spaced: string)
    requires Trimmed(spaced + "€") && '€' !in spaced
    ensures NormalisePrice(spaced + "€") == Strip(Replace(spaced, ",", "."))
  {
    DropEuroSuffix(spaced);
  }

  /** "E,CC €" normalises to "E.CC". */
  lemma CommaPriceText(es: string, cents: string)
    requires es != [] && AllDigits(es) && AllDigits(cents)
    ensures NormalisePrice(es + "," + cents + " €") == es + "." + cents
  {
    DigitsHoldNoMark(es);
    DigitsHoldNoMark(cents);
    var spaced := es + "," + cents + " ";
    var dotted := es + "." + cents;
    assert es + "," + cents + " €" == spaced + "€";
    assert Trimmed(spaced + "€") by {
      assert (spaced + "€")[0] == es[0] && es[0] in es;
    }
    assert '€' !in spaced by {
      AbsentFromBoth(es, ",", '€');
      AbsentFromBoth(es + ",", cents, '€');
      AbsentFromBoth(es + "," + cents, " ", '€');
    }
    EuroSuffixNormalised(spaced);
    CommaToPoint(es, cents);
    assert Trimmed(dotted) by {
      assert dotted[0] == es[0] && es[0] in es;
      if cents != [] {
        assert dotted[|dotted| - 1] == cents[|cents| - 1] && cents[|cents| - 1] in cents;
      }
    }
    StripTrailingSpace(dotted);
  }

  /** A French-formatted price "E,CC €": the comma is read as the decimal
      point, so the price is E plus CC read as a decimal fraction. */
  lemma PriceWithComma(es: string, cents: string)
    requires es != [] && AllDigits(es) && AllDigits(cents)
    ensures ParsePrice(es + "," + cents + " €") == Some(DecimalValue(es, cents))
  {
    CommaPriceText(es, cents);
    ParseFloatDecimal(es, cents);
  }

  /** "E €" normalises to "E". */
  lemma WholePriceText(es: string)
    requires es != [] && AllDigits(es)
    ensures NormalisePrice(es + " €") == es
  {
    DigitsHoldNoMark(es);
    var spaced := es + " ";
    assert es + " €" == spaced + "€";
    assert Trimmed(spaced + "€") by {
      assert (spaced + "€")[0] == es[0] && es[0] in es;
    }
    AbsentFromBoth(es, " ", '€');
    EuroSuffixNormalised(spaced);
    AbsentFromBoth(es, " ", ',');
    ReplaceAbsent(spaced, ",", ".");
    assert Trimmed(es) by {
      assert es[0] in es && es[|es| - 1] in es;
    }
    StripTrailingSpace(es);
  }

  /** A whole-euro price "E €" is E. */
  lemma PriceWholeEuros(es: string)
    requires es != [] && AllDigits(es)
    ensures ParsePrice(es + " €") == Some(DigitsValue(es) as real)
  {
    WholePriceText(es);
    ParseFloatWhole(es);
  }

  /** Worked example: "12,50 €" is 12.5. */
  lemma CommaPriceExample()
    ensures ParsePrice("12,50 €") == Some(12.5)
  {
    assert "12" + "," + "50" + " €" == "12,50 €";
    assert ParsePrice("12,50 €") == Some(DecimalValue("12", "50")) by {
      PriceWithComma("12", "50");
    }
    TwelveFifty();
  }

  /** The decimal "12.50" is 12.5. */
  lemma TwelveFifty()
    ensures DecimalValue("12", "50") == 12.5
  {
    assert "12"[..1] == "1" && "1"[..0] == [];
    assert "50"[..1] == "5" && "5"[..0] == [];
    var w, f, p := DigitsValue("12"), DigitsValue("50"), Pow10(|"50"|);
    assert w == 12 && f == 50;
    assert p == 100;
    assert DecimalValue("12", "50") == w as real + f as real / p as real;
  }

  /** Worked example: "8 €" is 8.0. */
  lemma WholePriceExample()
    ensures ParsePrice("8 €") == Some(8.0)
  {
    assert "8" + " €" == "8 €";
    assert DigitsValue("8") == 8;
    PriceWholeEuros("8");
  }

  // --------------------------------------------------------------------- sex

  /** One of the sex toggle buttons: its `class` attribute (None when the
      attribute is absent), its `aria-selected` attribute, and its text. */
  datatype Button = Button(classAttr: Option<string>, ariaSelected: Option<string>, text: string)

  /** The selection test: the class contains "active" as a substring, or
      `aria-selected` is "true". */
  predicate IsActive(b: Button)
    requires b.classAttr.Some?
  {
    Contains(b.classAttr.value, "active") || b.ariaSelected == Some("true")
  }

  /** Button `k` is where the search stops with a value: it is active, and every
      earlier button has a class attribute and is not active. */
  predicate IsFirstActive(bs: seq<Button>, k: int) {
    0 <= k < |bs| && bs[k].classAttr.Some? && IsActive(bs[k])
    && forall j :: 0 <= j < k ==> bs[j].classAttr.Some? && !IsActive(bs[j])
  }

  /** The sex value the button search leaves: the stripped text of the first
      active button, or "Autre" when the buttons run out or a button without a
      class attribute makes the `in` test raise first. */
  function SexOf(bs: seq<Button>): string
    decreases |bs|
  {
    if bs == [] || bs[0].classAttr.None? then "Autre"
    else if IsActive(bs[0]) then Strip(bs[0].text)
    else SexOf(bs[1..])
  }

  /** The search returns the text of the first active button. */
  lemma {:induction false} SexOfFirstActive(bs: seq<Button>, k: int)
    requires IsFirstActive(bs, k)
    ensures SexOf(bs) == Strip(bs[k].text)
    decreases |bs|
  {
    if k > 0 {
      assert bs[0].classAttr.Some? && !IsActive(bs[0]);
      assert IsFirstActive(bs[1..], k - 1) by {
        forall j | 0 <= j < k - 1
          ensures bs[1..][j].classAttr.Some? && !IsActive(bs[1..][j])
        {
          assert bs[1..][j] == bs[j + 1];
        }
      }
      SexOfFirstActive(bs[1..], k - 1);
    }
  }

  /** With no first active button the value stays "Autre". */
  lemma {:induction false} SexOfNoneActive(bs: seq<Button>)
    requires forall k :: 0 <= k < |bs| ==> !IsFirstActive(bs, k)
    ensures SexOf(bs) == "Autre"
    decreases |bs|
  {
    if bs != [] && bs[0].classAttr.Some? {
      assert !IsFirstActive(bs, 0);
      forall k | 0 <= k < |bs| - 1
        ensures !IsFirstActive(bs[1..], k)
      {
        if IsFirstActive(bs[1..], k) {
          forall j | 0 <= j < k + 1
            ensures bs[j].classAttr.Some? && !IsActive(bs[j])
          {
            if j > 0 { assert bs[j] == bs[1..][j - 1]; }
          }
          assert IsFirstActive(bs, k + 1);
        }
      }
      SexOfNoneActive(bs[1..]);
    }
  }

  /** A class attribute such as "inactive" passes the substring test, so a
      button marked inactive ahead of the active one is the one chosen. */
  lemma InactiveClassIsSelected()
    ensures SexOf([Button(Some("inactive"), None, "Femme"), Button(Some("active"), None, "Homme")]) == "Femme"
  {
    var bs := [Button(Some("inactive"), None, "Femme"), Button(Some("active"), None, "Homme")];
    assert IsFirstActive(bs, 0) by {
      assert "in" + "active" == "inactive";
      ContainsSuffix("in", "active");
    }
    SexOfFirstActive(bs, 0);
    assert Strip("Femme") == "Femme" by {
      assert Trimmed("Femme");
    }
  }

  /** The loop over the sex buttons: it stops at the first active button and
      keeps "Autre" when none is found or a class attribute is missing. */
  method SelectSex(bs: seq<Button>) returns (sexe: string)
    ensures sexe == SexOf(bs)
  {
    sexe := "Autre";
    var i := 0;
    while i < |bs|
      invariant 0 <= i <= |bs|
      invariant SexOf(bs[i..]) == SexOf(bs)
      invariant sexe == "Autre"
    {
      var b := bs[i];
      if b.classAttr.None? {
        // The `in` test on a missing attribute raises; the value stays "Autre".
        return;
      }
      if IsActive(b) {
        sexe := Strip(b.text);
        break;
      }
      assert bs[i..][1..] == bs[i + 1..];
      i := i + 1;
    }
  }

  // ------------------------------------------------------------- postal code

  /** The postal-code element: its `value` attribute (None when absent) and its text. */
  datatype PostalElement = PostalElement(value: Option<string>, text: string)

  /** `value or text.strip()`: a non-empty value attribute wins, unstripped;
      otherwise the stripped text. */
  function PostalCode(e: PostalElement): (r: string)
    ensures e.value.Some? && e.value.value != "" ==> r == e.value.value
    ensures e.value.None? || e.value.value == "" ==> r == Strip(e.text)
    ensures r == "" <==> (e.value.None? || e.value.value == "") && Strip(e.text) == ""
  {
    if e.value.Some? && e.value.value != "" then e.value.value else Strip(e.text)
  }
}
