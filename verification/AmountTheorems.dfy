/**
 What the amount canonicaliser guarantees: one text per number, the same number unless it has more
 than 28 significant digits, and nothing left to do on a canonical text.
 */
module AmountTheorems {
  import opened Wrappers
  import opened Digits
  import opened Text
  import opened Amount

  /** No leading zero, sign or exponent; a point only before a fraction that does not end in zero. */
  predicate Canonical(s: string, places: nat)
  {
    var i := IndexOf(s, '.');
    && i > 0 && AllDigits(s[..i]) && (s[0] == '0' ==> i == 1)
    && (i < |s| ==> AllDigits(s[i + 1..]) && 0 < |s| - i - 1 <= places && s[|s| - 1] != '0')
  }

  // ----- Reading a formatted amount -----------------------------------------------------------------

  predicate Plain(s: string) { forall i :: 0 <= i < |s| ==> IsDigit(s[i]) || s[i] == '.' }

  lemma {:induction false} NoUnderscores(s: string)
    requires Plain(s)
    ensures DropUnderscores(s) == s
  {
    if s != "" {
      NoUnderscores(s[1..]);
      assert s == [s[0]] + s[1..];
    }
  }

  lemma {:induction false} IndexOfAppend(w: string, c: char, rest: string)
    requires c !in w
    ensures IndexOf(w + [c] + rest, c) == |w|
  {
    if w == "" {
      assert (w + [c] + rest)[0] == c;
    } else {
      IndexOfAppend(w[1..], c, rest);
      assert (w + [c] + rest)[1..] == w[1..] + [c] + rest;
    }
  }

  lemma {:induction false} IndexOfAbsent(w: string, c: char)
    requires c !in w
    ensures IndexOf(w, c) == |w|
  {
    if w != "" {
      IndexOfAbsent(w[1..], c);
    }
  }

  /** A plain text reads as the digits on both sides of its point. */
  lemma ReadsPointed(whole: string, fraction: string)
    requires AllDigits(whole) && AllDigits(fraction) && whole != ""
    ensures AllDigits(whole + fraction)
    ensures Read(whole + "." + fraction) == Some(Written(false, Dec(Value(whole + fraction), -|fraction|)))
  {
    var s := whole + "." + fraction;
    NoUnderscores(s);
    assert s[0] == whole[0] && IsDigit(whole[0]);
    UnsignedPointed(whole, fraction);
  }

  lemma UnsignedPointed(whole: string, fraction: string)
    requires AllDigits(whole) && AllDigits(fraction) && whole != ""
    ensures AllDigits(whole + fraction)
    ensures Unsigned(false, whole + "." + fraction) == Some(Written(false, Dec(Value(whole + fraction), -|fraction|)))
  {
    var s := whole + "." + fraction;
    IndexOfAppend(whole, '.', fraction);
    assert s[..|whole|] == whole && s[|whole| + 1..] == fraction;
  }

  lemma ReadsWhole(whole: string)
    requires AllDigits(whole) && whole != ""
    ensures Read(whole) == Some(Written(false, Dec(Value(whole), 0)))
  {
    NoUnderscores(whole);
    IndexOfAbsent(whole, '.');
    assert whole[..|whole|] == whole && IsDigit(whole[0]) && whole + "" == whole;
  }

  /** A canonical text, which the last clean-up and a second reading leave as it is. */
  predicate Shaped(s: string, places: nat) { Plain(s) && Canonical(s, places) && Tidy(s) == s }

  lemma PointedIsCanonical(whole: string, fraction: string, places: nat)
    requires AllDigits(whole) && AllDigits(fraction) && whole != "" && 0 < |fraction| <= places
    requires (whole[0] == '0' ==> |whole| == 1) && fraction[|fraction| - 1] != '0'
    ensures Shaped(whole + "." + fraction, places)
  {
    var s := whole + "." + fraction;
    IndexOfAppend(whole, '.', fraction);
    assert s[..|whole|] == whole && s[|whole| + 1..] == fraction;
    assert s[|s| - 1] == fraction[|fraction| - 1] && s[0] == whole[0];
  }

  lemma WholeIsCanonical(whole: string, places: nat)
    requires AllDigits(whole) && whole != "" && (whole[0] == '0' ==> |whole| == 1)
    ensures Shaped(whole, places)
  {
    IndexOfAbsent(whole, '.');
    assert whole[..|whole|] == whole;
  }

  lemma PlainIsItself(s: string)
    requires Plain(s)
    ensures Strip(s) == s && 'e' !in s && 'E' !in s
  {
    TrimmedIsStripped(s);
  }

  /** The numeral of a coefficient that is not a multiple of ten. */
  predicate Trim(numeral: string)
  {
    numeral != "" && AllDigits(numeral) && numeral[0] != '0' && numeral[|numeral| - 1] != '0'
  }

  lemma ReducedNumeral(c: nat)
    requires c % 10 != 0
    ensures Trim(Numeral(c)) && Value(Numeral(c)) == c
  {
    ValueOfNumeral(c);
    NoLeadingZero(c);
  }

  /** The text reads as this number. */
  predicate ReadsAs(s: string, d: Dec, places: nat)
  {
    && Read(s).Some? && !Read(s).value.negative && Read(s).value.number.exponent + places >= 0 && d.exponent + places >= 0
    && Units(Read(s).value.number, places) == Units(d, places)
  }

  /** A formatted decimal is canonical, reads back as the same number, and needs no tidying. */
  lemma FormatReads(d: Dec, places: nat)
    requires Reduced(d) && d.exponent + places >= 0
    ensures Shaped(Format(d), places) && ReadsAs(Format(d), d, places)
  {
    if d.exponent >= 0 {
      WholeReads(d, places);
    } else {
      FractionReads(d, places);
    }
  }

  lemma WholeReads(d: Dec, places: nat)
    requires Reduced(d) && d.exponent >= 0
    ensures Shaped(Format(d), places) && ReadsAs(Format(d), d, places)
  {
    WholeFormat(d);
    WholeIsCanonical(Format(d), places);
    ReadsWhole(Format(d));
    WholeUnits(d, places);
  }

  lemma WholeUnits(d: Dec, places: nat)
    requires d.exponent >= 0
    ensures var n := d.coefficient * Pow10(d.exponent);
            AllDigits(Numeral(n)) && Units(Dec(Value(Numeral(n)), 0), places) == Units(d, places)
  {
    ValueOfNumeral(d.coefficient * Pow10(d.exponent));
    Scale(d.coefficient, d.exponent, places);
  }

  lemma WholeFormat(d: Dec)
    requires Reduced(d) && d.exponent >= 0
    ensures Format(d) == Numeral(d.coefficient * Pow10(d.exponent))
    ensures AllDigits(Format(d)) && Format(d) != "" && (Format(d)[0] == '0' ==> |Format(d)| == 1)
  {
    if d.coefficient > 0 {
      AppendZeros(d.coefficient, d.exponent);
      NoLeadingZero(d.coefficient);
    } else {
      assert Format(d) == "0";
    }
  }

  lemma FractionReads(d: Dec, places: nat)
    requires Reduced(d) && d.exponent < 0 && d.exponent + places >= 0
    ensures Shaped(Format(d), places) && ReadsAs(Format(d), d, places)
  {
    ReducedNumeral(d.coefficient);
    LayoutReads(Numeral(d.coefficient), d, places);
  }

  lemma LayoutReads(numeral: string, d: Dec, places: nat)
    requires Trim(numeral) && Value(numeral) == d.coefficient && d.exponent < 0 && d.exponent + places >= 0
    ensures Shaped(Layout(numeral, d.exponent), places) && ReadsAs(Layout(numeral, d.exponent), d, places)
  {
    PaddedIsReady(numeral, d);
    PointedDigitsRead(Padded(numeral, -d.exponent), d, places);
  }

  /** The digits of this number, ready for a point: at least one stands before it, and the last is not zero. */
  predicate Ready(digits: string, d: Dec)
  {
    && AllDigits(digits) && 0 < -d.exponent < |digits| && Value(digits) == d.coefficient
    && digits[|digits| - 1] != '0' && (digits[0] != '0' || |digits| == 1 - d.exponent)
  }

  lemma PaddedIsReady(numeral: string, d: Dec)
    requires Trim(numeral) && Value(numeral) == d.coefficient && d.exponent < 0
    ensures Ready(Padded(numeral, -d.exponent), d)
  {
    var p := -d.exponent;
    if |numeral| <= p {
      var zeros := Zeros(p + 1 - |numeral|);
      PrependZeros(p + 1 - |numeral|, numeral);
      assert (zeros + numeral)[p] == numeral[|numeral| - 1];
    }
  }

  lemma PointedDigitsRead(digits: string, d: Dec, places: nat)
    requires Ready(digits, d) && d.exponent + places >= 0
    ensures Shaped(Pointed(digits, -d.exponent), places) && ReadsAs(Pointed(digits, -d.exponent), d, places)
  {
    var i := |digits| + d.exponent;
    Halves(digits, i);
    PointedReads(digits[..i], digits[i..], d, places);
  }

  lemma Halves(digits: string, i: nat)
    requires AllDigits(digits) && 0 < i < |digits|
    ensures AllDigits(digits[..i]) && AllDigits(digits[i..]) && digits[..i] + digits[i..] == digits
    ensures digits[..i][0] == digits[0] && digits[i..][|digits| - i - 1] == digits[|digits| - 1]
  {
  }

  lemma PointedReads(whole: string, fraction: string, d: Dec, places: nat)
    requires AllDigits(whole) && AllDigits(fraction) && whole != "" && 0 < |fraction| <= places
    requires (whole[0] == '0' ==> |whole| == 1) && fraction[|fraction| - 1] != '0'
    requires d == Dec(Value(whole + fraction), -|fraction|)
    ensures Shaped(whole + "." + fraction, places) && ReadsAs(whole + "." + fraction, d, places)
  {
    ReadsPointed(whole, fraction);
    PointedIsCanonical(whole, fraction, places);
  }

  // ----- The main results ------------------------------------------------------------------------

  /** The canonical text of this number, rounded. */
  predicate TextOf(s: string, d: Dec, places: nat)
  {
    && s == Format(Reduce(Round(d))) && Shaped(s, places) && Strip(s) == s
    && d.exponent + places >= 0 && Round(d).exponent + places >= 0 && ReadsAs(s, Round(d), places)
  }

  lemma RoundedText(d: Dec, places: nat)
    requires d.exponent + places >= 0
    ensures TextOf(Format(Reduce(Round(d))), d, places)
  {
    RoundMeaning(d, places);
    ReducePreserves(Round(d), places);
    FormatReads(Reduce(Round(d)), places);
    PlainIsItself(Format(Reduce(Round(d))));
  }

  /** What acceptance checks, and the text it then produces. */
  lemma Admitted(w: Written, allowZero: bool, places: nat)
    requires Admit(w, allowZero, places).Ok?
    ensures TextOf(Admit(w, allowZero, places).value, w.number, places)
    ensures allowZero || w.number.coefficient > 0
  {
    RoundedText(w.number, places);
  }

  /** An accepted amount becomes a canonical text that denotes the rounded number. */
  lemma ResultIsCanonical(value: string, allowZero: bool, places: nat)
    requires Parse(value, allowZero, places).Ok?
    ensures Read(Strip(value)).Some? && Denoted(value).exponent + places >= 0
    ensures TextOf(Parse(value, allowZero, places).value, Denoted(value), places)
    ensures allowZero || Denoted(value).coefficient > 0
  {
    Admitted(Read(Strip(value)).value, allowZero, places);
  }

  /** The number is kept exactly when it has at most 28 significant digits. */
  lemma ValueIsKeptExactly(value: string, allowZero: bool, places: nat)
    requires Parse(value, allowZero, places).Ok?
    ensures Read(Strip(value)).Some? && Denoted(value).exponent + places >= 0
    ensures ReadsAs(Parse(value, allowZero, places).value, Denoted(value), places) <==>
              SignificantDigits(Denoted(value)) <= PRECISION
  {
    ResultIsCanonical(value, allowZero, places);
    ExactWhenShort(Denoted(value), places);
  }

  lemma ExactWhenShort(d: Dec, places: nat)
    requires d.exponent + places >= 0
    ensures Round(d).exponent + places >= 0
    ensures Units(Round(d), places) == Units(d, places) <==> SignificantDigits(d) <= PRECISION
  {
    RoundMeaning(d, places);
    if Length(d.coefficient) > PRECISION {
      SignificantFit(d);
    } else {
      ReduceShrinks(d);
    }
  }

  /** Two accepted amounts have the same text exactly when they round to the same number. */
  lemma OneTextPerNumber(a: string, b: string, allowZero: bool, places: nat)
    requires Parse(a, allowZero, places).Ok? && Parse(b, allowZero, places).Ok?
    ensures Read(Strip(a)).Some? && Read(Strip(b)).Some?
    ensures var x, y := Denoted(a), Denoted(b);
            && x.exponent + places >= 0 && y.exponent + places >= 0
            && Round(x).exponent + places >= 0 && Round(y).exponent + places >= 0
            && (Parse(a, allowZero, places) == Parse(b, allowZero, places) <==>
                  Units(Round(x), places) == Units(Round(y), places))
            && (SignificantDigits(x) <= PRECISION && SignificantDigits(y) <= PRECISION ==>
                  (Parse(a, allowZero, places) == Parse(b, allowZero, places) <==> Units(x, places) == Units(y, places)))
  {
    ResultIsCanonical(a, allowZero, places);
    ResultIsCanonical(b, allowZero, places);
    SameText(Parse(a, allowZero, places).value, Parse(b, allowZero, places).value, Denoted(a), Denoted(b), places);
  }

  lemma SameText(s: string, t: string, x: Dec, y: Dec, places: nat)
    requires TextOf(s, x, places) && TextOf(t, y, places)
    ensures s == t <==> Units(Round(x), places) == Units(Round(y), places)
    ensures SignificantDigits(x) <= PRECISION && SignificantDigits(y) <= PRECISION ==>
              (s == t <==> Units(x, places) == Units(y, places))
  {
    SameRounding(x, y, places);
    ExactWhenShort(x, places);
    ExactWhenShort(y, places);
  }

  lemma SameRounding(x: Dec, y: Dec, places: nat)
    requires x.exponent + places >= 0 && y.exponent + places >= 0
    ensures Round(x).exponent + places >= 0 && Round(y).exponent + places >= 0
    ensures Units(Round(x), places) == Units(Round(y), places) ==> Reduce(Round(x)) == Reduce(Round(y))
  {
    RoundMeaning(x, places);
    RoundMeaning(y, places);
    ReducePreserves(Round(x), places);
    ReducePreserves(Round(y), places);
    if Units(Round(x), places) == Units(Round(y), places) {
      ReducedIsUnique(Reduce(Round(x)), Reduce(Round(y)), places);
    }
  }

  /** Canonicalising twice changes nothing more. */
  lemma ParseIsIdempotent(value: string, allowZero: bool, places: nat)
    requires Parse(value, allowZero, places).Ok?
    ensures Parse(Parse(value, allowZero, places).value, allowZero, places) == Parse(value, allowZero, places)
  {
    ResultIsCanonical(value, allowZero, places);
    TextIsFixed(Parse(value, allowZero, places).value, Denoted(value), allowZero, places);
  }

  lemma TextIsFixed(s: string, d: Dec, allowZero: bool, places: nat)
    requires TextOf(s, d, places) && (allowZero || d.coefficient > 0)
    ensures Parse(s, allowZero, places) == Ok(s)
  {
    var again := Read(s).value.number;
    RoundedIsStable(d, again, places);
    ReadsPositive(s, d, places);
    AcceptedAgain(s, Read(s).value, allowZero, places);
  }

  lemma ReadsPositive(s: string, d: Dec, places: nat)
    requires TextOf(s, d, places)
    ensures Read(s).value.number.coefficient == 0 <==> d.coefficient == 0
  {
    RoundMeaning(d, places);
    ZeroUnits(Read(s).value.number, Round(d), places);
  }

  lemma ZeroUnits(a: Dec, b: Dec, places: nat)
    requires a.exponent + places >= 0 && b.exponent + places >= 0 && Units(a, places) == Units(b, places)
    ensures a.coefficient == 0 <==> b.coefficient == 0
  {
    Cancels(a.coefficient, 0, Pow10(a.exponent + places));
    Cancels(b.coefficient, 0, Pow10(b.exponent + places));
  }

  /** Rounding a number that was already rounded gives the same reduced decimal. */
  lemma RoundedIsStable(d: Dec, again: Dec, places: nat)
    requires d.exponent + places >= 0 && again.exponent + places >= 0 && Round(d).exponent + places >= 0
    requires Units(again, places) == Units(Round(d), places)
    ensures Reduce(Round(again)) == Reduce(Round(d))
  {
    RoundMeaning(d, places);
    ReducePreserves(Round(d), places);
    ReducePreserves(again, places);
    ReducedIsUnique(Reduce(again), Reduce(Round(d)), places);
    ReduceShrinks(Round(d));
    ExactWhenShort(again, places);
    ReducePreserves(Round(again), places);
    ReducedIsUnique(Reduce(Round(again)), Reduce(Round(d)), places);
  }

  lemma AcceptedAgain(s: string, w: Written, allowZero: bool, places: nat)
    requires Shaped(s, places) && Strip(s) == s && Read(s) == Some(w) && !w.negative && w.number.exponent + places >= 0
    requires allowZero || w.number.coefficient > 0
    requires Format(Reduce(Round(w.number))) == s
    ensures Parse(s, allowZero, places) == Ok(s)
  {
    PlainIsItself(s);
    assert s != "";
    assert Admit(w, allowZero, places) == Ok(s);
  }

  // ----- The fixed points are the canonical texts ---------------------------------------------------

  lemma CanonicalWhole(s: string)
    requires AllDigits(s) && s != "" && (s[0] == '0' ==> |s| == 1)
    ensures Format(Reduce(Dec(Value(s), 0))) == s
  {
    var d := Dec(Value(s), 0);
    NumeralOfValue(s);
    ReducePreserves(d, 0);
    Enlarged(d, Reduce(d), 0);
    if s == "0" {
      assert s[..0] == "";
    }
    WholeFormat(Reduce(d));
  }

  lemma CanonicalPointed(whole: string, fraction: string)
    requires AllDigits(whole) && AllDigits(fraction) && whole != "" && fraction != ""
    requires (whole[0] == '0' ==> |whole| == 1) && fraction[|fraction| - 1] != '0'
    ensures AllDigits(whole + fraction)
    ensures Format(Reduce(Dec(Value(whole + fraction), -|fraction|))) == whole + "." + fraction
  {
    var digits := whole + fraction;
    assert digits[|digits| - 1] == fraction[|fraction| - 1];
    LastDigit(digits);
    PaddedBack(whole, fraction);
    PointedBack(whole, fraction);
  }

  lemma PointedBack(whole: string, fraction: string)
    ensures Pointed(whole + fraction, |fraction|) == whole + "." + fraction
  {
    var digits := whole + fraction;
    assert digits[..|whole|] == whole && digits[|whole|..] == fraction;
  }

  lemma LastDigit(s: string)
    requires AllDigits(s) && s != ""
    ensures Value(s) % 10 == 0 <==> s[|s| - 1] == '0'
  {
  }

  lemma PaddedBack(whole: string, fraction: string)
    requires AllDigits(whole) && AllDigits(fraction) && whole != "" && fraction != ""
    requires (whole[0] == '0' ==> |whole| == 1) && Value(whole + fraction) > 0
    ensures Padded(Numeral(Value(whole + fraction)), |fraction|) == whole + fraction
  {
    if whole[0] == '0' {
      assert whole == "0";
      ZeroThenFraction(fraction);
      ValueOfNumeral(Value(fraction));
      PaddedZero(fraction, Numeral(Value(fraction)));
    } else {
      NumeralOfValue(whole + fraction);
    }
  }

  lemma ZeroThenFraction(fraction: string)
    requires AllDigits(fraction) && fraction != ""
    ensures AllDigits("0" + fraction) && Value("0" + fraction) == Value(fraction)
    ensures Length(Value(fraction)) <= |fraction|
  {
    assert "0" == Zeros(1);
    PrependZeros(1, fraction);
    ValueBelow(fraction);
    LengthBelow(Value(fraction), |fraction|);
  }

  lemma PaddedZero(fraction: string, numeral: string)
    requires AllDigits(fraction) && AllDigits(numeral) && |numeral| <= |fraction|
    requires AllDigits("0" + fraction) && Value("0" + fraction) == Value(numeral)
    ensures Padded(numeral, |fraction|) == "0" + fraction
  {
    PrependZeros(|fraction| + 1 - |numeral|, numeral);
    SameLengthSameValue("0" + fraction, Padded(numeral, |fraction|));
  }

  /** Reading a canonical text and formatting the reduced number gives the text back. */
  predicate ReadsBack(s: string, places: nat)
  {
    && Shaped(s, places) && Read(s).Some? && !Read(s).value.negative && Read(s).value.number.exponent + places >= 0
    && Format(Reduce(Read(s).value.number)) == s
  }

  lemma PointedReadsBack(whole: string, fraction: string, places: nat)
    requires AllDigits(whole) && AllDigits(fraction) && whole != "" && 0 < |fraction| <= places
    requires (whole[0] == '0' ==> |whole| == 1) && fraction[|fraction| - 1] != '0'
    ensures ReadsBack(whole + "." + fraction, places)
  {
    ReadsPointed(whole, fraction);
    CanonicalPointed(whole, fraction);
    PointedIsCanonical(whole, fraction, places);
  }

  lemma CanonicalReadsBack(s: string, places: nat)
    requires Canonical(s, places)
    ensures ReadsBack(s, places)
  {
    var i := IndexOf(s, '.');
    if i == |s| {
      assert s[..i] == s;
      ReadsWhole(s);
      CanonicalWhole(s);
      WholeIsCanonical(s, places);
    } else {
      assert s == s[..i] + "." + s[i + 1..];
      PointedReadsBack(s[..i], s[i + 1..], places);
    }
  }

  /** A text is left as it is exactly when it is canonical, fits the precision, and is not a refused zero. */
  lemma FixedPointsAreCanonical(s: string, allowZero: bool, places: nat)
    ensures Parse(s, allowZero, places) == Ok(s) <==>
              Canonical(s, places) && Read(s).Some? && SignificantDigits(Read(s).value.number) <= PRECISION &&
              (allowZero || Read(s).value.number.coefficient > 0)
  {
    if Parse(s, allowZero, places) == Ok(s) {
      FixedIsCanonical(s, allowZero, places);
    }
    if Canonical(s, places) && Read(s).Some? && SignificantDigits(Read(s).value.number) <= PRECISION {
      if allowZero || Read(s).value.number.coefficient > 0 {
        CanonicalIsFixed(s, allowZero, places);
      }
    }
  }

  lemma FixedIsCanonical(s: string, allowZero: bool, places: nat)
    requires Parse(s, allowZero, places) == Ok(s)
    ensures Canonical(s, places) && Read(s).Some? && SignificantDigits(Read(s).value.number) <= PRECISION
    ensures allowZero || Read(s).value.number.coefficient > 0
  {
    ResultIsCanonical(s, allowZero, places);
    ExactWhenShort(Denoted(s), places);
  }

  lemma CanonicalIsFixed(s: string, allowZero: bool, places: nat)
    requires Canonical(s, places) && Read(s).Some? && SignificantDigits(Read(s).value.number) <= PRECISION
    requires allowZero || Read(s).value.number.coefficient > 0
    ensures Parse(s, allowZero, places) == Ok(s)
  {
    CanonicalReadsBack(s, places);
    PlainIsItself(s);
    ShortIsStable(Read(s).value.number, places);
    AcceptedAgain(s, Read(s).value, allowZero, places);
  }

  lemma ShortIsStable(d: Dec, places: nat)
    requires d.exponent + places >= 0 && SignificantDigits(d) <= PRECISION
    ensures Reduce(Round(d)) == Reduce(d)
  {
    ExactWhenShort(d, places);
    RoundMeaning(d, places);
    ReducePreserves(d, places);
    ReducePreserves(Round(d), places);
    ReducedIsUnique(Reduce(Round(d)), Reduce(d), places);
  }

  /** Of 1, any 27 or more zeros, and 1 the last digit is lost, although the amount is accepted. */
  lemma LongAmountChanges(n: nat)
    requires n >= PRECISION - 1
    ensures var s := "1" + Zeros(n) + "1";
            && Parse(s, false, MAX_DECIMAL_PLACES).Ok? && Read(s).Some?
            && !ReadsAs(Parse(s, false, MAX_DECIMAL_PLACES).value, Read(s).value.number, MAX_DECIMAL_PLACES)
  {
    var s := "1" + Zeros(n) + "1";
    OneZerosOne(n);
    WholeIsAccepted(s);
    ValueIsKeptExactly(s, false, MAX_DECIMAL_PLACES);
  }

  lemma WholeIsAccepted(s: string)
    requires AllDigits(s) && s != "" && Value(s) > 0
    ensures Parse(s, false, MAX_DECIMAL_PLACES).Ok? && Strip(s) == s && Read(s).Some?
    ensures Read(s).value.number == Dec(Value(s), 0)
  {
    ReadsWhole(s);
    PlainIsItself(s);
  }

  lemma OneZerosOne(n: nat)
    requires n >= PRECISION - 1
    ensures var s := "1" + Zeros(n) + "1"; AllDigits(s) && Value(s) > 0 && SignificantDigits(Dec(Value(s), 0)) > PRECISION
  {
    var s := "1" + Zeros(n) + "1";
    NumeralOfValue(s);
    LastDigit(s);
  }
}
