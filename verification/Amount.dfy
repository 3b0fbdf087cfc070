/**
 Canonical ZOID amounts (native_transfer.py, `parse_native_zoid_amount`). A decimal is a coefficient
 and an exponent; `normalize()` rounds it to the default context's 28 digits, half to even, before it
 drops trailing zeros.
 */
module Amount {
  import opened Wrappers
  import opened Digits
  import opened Text

  const PRECISION: nat := 28
  const MAX_DECIMAL_PLACES: nat := 6

  datatype AmountError = Required | Scientific | NotAFiniteDecimal | Negative | NotPositive | TooManyPlaces

  datatype Dec = Dec(coefficient: nat, exponent: int)

  /** A finite decimal as it is written: its sign and its digits. */
  datatype Written = Written(negative: bool, number: Dec)

  function IndexOf(s: string, c: char): (i: nat)
    ensures i <= |s| && c !in s[..i] && (i < |s| ==> s[i] == c)
  {
    if s == "" || s[0] == c then 0 else
    var i := IndexOf(s[1..], c);
    assert s[..i + 1] == [s[0]] + s[1..][..i];
    1 + i
  }

  function DropUnderscores(s: string): string
  {
    if s == "" then "" else (if s[0] == '_' then "" else [s[0]]) + DropUnderscores(s[1..])
  }

  function Unsigned(negative: bool, s: string): (r: Option<Written>)
    ensures r.Some? ==> r.value.number.exponent <= 0
  {
    var i := IndexOf(s, '.');
    var whole, fraction := s[..i], if i < |s| then s[i + 1..] else "";
    if !AllDigits(whole) || !AllDigits(fraction) || whole + fraction == "" then None else
    Some(Written(negative, Dec(Value(whole + fraction), -|fraction|)))
  }

  /** `Decimal(candidate)` where it yields a finite number; underscores are ignored wherever they stand. */
  function Read(candidate: string): (r: Option<Written>)
    ensures r.Some? ==> r.value.number.exponent <= 0
  {
    var s := DropUnderscores(candidate);
    if s != "" && (s[0] == '+' || s[0] == '-') then Unsigned(s[0] == '-', s[1..]) else Unsigned(false, s)
  }

  // ----- Decimals -----------------------------------------------------------------------------

  /** The number in units of ten to the minus `places`. */
  function Units(d: Dec, places: nat): nat
    requires d.exponent + places >= 0
  {
    d.coefficient * Pow10(d.exponent + places)
  }

  predicate RoundsUp(q: nat, r: nat, unit: nat) { 2 * r > unit || (2 * r == unit && q % 2 == 1) }

  /** The leading digits, rounded by those that are dropped. */
  function Kept(c: nat, unit: nat): nat
    requires unit > 0
  {
    var q, r := c / unit, c % unit;
    if RoundsUp(q, r, unit) then q + 1 else q
  }

  /** A coefficient that rounding carried to one digit too many loses its last zero. */
  function Carry(d: Dec): Dec
  {
    if Length(d.coefficient) <= PRECISION then d else Dec(d.coefficient / 10, d.exponent + 1)
  }

  /** Rounding to the context's precision, half to even. */
  function Round(d: Dec): Dec
  {
    if Length(d.coefficient) <= PRECISION then d else
    var k := Length(d.coefficient) - PRECISION;
    Carry(Dec(Kept(d.coefficient, Pow10(k)), d.exponent + k))
  }

  /** Dropping trailing zeros; zero becomes plain 0. */
  function Reduce(d: Dec): Dec
    decreases d.coefficient
  {
    if d.coefficient == 0 then Dec(0, 0)
    else if d.coefficient % 10 == 0 then Reduce(Dec(d.coefficient / 10, d.exponent + 1))
    else d
  }

  predicate Reduced(d: Dec) { d == Dec(0, 0) || d.coefficient % 10 != 0 }

  /** `format(d, "f")` */
  function Format(d: Dec): string { Layout(Numeral(d.coefficient), d.exponent) }

  function Layout(numeral: string, e: int): string
  {
    if e >= 0 then numeral + Zeros(e) else Pointed(Padded(numeral, -e), -e)
  }

  /** The digits with a point before the last `p` of them. */
  function Pointed(digits: string, p: nat): string
    requires p <= |digits|
  {
    digits[..|digits| - p] + "." + digits[|digits| - p..]
  }

  /** The numeral with leading zeros, so that one digit stands before the point. */
  function Padded(numeral: string, p: nat): (s: string)
    ensures |s| > p
  {
    if |numeral| > p then numeral else Zeros(p + 1 - |numeral|) + numeral
  }

  function RStrip(s: string, c: char): string
  {
    if s != "" && s[|s| - 1] == c then RStrip(s[..|s| - 1], c) else s
  }

  /** The final clean-up of the formatted text. */
  function Tidy(s: string): string
  {
    if '.' in s then RStrip(RStrip(s, '0'), '.') else s
  }

  /** The checks on the decimal and the canonical text. */
  function Admit(w: Written, allowZero: bool, places: nat): Result<string, AmountError>
  {
    if w.negative && w.number.coefficient > 0 then Err(Negative)
    else if !allowZero && w.number.coefficient == 0 then Err(NotPositive)
    else if -w.number.exponent > places then Err(TooManyPlaces)
    else Ok(Tidy(Format(Reduce(Round(w.number)))))
  }

  /** `parse_native_zoid_amount` for a string. */
  function Parse(value: string, allowZero: bool, places: nat): Result<string, AmountError>
  {
    var candidate := Strip(value);
    if candidate == "" then Err(Required)
    else if 'e' in candidate || 'E' in candidate then Err(Scientific)
    else match Read(candidate)
      case None => Err(NotAFiniteDecimal)
      case Some(w) => Admit(w, allowZero, places)
  }

  /** The number an accepted amount denotes. */
  function Denoted(value: string): Dec
    requires Read(Strip(value)).Some?
  {
    Read(Strip(value)).value.number
  }

  /** The digits left once leading and trailing zeros are dropped. */
  function SignificantDigits(d: Dec): nat { Length(Reduce(d).coefficient) }

  // ----- Reduction and rounding ---------------------------------------------------------------

  lemma Scale(a: nat, x: nat, y: nat)
    ensures a * Pow10(x + y) == (a * Pow10(x)) * Pow10(y)
  {
    PowAdd(x, y);
  }

  lemma {:induction false} ReducePreserves(d: Dec, places: nat)
    requires d.exponent + places >= 0
    ensures Reduced(Reduce(d)) && Reduce(d).exponent + places >= 0
    ensures Units(Reduce(d), places) == Units(d, places)
    ensures d.coefficient > 0 ==> Reduce(d).exponent >= d.exponent
    ensures d.coefficient > 0 ==> Reduce(d).coefficient > 0
    decreases d.coefficient
  {
    var c := d.coefficient;
    if c > 0 && c % 10 == 0 {
      ReducePreserves(Dec(c / 10, d.exponent + 1), places);
      Scale(c / 10, 1, d.exponent + places);
      assert Pow10(1) == 10;
    }
  }

  lemma {:induction false} ReduceShrinks(d: Dec)
    ensures Length(Reduce(d).coefficient) <= Length(d.coefficient)
    decreases d.coefficient
  {
    var c := d.coefficient;
    if c > 0 && c % 10 == 0 {
      ReduceShrinks(Dec(c / 10, d.exponent + 1));
    }
  }

  lemma Cancel(a: nat, b: nat, m: nat)
    requires m > 0 && a * m == b * m
    ensures a == b
  {
  }

  lemma MultipleOfTen(c: nat, k: nat)
    requires k > 0
    ensures c * Pow10(k) % 10 == 0 && (c > 0 ==> c * Pow10(k) > 0)
  {
    var p := Pow10(k - 1);
    assert c * (10 * p) == (c * p) * 10;
  }

  lemma Enlarged(a: Dec, b: Dec, places: nat)
    requires 0 <= a.exponent + places <= b.exponent + places && Units(a, places) == Units(b, places)
    ensures a.coefficient == b.coefficient * Pow10(b.exponent - a.exponent)
  {
    var gap := b.exponent - a.exponent;
    Scale(b.coefficient, gap, a.exponent + places);
    Cancel(a.coefficient, b.coefficient * Pow10(gap), Pow10(a.exponent + places));
  }

  lemma NotEnlarged(a: Dec, b: Dec, places: nat)
    requires Reduced(a) && Reduced(b) && 0 <= a.exponent + places < b.exponent + places
    ensures Units(a, places) != Units(b, places)
  {
    MultipleOfTen(b.coefficient, b.exponent - a.exponent);
    if Units(a, places) == Units(b, places) {
      Enlarged(a, b, places);
    }
  }

  /** A reduced decimal is determined by the number it denotes. */
  lemma ReducedIsUnique(a: Dec, b: Dec, places: nat)
    requires Reduced(a) && Reduced(b) && a.exponent + places >= 0 && b.exponent + places >= 0
    requires Units(a, places) == Units(b, places)
    ensures a == b
  {
    if a.exponent < b.exponent {
      NotEnlarged(a, b, places);
    } else if b.exponent < a.exponent {
      NotEnlarged(b, a, places);
    } else {
      Cancel(a.coefficient, b.coefficient, Pow10(a.exponent + places));
    }
  }

  lemma DropZero(c: nat, e: int, places: nat)
    requires c % 10 == 0 && e + places >= 0
    ensures Units(Dec(c / 10, e + 1), places) == Units(Dec(c, e), places)
  {
    Scale(c / 10, 1, e + places);
    assert Pow10(1) == 10;
  }

  lemma TooLongIsPower(c: nat, k: nat)
    requires k > 0 && c <= Pow10(k) && Length(c) > k
    ensures c % 10 == 0 && 0 < c / 10 && Length(c / 10) <= k
  {
    LengthBounds(c);
    PowMonotone(k, Length(c) - 1);
    Tenth(c, Pow10(k - 1));
    LengthBelow(Pow10(k - 1), k);
  }

  lemma Tenth(c: nat, p: nat)
    requires c == 10 * p
    ensures c % 10 == 0 && c / 10 == p
  {
  }

  lemma CarryPreserves(d: Dec, places: nat)
    requires 0 < d.coefficient <= Pow10(PRECISION) && d.exponent + places >= 0
    ensures Carry(d).exponent >= d.exponent && Units(Carry(d), places) == Units(d, places)
    ensures 0 < Carry(d).coefficient && Length(Carry(d).coefficient) <= PRECISION
  {
    if Length(d.coefficient) > PRECISION {
      TooLongIsPower(d.coefficient, PRECISION);
      DropZero(d.coefficient, d.exponent, places);
    }
  }

  /** The leading digits kept by rounding. */
  lemma LeadingDigits(c: nat, k: nat)
    requires Length(c) == PRECISION + k
    ensures 0 < c / Pow10(k) < Pow10(PRECISION)
    ensures c == c / Pow10(k) * Pow10(k) + c % Pow10(k)
  {
    LengthBounds(c);
    PowAdd(PRECISION, k);
    PowAdd(PRECISION - 1, k);
    Quotient(c, Pow10(k), Pow10(PRECISION - 1), Pow10(PRECISION));
  }

  lemma Quotient(c: nat, unit: nat, low: nat, high: nat)
    requires unit > 0 && low > 0 && low * unit <= c < high * unit
    ensures 0 < c / unit < high && c == c / unit * unit + c % unit
  {
    var q := c / unit;
    assert c == q * unit + c % unit;
    MulMonotone(1, low, unit);
    if q >= high {
      MulMonotone(high, q, unit);
    }
  }

  lemma MulMonotone(a: nat, b: nat, m: nat)
    requires a <= b
    ensures a * m <= b * m
  {
  }

  /** Rounding keeps at most 28 digits, and keeps the number exactly when it drops only zeros. */
  lemma RoundMeaning(d: Dec, places: nat)
    requires d.exponent + places >= 0
    ensures Round(d).exponent >= d.exponent && Length(Round(d).coefficient) <= PRECISION
    ensures Round(d).coefficient == 0 <==> d.coefficient == 0
    ensures Units(Round(d), places) == Units(d, places) <==>
              Length(d.coefficient) <= PRECISION || d.coefficient % Pow10(Length(d.coefficient) - PRECISION) == 0
  {
    LengthBounds(d.coefficient);
    if Length(d.coefficient) > PRECISION {
      var k := Length(d.coefficient) - PRECISION;
      RoundLong(d, k, places);
      KeptExactly(d.coefficient, Pow10(k));
    }
  }

  lemma RoundLong(d: Dec, k: nat, places: nat)
    requires d.exponent + places >= 0 && k > 0 && Length(d.coefficient) == PRECISION + k
    ensures Round(d).exponent >= d.exponent && Length(Round(d).coefficient) <= PRECISION && Round(d).coefficient > 0
    ensures Units(Round(d), places) == Units(d, places) <==> Kept(d.coefficient, Pow10(k)) * Pow10(k) == d.coefficient
  {
    LeadingDigits(d.coefficient, k);
    var kept := Kept(d.coefficient, Pow10(k));
    CarryPreserves(Dec(kept, d.exponent + k), places);
    SameUnits(kept, k, d, places);
  }

  lemma SameUnits(kept: nat, k: nat, d: Dec, places: nat)
    requires d.exponent + places >= 0
    ensures Units(Dec(kept, d.exponent + k), places) == Units(d, places) <==> kept * Pow10(k) == d.coefficient
  {
    Scale(kept, k, d.exponent + places);
    Cancels(kept * Pow10(k), d.coefficient, Pow10(d.exponent + places));
  }

  lemma Cancels(a: nat, b: nat, m: nat)
    requires m > 0
    ensures a * m == b * m <==> a == b
  {
    if a * m == b * m {
      Cancel(a, b, m);
    }
  }

  lemma KeptExactly(c: nat, unit: nat)
    requires unit > 0
    ensures Kept(c, unit) * unit == c <==> c % unit == 0
  {
    var q, r := c / unit, c % unit;
    assert c == q * unit + r;
    assert (q + 1) * unit == q * unit + unit;
  }

  /** Rounding takes the nearest multiple, and the even one when two are equally near. */
  lemma KeptIsNearest(c: nat, unit: nat)
    requires unit > 0
    ensures var kept := Kept(c, unit);
            && 2 * kept * unit <= 2 * c + unit && 2 * c <= 2 * kept * unit + unit
            && (2 * kept * unit == 2 * c + unit || 2 * c == 2 * kept * unit + unit ==> kept % 2 == 0)
  {
    var q, r := c / unit, c % unit;
    assert c == q * unit + r;
    assert (q + 1) * unit == q * unit + unit;
  }

  /** What rounding drops is all zeros exactly when the significant digits fit. */
  lemma SignificantFit(d: Dec)
    requires Length(d.coefficient) > PRECISION
    ensures d.coefficient % Pow10(Length(d.coefficient) - PRECISION) == 0 <==> SignificantDigits(d) <= PRECISION
  {
    var k := Length(d.coefficient) - PRECISION;
    LeadingDigits(d.coefficient, k);
    if d.coefficient % Pow10(k) == 0 {
      FewerDigits(d, d.coefficient / Pow10(k), k);
    }
    if SignificantDigits(d) <= PRECISION {
      ManyZeros(d, k);
    }
  }

  lemma SameReduction(a: Dec, b: Dec, places: nat)
    requires a.exponent + places >= 0 && b.exponent + places >= 0 && Units(a, places) == Units(b, places)
    ensures Reduce(a) == Reduce(b)
  {
    ReducePreserves(a, places);
    ReducePreserves(b, places);
    ReducedIsUnique(Reduce(a), Reduce(b), places);
  }

  lemma FewerDigits(d: Dec, q: nat, k: nat)
    requires d.coefficient == q * Pow10(k) && q < Pow10(PRECISION)
    ensures SignificantDigits(d) <= PRECISION
  {
    var places: nat := if d.exponent < 0 then -d.exponent else 0;
    var short := Dec(q, d.exponent + k);
    Scale(q, k, d.exponent + places);
    SameReduction(d, short, places);
    ReduceShrinks(short);
    LengthBelow(q, PRECISION);
  }

  lemma ManyZeros(d: Dec, k: nat)
    requires d.coefficient > 0 && Length(d.coefficient) == PRECISION + k && SignificantDigits(d) <= PRECISION
    ensures d.coefficient % Pow10(k) == 0
  {
    var places: nat := if d.exponent < 0 then -d.exponent else 0;
    var b := Reduce(d);
    ReducePreserves(d, places);
    Enlarged(d, b, places);
    var t := b.exponent - d.exponent;
    AppendZeros(b.coefficient, t);
    DividesPower(b.coefficient, t, k);
  }

  lemma DividesPower(a: nat, t: nat, k: nat)
    requires t >= k
    ensures a * Pow10(t) % Pow10(k) == 0
  {
    Scale(a, t - k, k);
    Divides(a * Pow10(t - k), Pow10(k));
  }

  lemma Divides(a: nat, m: nat)
    requires m > 0
    ensures a * m % m == 0
  {
    var q, r := a * m / m, a * m % m;
    assert a * m == q * m + r;
    if a > q {
      MulMonotone(q + 1, a, m);
    } else if a < q {
      MulMonotone(a + 1, q, m);
    }
  }
}
