/** Decimal numerals and powers of ten. */
module Digits {
  predicate IsDigit(c: char) { '0' <= c <= '9' }

  predicate AllDigits(s: string) { forall i :: 0 <= i < |s| ==> IsDigit(s[i]) }

  function Pow10(k: nat): (p: nat)
    ensures p > 0
  {
    if k == 0 then 1 else 10 * Pow10(k - 1)
  }

  function DigitChar(d: nat): char
    requires d < 10
  {
    ('0' as int + d) as char
  }

  /** `str(n)` for a natural number. */
  function Numeral(n: nat): (s: string)
    ensures s != "" && AllDigits(s)
  {
    if n < 10 then [DigitChar(n)] else Numeral(n / 10) + [DigitChar(n % 10)]
  }

  /** `int(s)` for a string of digits, leading zeros included. */
  function Value(s: string): (n: nat)
    requires AllDigits(s)
  {
    if s == "" then 0 else Value(s[..|s| - 1]) * 10 + (s[|s| - 1] as int - '0' as int)
  }

  function Length(n: nat): nat { |Numeral(n)| }

  function Zeros(n: nat): (s: string)
    ensures |s| == n && AllDigits(s)
  {
    seq(n, _ => '0')
  }

  lemma Snoc(s: string, d: nat)
    requires AllDigits(s) && d < 10
    ensures AllDigits(s + [DigitChar(d)]) && Value(s + [DigitChar(d)]) == Value(s) * 10 + d
  {
    assert (s + [DigitChar(d)])[..|s|] == s;
  }

  lemma {:induction false} ValueOfNumeral(n: nat)
    ensures Value(Numeral(n)) == n
  {
    if n < 10 {
      assert Numeral(n)[..0] == "";
    } else {
      ValueOfNumeral(n / 10);
      Snoc(Numeral(n / 10), n % 10);
    }
  }

  lemma {:induction false} NoLeadingZero(n: nat)
    requires n > 0
    ensures Numeral(n)[0] != '0'
  {
    if n >= 10 {
      NoLeadingZero(n / 10);
    }
  }

  lemma {:induction false} LengthBounds(n: nat)
    ensures n < Pow10(Length(n))
    ensures n > 0 ==> Pow10(Length(n) - 1) <= n
  {
    if n >= 10 {
      LengthBounds(n / 10);
      assert n == 10 * (n / 10) + n % 10;
    }
  }

  lemma {:induction false} PowMonotone(a: nat, b: nat)
    requires a <= b
    ensures Pow10(a) <= Pow10(b)
  {
    if a < b {
      PowMonotone(a, b - 1);
    }
  }

  lemma LengthBelow(n: nat, k: nat)
    requires k > 0 && n < Pow10(k)
    ensures Length(n) <= k
  {
    if Length(n) > k {
      LengthBounds(n);
      PowMonotone(k, Length(n) - 1);
    }
  }

  lemma {:induction false} PowAdd(a: nat, b: nat)
    ensures Pow10(a + b) == Pow10(a) * Pow10(b)
  {
    if a > 0 {
      PowAdd(a - 1, b);
    }
  }

  /** Multiplying by a power of ten appends that many zeros. */
  lemma {:induction false} AppendZeros(n: nat, k: nat)
    requires n > 0
    ensures Numeral(n * Pow10(k)) == Numeral(n) + Zeros(k) && Length(n * Pow10(k)) == Length(n) + k
  {
    if k > 0 {
      AppendZeros(n, k - 1);
      var m := n * Pow10(k - 1);
      Shift(n, Pow10(k - 1));
      TimesTen(m);
      assert Zeros(k) == Zeros(k - 1) + "0";
    }
  }

  lemma Shift(n: nat, p: nat)
    requires n > 0 && p > 0
    ensures n * (10 * p) == (n * p) * 10 && n * p > 0
  {
  }

  lemma TimesTen(m: nat)
    requires m > 0
    ensures Numeral(m * 10) == Numeral(m) + "0"
  {
    assert m * 10 / 10 == m && m * 10 % 10 == 0;
  }

  lemma {:induction false} PrependZeros(n: nat, s: string)
    requires AllDigits(s)
    ensures AllDigits(Zeros(n) + s) && Value(Zeros(n) + s) == Value(s)
    decreases |s|, n
  {
    var t := Zeros(n) + s;
    if s != "" {
      PrependZeros(n, s[..|s| - 1]);
      assert t[..|t| - 1] == Zeros(n) + s[..|s| - 1];
    } else if n > 0 {
      PrependZeros(n - 1, s);
      assert t[..|t| - 1] == Zeros(n - 1) + s;
    } else {
      assert t == "";
    }
  }

  /** A numeral without leading zeros is the numeral of its value. */
  lemma {:induction false} NumeralOfValue(s: string)
    requires AllDigits(s) && s != "" && (s[0] != '0' || s == "0")
    ensures Numeral(Value(s)) == s
    ensures s[0] != '0' ==> Value(s) > 0
  {
    var front := s[..|s| - 1];
    if front == "" {
      assert Value(front) == 0;
    } else {
      NumeralOfValue(front);
      assert s == front + [s[|s| - 1]];
      assert Value(s) / 10 == Value(front);
    }
  }

  lemma {:induction false} SameLengthSameValue(a: string, b: string)
    requires AllDigits(a) && AllDigits(b) && |a| == |b| && Value(a) == Value(b)
    ensures a == b
  {
    if a != "" {
      SameLengthSameValue(a[..|a| - 1], b[..|b| - 1]);
      assert a == a[..|a| - 1] + [a[|a| - 1]] && b == b[..|b| - 1] + [b[|b| - 1]];
    }
  }

  lemma {:induction false} ValueBelow(s: string)
    requires AllDigits(s)
    ensures Value(s) < Pow10(|s|)
  {
    if s != "" {
      ValueBelow(s[..|s| - 1]);
    }
  }
}
