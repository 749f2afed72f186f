/** Numbers as digits, most significant first, and the powers that bound them. */
module Radix {
  import opened Arithmetic

  /** Multiplication, as a function that proofs can leave closed. */
  function Times(a: int, b: int): int { a * b }

  lemma TimesAssociates(a: int, b: int, c: int)
    ensures Times(Times(a, b), c) == Times(a, Times(b, c))
  {
  }

  lemma TimesDistributes(a: int, b: int, c: int)
    ensures Times(a + b, c) == Times(a, c) + Times(b, c) && Times(c, a + b) == Times(c, a) + Times(c, b)
  {
  }

  lemma TimesOne(a: int)
    ensures Times(a, 1) == a == Times(1, a) && Times(a, 0) == 0 == Times(0, a)
  {
  }

  lemma TimesNonNegative(a: nat, b: nat)
    ensures Times(a, b) >= 0
  {
  }

  // ---- Powers ---------------------------------------------------------------------------------------

  function Pow(b: nat, n: nat): nat {
    if n == 0 then 1 else
      TimesNonNegative(Pow(b, n - 1), b);
      Times(Pow(b, n - 1), b)
  }

  lemma {:induction false} PowPositive(b: nat, n: nat)
    requires b >= 1
    ensures Pow(b, n) >= 1
  {
    if n > 0 {
      PowPositive(b, n - 1);
      MulPositive(Pow(b, n - 1), b);
    }
  }

  lemma {:induction false} PowAdds(b: nat, m: nat, n: nat)
    ensures Pow(b, m + n) == Times(Pow(b, m), Pow(b, n))
  {
    hide Times;
    if n == 0 {
      TimesOne(Pow(b, m));
    } else {
      PowAdds(b, m, n - 1);
      TimesAssociates(Pow(b, m), Pow(b, n - 1), b);
    }
  }

  lemma {:induction false} PowMultiplies(b: nat, m: nat, n: nat)
    ensures Times(m, n) >= 0 && Pow(Pow(b, m), n) == Pow(b, Times(m, n))
  {
    hide Times;
    TimesNonNegative(m, n);
    TimesOne(m);
    if n > 0 {
      PowMultiplies(b, m, n - 1);
      TimesDistributes(n - 1, 1, m);
      PowAdds(b, Times(m, n - 1), m);
    }
  }

  lemma {:induction false} PowBaseMonotone(a: nat, b: nat, n: nat)
    requires a <= b
    ensures Pow(a, n) <= Pow(b, n)
  {
    if n > 0 {
      PowBaseMonotone(a, b, n - 1);
      MulMonotone(Pow(a, n - 1), Pow(b, n - 1), a);
      MulMonotone(a, b, Pow(b, n - 1));
    }
  }

  lemma {:induction false} PowMonotone(b: nat, m: nat, n: nat)
    requires b >= 1 && m <= n
    ensures Pow(b, m) <= Pow(b, n)
  {
    if m < n {
      PowMonotone(b, m, n - 1);
      MulAtLeast(b, Pow(b, n - 1));
    }
  }

  lemma {:induction false} PowStrict(a: nat, b: nat, n: nat)
    requires a < b && n >= 1
    ensures Pow(a, n) < Pow(b, n)
  {
    if n == 1 {
      assert Pow(a, 1) == Pow(a, 0) * a && Pow(b, 1) == Pow(b, 0) * b;
    } else {
      PowStrict(a, b, n - 1);
      MulMonotone(Pow(a, n - 1), Pow(b, n - 1), a);
      PowPositive(b, n - 1);
      assert Pow(b, n - 1) * b == Pow(b, n - 1) * a + Pow(b, n - 1) * (b - a);
      MulPositive(Pow(b, n - 1), b - a);
    }
  }

  /**
   * If den digits in base m fit num digits in base b, then n digits fit n * num / den + 1 digits,
   * for every n.
   */
  lemma EstimateHolds(m: nat, b: nat, num: nat, den: nat, n: nat)
    requires b >= 1 && den >= 1 && Pow(m, den) <= Pow(b, num)
    ensures Estimate(n, num, den) >= 0 && Pow(m, n) <= Pow(b, Estimate(n, num, den))
  {
    hide Pow, Times, Estimate;
    EstimateEnough(n, num, den);
    var f := Estimate(n, num, den);
    PowMultiplies(m, n, den);
    PowMultiplies(m, den, n);
    TimesCommutes(n, den);
    PowBaseMonotone(Pow(m, den), Pow(b, num), n);
    PowMultiplies(b, num, n);
    PowMultiplies(b, f, den);
    PowMonotone(b, Times(num, n), Times(f, den));
    if Pow(m, n) > Pow(b, f) { PowStrict(Pow(b, f), Pow(m, n), den); }
  }

  lemma TimesCommutes(a: int, b: int)
    ensures Times(a, b) == Times(b, a)
  {
  }

  function Estimate(n: nat, num: nat, den: nat): int
    requires den >= 1
  {
    n * num / den + 1
  }

  lemma EstimateEnough(n: nat, num: nat, den: nat)
    requires den >= 1
    ensures Estimate(n, num, den) >= 1 && Times(num, n) <= Times(Estimate(n, num, den), den)
  {
    DivBounds(n * num, den);
  }

  lemma DivBounds(a: nat, d: nat)
    requires d >= 1
    ensures 0 <= a / d && a <= (a / d + 1) * d
  {
    var q := a / d;
    assert (q + 1) * d == q * d + d;
    assert (0 - q) * d == 0 - q * d;
    if q < 0 { MulAtLeast(0 - q, d); }
  }

  // ---- Digits ------------------------------------------------------------------------------------------

  predicate AreDigits(d: seq<int>, b: nat) { forall i :: 0 <= i < |d| ==> 0 <= d[i] < b }

  function Value(d: seq<int>, b: nat): int {
    if d == [] then 0 else Times(Value(d[..|d| - 1], b), b) + d[|d| - 1]
  }

  function Quotient(v: nat, b: nat): int
    requires b >= 2
  {
    v / b
  }

  function Remainder(v: nat, b: nat): int
    requires b >= 2
  {
    v % b
  }

  /** The digits of a number, without leading zeroes. */
  function Digits(v: nat, b: nat): (d: seq<int>)
    requires b >= 2
    decreases v
  {
    if v == 0 then [] else
      Shrinks(v, b);
      Digits(Quotient(v, b), b) + [Remainder(v, b)]
  }

  lemma Shrinks(v: nat, b: nat)
    requires b >= 2 && v >= 1
    ensures 0 <= Quotient(v, b) < v && 0 <= Remainder(v, b) < b && v == Times(Quotient(v, b), b) + Remainder(v, b)
  {
    DivBounds(v, b);
    var q := v / b;
    MulMonotone(2, b, q);
    TimesCommutes(b, q);
  }

  lemma {:induction false} DigitsAreDigits(v: nat, b: nat)
    requires b >= 2
    ensures AreDigits(Digits(v, b), b) && (v > 0 ==> Digits(v, b) != [] && Digits(v, b)[0] != 0)
    decreases v
  {
    hide Quotient, Remainder;
    if v > 0 {
      Shrinks(v, b);
      DigitsAreDigits(Quotient(v, b), b);
    }
  }

  lemma {:induction false} ValueOfDigits(v: nat, b: nat)
    requires b >= 2
    ensures Value(Digits(v, b), b) == v
    decreases v
  {
    hide Quotient, Remainder, Times;
    if v > 0 {
      Shrinks(v, b);
      ValueOfDigits(Quotient(v, b), b);
      assert Digits(v, b)[..|Digits(v, b)| - 1] == Digits(Quotient(v, b), b);
    }
  }

  lemma {:induction false} ValueNonNegative(d: seq<int>, b: nat)
    requires AreDigits(d, b)
    ensures Value(d, b) >= 0
  {
    if d != [] {
      ValueNonNegative(d[..|d| - 1], b);
      assert Value(d[..|d| - 1], b) * b >= 0;
    }
  }

  /** A number has only one form without leading zeroes. */
  lemma {:induction false} DigitsOfValue(d: seq<int>, b: nat)
    requires b >= 2 && AreDigits(d, b) && (d == [] || d[0] != 0)
    ensures Value(d, b) >= 0 && Digits(Value(d, b), b) == d
  {
    hide Quotient, Remainder, Times, Pow;
    ValueNonNegative(d, b);
    if d != [] {
      var n := |d| - 1;
      DigitsOfValue(d[..n], b);
      LastDigit(Value(d[..n], b), d[n], b);
      NotZero(d, b);
      PowPositive(b, n);
      assert d == d[..n] + [d[n]];
    }
  }

  lemma LastDigit(q: nat, r: nat, b: nat)
    requires b >= 2 && r < b
    ensures Times(q, b) + r >= 0 && Quotient(Times(q, b) + r, b) == q && Remainder(Times(q, b) + r, b) == r
  {
    assert q * b >= 0;
    DivModUnique(q * b + r, b, q, r);
  }

  lemma {:induction false} NotZero(d: seq<int>, b: nat)
    requires b >= 2 && AreDigits(d, b) && d != [] && d[0] != 0
    ensures Value(d, b) >= Pow(b, |d| - 1)
  {
    var n := |d| - 1;
    ValueNonNegative(d[..n], b);
    if n > 0 {
      NotZero(d[..n], b);
      MulMonotone(Pow(b, n - 1), Value(d[..n], b), b);
    } else {
      assert Value(d[..n], b) == 0;
    }
  }

  lemma {:induction false} ValueBounded(d: seq<int>, b: nat)
    requires AreDigits(d, b)
    ensures Value(d, b) < Pow(b, |d|)
  {
    if d != [] {
      var n := |d| - 1;
      ValueBounded(d[..n], b);
      ValueNonNegative(d[..n], b);
      MulMonotone(Value(d[..n], b) + 1, Pow(b, n), b);
      assert (Value(d[..n], b) + 1) * b == Value(d[..n], b) * b + b;
    }
  }

  lemma {:induction false} ValueConcat(d: seq<int>, e: seq<int>, b: nat)
    ensures Value(d + e, b) == Times(Value(d, b), Pow(b, |e|)) + Value(e, b)
  {
    hide Times;
    if e == [] {
      assert d + e == d;
      TimesOne(Value(d, b));
    } else {
      var n := |e| - 1;
      var v, p, w := Value(d, b), Pow(b, n), Value(e[..n], b);
      ValueConcat(d, e[..n], b);
      assert (d + e)[..|d| + n] == d + e[..n];
      TimesDistributes(Times(v, p), w, b);
      TimesAssociates(v, p, b);
    }
  }

  lemma {:induction false} ZeroesValue(d: seq<int>, b: nat)
    requires forall i :: 0 <= i < |d| ==> d[i] == 0
    ensures Value(d, b) == 0
  {
    if d != [] { ZeroesValue(d[..|d| - 1], b); }
  }

  lemma QuotientMonotone(u: nat, v: nat, b: nat)
    requires b >= 2 && 1 <= u <= v
    ensures Quotient(u, b) <= Quotient(v, b)
  {
    hide Quotient, Remainder;
    Shrinks(u, b);
    Shrinks(v, b);
    if Quotient(u, b) > Quotient(v, b) { MulMonotone(Quotient(v, b) + 1, Quotient(u, b), b); }
  }

  /** A larger number is not shorter. */
  lemma {:induction false} DigitsLonger(u: nat, v: nat, b: nat)
    requires b >= 2 && u <= v
    ensures |Digits(u, b)| <= |Digits(v, b)|
    decreases u
  {
    hide Quotient, Remainder;
    if u > 0 {
      Shrinks(u, b);
      Shrinks(v, b);
      QuotientMonotone(u, v, b);
      DigitsLonger(Quotient(u, b), Quotient(v, b), b);
    }
  }

  lemma {:induction false} PrefixSmaller(d: seq<int>, k: nat, b: nat)
    requires b >= 1 && k <= |d| && AreDigits(d, b)
    ensures 0 <= Value(d[..k], b) <= Value(d, b)
  {
    ValueNonNegative(d[..k], b);
    if k == |d| {
      assert d[..k] == d;
    } else {
      var n := |d| - 1;
      PrefixSmaller(d[..n], k, b);
      assert d[..n][..k] == d[..k];
      MulAtLeast(b, Value(d[..n], b));
      TimesCommutes(b, Value(d[..n], b));
    }
  }
}
