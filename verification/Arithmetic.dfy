/** Facts about multiplication and division that the other modules need. */
module Arithmetic {

  lemma {:induction false} MulAtLeast(x: int, d: nat)
    requires x >= 1
    ensures x * d >= d
  {
    if x > 1 {
      MulAtLeast(x - 1, d);
      assert x * d == (x - 1) * d + d;
    }
  }

  lemma Small(x: int, d: nat)
    requires d >= 1 && 0 - d < x * d < d
    ensures x == 0
  {
    assert (0 - x) * d == 0 - x * d;
    if x >= 1 { MulAtLeast(x, d); }
    if x <= -1 { MulAtLeast(0 - x, d); }
  }

  /** Quotient and remainder are unique. */
  lemma DivModUnique(a: int, d: nat, q: int, r: int)
    requires d >= 1 && a == q * d + r && 0 <= r < d
    ensures a / d == q && a % d == r
  {
    var q', r' := a / d, a % d;
    assert a == q' * d + r';
    assert (q - q') * d == q * d - q' * d;
    Small(q - q', d);
  }

  lemma MulMonotone(a: nat, b: nat, c: nat)
    requires a <= b
    ensures a * c <= b * c
  {
    assert b * c == a * c + (b - a) * c;
  }

  lemma MulPositive(a: nat, b: nat)
    requires a >= 1 && b >= 1
    ensures a * b >= 1 && a * b >= a && a * b >= b
  {
    MulAtLeast(a, b);
    MulAtLeast(b, a);
  }
}
