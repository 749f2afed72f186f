/** Bitwise operations on non-negative integers. */
module Bitwise {
  function Xor(a: nat, b: nat): nat
    decreases a + b
  {
    if a == 0 then b else if b == 0 then a
    else 2 * Xor(a / 2, b / 2) + (a + b) % 2
  }

  lemma {:induction false} XorStep(a: nat, b: nat)
    ensures Xor(a, b) == 2 * Xor(a / 2, b / 2) + (a + b) % 2
    ensures Xor(a, b) / 2 == Xor(a / 2, b / 2) && Xor(a, b) % 2 == (a + b) % 2
  {
  }

  lemma {:induction false} XorCommutes(a: nat, b: nat)
    ensures Xor(a, b) == Xor(b, a)
    decreases a + b
  {
    if a > 0 && b > 0 { XorCommutes(a / 2, b / 2); }
  }

  lemma XorZero(a: nat)
    ensures Xor(0, a) == a && Xor(a, 0) == a
  {
  }

  lemma {:induction false} XorAssociates(a: nat, b: nat, c: nat)
    ensures Xor(Xor(a, b), c) == Xor(a, Xor(b, c))
    decreases a + b + c
  {
    hide Xor;
    XorZero(a);
    XorZero(b);
    XorZero(c);
    XorZero(Xor(a, b));
    XorZero(Xor(b, c));
    if a > 0 && b > 0 && c > 0 {
      XorAssociates(a / 2, b / 2, c / 2);
      var x, y := Xor(a, b), Xor(b, c);
      XorStep(a, b);
      XorStep(b, c);
      XorStep(x, c);
      XorStep(a, y);
      Parity(a, b, c, x, y);
      assert Xor(x / 2, c / 2) == Xor(a / 2, y / 2);
    }
  }

  lemma Parity(a: nat, b: nat, c: nat, x: nat, y: nat)
    requires x % 2 == (a + b) % 2 && y % 2 == (b + c) % 2
    ensures (x + c) % 2 == (a + y) % 2
  {
    Even(x, c);
    Even(a, y);
    Even(a, b);
    Even(b, c);
  }

  lemma Even(a: nat, b: nat)
    ensures (a + b) % 2 == 0 <==> a % 2 == b % 2
  {
  }

  lemma {:induction false} XorSelf(a: nat)
    ensures Xor(a, a) == 0
  {
    if a > 0 { XorSelf(a / 2); }
  }

  /** What is added twice cancels. */
  lemma XorCancels(a: nat, b: nat)
    ensures Xor(Xor(a, b), b) == a
  {
    XorAssociates(a, b, b);
    XorSelf(b);
  }

  lemma XorInjective(a: nat, a': nat, b: nat)
    requires Xor(a, b) == Xor(a', b)
    ensures a == a'
  {
    XorCancels(a, b);
    XorCancels(a', b);
  }

  lemma XorSwap(a: nat, b: nat, c: nat, d: nat)
    ensures Xor(Xor(a, b), Xor(c, d)) == Xor(Xor(a, c), Xor(b, d))
  {
    XorAssociates(a, b, Xor(c, d));
    XorAssociates(b, c, d);
    XorCommutes(b, c);
    XorAssociates(c, b, d);
    XorAssociates(a, c, Xor(b, d));
  }

  /** a shifted left by n bits. */
  function Shl(a: nat, n: nat): nat { if n == 0 then a else 2 * Shl(a, n - 1) }

  /** Exclusive or works on the high part and the low part separately. */
  lemma {:induction false} XorSplits(a: nat, b: nat, x: nat, y: nat, n: nat)
    requires x < Shl(1, n) && y < Shl(1, n)
    ensures Xor(Shl(a, n) + x, Shl(b, n) + y) == Shl(Xor(a, b), n) + Xor(x, y) && Xor(x, y) < Shl(1, n)
  {
    hide Xor;
    XorZero(0);
    if n > 0 {
      var p, q := Shl(a, n - 1), Shl(b, n - 1);
      XorSplits(a, b, x / 2, y / 2, n - 1);
      XorStep(x, y);
      XorStep(2 * p + x, 2 * q + y);
      Halved(p, x);
      Halved(q, y);
      SameParity(p, q, x, y);
    }
  }

  lemma {:induction false} Halved(p: nat, x: nat)
    ensures (2 * p + x) / 2 == p + x / 2
  {
  }

  lemma {:induction false} SameParity(p: nat, q: nat, x: nat, y: nat)
    ensures (2 * p + x + (2 * q + y)) % 2 == (x + y) % 2
  {
  }

  lemma Shl5(a: nat)
    ensures Shl(a, 5) == 32 * a
  {
    assert Shl(a, 4) == 2 * Shl(a, 3) && Shl(a, 2) == 2 * Shl(a, 1);
  }

  lemma {:induction false} ShlAdds(a: nat, m: nat, n: nat)
    ensures Shl(Shl(a, m), n) == Shl(a, m + n)
  {
    if n > 0 { ShlAdds(a, m, n - 1); }
  }

  lemma Shl35(a: nat)
    ensures Shl(a, 35) == 0x8_0000_0000 * a
  {
    hide Shl;
    Shl5(a);
    ShlAdds(a, 5, 5);
    Shl5(Shl(a, 5));
    ShlAdds(a, 10, 5);
    Shl5(Shl(a, 10));
    ShlAdds(a, 15, 5);
    Shl5(Shl(a, 15));
    ShlAdds(a, 20, 5);
    Shl5(Shl(a, 20));
    ShlAdds(a, 25, 5);
    Shl5(Shl(a, 25));
    ShlAdds(a, 30, 5);
    Shl5(Shl(a, 30));
  }

  /** The low five bits, and the rest. */
  lemma XorParts5(a: nat, b: nat)
    ensures Xor(a, b) / 32 == Xor(a / 32, b / 32) && Xor(a, b) % 32 == Xor(a % 32, b % 32)
  {
    hide Xor, Shl;
    Shl5(1);
    Shl5(a / 32);
    Shl5(b / 32);
    Shl5(Xor(a / 32, b / 32));
    XorSplits(a / 32, b / 32, a % 32, b % 32, 5);
  }

  /** The low 35 bits, and the rest. */
  lemma XorParts35(a: nat, b: nat)
    ensures Xor(a, b) / 0x8_0000_0000 == Xor(a / 0x8_0000_0000, b / 0x8_0000_0000)
    ensures Xor(a, b) % 0x8_0000_0000 == Xor(a % 0x8_0000_0000, b % 0x8_0000_0000)
  {
    hide Xor, Shl;
    Shl35(1);
    Shl35(a / 0x8_0000_0000);
    Shl35(b / 0x8_0000_0000);
    Shl35(Xor(a / 0x8_0000_0000, b / 0x8_0000_0000));
    XorSplits(a / 0x8_0000_0000, b / 0x8_0000_0000, a % 0x8_0000_0000, b % 0x8_0000_0000, 35);
  }

  function Or(a: nat, b: nat): nat
    decreases a + b
  {
    if a == 0 then b else if b == 0 then a
    else 2 * Or(a / 2, b / 2) + if a % 2 == 1 || b % 2 == 1 then 1 else 0
  }

  /** Without common bits, or is addition. */
  lemma {:induction false} OrDisjoint(x: nat, k: nat, n: nat)
    requires x < Shl(1, n)
    ensures Or(x, Shl(k, n)) == x + Shl(k, n) == Or(Shl(k, n), x)
  {
    if n > 0 && x > 0 && Shl(k, n) > 0 { OrDisjoint(x / 2, k, n - 1); }
  }

  /** Bitwise and of non-negative integers. */
  function And(a: nat, b: nat): nat {
    if a == 0 || b == 0 then 0 else 2 * And(a / 2, b / 2) + (a % 2) * (b % 2)
  }

  lemma {:induction false} AndSelf(n: nat)
    ensures And(n, n) == n
  {
    if n > 0 { AndSelf(n / 2); }
  }
}
