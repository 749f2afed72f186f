/**
 * The cash address format: a 40-bit checksum over 5-bit symbols, and the text form of a prefix and
 * a payload protected by it.
 */
module CashAddr {
  import opened Bitwise

  type Sym = x: int | 0 <= x < 32

  // ---- The checksum ------------------------------------------------------------------------------------

  const TOP := 0x8_0000_0000
  const LIMIT := 0x100_0000_0000

  predicate HasBit(c: nat, unit: nat)
    requires unit > 0
  {
    c / unit % 2 == 1
  }

  function Term(c0: nat, unit: nat, k: nat): nat
    requires unit > 0
  {
    if HasBit(c0, unit) then k else 0
  }

  /** The multiples of the generator to subtract for the coefficient that is shifted out. */
  function Reduction(c0: nat): nat {
    Xor(Xor(Xor(Xor(Term(c0, 1, 0x98f2bc8e61), Term(c0, 2, 0x79b76d99e2)), Term(c0, 4, 0xf33e5fb3c4)),
            Term(c0, 8, 0xae2eabe2a8)), Term(c0, 16, 0x1e4f43e470))
  }

  /** One more symbol: multiply by x, add the symbol, reduce. */
  function Step(c: nat, d: Sym): nat {
    Xor(Xor(32 * (c % TOP), d), Reduction(c / TOP))
  }

  function Fold(c: nat, v: seq<Sym>): nat {
    if v == [] then c else Step(Fold(c, v[..|v| - 1]), v[|v| - 1])
  }

  function PolyMod(v: seq<Sym>): nat { Xor(Fold(1, v), 1) }

  // ---- One step -------------------------------------------------------------------------------------------

  lemma XorBounded(a: nat, b: nat)
    requires a < LIMIT && b < LIMIT
    ensures Xor(a, b) < LIMIT
  {
    hide Xor;
    XorParts35(a, b);
    var x, y := a / TOP, b / TOP;
    XorParts5(x, y);
    XorZero(0);
    assert x / 32 == 0 && y / 32 == 0;
  }

  lemma ReductionBounded(c0: nat)
    ensures Reduction(c0) < LIMIT
  {
    hide Xor;
    XorBounded(Term(c0, 1, 0x98f2bc8e61), Term(c0, 2, 0x79b76d99e2));
    var r2 := Xor(Term(c0, 1, 0x98f2bc8e61), Term(c0, 2, 0x79b76d99e2));
    XorBounded(r2, Term(c0, 4, 0xf33e5fb3c4));
    XorBounded(Xor(r2, Term(c0, 4, 0xf33e5fb3c4)), Term(c0, 8, 0xae2eabe2a8));
    XorBounded(Xor(Xor(r2, Term(c0, 4, 0xf33e5fb3c4)), Term(c0, 8, 0xae2eabe2a8)), Term(c0, 16, 0x1e4f43e470));
  }

  lemma StepBounded(c: nat, d: Sym)
    ensures Step(c, d) < LIMIT
  {
    hide Xor, Reduction;
    XorBounded(32 * (c % TOP), d);
    ReductionBounded(c / TOP);
    XorBounded(Xor(32 * (c % TOP), d), Reduction(c / TOP));
  }

  /** A number below 2^n and a multiple of 2^n have no bits in common. */
  lemma XorDisjoint(x: nat, k: nat, n: nat)
    requires x < Shl(1, n)
    ensures Xor(x, Shl(k, n)) == x + Shl(k, n)
  {
    hide Xor;
    XorZero(k);
    XorZero(x);
    ShlZero(n);
    XorSplits(0, k, x, 0, n);
  }

  lemma {:induction false} ShlZero(n: nat)
    ensures Shl(0, n) == 0
  {
    if n > 0 { ShlZero(n - 1); }
  }

  function UnitIf(c0: nat, unit: nat): nat
    requires unit > 0
  {
    if HasBit(c0, unit) then unit else 0
  }

  lemma BitsSum(c0: nat)
    requires c0 < 32
    ensures c0 == UnitIf(c0, 1) + UnitIf(c0, 2) + UnitIf(c0, 4) + UnitIf(c0, 8) + UnitIf(c0, 16)
  {
  }

  lemma LowOfTerms(c0: nat)
    ensures Term(c0, 1, 0x98f2bc8e61) % 32 == UnitIf(c0, 1) && Term(c0, 2, 0x79b76d99e2) % 32 == UnitIf(c0, 2)
    ensures Term(c0, 4, 0xf33e5fb3c4) % 32 == UnitIf(c0, 4) && Term(c0, 8, 0xae2eabe2a8) % 32 == UnitIf(c0, 8)
    ensures Term(c0, 16, 0x1e4f43e470) % 32 == UnitIf(c0, 16)
  {
  }

  lemma XorUnits(u0: nat, u1: nat, u2: nat, u3: nat, u4: nat)
    requires u0 in {0, 1} && u1 in {0, 2} && u2 in {0, 4} && u3 in {0, 8} && u4 in {0, 16}
    ensures Xor(Xor(Xor(Xor(u0, u1), u2), u3), u4) == u0 + u1 + u2 + u3 + u4
  {
    hide Xor, Shl;
    Shls(u1 / 2, u2 / 4, u3 / 8, u4 / 16);
    Shls(1, 1, 1, 1);
    XorDisjoint(u0, u1 / 2, 1);
    XorDisjoint(u0 + u1, u2 / 4, 2);
    XorDisjoint(u0 + u1 + u2, u3 / 8, 3);
    XorDisjoint(u0 + u1 + u2 + u3, u4 / 16, 4);
  }

  /** The five low bits of the reduction are the coefficient itself, so nothing is lost. */
  lemma ReductionLow(c0: nat)
    requires c0 < 32
    ensures Reduction(c0) % 32 == c0
  {
    hide Xor, Term;
    var t0, t1, t2 := Term(c0, 1, 0x98f2bc8e61), Term(c0, 2, 0x79b76d99e2), Term(c0, 4, 0xf33e5fb3c4);
    var t3, t4 := Term(c0, 8, 0xae2eabe2a8), Term(c0, 16, 0x1e4f43e470);
    XorParts5(t0, t1);
    XorParts5(Xor(t0, t1), t2);
    XorParts5(Xor(Xor(t0, t1), t2), t3);
    XorParts5(Xor(Xor(Xor(t0, t1), t2), t3), t4);
    LowOfTerms(c0);
    BitsSum(c0);
    XorUnits(UnitIf(c0, 1), UnitIf(c0, 2), UnitIf(c0, 4), UnitIf(c0, 8), UnitIf(c0, 16));
  }

  lemma Shls(a: nat, b: nat, c: nat, d: nat)
    ensures Shl(a, 1) == 2 * a && Shl(b, 2) == 4 * b && Shl(c, 3) == 8 * c && Shl(d, 4) == 16 * d
  {
    assert Shl(a, 1) == 2 * Shl(a, 0);
    assert Shl(b, 2) == 2 * Shl(b, 1) && Shl(b, 1) == 2 * Shl(b, 0);
    assert Shl(c, 3) == 2 * Shl(c, 2) && Shl(c, 2) == 2 * Shl(c, 1) && Shl(c, 1) == 2 * Shl(c, 0);
    assert Shl(d, 4) == 2 * Shl(d, 3) && Shl(d, 3) == 2 * Shl(d, 2) && Shl(d, 2) == 2 * Shl(d, 1) &&
        Shl(d, 1) == 2 * Shl(d, 0);
  }

  /** Different states stay different. */
  lemma StepInjective(c: nat, c': nat, d: Sym)
    requires c < LIMIT && c' < LIMIT && Step(c, d) == Step(c', d)
    ensures c == c'
  {
    hide Xor, Reduction;
    var b, b', r, r' := 32 * (c % TOP), 32 * (c' % TOP), Reduction(c / TOP), Reduction(c' / TOP);
    LowOfStep(c, d);
    LowOfStep(c', d);
    XorInjective(c / TOP, c' / TOP, d);
    XorInjective(Xor(b, d), Xor(b', d), r);
    XorInjective(b, b', d);
  }

  lemma LowOfStep(c: nat, d: Sym)
    requires c < LIMIT
    ensures Step(c, d) % 32 == Xor(c / TOP, d)
  {
    hide Xor, Reduction;
    var b, r := 32 * (c % TOP), Reduction(c / TOP);
    ReductionLow(c / TOP);
    XorParts5(b, d);
    XorParts5(Xor(b, d), r);
    XorZero(d);
    XorCommutes(d, c / TOP);
  }

  /** A difference of at most 35 bits is shifted along unchanged. */
  lemma StepDiffers(c: nat, e: nat, d: Sym, d': Sym)
    requires e < TOP
    ensures Step(Xor(c, e), d') == Xor(Step(c, d), 32 * e + Xor(d, d'))
  {
    hide Xor, Reduction;
    XorParts35(c, e);
    XorZero(c / TOP);
    var l := c % TOP;
    var r := Reduction(c / TOP);
    Times32(l, e);
    XorParts5(d, d');
    XorZero(0);
    Sum32(e, Xor(d, d'));
    assert Step(Xor(c, e), d') == Xor(Xor(Xor(32 * l, 32 * e), d'), r);
    Rearrange(32 * l, 32 * e, d, d', r);
  }

  lemma Times32(a: nat, b: nat)
    ensures 32 * Xor(a, b) == Xor(32 * a, 32 * b)
  {
    hide Xor;
    XorParts5(32 * a, 32 * b);
    XorZero(0);
  }

  lemma Sum32(e: nat, x: nat)
    requires x < 32
    ensures Xor(32 * e, x) == 32 * e + x
  {
    hide Xor;
    XorParts5(32 * e, x);
    XorZero(e);
    XorZero(x);
  }

  lemma Rearrange(l: nat, e: nat, d: nat, d': nat, r: nat)
    ensures Xor(Xor(Xor(l, e), d'), r) == Xor(Xor(Xor(l, d), r), Xor(e, Xor(d, d')))
  {
    hide Xor;
    XorSwap(Xor(l, d), r, e, Xor(d, d'));
    XorSwap(l, d, e, 0);
    XorZero(e);
    XorZero(d);
    XorSwap(Xor(l, e), d, r, Xor(d, d'));
    XorAssociates(d, d, d');
    XorSelf(d);
    XorZero(d');
    XorSwap(Xor(l, e), r, d, Xor(d, d'));
    XorAssociates(Xor(l, e), d', r);
    XorCommutes(d', r);
    XorAssociates(Xor(l, e), r, d');
  }

  // ---- Whole sequences ---------------------------------------------------------------------------------------

  lemma {:induction false} FoldBounded(c: nat, v: seq<Sym>)
    requires c < LIMIT
    ensures Fold(c, v) < LIMIT
  {
    if v != [] { StepBounded(Fold(c, v[..|v| - 1]), v[|v| - 1]); }
  }

  lemma {:induction false} FoldConcat(c: nat, v: seq<Sym>, w: seq<Sym>)
    ensures Fold(c, v + w) == Fold(Fold(c, v), w)
  {
    hide Step;
    if w == [] {
      assert v + w == v;
    } else {
      var n := |w| - 1;
      assert (v + w)[..|v| + n] == v + w[..n];
      FoldConcat(c, v, w[..n]);
    }
  }

  lemma {:induction false} FoldInjective(c: nat, c': nat, v: seq<Sym>)
    requires c < LIMIT && c' < LIMIT && Fold(c, v) == Fold(c', v)
    ensures c == c'
  {
    if v != [] {
      var n := |v| - 1;
      FoldBounded(c, v[..n]);
      FoldBounded(c', v[..n]);
      StepInjective(Fold(c, v[..n]), Fold(c', v[..n]), v[n]);
      FoldInjective(c, c', v[..n]);
    }
  }

  /** The symbolwise difference, packed with the first symbol highest. */
  function Difference(v: seq<Sym>, w: seq<Sym>): nat
    requires |v| == |w|
  {
    if v == [] then 0 else 32 * Difference(v[..|v| - 1], w[..|w| - 1]) + Xor(v[|v| - 1], w[|w| - 1])
  }

  function Pow32(n: nat): nat { if n == 0 then 1 else 32 * Pow32(n - 1) }

  lemma SymXor(a: Sym, b: Sym)
    ensures Xor(a, b) < 32 && (Xor(a, b) == 0 <==> a == b)
  {
    hide Xor;
    XorParts5(a, b);
    XorZero(0);
    XorSelf(b);
    if Xor(a, b) == 0 { XorInjective(a, b, b); }
  }

  lemma {:induction false} DifferenceBounded(v: seq<Sym>, w: seq<Sym>)
    requires |v| == |w|
    ensures Difference(v, w) < Pow32(|v|)
  {
    hide Xor;
    if v != [] {
      var n := |v| - 1;
      DifferenceBounded(v[..n], w[..n]);
      SymXor(v[n], w[n]);
    }
  }

  lemma {:induction false} DifferenceZero(v: seq<Sym>, w: seq<Sym>)
    requires |v| == |w|
    ensures Difference(v, w) == 0 <==> v == w
  {
    hide Xor;
    if v != [] {
      var n := |v| - 1;
      DifferenceZero(v[..n], w[..n]);
      SymXor(v[n], w[n]);
      assert v == v[..n] + [v[n]] && w == w[..n] + [w[n]];
    }
  }

  lemma {:induction false} Pow32Grows(n: nat, m: nat)
    requires n <= m
    ensures 1 <= Pow32(n) <= Pow32(m)
  {
    if n < m { Pow32Grows(n, m - 1); } else if n > 0 { Pow32Grows(n - 1, n - 1); }
  }

  lemma Pow32Top()
    ensures Pow32(7) == TOP && Pow32(8) == LIMIT
  {
    assert Pow32(1) == 32 && Pow32(2) == 1024 && Pow32(3) == 32768 && Pow32(4) == 1048576;
    assert Pow32(5) == 33554432 && Pow32(6) == 1073741824;
  }

  /** Up to eight symbols show up in the checksum just as they are. */
  lemma {:induction false} FoldDiffers(c: nat, v: seq<Sym>, w: seq<Sym>)
    requires |v| == |w| <= 8
    ensures Fold(c, w) == Xor(Fold(c, v), Difference(v, w))
  {
    hide Xor, Step;
    if v == [] {
      XorZero(c);
    } else {
      var n := |v| - 1;
      FoldDiffers(c, v[..n], w[..n]);
      DifferenceBounded(v[..n], w[..n]);
      Pow32Grows(n, 7);
      Pow32Top();
      StepDiffers(Fold(c, v[..n]), Difference(v[..n], w[..n]), v[n], w[n]);
    }
  }

  /** A burst of errors within eight consecutive symbols always changes the checksum. */
  lemma BurstDetected(u: seq<Sym>, v: seq<Sym>, w: seq<Sym>, t: seq<Sym>)
    requires |v| == |w| <= 8 && v != w
    ensures PolyMod(u + v + t) != PolyMod(u + w + t)
  {
    hide Xor, Fold;
    var c := Fold(1, u);
    FoldBounded(1, u);
    FoldConcat(1, u + v, t);
    FoldConcat(1, u + w, t);
    FoldConcat(1, u, v);
    FoldConcat(1, u, w);
    FoldBounded(c, v);
    FoldBounded(c, w);
    FoldDiffers(c, v, w);
    DifferenceZero(v, w);
    if Fold(c, v) == Fold(c, w) {
      XorZero(Fold(c, v));
      XorCommutes(Fold(c, v), Difference(v, w));
      XorInjective(Difference(v, w), 0, Fold(c, v));
    }
    if PolyMod(u + v + t) == PolyMod(u + w + t) {
      XorInjective(Fold(1, u + v + t), Fold(1, u + w + t), 1);
      FoldInjective(Fold(c, v), Fold(c, w), t);
    }
  }

  // ---- Creating and verifying a checksum ------------------------------------------------------------------------

  /** m shifted right by 5k bits. */
  function Shr5(m: nat, k: nat): nat { if k == 0 then m else Shr5(m / 32, k - 1) }

  /** The n low 5-bit groups of a number, the highest first. */
  function Groups(m: nat, n: nat): (g: seq<Sym>)
    ensures |g| == n
  {
    if n == 0 then [] else Groups(m / 32, n - 1) + [m % 32]
  }

  lemma {:induction false} GroupAt(m: nat, n: nat, i: nat)
    requires i < n
    ensures Groups(m, n)[i] == Shr5(m, n - 1 - i) % 32
  {
    if i < n - 1 { GroupAt(m / 32, n - 1, i); }
  }

  function Zeros(n: nat): (z: seq<Sym>)
    ensures |z| == n
  {
    seq(n, _ => 0)
  }

  lemma {:induction false} GroupsPack(m: nat, n: nat)
    requires m < Pow32(n)
    ensures Difference(Zeros(n), Groups(m, n)) == m
  {
    if n > 0 {
      hide Xor;
      GroupsPack(m / 32, n - 1);
      assert Zeros(n)[..n - 1] == Zeros(n - 1);
      assert Groups(m, n)[..n - 1] == Groups(m / 32, n - 1);
      XorZero(m % 32);
    }
  }

  lemma {:induction false} GroupsUnpack(k: seq<Sym>)
    ensures Groups(Difference(Zeros(|k|), k), |k|) == k
  {
    if k != [] {
      hide Xor;
      var n := |k| - 1;
      GroupsUnpack(k[..n]);
      assert Zeros(n + 1)[..n] == Zeros(n);
      XorZero(k[n]);
      assert k == k[..n] + [k[n]];
    }
  }

  /** Adding z to both sides of x + z == 1. */
  lemma XorIsOne(z: nat, x: nat)
    ensures Xor(z, x) == 1 <==> x == Xor(z, 1)
  {
    hide Xor;
    XorCommutes(z, x);
    XorCancels(x, z);
    XorCommutes(1, z);
    XorCancels(1, z);
  }

  /**
   * At most eight symbols at the end make the whole verify exactly if the remainder that zeroes in
   * their place leave fits into them, and they are that remainder.
   */
  lemma TailVerifies(u: seq<Sym>, k: seq<Sym>)
    requires |k| <= 8
    ensures var m := PolyMod(u + Zeros(|k|));
            PolyMod(u + k) == 0 <==> m < Pow32(|k|) && k == Groups(m, |k|)
  {
    hide Xor, Fold, Groups, Difference, Pow32;
    var n, c := |k|, Fold(1, u);
    var z, d := Fold(c, Zeros(n)), Difference(Zeros(n), k);
    FoldConcat(1, u, Zeros(n));
    FoldConcat(1, u, k);
    FoldDiffers(c, Zeros(n), k);
    DifferenceBounded(Zeros(n), k);
    GroupsUnpack(k);
    var m := Xor(z, 1);
    if m < Pow32(n) { GroupsPack(m, n); }
    XorIsOne(z, d);
    ZeroIffOne(Fold(c, k));
  }

  lemma ZeroIffOne(x: nat)
    ensures Xor(x, 1) == 0 <==> x == 1
  {
    hide Xor;
    XorSelf(1);
    if Xor(x, 1) == 0 { XorInjective(x, 1, 1); }
  }

  function Checksum(v: seq<Sym>): (k: seq<Sym>)
    ensures |k| == 8
  {
    Groups(PolyMod(v + Zeros(8)), 8)
  }

  /** The checksum, and nothing else of its length, makes the whole verify. */
  lemma ChecksumVerifies(v: seq<Sym>, k: seq<Sym>)
    requires |k| == 8
    ensures PolyMod(v + k) == 0 <==> k == Checksum(v)
  {
    hide Xor, Fold, Groups, Pow32;
    TailVerifies(v, k);
    FoldBounded(1, v + Zeros(8));
    XorBounded(Fold(1, v + Zeros(8)), 1);
    Pow32Top();
  }
}
