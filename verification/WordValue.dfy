/**
 * Numbers as sequences of 32-bit words, least significant first, and what the loops over words do
 * to them.
 */
module WordValue {
  import opened Arithmetic
  import opened Bitwise
  import opened Radix

  const BASE: nat := 0x1_0000_0000

  predicate AreWords(d: seq<int>) { forall i :: 0 <= i < |d| ==> 0 <= d[i] < BASE }

  /** The value of one word at its place. */
  function At(x: int, i: nat): int { Times(x, Pow(BASE, i)) }

  function Val(d: seq<int>): int { if d == [] then 0 else Val(d[..|d| - 1]) + At(d[|d| - 1], |d| - 1) }

  /** Everything that does not fit w words is cut off. */
  function Modulus(w: nat): (m: nat)
    ensures m >= 1
  {
    PowPositive(BASE, w);
    Pow(BASE, w)
  }

  function Mod(v: int, w: nat): int { v % Modulus(w) }

  lemma {:induction false} ValNext(d: seq<int>, i: nat)
    requires i < |d|
    ensures Val(d[..i + 1]) == Val(d[..i]) + At(d[i], i)
  {
    assert d[..i + 1][..i] == d[..i];
  }

  lemma {:induction false} ValWhole(d: seq<int>, n: nat)
    requires n == |d|
    ensures Val(d[..n]) == Val(d) && Val(d[..0]) == 0
  {
    assert d[..n] == d;
  }

  lemma {:induction false} ValBounded(d: seq<int>)
    requires AreWords(d)
    ensures 0 <= Val(d) < Modulus(|d|)
  {
    hide Times;
    if d == [] {
    } else {
      var n := |d| - 1;
      ValBounded(d[..n]);
      PowPositive(BASE, n);
      TopWord(d[n], Pow(BASE, n), Val(d[..n]));
    }
  }

  lemma {:induction false} TopWord(x: int, p: int, v: int)
    requires 0 <= x < BASE && 0 <= v < p
    ensures 0 <= v + Times(x, p) < Times(p, BASE)
  {
    assert x * p >= 0;
    assert x * p + p == (x + 1) * p;
    MulMonotone(x + 1, BASE, p);
    TimesCommutes(p, BASE);
  }

  /** A sum n at place i leaves one word there and carries the rest to the next place. */
  lemma {:induction false} Carries(n: nat, i: nat)
    ensures At(n % BASE, i) + At(n / BASE, i + 1) == At(n, i)
  {
    var p, q, r := Pow(BASE, i), n / BASE, n % BASE;
    assert Pow(BASE, i + 1) == Times(p, BASE);
    assert q * (p * BASE) == (q * BASE) * p;
    assert r * p + (q * BASE) * p == (r + q * BASE) * p;
  }

  lemma {:induction false} AtAdds(x: int, y: int, i: nat)
    ensures At(x + y, i) == At(x, i) + At(y, i)
  {
    TimesDistributes(x, y, Pow(BASE, i));
  }

  lemma {:induction false} AtScales(x: int, y: int, i: nat)
    ensures At(Times(x, y), i) == Times(x, At(y, i))
  {
    TimesAssociates(x, y, Pow(BASE, i));
  }

  /** What is left when a multiple of the modulus is taken off. */
  lemma {:induction false} CutOff(v: int, q: int, total: int, w: nat)
    requires 0 <= v < Modulus(w) && v + At(q, w) == total
    ensures v == Mod(total, w)
  {
    PowPositive(BASE, w);
    DivModUnique(total, Modulus(w), q, v);
  }

  lemma {:induction false} ValConcat(d: seq<int>, e: seq<int>)
    ensures Val(d + e) == Val(d) + Times(Val(e), Pow(BASE, |d|))
  {
    hide Times;
    if e == [] {
      assert d + e == d;
      TimesOne(Pow(BASE, |d|));
    } else {
      var n := |e| - 1;
      ValConcat(d, e[..n]);
      assert (d + e)[..|d| + n] == d + e[..n];
      PowAdds(BASE, n, |d|);
      TimesAssociates(e[n], Pow(BASE, n), Pow(BASE, |d|));
      TimesDistributes(Val(e[..n]), At(e[n], n), Pow(BASE, |d|));
    }
  }

  lemma {:induction false} ValZeroes(d: seq<int>)
    requires forall i :: 0 <= i < |d| ==> d[i] == 0
    ensures Val(d) == 0
  {
    hide Times;
    if d != [] {
      ValZeroes(d[..|d| - 1]);
      TimesOne(Pow(BASE, |d| - 1));
    }
  }

  /** The high word decides. */
  lemma {:induction false} ValCompares(d: seq<int>, e: seq<int>)
    requires AreWords(d) && AreWords(e) && |d| == |e| > 0
    ensures var n := |d| - 1; d[n] < e[n] ==> Val(d) < Val(e)
  {
    hide Times, Val;
    var n := |d| - 1;
    ValNext(d, n);
    ValNext(e, n);
    assert d[..n + 1] == d && e[..n + 1] == e;
    ValBounded(d[..n]);
    ValBounded(e[..n]);
    PowPositive(BASE, n);
    if d[n] < e[n] { TimesLess(d[n], e[n], Pow(BASE, n)); }
  }

  lemma {:induction false} TimesLess(x: int, y: int, p: nat)
    requires x < y
    ensures Times(x, p) + p <= Times(y, p)
  {
    assert y * p == x * p + (y - x) * p;
    MulAtLeast(y - x, p);
  }

  /** Numbers that agree above place j differ by what they have below it. */
  lemma {:induction false} SameAbove(d: seq<int>, e: seq<int>, j: nat)
    requires |d| == |e| && j <= |d| && forall k :: j <= k < |d| ==> d[k] == e[k]
    ensures Val(d) - Val(d[..j]) == Val(e) - Val(e[..j])
  {
    hide Val, Times;
    assert d == d[..j] + d[j..] && e == e[..j] + e[j..];
    assert d[j..] == e[j..];
    ValConcat(d[..j], d[j..]);
    ValConcat(e[..j], e[j..]);
  }

  lemma {:induction false} ModAdds(a: int, b: int, w: nat)
    ensures Mod(a + Mod(b, w), w) == Mod(a + b, w)
  {
    var m := Modulus(w);
    var q, q' := b / m, (a + b) / m;
    var r := (a + b) % m;
    assert b == q * m + Mod(b, w) && a + b == q' * m + r;
    assert (q' - q) * m == q' * m - q * m;
    DivModUnique(a + Mod(b, w), m, q' - q, r);
  }

  lemma {:induction false} ModFits(v: int, w: nat)
    requires 0 <= v < Modulus(w)
    ensures Mod(v, w) == v
  {
    DivModUnique(v, Modulus(w), 0, v);
  }

  lemma {:induction false} ModTurns(v: int, k: int, w: nat)
    ensures Mod(v + Times(k, Modulus(w)), w) == Mod(v, w)
  {
    var m := Modulus(w);
    var q, r := v / m, v % m;
    assert v == q * m + r;
    assert (q + k) * m == q * m + k * m;
    DivModUnique(v + k * m, m, q + k, r);
  }

  // ---- Shifting a word -----------------------------------------------------------------------------------

  /** A 32-bit word shifted left or right. */
  function ShlWord(x: nat, s: nat): int { Times(x, Pow(2, s)) % BASE }

  function ShrWord(x: nat, s: nat): int {
    PowPositive(2, s);
    x / Pow(2, s)
  }

  lemma {:induction false} ShlIsTimes(x: nat, n: nat)
    ensures Shl(x, n) == Times(x, Pow(2, n))
  {
    hide Times;
    if n == 0 {
      TimesOne(x);
    } else {
      ShlIsTimes(x, n - 1);
      TimesAssociates(x, Pow(2, n - 1), 2);
      Twice(Times(x, Pow(2, n - 1)));
    }
  }

  lemma {:induction false} Twice(x: int)
    ensures Times(x, 2) == 2 * x
  {
  }

  lemma {:induction false} Pow2Of32()
    ensures Pow(2, 32) == BASE
  {
    hide Times;
    ShlIsTimes(1, 32);
    TimesOne(Pow(2, 32));
    Shl5(1);
    ShlAdds(1, 5, 5);
    Shl5(Shl(1, 5));
    ShlAdds(1, 10, 5);
    Shl5(Shl(1, 10));
    ShlAdds(1, 15, 5);
    Shl5(Shl(1, 15));
    ShlAdds(1, 20, 5);
    Shl5(Shl(1, 20));
    ShlAdds(1, 25, 5);
    Shl5(Shl(1, 25));
    ShlAdds(1, 30, 2);
    assert Shl(Shl(1, 30), 2) == 2 * Shl(Shl(1, 30), 1) && Shl(Shl(1, 30), 1) == 2 * Shl(Shl(1, 30), 0);
  }

  lemma {:induction false} Halves(s: nat)
    requires s <= 32
    ensures Times(Pow(2, s), Pow(2, 32 - s)) == BASE && Pow(2, s) >= 1 && Pow(2, 32 - s) >= 1
  {
    PowAdds(2, s, 32 - s);
    Pow2Of32();
    PowPositive(2, s);
    PowPositive(2, 32 - s);
  }

  function LowBits(x: nat, s: nat): int {
    PowPositive(2, s);
    x % Pow(2, s)
  }

  lemma {:induction false} HighPart(x: nat, p: nat, q: nat)
    requires p >= 1 && q >= 1 && x < Times(p, q)
    ensures 0 <= x / q < p && x == Times(x / q, q) + x % q
  {
    DivBounds(x, q);
    if x / q >= p { MulMonotone(p, x / q, q); }
  }

  lemma {:induction false} LowPart(r: int, p: nat, q: nat)
    requires 0 <= r < q && p >= 1
    ensures 0 <= Times(r, p) < Times(q, p)
  {
    assert r * p >= 0;
    assert (r + 1) * p == r * p + p;
    MulMonotone(r + 1, q, p);
  }

  /** The two halves of a word times 2^s: what stays in the word, and what goes to the next. */
  lemma {:induction false} WordShifted(x: nat, s: nat)
    requires x < BASE && s <= 32
    ensures Times(x, Pow(2, s)) == ShlWord(x, s) + Times(ShrWord(x, 32 - s), BASE)
    ensures 0 <= ShrWord(x, 32 - s) < Pow(2, s) && ShlWord(x, s) == Times(LowBits(x, 32 - s), Pow(2, s))
    ensures 0 <= LowBits(x, 32 - s) < Pow(2, 32 - s)
    ensures x == Times(ShrWord(x, 32 - s), Pow(2, 32 - s)) + LowBits(x, 32 - s)
  {
    hide Times, Pow;
    Halves(s);
    var p, q := Pow(2, s), Pow(2, 32 - s);
    HighPart(x, p, q);
    var h, r := ShrWord(x, 32 - s), LowBits(x, 32 - s);
    LowPart(r, p, q);
    TimesDistributes(Times(h, q), r, p);
    TimesAssociates(h, q, p);
    TimesCommutes(p, q);
    Unique(Times(h, BASE), Times(r, p), h);
  }

  lemma {:induction false} Unique(hb: int, low: int, h: int)
    requires hb == Times(h, BASE) && 0 <= low < BASE
    ensures (hb + low) % BASE == low
  {
  }
}
