/**
 * The checksum on 40-bit words, as the decoder computes it: every step on words is a step on numbers, so
 * that remainders of given prefixes can be computed.
 */
module CashAddrWords {
  import opened Bitwise
  import opened CashAddr

  // ---- Symbols ---------------------------------------------------------------------------------------------------

  function Num(x: bv5): nat { x as nat }
  function Plus(x: bv5, y: bv5): bv5 { x ^ y }
  function Half(x: bv5): bv5 { x >> 1 }
  function Low(x: bv5): bv5 { x & 1 }

  lemma HalfSym(x: bv5)
    ensures Num(Half(x)) == Num(x) / 2
  {
  }

  lemma ZeroSym(x: bv5)
    ensures Num(x) == 0 <==> x == 0
  {
  }

  lemma LowSym(x: bv5)
    ensures Num(x) == 2 * Num(Half(x)) + Num(Low(x)) && Num(Low(x)) <= 1
  {
  }

  lemma HalfPlus(x: bv5, y: bv5)
    ensures Half(Plus(x, y)) == Plus(Half(x), Half(y)) && Low(Plus(x, y)) == Plus(Low(x), Low(y))
  {
  }

  lemma LowPlus(x: bv5, y: bv5)
    requires Num(x) <= 1 && Num(y) <= 1
    ensures Num(Plus(x, y)) == (Num(x) + Num(y)) % 2
  {
  }

  lemma LowParity(x: bv5, y: bv5)
    ensures Num(Low(Plus(x, y))) == (Num(x) + Num(y)) % 2
  {
    hide Num, Half, Low, Plus;
    LowSym(x);
    LowSym(y);
    HalfPlus(x, y);
    LowPlus(Low(x), Low(y));
    SameParity(Num(Half(x)), Num(Half(y)), Num(Low(x)), Num(Low(y)));
  }

  lemma PlusHalves(x: bv5, y: bv5)
    ensures Num(Plus(x, y)) == 2 * Num(Plus(Half(x), Half(y))) + (Num(x) + Num(y)) % 2
  {
    hide Num, Half, Low, Plus;
    LowSym(Plus(x, y));
    HalfPlus(x, y);
    LowParity(x, y);
  }

  lemma {:induction false} XorSym(x: bv5, y: bv5)
    ensures Xor(Num(x), Num(y)) == Num(Plus(x, y))
    decreases Num(x) + Num(y)
  {
    hide Xor, Num, Half, Plus;
    HalfSym(x);
    ZeroSym(x);
    ZeroSym(y);
    HalfSym(y);
    PlusHalves(x, y);
    XorStep(Num(x), Num(y));
    XorZero(Num(x));
    XorZero(Num(y));
    if Num(x) + Num(y) > 0 {
      XorSym(Half(x), Half(y));
    } else {
      assert Num(Plus(0, 0)) == 0 by { NoPlus(); }
    }
  }

  lemma NoPlus()
    ensures Num(Plus(0, 0)) == 0
  {
  }

  /** A 40-bit remainder as eight coefficients, the highest first. */
  datatype Rem = Rem(a: bv5, b: bv5, c: bv5, d: bv5, e: bv5, f: bv5, g: bv5, h: bv5)

  function Push(p: nat, x: bv5): nat { 32 * p + Num(x) }

  function Value(r: Rem): nat {
    Push(Push(Push(Push(Push(Push(Push(Num(r.a), r.b), r.c), r.d), r.e), r.f), r.g), r.h)
  }

  function Sum(r: Rem, s: Rem): Rem {
    Rem(Plus(r.a, s.a), Plus(r.b, s.b), Plus(r.c, s.c), Plus(r.d, s.d),
        Plus(r.e, s.e), Plus(r.f, s.f), Plus(r.g, s.g), Plus(r.h, s.h))
  }

  lemma XorPush(p: nat, q: nat, x: bv5, y: bv5)
    ensures Xor(Push(p, x), Push(q, y)) == Push(Xor(p, q), Plus(x, y))
  {
    hide Xor, Num, Plus;
    Small(x);
    Small(y);
    XorParts5(Push(p, x), Push(q, y));
    XorSym(x, y);
  }

  lemma Small(x: bv5)
    ensures Num(x) < 32
  {
  }

  lemma SumIsXor(r: Rem, s: Rem)
    ensures Xor(Value(r), Value(s)) == Value(Sum(r, s))
  {
    hide Xor, Num, Plus, Push;
    var p1, q1 := Push(Num(r.a), r.b), Push(Num(s.a), s.b);
    var p2, q2 := Push(p1, r.c), Push(q1, s.c);
    var p3, q3 := Push(p2, r.d), Push(q2, s.d);
    var p4, q4 := Push(p3, r.e), Push(q3, s.e);
    var p5, q5 := Push(p4, r.f), Push(q4, s.f);
    XorSym(r.a, s.a);
    XorPush(Num(r.a), Num(s.a), r.b, s.b);
    XorPush(p1, q1, r.c, s.c);
    XorPush(p2, q2, r.d, s.d);
    XorPush(p3, q3, r.e, s.e);
    XorPush(p4, q4, r.f, s.f);
    XorPush(p5, q5, r.g, s.g);
    XorPush(Push(p5, r.g), Push(q5, s.g), r.h, s.h);
  }

  // ---- 40-bit words -------------------------------------------------------------------------------------------

  function RemOf(c: bv40): Rem {
    Rem(((c >> 35) & 31) as bv5, ((c >> 30) & 31) as bv5, ((c >> 25) & 31) as bv5, ((c >> 20) & 31) as bv5,
        ((c >> 15) & 31) as bv5, ((c >> 10) & 31) as bv5, ((c >> 5) & 31) as bv5, (c & 31) as bv5)
  }

  /** The number a word stands for. */
  function Nat(c: bv40): nat { Value(RemOf(c)) }

  function XorWord(x: bv40, y: bv40): bv40 { x ^ y }
  function Shifted(c: bv40): bv40 { (c & 0x7_ffff_ffff) << 5 }

  function Take0(c: bv40): bv40 { if c & 0x8_0000_0000 != 0 then 0x98f2bc8e61 else 0 }
  function Take1(c: bv40): bv40 { if c & 0x10_0000_0000 != 0 then 0x79b76d99e2 else 0 }
  function Take2(c: bv40): bv40 { if c & 0x20_0000_0000 != 0 then 0xf33e5fb3c4 else 0 }
  function Take3(c: bv40): bv40 { if c & 0x40_0000_0000 != 0 then 0xae2eabe2a8 else 0 }
  function Take4(c: bv40): bv40 { if c & 0x80_0000_0000 != 0 then 0x1e4f43e470 else 0 }

  function Reduce1(c: bv40): bv40 { XorWord(Take0(c), Take1(c)) }
  function Reduce2(c: bv40): bv40 { XorWord(Reduce1(c), Take2(c)) }
  function Reduce3(c: bv40): bv40 { XorWord(Reduce2(c), Take3(c)) }
  function Reduce4(c: bv40): bv40 { XorWord(Reduce3(c), Take4(c)) }

  /** One step on words. */
  function Word(c: bv40, d: bv40): bv40 { XorWord(XorWord(Shifted(c), d), Reduce4(c)) }

  lemma XorWordRems(x: bv40, y: bv40)
    ensures RemOf(XorWord(x, y)) == Sum(RemOf(x), RemOf(y))
  {
  }

  lemma XorWordNat(x: bv40, y: bv40)
    ensures Nat(XorWord(x, y)) == Xor(Nat(x), Nat(y))
  {
    hide Xor, Value, Sum, RemOf, XorWord;
    XorWordRems(x, y);
    SumIsXor(RemOf(x), RemOf(y));
  }

  lemma ShiftedRem(c: bv40)
    ensures var r := RemOf(c); RemOf(Shifted(c)) == Rem(r.b, r.c, r.d, r.e, r.f, r.g, r.h, 0)
  {
  }

  lemma ValueShifts(r: Rem)
    ensures Value(r) / TOP == Num(r.a)
    ensures Value(Rem(r.b, r.c, r.d, r.e, r.f, r.g, r.h, 0)) == 32 * (Value(r) % TOP)
  {
    hide Num;
    Small(r.b);
    Small(r.c);
    Small(r.d);
    Small(r.e);
    Small(r.f);
    Small(r.g);
    Small(r.h);
    ZeroSym(0);
  }

  lemma ShiftedNat(c: bv40)
    ensures Nat(Shifted(c)) == 32 * (Nat(c) % TOP) && Nat(c) / TOP == Num(RemOf(c).a)
  {
    hide Value, Num, RemOf, Shifted;
    ShiftedRem(c);
    ValueShifts(RemOf(c));
  }

  lemma Constants()
    ensures Nat(0) == 0 && Nat(1) == 1 && Nat(0x98f2bc8e61) == 0x98f2bc8e61 && Nat(0x79b76d99e2) == 0x79b76d99e2
    ensures Nat(0xf33e5fb3c4) == 0xf33e5fb3c4 && Nat(0xae2eabe2a8) == 0xae2eabe2a8 && Nat(0x1e4f43e470) == 0x1e4f43e470
  {
    hide Value;
    RemValue(Rem(0, 0, 0, 0, 0, 0, 0, 0));
    RemValue(Rem(0, 0, 0, 0, 0, 0, 0, 1));
    RemValue(Rem(19, 3, 25, 11, 25, 3, 19, 1));
    RemValue(Rem(15, 6, 27, 22, 27, 6, 15, 2));
    RemValue(Rem(30, 12, 31, 5, 31, 12, 30, 4));
    RemValue(Rem(21, 24, 23, 10, 23, 24, 21, 8));
    RemValue(Rem(3, 25, 7, 20, 7, 25, 3, 16));
  }

  lemma RemValue(r: Rem)
    ensures Value(r) == 0x8_0000_0000 * Num(r.a) + 0x4000_0000 * Num(r.b) + 0x200_0000 * Num(r.c) + 0x10_0000 * Num(r.d)
                        + 0x8000 * Num(r.e) + 0x400 * Num(r.f) + 0x20 * Num(r.g) + Num(r.h)
  {
    hide Num;
  }

  lemma Bits(a: bv5)
    ensures (a & 1 != 0) == HasBit(Num(a), 1) && (a & 2 != 0) == HasBit(Num(a), 2)
    ensures (a & 4 != 0) == HasBit(Num(a), 4) && (a & 8 != 0) == HasBit(Num(a), 8)
    ensures (a & 16 != 0) == HasBit(Num(a), 16)
  {
  }

  lemma TopBits(c: bv40)
    ensures var a := RemOf(c).a;
            && (c & 0x8_0000_0000 != 0) == (a & 1 != 0) && (c & 0x10_0000_0000 != 0) == (a & 2 != 0)
            && (c & 0x20_0000_0000 != 0) == (a & 4 != 0) && (c & 0x40_0000_0000 != 0) == (a & 8 != 0)
            && (c & 0x80_0000_0000 != 0) == (a & 16 != 0)
  {
  }

  lemma Terms(c: bv40)
    ensures var c0 := Nat(c) / TOP;
            && Nat(Take0(c)) == Term(c0, 1, 0x98f2bc8e61) && Nat(Take1(c)) == Term(c0, 2, 0x79b76d99e2)
            && Nat(Take2(c)) == Term(c0, 4, 0xf33e5fb3c4) && Nat(Take3(c)) == Term(c0, 8, 0xae2eabe2a8)
            && Nat(Take4(c)) == Term(c0, 16, 0x1e4f43e470)
  {
    hide Nat, Num, HasBit, RemOf;
    Constants();
    ShiftedNat(c);
    Bits(RemOf(c).a);
    TopBits(c);
  }

  /** The steps of the loop on words are the steps on numbers. */
  lemma WordIsStep(c: bv40, d: bv40)
    requires Nat(d) < 32
    ensures Nat(Word(c, d)) == Step(Nat(c), Nat(d))
  {
    hide Xor, Nat, Term, Shifted, XorWord, Take0, Take1, Take2, Take3, Take4;
    Terms(c);
    ShiftedNat(c);
    XorWordNat(Take0(c), Take1(c));
    XorWordNat(Reduce1(c), Take2(c));
    XorWordNat(Reduce2(c), Take3(c));
    XorWordNat(Reduce3(c), Take4(c));
    XorWordNat(Shifted(c), d);
    XorWordNat(XorWord(Shifted(c), d), Reduce4(c));
  }

  // ---- Whole sequences -------------------------------------------------------------------------------------------

  /** The first `k` symbols leave the remainder `c`. */
  ghost predicate Leaves(v: seq<Sym>, k: nat, c: bv40) { k <= |v| && Fold(1, v[..k]) == Nat(c) }

  lemma Start(v: seq<Sym>)
    ensures Leaves(v, 0, 1)
  {
    hide Nat;
    Constants();
  }

  lemma One(v: seq<Sym>, k: nat, c: bv40, d: bv40, c': bv40)
    requires Leaves(v, k, c) && k < |v| && d < 32 && v[k] == d as int && c' == Word(c, d)
    ensures Leaves(v, k + 1, c')
  {
    hide Nat, Word, Step;
    SymbolNat(d);
    WordIsStep(c, d);
    assert v[..k + 1][..k] == v[..k];
  }

  lemma SymbolNat(d: bv40)
    requires d < 32
    ensures Nat(d) == d as int < 32
  {
  }

  function Words(c: bv40, d0: bv40, d1: bv40, d2: bv40, d3: bv40): bv40 { Word(Word(Word(Word(c, d0), d1), d2), d3) }

  lemma Four(v: seq<Sym>, k: nat, c: bv40, d0: bv40, d1: bv40, d2: bv40, d3: bv40, c': bv40)
    requires Leaves(v, k, c) && k + 4 <= |v| && d0 < 32 && d1 < 32 && d2 < 32 && d3 < 32
    requires c' == Words(c, d0, d1, d2, d3)
    requires v[k] == d0 as int && v[k + 1] == d1 as int && v[k + 2] == d2 as int && v[k + 3] == d3 as int
    ensures Leaves(v, k + 4, c')
  {
    hide Leaves, Word;
    One(v, k, c, d0, Word(c, d0));
    One(v, k + 1, Word(c, d0), d1, Word(Word(c, d0), d1));
    One(v, k + 2, Word(Word(c, d0), d1), d2, Word(Word(Word(c, d0), d1), d2));
    One(v, k + 3, Word(Word(Word(c, d0), d1), d2), d3, c');
  }

  lemma OnlyUnit(c: bv40)
    ensures Nat(c) == 1 <==> c == 1
  {
    hide Num, RemOf, Value;
    var r := RemOf(c);
    UnitRem(c);
    RemValue(r);
    ZeroSym(r.a);
    ZeroSym(r.b);
    ZeroSym(r.c);
    ZeroSym(r.d);
    ZeroSym(r.e);
    ZeroSym(r.f);
    ZeroSym(r.g);
    UnitSym(r.h);
  }

  lemma UnitRem(c: bv40)
    ensures RemOf(c) == Rem(0, 0, 0, 0, 0, 0, 0, 1) <==> c == 1
  {
  }

  lemma UnitSym(x: bv5)
    ensures Num(x) == 1 <==> x == 1
  {
  }

  lemma HighStays(z: nat)
    ensures Xor(z, 1) / TOP == z / TOP
  {
    hide Xor;
    XorParts35(z, 1);
    XorZero(z / TOP);
  }

  /** The remainder after seven more zeroes. */
  function AfterZeroes(c: bv40): bv40 { Word(Word(Word(Words(c, 0, 0, 0, 0), 0), 0), 0) }

  lemma SevenZeroes(u: seq<Sym>, c: bv40)
    requires Leaves(u, |u|, c)
    ensures Fold(1, u + Zeros(7)) == Nat(AfterZeroes(c))
  {
    hide Nat, Word, Words, Fold;
    var v, n := u + Zeros(7), |u|;
    assert v[..n] == u && u[..n] == u;
    var c4 := Words(c, 0, 0, 0, 0);
    Four(v, n, c, 0, 0, 0, 0, c4);
    One(v, n + 4, c4, 0, Word(c4, 0));
    One(v, n + 5, Word(c4, 0), 0, Word(Word(c4, 0), 0));
    One(v, n + 6, Word(Word(c4, 0), 0), 0, AfterZeroes(c));
    assert v[..n + 7] == v;
  }

  lemma TopSym(c: bv40)
    requires c >= 0x8_0000_0000
    ensures Num(RemOf(c).a) > 0
  {
  }

  lemma Verifies(v: seq<Sym>)
    requires Leaves(v, |v|, 1)
    ensures PolyMod(v) == 0
  {
    hide Xor, Fold, Nat;
    assert v[..|v|] == v;
    OnlyUnit(1);
    ZeroIffOne(Fold(1, v));
  }
}
