/**
 * Cash addresses that are too short: bodies of fewer than eight symbols that verify all the same.
 * They exist for some prefixes and not for others; for a given prefix one remainder decides.
 */
module CashAddrShort {
  import opened Bitwise
  import opened CashAddr
  import opened CashAddrText
  import opened CashAddrWords

  // ---- Which strings ---------------------------------------------------------------------------------------

  /** The prefix and the part after the colon, as the decoder sees them. */
  function PrefixOf(s: string, defaultPrefix: string): string
    requires Acceptable(s)
  {
    AcceptableBytes(s);
    if Colon(s) == 0 then defaultPrefix else LowerAll(s[..Colon(s)])
  }

  function BodyOf(s: string): string {
    if Colon(s) == 0 then s else if Colon(s) < |s| then s[Colon(s) + 1..] else ""
  }

  /** What `n` zeroes after the prefix leave as a remainder. */
  function Rest(prefix: string, n: nat): nat { PolyMod(Expanded(prefix) + Zeros(n)) }

  lemma ShortBody(prefix: string, body: string)
    ensures Judged(prefix, body) == TooShort <==>
              && |body| < 8 && IsText(body)
              && Rest(prefix, |body|) < Pow32(|body|) && Symbols(body) == Groups(Rest(prefix, |body|), |body|)
  {
    hide PolyMod, CharsetRev, Pow32, Groups;
    if |body| < 8 && IsText(body) { TailVerifies(Expanded(prefix), Symbols(body)); }
  }

  /**
   * The decoder runs past the start of its range exactly for an acceptable string whose body has fewer
   * than eight symbols and spells the remainder that zeroes in its place would leave.
   */
  lemma TooShortExactly(s: string, defaultPrefix: string)
    ensures Meaning(s, defaultPrefix) == TooShort <==>
              && Acceptable(s) && !Mixed(s) && |BodyOf(s)| < 8 && IsText(BodyOf(s))
              && var prefix, n := PrefixOf(s, defaultPrefix), |BodyOf(s)|;
                 Rest(prefix, n) < Pow32(n) && Symbols(BodyOf(s)) == Groups(Rest(prefix, n), n)
  {
    hide PolyMod, CharsetRev, Pow32, Groups, Mixed, LowerCase, Judged;
    if Acceptable(s) && !Mixed(s) { ShortBody(PrefixOf(s, defaultPrefix), BodyOf(s)); }
  }

  lemma EightSuffice(s: string, defaultPrefix: string)
    requires |BodyOf(s)| >= 8
    ensures Meaning(s, defaultPrefix) != TooShort
  {
    hide PolyMod, CharsetRev, Mixed, Acceptable, LowerCase;
  }

  // ---- Which prefixes ----------------------------------------------------------------------------------------

  /** Without a coefficient to shift out, a step is a shift. */
  lemma StepZero(z: nat)
    requires z < TOP
    ensures Step(z, 0) == 32 * z
  {
    hide Xor;
    XorZero(32 * z);
    XorZero(0);
  }

  lemma LowBitOnly(z: nat)
    ensures Xor(z, 1) / 2 == z / 2 && Xor(2 * z, 1) == 2 * z + 1
  {
    hide Xor;
    XorStep(z, 1);
    XorStep(2 * z, 1);
    XorZero(z / 2);
    XorZero(z);
  }

  lemma FitsShifted(z: nat, p: nat)
    requires Xor(z, 1) < 2 * p
    ensures z < 2 * p && Xor(32 * z, 1) < 64 * p
  {
    hide Xor;
    LowBitOnly(z);
    LowBitOnly(16 * z);
  }

  /** If the remainder fits into n symbols, then with one more zero into one more symbol. */
  lemma FitsLonger(prefix: string, n: nat)
    requires 1 <= n < 7 && Rest(prefix, n) < Pow32(n)
    ensures Rest(prefix, n + 1) < Pow32(n + 1)
  {
    hide Xor, Step;
    var v, w := Expanded(prefix) + Zeros(n), Expanded(prefix) + Zeros(n + 1);
    assert w[..|w| - 1] == v && w[|w| - 1] == 0;
    FitsShifted(Fold(1, v), 16 * Pow32(n - 1));
    Pow32Grows(n, 7);
    Pow32Top();
    StepZero(Fold(1, v));
  }

  lemma {:induction false} FitsSeven(prefix: string, n: nat)
    requires 1 <= n <= 7 && Rest(prefix, n) < Pow32(n)
    ensures Rest(prefix, 7) < Pow32(7)
    decreases 7 - n
  {
    hide Rest, Pow32;
    if n < 7 {
      FitsLonger(prefix, n);
      FitsSeven(prefix, n + 1);
    }
  }

  /** A prefix has a body that is too short exactly if it verifies alone or seven symbols can hold the remainder. */
  lemma ShortBodies(prefix: string)
    ensures (exists body :: Judged(prefix, body) == TooShort) <==> Rest(prefix, 0) == 0 || Rest(prefix, 7) < TOP
  {
    hide Rest, Judged, Groups, Pow32;
    Pow32Top();
    assert Pow32(0) == 1 by { PowZero(); }
    if body :| Judged(prefix, body) == TooShort {
      ShortBody(prefix, body);
      if |body| > 0 { FitsSeven(prefix, |body|); }
    }
    if Rest(prefix, 0) == 0 {
      ShortBody(prefix, "");
      assert Judged(prefix, "") == TooShort by { NoSymbols(0); }
    }
    if Rest(prefix, 7) < TOP {
      var v := Groups(Rest(prefix, 7), 7);
      SymbolsOfText(v);
      ShortBody(prefix, Text(v));
      assert Judged(prefix, Text(v)) == TooShort;
    }
  }

  lemma PowZero()
    ensures Pow32(0) == 1
  {
  }

  lemma NoSymbols(m: nat)
    ensures IsText("") && Symbols("") == Groups(m, 0)
  {
  }

  // ---- The node's own prefixes ---------------------------------------------------------------------------------

  /** The remainders after the prefix and after seven zeroes show that no short body verifies. */
  lemma NoShortBody(prefix: string, c: bv40, body: string)
    requires Leaves(Expanded(prefix), |prefix| + 1, c) && c != 1 && AfterZeroes(c) >= 0x8_0000_0000
    ensures Judged(prefix, body) != TooShort
  {
    hide Xor, Fold, Nat, Num, Judged, AfterZeroes;
    var u := Expanded(prefix);
    assert u[..|u|] == u && u + Zeros(0) == u;
    OnlyUnit(c);
    ZeroIffOne(Fold(1, u));
    SevenZeroes(u, c);
    ShiftedNat(AfterZeroes(c));
    TopSym(AfterZeroes(c));
    HighStays(Fold(1, u + Zeros(7)));
    ShortBodies(prefix);
  }

  lemma Spelled(prefix: string, v: seq<Sym>)
    requires |v| == |prefix| && forall i :: 0 <= i < |v| ==> v[i] == prefix[i] as int % 32
    ensures Expanded(prefix) == v + [0]
  {
  }

  lemma EcashWords()
    ensures Words(0x1, 5, 3, 1, 19) == 0x128c33 && Word(0x128c33, 8) == 0x2518668
    ensures Word(0x2518668, 0) == 0x4a30cd00 && AfterZeroes(0x4a30cd00) == 0xcffd532552
  {
  }

  lemma Ecash(body: string)
    ensures Judged("ecash", body) != TooShort
  {
    hide Leaves, Judged, Word, Words, AfterZeroes, Expanded;
    var v: seq<Sym> := [5, 3, 1, 19, 8, 0];
    assert Expanded("ecash") == v by { Spelled("ecash", [5, 3, 1, 19, 8]); }
    Start(v);
    EcashWords();
    Four(v, 0, 0x1, 5, 3, 1, 19, 0x128c33);
    One(v, 4, 0x128c33, 8, 0x2518668);
    One(v, 5, 0x2518668, 0, 0x4a30cd00);
    NoShortBody("ecash", 0x4a30cd00, body);
  }

  lemma EctestWords()
    ensures Words(0x1, 5, 3, 20, 5) == 0x128e85 && Word(0x128e85, 19) == 0x251d0b3
    ensures Word(0x251d0b3, 20) == 0x4a3a1674 && Word(0x4a3a1674, 0) == 0x94742ce80
    ensures AfterZeroes(0x94742ce80) == 0x9e9a39c567
  {
  }

  lemma Ectest(body: string)
    ensures Judged("ectest", body) != TooShort
  {
    hide Leaves, Judged, Word, Words, AfterZeroes, Expanded;
    var v: seq<Sym> := [5, 3, 20, 5, 19, 20, 0];
    assert Expanded("ectest") == v by { Spelled("ectest", [5, 3, 20, 5, 19, 20]); }
    Start(v);
    EctestWords();
    Four(v, 0, 0x1, 5, 3, 20, 5, 0x128e85);
    One(v, 4, 0x128e85, 19, 0x251d0b3);
    One(v, 5, 0x251d0b3, 20, 0x4a3a1674);
    One(v, 6, 0x4a3a1674, 0, 0x94742ce80);
    NoShortBody("ectest", 0x94742ce80, body);
  }

  lemma EcregtestWords()
    ensures Words(0x1, 5, 3, 18, 5) == 0x128e45 && Words(0x128e45, 7, 20, 5, 19) == 0xb016ef5ed2
    ensures Word(0xb016ef5ed2, 20) == 0x961b9a1402 && Word(0x961b9a1402, 0) == 0xa48b6cfdd2
    ensures AfterZeroes(0xa48b6cfdd2) == 0x94ff42018b
  {
  }

  lemma Ecregtest(body: string)
    ensures Judged("ecregtest", body) != TooShort
  {
    hide Leaves, Judged, Word, Words, AfterZeroes, Expanded;
    var v: seq<Sym> := [5, 3, 18, 5, 7, 20, 5, 19, 20, 0];
    assert Expanded("ecregtest") == v by { Spelled("ecregtest", [5, 3, 18, 5, 7, 20, 5, 19, 20]); }
    Start(v);
    EcregtestWords();
    Four(v, 0, 0x1, 5, 3, 18, 5, 0x128e45);
    Four(v, 4, 0x128e45, 7, 20, 5, 19, 0xb016ef5ed2);
    One(v, 8, 0xb016ef5ed2, 20, 0x961b9a1402);
    One(v, 9, 0x961b9a1402, 0, 0xa48b6cfdd2);
    NoShortBody("ecregtest", 0xa48b6cfdd2, body);
  }

  lemma BitcoincashWords()
    ensures Words(0x1, 2, 9, 20, 3) == 0x112683 && Words(0x112683, 15, 9, 14, 3) == 0x8a9a8b2ba2
    ensures Words(0x8a9a8b2ba2, 1, 19, 8, 0) == 0xf669cd6d15 && AfterZeroes(0xf669cd6d15) == 0x1863fd18cb
  {
  }

  lemma Bitcoincash(body: string)
    ensures Judged("bitcoincash", body) != TooShort
  {
    hide Leaves, Judged, Word, Words, AfterZeroes, Expanded;
    var v: seq<Sym> := [2, 9, 20, 3, 15, 9, 14, 3, 1, 19, 8, 0];
    assert Expanded("bitcoincash") == v by { Spelled("bitcoincash", [2, 9, 20, 3, 15, 9, 14, 3, 1, 19, 8]); }
    Start(v);
    BitcoincashWords();
    Four(v, 0, 0x1, 2, 9, 20, 3, 0x112683);
    Four(v, 4, 0x112683, 15, 9, 14, 3, 0x8a9a8b2ba2);
    Four(v, 8, 0x8a9a8b2ba2, 1, 19, 8, 0, 0xf669cd6d15);
    NoShortBody("bitcoincash", 0xf669cd6d15, body);
  }

  lemma BchtestWords()
    ensures Words(0x1, 2, 3, 8, 20) == 0x110d14 && Words(0x110d14, 5, 19, 20, 0) == 0x8823fe40e1
    ensures AfterZeroes(0x8823fe40e1) == 0xbf5aad1b73
  {
  }

  lemma Bchtest(body: string)
    ensures Judged("bchtest", body) != TooShort
  {
    hide Leaves, Judged, Word, Words, AfterZeroes, Expanded;
    var v: seq<Sym> := [2, 3, 8, 20, 5, 19, 20, 0];
    assert Expanded("bchtest") == v by { Spelled("bchtest", [2, 3, 8, 20, 5, 19, 20]); }
    Start(v);
    BchtestWords();
    Four(v, 0, 0x1, 2, 3, 8, 20, 0x110d14);
    Four(v, 4, 0x110d14, 5, 19, 20, 0, 0x8823fe40e1);
    NoShortBody("bchtest", 0x8823fe40e1, body);
  }

  lemma BchregWords()
    ensures Words(0x1, 2, 3, 8, 18) == 0x110d12 && Word(0x110d12, 5) == 0x221a245
    ensures Word(0x221a245, 7) == 0x443448a7 && Word(0x443448a7, 0) == 0x8868914e0
    ensures AfterZeroes(0x8868914e0) == 0xedd25dedea
  {
  }

  lemma Bchreg(body: string)
    ensures Judged("bchreg", body) != TooShort
  {
    hide Leaves, Judged, Word, Words, AfterZeroes, Expanded;
    var v: seq<Sym> := [2, 3, 8, 18, 5, 7, 0];
    assert Expanded("bchreg") == v by { Spelled("bchreg", [2, 3, 8, 18, 5, 7]); }
    Start(v);
    BchregWords();
    Four(v, 0, 0x1, 2, 3, 8, 18, 0x110d12);
    One(v, 4, 0x110d12, 5, 0x221a245);
    One(v, 5, 0x221a245, 7, 0x443448a7);
    One(v, 6, 0x443448a7, 0, 0x8868914e0);
    NoShortBody("bchreg", 0x8868914e0, body);
  }

  const NODE_PREFIXES := ["ecash", "ectest", "ecregtest", "bitcoincash", "bchtest", "bchreg"]

  /** With one of the node's prefixes, the decoder never runs past the start of its range. */
  lemma NodePrefixes(s: string, defaultPrefix: string)
    requires Acceptable(s) ==> PrefixOf(s, defaultPrefix) in NODE_PREFIXES
    ensures Meaning(s, defaultPrefix) != TooShort
  {
    hide Judged, Acceptable, Mixed, LowerCase;
    if Acceptable(s) && !Mixed(s) {
      Ecash(BodyOf(s));
      Ectest(BodyOf(s));
      Ecregtest(BodyOf(s));
      Bitcoincash(BodyOf(s));
      Bchtest(BodyOf(s));
      Bchreg(BodyOf(s));
    }
  }

  // ---- A string that is too short -----------------------------------------------------------------------------

  lemma SevenWords()
    ensures Words(0x1, 3, 0, 0, 12) == 0x11800c && Words(0x11800c, 13, 4, 10, 2) == 0x80f27a1f23
    ensures Word(0x80f27a1f23, 17) == 0x1
  {
  }

  lemma Seven()
    ensures PolyMod([3, 0, 0, 12, 13, 4, 10, 2, 17]) == 0
  {
    hide Leaves, Xor, Word, Words;
    var v: seq<Sym> := [3, 0, 0, 12, 13, 4, 10, 2, 17];
    Start(v);
    SevenWords();
    Four(v, 0, 0x1, 3, 0, 0, 12, 0x11800c);
    Four(v, 4, 0x11800c, 13, 4, 10, 2, 0x80f27a1f23);
    One(v, 8, 0x80f27a1f23, 17, 0x1);
    Verifies(v);
  }

  lemma ShortString()
    ensures Meaning("c:qvdy2z3", "") == TooShort
  {
    hide PolyMod, Mixed, Acceptable, LowerCase;
    var s := "c:qvdy2z3";
    assert Acceptable(s) && !Mixed(s) && Colon(s) == 1 by { Accepted(); }
    assert LowerAll(s[..1]) == "c" by { LowerC(); }
    var body := s[2..];
    assert body == "qvdy2z3";
    assert IsText(body) && Symbols(body) == [0, 12, 13, 4, 10, 2, 17];
    assert Expanded("c") + Symbols(body) == [3, 0, 0, 12, 13, 4, 10, 2, 17];
    Seven();
  }

  lemma LowerC()
    ensures LowerCase('c') == 'c'
  {
  }

  lemma Accepted()
    ensures var s := "c:qvdy2z3"; Acceptable(s) && !Mixed(s) && Colon(s) == 1
  {
    var s := "c:qvdy2z3";
    assert s[1] == ':' && s[0] != ':';
    assert First(s, 0) == First(s, 1) == 1;
  }
}
