/**
 * Skip heights of the block tree, and the walk down to an ancestor along skip and parent links: how many
 * steps it takes at most, and where it takes as many.
 */
module SkipHeights {
  import opened Bitwise
  import opened Radix
  import opened Arithmetic

  function InvertLowestOne(n: nat): nat { if n == 0 then 0 else And(n, n - 1) }

  function GetSkipHeight(height: nat): nat {
    if height < 2 then 0
    else if And(height, 1) != 0 then InvertLowestOne(InvertLowestOne(height - 1)) + 1
    else InvertLowestOne(height)
  }

  /** Inverting the lowest one takes off the largest power of two that divides the number. */
  lemma {:induction false} InvertLowestOneTakesOff(n: nat) returns (k: nat)
    requires n > 0
    ensures Pow(2, k) >= 1 && n % Pow(2, k) == 0 && n / Pow(2, k) % 2 == 1 && InvertLowestOne(n) == n - Pow(2, k)
  {
    if n % 2 == 1 {
      k := 0;
      assert (n - 1) / 2 == n / 2;
      AndSelf(n / 2);
    } else {
      var j := InvertLowestOneTakesOff(n / 2);
      k := j + 1;
      assert (n - 1) / 2 == n / 2 - 1;
      PowPositive(2, j);
      Halves(n, Pow(2, j));
    }
  }

  lemma Halves(n: nat, p: nat)
    requires n % 2 == 0 && p >= 1 && n / 2 % p == 0
    ensures n % (2 * p) == 0 && n / (2 * p) == n / 2 / p
  {
    var q := n / 2 / p;
    assert n == 2 * (p * q);
    assert n == (2 * p) * q;
    assert n == q * (2 * p);
    DivModUnique(n, 2 * p, q, 0);
  }

  lemma SkipGoesDown(height: nat)
    requires height >= 1
    ensures GetSkipHeight(height) < height
  {
    if height >= 2 {
      var k := InvertLowestOneTakesOff(height);
      var j := InvertLowestOneTakesOff(height - 1);
      if InvertLowestOne(height - 1) > 0 { var i := InvertLowestOneTakesOff(InvertLowestOne(height - 1)); }
    }
  }

  // ---- The lowest one ------------------------------------------------------------------------------------------

  /** The lowest one of a number is at bit i. */
  predicate Lowest(m: nat, i: nat) { if i == 0 then m % 2 == 1 else m % 2 == 0 && Lowest(m / 2, i - 1) }

  /** A multiple of 2^i. */
  predicate Whole(m: nat, i: nat) { i == 0 || (m % 2 == 0 && Whole(m / 2, i - 1)) }

  lemma {:induction false} LowestInverted(m: nat, i: nat)
    requires Lowest(m, i)
    ensures m >= Pow(2, i) >= 1 && InvertLowestOne(m) == m - Pow(2, i)
  {
    if i == 0 {
      assert (m - 1) / 2 == m / 2;
      AndSelf(m / 2);
    } else {
      LowestInverted(m / 2, i - 1);
      assert (m - 1) / 2 == m / 2 - 1;
    }
  }

  lemma {:induction false} SomeLowest(m: nat) returns (i: nat)
    requires m > 0
    ensures Lowest(m, i)
  {
    if m % 2 == 1 { i := 0; } else {
      var j := SomeLowest(m / 2);
      i := j + 1;
    }
  }

  lemma {:induction false} LowestIsWhole(m: nat, i: nat)
    requires Lowest(m, i)
    ensures Whole(m, i)
  {
    if i > 0 { LowestIsWhole(m / 2, i - 1); }
  }

  lemma {:induction false} RestIsWhole(m: nat, i: nat)
    requires Lowest(m, i) && m >= Pow(2, i)
    ensures Whole(m - Pow(2, i), i + 1)
  {
    if i > 0 {
      RestIsWhole(m / 2, i - 1);
      assert (m - Pow(2, i)) / 2 == m / 2 - Pow(2, i - 1);
    }
  }

  lemma {:induction false} LowestOfWhole(m: nat, i: nat, j: nat)
    requires Whole(m, i) && Lowest(m, j)
    ensures i <= j
  {
    if i > 0 && j > 0 { LowestOfWhole(m / 2, i - 1, j - 1); }
  }

  /** Taking 2^i off a multiple of a higher power leaves a number with its lowest one at bit i. */
  lemma {:induction false} LowestBelow(m: nat, j: nat, i: nat)
    requires Whole(m, j) && i < j && m > 0
    ensures m >= Pow(2, i + 1) && Lowest(m - Pow(2, i), i)
  {
    if i > 0 {
      LowestBelow(m / 2, j - 1, i - 1);
      assert (m - Pow(2, i)) / 2 == m / 2 - Pow(2, i - 1);
    }
  }

  /** What is left after the lowest one is inverted has a higher lowest one, if anything is left. */
  lemma NextLowest(m: nat, i: nat) returns (k: nat)
    requires Lowest(m, i) && InvertLowestOne(m) > 0
    ensures k > i && Lowest(InvertLowestOne(m), k)
  {
    LowestInverted(m, i);
    RestIsWhole(m, i);
    k := SomeLowest(InvertLowestOne(m));
    LowestOfWhole(InvertLowestOne(m), i + 1, k);
  }

  lemma InvertGoesDown(m: nat)
    ensures InvertLowestOne(m) <= m
  {
    if m > 0 {
      var i := SomeLowest(m);
      LowestInverted(m, i);
    }
  }

  lemma EvenSkip(m: nat, i: nat)
    requires Lowest(m, i) && i >= 1
    ensures m % 2 == 0 && m >= Pow(2, i) >= 1 && GetSkipHeight(m) == InvertLowestOne(m) == m - Pow(2, i)
  {
    LowestInverted(m, i);
    assert And(m, 1) == 0;
  }

  lemma OddSkip(e: nat)
    requires e > 0 && e % 2 == 0
    ensures GetSkipHeight(e + 1) == InvertLowestOne(InvertLowestOne(e)) + 1
  {
    assert And(e + 1, 1) == 1;
  }

  // ---- The walk ------------------------------------------------------------------------------------------------

  predicate TakesSkip(h: nat, t: nat)
    requires h > t
  {
    var skip, skipPrev := GetSkipHeight(h), GetSkipHeight(h - 1);
    skip == t || (skip > t && !(skipPrev < skip - 2 && skipPrev >= t))
  }

  function Next(h: nat, t: nat): (n: nat)
    requires h > t
    ensures t <= n < h
  {
    SkipGoesDown(h);
    if TakesSkip(h, t) then GetSkipHeight(h) else h - 1
  }

  /** How many links the walk from height h to height t follows, if no skip link is missing. */
  function Steps(h: nat, t: nat): nat
    requires h >= t
    decreases h
  {
    if h == t then 0 else 1 + Steps(Next(h, t), t)
  }

  lemma StepsFollow(h: nat, t: nat)
    requires h >= t
    ensures Steps(h, t) == if h == t then 0 else 1 + Steps(Next(h, t), t)
    ensures h > t ==> Next(h, t) == if TakesSkip(h, t) then GetSkipHeight(h) else h - 1
  {
  }
}
