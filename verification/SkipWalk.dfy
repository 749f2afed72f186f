/**
 * How long the walk down to an ancestor can get. Odd heights lose two ones at a step and even heights one,
 * until the next skip would go too far; the walk then has to come down to the next smaller power of two,
 * each time through all the ones below it. So the number of steps is quadratic in the length of the height.
 */
module SkipWalk {
  import opened Radix
  import opened SkipHeights

  /** The most steps from a height whose lowest one is at bit j and whose skip goes too far. */
  function Descent(j: nat): nat {
    if j <= 1 then j else if j == 2 then 3 else if j == 3 then 5 else Descent(j - 1) + 2 + (j - 1) / 2
  }

  lemma {:induction false} DescentGrows(i: nat, j: nat)
    requires 1 <= i < j && !(i == 2 && j == 3)
    ensures Descent(i) + 2 + i / 2 <= Descent(j)
  {
    if i < j - 1 && j >= 5 { DescentGrows(i, j - 1); }
  }

  lemma {:induction false} DescentMonotone(i: nat, j: nat)
    requires i <= j
    ensures Descent(i) <= Descent(j)
  {
    if i < j { DescentMonotone(i, j - 1); }
  }

  lemma {:induction false} DescentLinear(j: nat)
    ensures Descent(j) >= j
  {
    if j > 3 { DescentLinear(j - 1); }
  }

  /** No step goes up. */
  lemma {:induction false} StepsAtMost(h: nat, t: nat)
    requires h >= t
    ensures Steps(h, t) <= h - t
    decreases h
  {
    hide Next;
    if h > t { StepsAtMost(Next(h, t), t); }
  }

  lemma SmallPowers()
    ensures Pow(2, 0) == 1 && Pow(2, 1) == 2 && Pow(2, 2) == 4 && Pow(2, 3) == 8
  {
    assert Pow(2, 2) == 2 * Pow(2, 1);
  }

  lemma Doubles(n: nat)
    requires n > 0
    ensures Pow(2, n) == 2 * Pow(2, n - 1)
  {
  }

  // ---- Which link is followed -----------------------------------------------------------------------------------

  /** From an odd height the skip is taken unless it goes too far. */
  lemma FromOdd(e: nat, t: nat)
    requires e > 0 && e % 2 == 0 && t <= e
    ensures var s := InvertLowestOne(InvertLowestOne(e)) + 1;
            Next(e + 1, t) == if s >= t then s else e
  {
    hide InvertLowestOne, GetSkipHeight;
    OddSkip(e);
    var i := SomeLowest(e);
    EvenSkip(e, i);
    InvertGoesDown(InvertLowestOne(e));
  }

  /** From an even height too, if it is a multiple of eight. */
  lemma FromEven(m: nat, i: nat, t: nat)
    requires Lowest(m, i) && i >= 1 && t < m
    ensures m >= Pow(2, i)
    ensures m - Pow(2, i) < t ==> Next(m, t) == m - 1
    ensures m - Pow(2, i) == t ==> Next(m, t) == t
    ensures m - Pow(2, i) > t && (i >= 3 || GetSkipHeight(m - 1) < t) ==> Next(m, t) == m - Pow(2, i)
  {
    hide InvertLowestOne, GetSkipHeight;
    EvenSkip(m, i);
    if i >= 3 {
      SmallPowers();
      PowMonotone(2, 3, i);
      LowestIsWhole(m, i);
      LowestBelow(m, i, 1);
      EvenSkip(m - 2, 1);
      LowestBelow(m, i, 2);
      LowestInverted(m - 4, 2);
      OddSkip(m - 2);
    }
  }

  /** The odd heights below a multiple m of 2^j: each skip passes two more ones. */
  lemma RunSkip(m: nat, j: nat, i: nat)
    requires Whole(m, j) && 1 <= i < j && m > 0
    ensures m >= Pow(2, i + 1) && m >= Pow(2, j)
    ensures i + 2 <= j ==> m >= Pow(2, i + 2)
    ensures InvertLowestOne(m - Pow(2, i)) == m - Pow(2, i + 1)
    ensures i + 2 <= j ==> InvertLowestOne(m - Pow(2, i + 1)) == m - Pow(2, i + 2)
  {
    hide InvertLowestOne;
    LowestBelow(m, j, j - 1);
    LowestBelow(m, j, i);
    LowestInverted(m - Pow(2, i), i);
    if i + 2 <= j {
      LowestBelow(m, j, i + 1);
      LowestInverted(m - Pow(2, i + 1), i + 1);
    }
  }

  // ---- Down from a height whose skip goes too far ----------------------------------------------------------------

  lemma {:induction false} FromLow(m: nat, j: nat, t: nat)
    requires Lowest(m, j) && t <= m < t + Pow(2, j)
    ensures Steps(m, t) <= Descent(j)
    decreases j, j + 1
  {
    hide Lowest, Next, Pow;
    SmallPowers();
    if j <= 2 {
      StepsAtMost(m, t);
    } else if t < m {
      FromEven(m, j, t);
      LowestIsWhole(m, j);
      FromRun(m, j, 0, t);
    }
  }

  /** From the odd height after r skips; `m` is where the run began. */
  lemma {:induction false} FromRun(m: nat, j: nat, r: nat, t: nat)
    requires Whole(m, j) && m > 0 && 2 * r + 1 <= j && j >= 2 && m >= Pow(2, 2 * r + 1)
    requires t <= m - Pow(2, 2 * r + 1) + 1 && m < t + Pow(2, j)
    ensures Steps(m - Pow(2, 2 * r + 1) + 1, t) + r + 1 <= Descent(j)
    decreases j, j - (2 * r + 1)
  {
    hide Whole, Lowest, Next, Pow, InvertLowestOne;
    var i := 2 * r + 1;
    var e := m - Pow(2, i);
    DescentLinear(j);
    if t <= e {
      assert i < j;
      RunSkip(m, j, i);
      LowestBelow(m, j, i);
      EvenSkip(e, i);
      FromOdd(e, t);
      if i + 2 <= j {
        if m - Pow(2, i + 2) + 1 >= t { FromRun(m, j, r + 1, t); } else { FromFoot(m, j, r, t); }
      } else {
        InvertGoesDown(m - Pow(2, j));
        if InvertLowestOne(InvertLowestOne(e)) + 1 < t { FromFoot(m, j, r, t); }
      }
    }
  }

  /** From the even height below the last odd one. */
  lemma {:induction false} FromFoot(m: nat, j: nat, r: nat, t: nat)
    requires Whole(m, j) && m > 0 && 2 * r + 1 < j && m >= Pow(2, 2 * r + 1)
    requires t <= m - Pow(2, 2 * r + 1) && m < t + Pow(2, j)
    requires 2 * r + 3 <= j ==> m + 1 < t + Pow(2, 2 * r + 3)
    ensures Steps(m - Pow(2, 2 * r + 1), t) + r + 2 <= Descent(j)
    decreases j, 0
  {
    hide Whole, Lowest, Next, InvertLowestOne;
    var i := 2 * r + 1;
    var y := m - Pow(2, i);
    RunSkip(m, j, i);
    LowestBelow(m, j, i);
    if m - Pow(2, i + 1) < t {
      FromLow(y, i, t);
      DescentGrows(i, j);
    } else {
      assert i + 2 <= j;
      var z := m - Pow(2, i + 1);
      LowestBelow(m, j, i + 1);
      if z == t { FromEven(y, i, t); DescentGrows(i, j); } else {
        FootSkips(m, j, r, t);
        if i + 1 == 2 && j == 3 {
          SmallPowers();
          StepsAtMost(z, t);
        } else {
          FromLow(z, i + 1, t);
          DescentGrows(i + 1, j);
        }
      }
    }
  }

  lemma FootSkips(m: nat, j: nat, r: nat, t: nat)
    requires Whole(m, j) && m > 0 && 2 * r + 3 <= j && m >= Pow(2, 2 * r + 2)
    requires t < m - Pow(2, 2 * r + 2) && m + 1 < t + Pow(2, 2 * r + 3)
    ensures m - Pow(2, 2 * r + 1) > t && Next(m - Pow(2, 2 * r + 1), t) == m - Pow(2, 2 * r + 2)
  {
    hide Whole, Lowest, Next, InvertLowestOne;
    var i := 2 * r + 1;
    LowestBelow(m, j, i);
    if i == 1 {
      SmallPowers();
      RunSkip(m, j, 2);
      LowestBelow(m, j, 2);
      EvenSkip(m - 4, 2);
      OddSkip(m - 4);
      InvertGoesDown(m - 8);
    }
    FromEven(m - Pow(2, i), i, t);
  }

  // ---- Down from any height --------------------------------------------------------------------------------------

  lemma LowestWithin(m: nat, i: nat, k: nat)
    requires Lowest(m, i) && m < Pow(2, k)
    ensures i < k
  {
    hide InvertLowestOne;
    LowestInverted(m, i);
    if k <= i { PowMonotone(2, k, i); }
  }

  lemma {:induction false} FromMultiple(m: nat, i: nat, t: nat, k: nat)
    requires Lowest(m, i) && i >= 3 && t <= m < Pow(2, k)
    ensures i < k && Steps(m, t) <= k - 1 - i + Descent(k - 1)
    decreases m
  {
    hide Lowest, Next, Pow, InvertLowestOne;
    LowestWithin(m, i, k);
    DescentLinear(k - 1);
    DescentMonotone(i, k - 1);
    LowestInverted(m, i);
    if t < m {
      FromEven(m, i, t);
      if m - Pow(2, i) < t {
        FromLow(m, i, t);
      } else if m - Pow(2, i) > t {
        var n := NextLowest(m, i);
        FromMultiple(m - Pow(2, i), n, t, k);
      }
    }
  }

  /** From an even height that two skips more would leave too far down. */
  lemma FromTwoAbove(e: nat, i: nat, t: nat, k: nat)
    requires Lowest(e, i) && i >= 1 && InvertLowestOne(InvertLowestOne(e)) + 1 < t <= e < Pow(2, k)
    ensures i < k && Steps(e, t) <= Descent(k - 1) + if i < k - 1 then 1 else 0
  {
    hide Lowest, Next, Pow, InvertLowestOne;
    LowestWithin(e, i, k);
    LowestInverted(e, i);
    var f := e - Pow(2, i);
    if f < t {
      FromLow(e, i, t);
      DescentMonotone(i, k - 1);
    } else {
      var n := NextLowest(e, i);
      LowestWithin(f, n, k);
      LowestInverted(f, n);
      TwoAboveSkips(e, i, t);
      FromLow(f, n, t);
      DescentMonotone(n, k - 1);
    }
  }

  lemma TwoAboveSkips(e: nat, i: nat, t: nat)
    requires Lowest(e, i) && i >= 1 && InvertLowestOne(InvertLowestOne(e)) + 1 < t <= InvertLowestOne(e)
    ensures t < e && Next(e, t) == InvertLowestOne(e)
  {
    hide Lowest, Next, InvertLowestOne;
    LowestInverted(e, i);
    if i <= 2 { SkipBefore(e, i); }
    FromEven(e, i, t);
  }

  /** The skip of the height before an even one that is no multiple of eight passes two more ones. */
  lemma SkipBefore(e: nat, i: nat)
    requires Lowest(e, i) && 1 <= i <= 2 && InvertLowestOne(e) > 0
    ensures var f := InvertLowestOne(InvertLowestOne(e));
            && e > 0 && GetSkipHeight(e - 1) <= f + 1
            && GetSkipHeight(e - 1) == (if i == 1 then InvertLowestOne(f) else f) + 1
  {
    hide Lowest, InvertLowestOne;
    SmallPowers();
    LowestInverted(e, i);
    var f := InvertLowestOne(e);
    RestIsWhole(e, i);
    var n := NextLowest(e, i);
    EvenSkip(f, n);
    if i == 1 {
      OddSkip(f);
      InvertGoesDown(InvertLowestOne(f));
    } else {
      TwoMore(f);
      LowestInverted(f + 2, 1);
      OddSkip(f + 2);
    }
  }

  lemma TwoMore(f: nat)
    requires Whole(f, 3)
    ensures Lowest(f + 2, 1)
  {
    assert (f + 2) / 2 == f / 2 + 1;
  }

  lemma {:induction false} FromOddHeight(e: nat, i: nat, t: nat, k: nat)
    requires Lowest(e, i) && i >= 1 && t <= e + 1 && e + 1 < Pow(2, k)
    ensures i < k && Steps(e + 1, t) <= (k - i) / 2 + 1 + Descent(k - 1)
    decreases e
  {
    hide Lowest, Next, Pow, InvertLowestOne;
    LowestWithin(e, i, k);
    DescentLinear(k - 1);
    EvenSkip(e, i);
    var f := InvertLowestOne(InvertLowestOne(e));
    InvertGoesDown(InvertLowestOne(e));
    if t <= e {
      FromOdd(e, t);
      if f + 1 < t {
        FromTwoAbove(e, i, t, k);
      } else if f == 0 {
        StepsAtMost(1, t);
      } else {
        InvertedZero(InvertLowestOne(e));
        var n := NextLowest(e, i);
        var n' := NextLowest(InvertLowestOne(e), n);
        FromOddHeight(f, n', t, k);
      }
    }
  }

  lemma InvertedZero(m: nat)
    requires InvertLowestOne(m) > 0
    ensures m > 0
  {
  }

  /** From a height whose lowest one is at bit two. */
  lemma FromFour(h: nat, t: nat, k: nat)
    requires Lowest(h, 2) && t <= h < Pow(2, k)
    ensures k >= 1 && Steps(h, t) <= (k - 1) / 2 + 2 + Descent(k - 1)
  {
    hide Lowest, Next, Pow, InvertLowestOne;
    SmallPowers();
    LowestWithin(h, 2, k);
    DescentLinear(k - 1);
    LowestInverted(h, 2);
    var m := h - 4;
    if t == h {
    } else if m <= t {
      StepsAtMost(h, t);
      if m == t { FromEven(h, 2, t); }
    } else if GetSkipHeight(h - 1) < t {
      FromEven(h, 2, t);
      var n := NextLowest(h, 2);
      LowestWithin(m, n, k);
      SkipBefore(h, 2);
      LowestInverted(m, n);
      FromLow(m, n, t);
      DescentMonotone(n, k - 1);
    } else {
      var n := NextLowest(h, 2);
      LowestInverted(m, n);
      SkipBefore(h, 2);
      PowMonotone(2, 3, n);
      EvenSkip(h, 2);
      StaysEven(h, t);
      RestIsWhole(h, 2);
      TwoMore(m);
      FromOddHeight(h - 2, 1, t, k);
    }
  }

  /** The parent is better if its skip is. */
  lemma StaysEven(h: nat, t: nat)
    requires t < h && t <= GetSkipHeight(h - 1) < GetSkipHeight(h) - 2
    ensures Next(h, t) == h - 1
  {
  }

  /** From a height whose lowest one is at bit one. */
  lemma FromTwo(h: nat, t: nat, k: nat)
    requires Lowest(h, 1) && t <= h < Pow(2, k)
    ensures k >= 1 && Steps(h, t) <= k / 2 + 1 + Descent(k - 1)
  {
    hide Lowest, Next, Pow, InvertLowestOne, GetSkipHeight;
    SmallPowers();
    LowestWithin(h, 1, k);
    DescentLinear(k - 1);
    LowestInverted(h, 1);
    var m := h - 2;
    if m <= t {
      StepsAtMost(h, t);
    } else {
      var n := NextLowest(h, 1);
      LowestInverted(m, n);
      PowMonotone(2, 2, n);
      SkipBefore(h, 1);
      InvertGoesDown(InvertLowestOne(m));
      EvenSkip(h, 1);
      if GetSkipHeight(h - 1) < t {
        FromEven(h, 1, t);
        FromTwoAbove(m, n, t, k);
      } else {
        StaysEven(h, t);
        FromOddHeight(m, n, t, k);
      }
    }
  }

  /** The most steps from a height of at most k bits. */
  function Longest(k: nat): nat
    requires k >= 10
  {
    k - 4 + Descent(k - 1)
  }

  /** The number of steps to any ancestor is at most quadratic in the length of the height. */
  lemma StepsBounded(h: nat, t: nat, k: nat)
    requires t <= h < Pow(2, k) && k >= 10
    ensures Steps(h, t) <= Longest(k)
  {
    hide Steps, Pow, Lowest;
    if h == 0 {
      StepsAtMost(h, t);
    } else {
      var i := SomeLowest(h);
      if i == 0 {
        FromOddNumber(h, t, k);
      } else if i == 1 {
        FromTwo(h, t, k);
      } else if i == 2 {
        FromFour(h, t, k);
      } else {
        FromMultiple(h, i, t, k);
      }
    }
  }

  lemma FromOddNumber(h: nat, t: nat, k: nat)
    requires Lowest(h, 0) && t <= h < Pow(2, k) && k >= 10
    ensures Steps(h, t) <= (k - 1) / 2 + 1 + Descent(k - 1)
  {
    hide Steps, Pow;
    if h == 1 {
      StepsAtMost(h, t);
    } else {
      var i := SomeLowest(h - 1);
      assert i >= 1;
      FromOddHeight(h - 1, i, t, k);
    }
  }

  lemma {:induction false} DescentClosed(j: nat)
    requires j >= 3
    ensures Descent(j) == (j - 1) * (j - 1) / 4 + 2 * (j - 1)
  {
    if j > 3 {
      DescentClosed(j - 1);
      Squares(j - 1);
    }
  }

  lemma Squares(n: nat)
    requires n >= 1
    ensures n * n / 4 == (n - 1) * (n - 1) / 4 + n / 2
  {
    var q := n / 2;
    Square(q);
    if n % 2 == 0 {
      Square(q - 1);
      Fourth(n * n, q * q, 0);
      Fourth((n - 1) * (n - 1), q * q - q, 1);
    } else {
      Fourth(n * n, q * q + q, 1);
      Fourth((n - 1) * (n - 1), q * q, 0);
    }
  }

  lemma Square(q: nat)
    ensures (2 * q) * (2 * q) == 4 * (q * q) && (2 * q + 1) * (2 * q + 1) == 4 * (q * q + q) + 1
    ensures (q + 1) * (q + 1) == q * q + 2 * q + 1
  {
  }

  lemma Fourth(x: nat, q: int, r: nat)
    requires x == 4 * q + r && r < 4
    ensures x / 4 == q
  {
  }

  lemma LongestClosed(k: nat)
    requires k >= 10
    ensures Longest(k) == k * k / 4 + 2 * k - 7
  {
    DescentClosed(k - 1);
    Squares(k);
    Squares(k - 1);
  }

  // ---- The longest walk ------------------------------------------------------------------------------------------

  lemma {:induction false} PowerIsWhole(k: nat)
    ensures Lowest(Pow(2, k), k) && Whole(Pow(2, k), k)
  {
    if k > 0 { PowerIsWhole(k - 1); }
  }

  /** From 2^k less a smaller power, the walk to height two visits all the heights between that have ones only. */
  lemma {:induction false} FromOnes(k: nat, i: nat)
    requires 3 <= i < k
    ensures Pow(2, k) - Pow(2, i) >= 2 && Pow(2, k - 1) >= 2
    ensures Steps(Pow(2, k) - Pow(2, i), 2) == k - 1 - i + Steps(Pow(2, k - 1), 2)
    decreases k - i
  {
    hide Lowest, Whole, Next;
    SmallPowers();
    PowMonotone(2, 3, i);
    PowMonotone(2, i + 1, k);
    if i < k - 1 {
      PowerIsWhole(k);
      LowestBelow(Pow(2, k), k, i);
      FromOnes(k, i + 1);
      FromEven(Pow(2, k) - Pow(2, i), i, 2);
    }
  }

  /** From a power of two to height two. */
  lemma {:induction false} FromPower(j: nat)
    requires j >= 2
    ensures Pow(2, j) >= 2 && Steps(Pow(2, j), 2) == if j == 2 then 2 else Descent(j)
  {
    hide Steps, Pow;
    PowerDown(j);
    if j == 2 {
      SmallPowers();
      StepsFollow(3, 2);
      StepsFollow(2, 2);
    } else {
      FromPower(j - 1);
      FromOddOnes(j, 1);
      SmallPowers();
    }
  }

  lemma PowerDown(j: nat)
    requires j >= 2
    ensures Pow(2, j) >= 4 && Steps(Pow(2, j), 2) == 1 + Steps(Pow(2, j) - 1, 2)
  {
    hide Lowest, Whole, Next, Pow;
    SmallPowers();
    PowMonotone(2, 2, j);
    PowerIsWhole(j);
    FromEven(Pow(2, j), j, 2);
  }

  lemma {:induction false} FromOddOnes(j: nat, i: nat)
    requires i % 2 == 1 && i < j && j >= 3
    ensures Pow(2, j) - Pow(2, i) >= 1 && Pow(2, j - 1) >= 2
    ensures Steps(Pow(2, j) - Pow(2, i) + 1, 2) ==
              Steps(Pow(2, j - 1), 2) + if j % 2 == 0 then (j - 1 - i) / 2 + 1 else (j - 2 - i) / 2 + 2
    decreases j - i
  {
    hide Steps, Pow, Next;
    OddOnesDown(j, i);
    if i + 2 < j {
      FromOddOnes(j, i + 2);
    } else if i + 2 == j {
      FootOfOnes(j);
      StepsFollow(Pow(2, j) - Pow(2, j - 2), 2);
    }
  }

  lemma OddOnesDown(j: nat, i: nat)
    requires 1 <= i < j && j >= 3
    ensures Pow(2, j) == 2 * Pow(2, j - 1) && Pow(2, j - 1) >= 4 && Pow(2, j) - Pow(2, i) >= 2
    ensures i + 2 < j ==> Pow(2, j) - Pow(2, i + 2) >= 1
    ensures Steps(Pow(2, j) - Pow(2, i) + 1, 2) ==
              1 + if i + 2 < j then Steps(Pow(2, j) - Pow(2, i + 2) + 1, 2) else Steps(Pow(2, j) - Pow(2, i), 2)
  {
    hide Steps, Next, InvertLowestOne, Pow, Lowest;
    OnesBetween(j, i);
    if i + 2 < j { OnesBetween(j, i + 2); }
    OnesSkip(j, i);
    var e := Pow(2, j) - Pow(2, i);
    StepsFollow(e + 1, 2);
    FromOdd(e, 2);
  }

  lemma OnesBetween(j: nat, i: nat)
    requires i < j && j >= 3
    ensures Pow(2, j) == 2 * Pow(2, j - 1) && Pow(2, j - 1) >= 4 && Pow(2, j) - Pow(2, i) >= Pow(2, j - 1)
  {
    hide Pow;
    SmallPowers();
    Doubles(j);
    PowMonotone(2, 2, j - 1);
    PowMonotone(2, i, j - 1);
  }

  lemma OnesSkip(j: nat, i: nat)
    requires 1 <= i < j && j >= 3
    ensures Pow(2, j) >= Pow(2, i) && (Pow(2, j) - Pow(2, i)) % 2 == 0 && (i + 2 <= j ==> Pow(2, j) >= Pow(2, i + 2))
    ensures InvertLowestOne(InvertLowestOne(Pow(2, j) - Pow(2, i))) ==
              if i + 2 <= j then Pow(2, j) - Pow(2, i + 2) else 0
  {
    hide InvertLowestOne, Lowest, Whole, Pow;
    PowerIsWhole(j);
    OnesBetween(j, i);
    RunSkip(Pow(2, j), j, i);
    LowestBelow(Pow(2, j), j, i);
    EvenSkip(Pow(2, j) - Pow(2, i), i);
    InvertGoesDown(0);
  }

  lemma SkipOfFive()
    ensures GetSkipHeight(5) == 1
  {
    assert Lowest(4, 2);
    LowestInverted(4, 2);
    SmallPowers();
    OddSkip(4);
  }

  lemma FootOfOnes(j: nat)
    requires j >= 3 && j % 2 == 1
    ensures Pow(2, j) - Pow(2, j - 2) > 2 && Pow(2, j - 1) >= 2
    ensures Next(Pow(2, j) - Pow(2, j - 2), 2) == Pow(2, j - 1)
  {
    hide Lowest, Whole, Next, InvertLowestOne;
    SmallPowers();
    PowMonotone(2, 2, j - 1);
    PowerIsWhole(j);
    var e := Pow(2, j) - Pow(2, j - 2);
    LowestBelow(Pow(2, j), j, j - 2);
    if j > 3 {
      PowMonotone(2, 3, j - 1);
    } else {
      SkipOfFive();
    }
    FromEven(e, j - 2, 2);
  }

  /** Some walk takes as many steps as any: from 2^k - 8 to height two. */
  lemma LongestReached(k: nat)
    requires k >= 10
    ensures Pow(2, k) >= 10 && Steps(Pow(2, k) - 8, 2) == Longest(k)
  {
    hide Steps, Pow;
    SmallPowers();
    FromOnes(k, 3);
    FromPower(k - 1);
  }

  /** Below 2^18 no walk takes more than 110 steps, and one does take them. */
  lemma FromEighteenBits(h: nat, t: nat)
    requires t <= h < Pow(2, 18)
    ensures Steps(h, t) <= 110 && Pow(2, 18) >= 10 && Steps(Pow(2, 18) - 8, 2) == 110
  {
    hide Steps, Pow;
    LongestClosed(18);
    StepsBounded(h, t, 18);
    LongestReached(18);
  }

  /** No multiple of the length of the height bounds the number of steps. */
  lemma NotLinear(c: nat) returns (k: nat, h: nat)
    ensures 2 <= h < Pow(2, k) && Steps(h, 2) > c * k
  {
    hide Steps, Pow;
    k := 4 * c + 10;
    LongestReached(k);
    LongestClosed(k);
    h := Pow(2, k) - 8;
    assert k * k == 4 * (c * k) + 10 * k;
  }
}
