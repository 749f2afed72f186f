/**
 * The block tree with its skip links, and the active chain: fast ancestor, fork and locator
 * queries against the plain walk along parent pointers.
 */
module BlockTree {
  import opened Basics
  import opened Radix
  import opened SkipHeights
  import opened SkipWalk

  // ---- The tree ---------------------------------------------------------------------------------------------

  class BlockIndex {
    const pprev: BlockIndex?
    const nHeight: nat
    var pskip: BlockIndex?

    /** A block on top of another, or a genesis block; BuildSkip sets its skip link later. */
    constructor (pprev: BlockIndex?)
      requires pprev != null ==> Linked(pprev)
      ensures this.pprev == pprev && Linked(this) && pskip == null
    {
      this.pprev := pprev;
      nHeight := if pprev == null then 0 else pprev.nHeight + 1;
      pskip := null;
    }

    /** `steps` is how many links are followed. */
    method GetAncestor(height: int) returns (r: BlockIndex?, ghost steps: nat)
      requires Linked(this) && SkipsOk(this)
      ensures r == null <==> height > nHeight || height < 0
      ensures r != null ==> r == Ancestor(this, height) && steps <= nHeight - height
      ensures r != null && NoSkipMissing(this) ==>
                && steps == Steps(nHeight, height)
                && forall k :: k >= 10 && nHeight < Pow(2, k) ==> steps <= Longest(k)
    {
      hide Steps, Next, Pow;
      steps := 0;
      if height > nHeight || height < 0 { return null, 0; }
      var pindexWalk := this;
      var heightWalk := nHeight;
      while heightWalk > height
        invariant SkipsOk(this) && height <= heightWalk <= nHeight && pindexWalk == Ancestor(this, heightWalk)
        invariant steps <= nHeight - heightWalk
        invariant NoSkipMissing(this) ==> steps + Steps(heightWalk, height) == Steps(nHeight, height)
      {
        StepsFollow(heightWalk, height);
        steps := steps + 1;
        SkipGoesDown(heightWalk);
        AncestorInPath(this, heightWalk);
        assert SkipOk(pindexWalk);
        var heightSkip := GetSkipHeight(heightWalk);
        var heightSkipPrev := GetSkipHeight(heightWalk - 1);
        if pindexWalk.pskip != null &&
           (heightSkip == height || (heightSkip > height && !(heightSkipPrev < heightSkip - 2 &&
               heightSkipPrev >= height)))
        {
          AncestorOfAncestor(this, heightWalk, heightSkip);
          pindexWalk := pindexWalk.pskip;
          heightWalk := heightSkip;
        } else {
          AncestorOfAncestor(this, heightWalk, heightWalk - 1);
          assert Ancestor(pindexWalk, heightWalk - 1) == pindexWalk.pprev;
          pindexWalk := pindexWalk.pprev;
          heightWalk := heightWalk - 1;
        }
      }
      StepsFollow(height, height);
      forall k | k >= 10 && nHeight < Pow(2, k) ensures Steps(nHeight, height) <= Longest(k) {
        StepsBounded(nHeight, height, k);
      }
      return pindexWalk, steps;
    }

    /** Parent-first, this makes every skip link lead to an ancestor strictly below the parent or to the parent. */
    method BuildSkip()
      requires Linked(this) && (pprev != null ==> SkipsOk(pprev))
      modifies this`pskip
      ensures pprev != null ==>
                && SkipsOk(this) && GetSkipHeight(nHeight) < nHeight
                && pskip == Ancestor(this, GetSkipHeight(nHeight))
      ensures pprev == null ==> pskip == old(pskip)
      ensures pprev == null || old(NoSkipMissing(pprev)) ==> NoSkipMissing(this)
    {
      if pprev != null {
        SkipGoesDown(nHeight);
        PathAllocated(this);
        var skip, _ := pprev.GetAncestor(GetSkipHeight(nHeight));
        pskip := skip;
      }
    }
  }

  /** Heights count the blocks below. */
  predicate Linked(b: BlockIndex)
    decreases b.nHeight
  {
    if b.pprev == null then b.nHeight == 0 else b.nHeight == b.pprev.nHeight + 1 && Linked(b.pprev)
  }

  /** The plain walk down to a height. */
  function Ancestor(b: BlockIndex, height: int): (a: BlockIndex)
    requires Linked(b) && 0 <= height <= b.nHeight
    ensures Linked(a) && a.nHeight == height
    decreases b.nHeight
  {
    if height == b.nHeight then b else Ancestor(b.pprev, height)
  }

  ghost function Path(b: BlockIndex): (p: set<BlockIndex>)
    requires Linked(b)
    ensures b in p && forall a :: a in p ==> Linked(a) && a.nHeight <= b.nHeight
    decreases b.nHeight
  {
    {b} + if b.pprev == null then {} else Path(b.pprev)
  }

  /** A skip link is missing or leads to the block at its skip height. */
  ghost predicate SkipOk(b: BlockIndex)
    requires Linked(b)
    reads b
  {
    b.pskip != null ==>
      && b.nHeight > 0 && GetSkipHeight(b.nHeight) < b.nHeight
      && b.pskip == Ancestor(b, GetSkipHeight(b.nHeight))
  }

  ghost predicate SkipsOk(b: BlockIndex)
    requires Linked(b)
    reads Path(b)
  {
    forall a :: a in Path(b) ==> SkipOk(a)
  }

  /** Only the first block has no skip link. */
  ghost predicate NoSkipMissing(b: BlockIndex)
    requires Linked(b)
    reads Path(b)
  {
    forall a :: a in Path(b) && a.nHeight > 0 ==> a.pskip != null
  }

  lemma {:induction false} AncestorOfAncestor(b: BlockIndex, h: int, k: int)
    requires Linked(b) && 0 <= k <= h <= b.nHeight
    ensures Ancestor(Ancestor(b, h), k) == Ancestor(b, k)
    decreases b.nHeight
  {
    if h < b.nHeight { AncestorOfAncestor(b.pprev, h, k); }
  }

  lemma ParentBelow(b: BlockIndex, h: int)
    requires Linked(b) && 0 <= h <= b.nHeight
    ensures if h == 0 then Ancestor(b, h).pprev == null else Ancestor(b, h).pprev == Ancestor(b, h - 1)
  {
    if h > 0 { AncestorOfAncestor(b, h, h - 1); }
  }

  lemma {:induction false} AncestorInPath(b: BlockIndex, h: int)
    requires Linked(b) && 0 <= h <= b.nHeight
    ensures Ancestor(b, h) in Path(b)
    decreases b.nHeight
  {
    if h < b.nHeight { AncestorInPath(b.pprev, h); }
  }

  lemma {:induction false} PathWithin(b: BlockIndex, h: int)
    requires Linked(b) && 0 <= h <= b.nHeight
    ensures Path(Ancestor(b, h)) <= Path(b)
    decreases b.nHeight
  {
    if h < b.nHeight { PathWithin(b.pprev, h); }
  }

  lemma {:induction false} PathAllocated(b: BlockIndex)
    requires Linked(b)
    ensures forall a :: a in Path(b) ==> allocated(a)
    decreases b.nHeight
  {
    if b.pprev != null { PathAllocated(b.pprev); }
  }

  // ---- Common ancestors ---------------------------------------------------------------------------------------

  ghost predicate IsAncestor(a: BlockIndex, b: BlockIndex)
    requires Linked(b)
  {
    a.nHeight <= b.nHeight && Ancestor(b, a.nHeight) == a
  }

  /** Two blocks differ at a height. */
  ghost predicate Apart(a: BlockIndex, b: BlockIndex, h: int)
    requires Linked(a) && Linked(b)
  {
    0 <= h <= a.nHeight && h <= b.nHeight && Ancestor(a, h) != Ancestor(b, h)
  }

  /** Once apart, always apart further up. */
  lemma ApartAbove(a: BlockIndex, b: BlockIndex, h: int, k: int)
    requires Linked(a) && Linked(b) && Apart(a, b, h) && h <= k <= a.nHeight && k <= b.nHeight
    ensures Apart(a, b, k)
  {
    AncestorOfAncestor(a, k, h);
    AncestorOfAncestor(b, k, h);
  }

  ghost predicate ApartFrom(a: BlockIndex, b: BlockIndex, h: int)
    requires Linked(a) && Linked(b)
  {
    forall k :: h < k <= a.nHeight && k <= b.nHeight ==> Apart(a, b, k)
  }

  lemma ApartFromHere(a: BlockIndex, b: BlockIndex, h: int)
    requires Linked(a) && Linked(b) && Apart(a, b, h)
    ensures ApartFrom(a, b, h - 1)
  {
    forall k | h - 1 < k <= a.nHeight && k <= b.nHeight ensures Apart(a, b, k) { ApartAbove(a, b, h, k); }
  }

  /** The highest block that both have below them, or nothing if they have different genesis blocks. */
  method LastCommonAncestor(a: BlockIndex, b: BlockIndex) returns (r: BlockIndex?)
    requires Linked(a) && Linked(b) && SkipsOk(a) && SkipsOk(b)
    ensures r == null <==> Ancestor(a, 0) != Ancestor(b, 0)
    ensures r != null ==> IsAncestor(r, a) && IsAncestor(r, b) && ApartFrom(a, b, r.nHeight)
  {
    PathAllocated(a);
    PathAllocated(b);
    var pa: BlockIndex?, pb: BlockIndex? := a, b;
    ghost var steps;
    if a.nHeight > b.nHeight {
      pa, steps := a.GetAncestor(b.nHeight);
    } else if b.nHeight > a.nHeight {
      pb, steps := b.GetAncestor(a.nHeight);
    }
    ghost var h: int := pa.nHeight;
    while pa != pb && pa != null && pb != null
      invariant SkipsOk(a) && SkipsOk(b) && -1 <= h <= a.nHeight && h <= b.nHeight && ApartFrom(a, b, h)
      invariant if h < 0 then pa == null && pb == null else pa == Ancestor(a, h) && pb == Ancestor(b, h)
      decreases h
    {
      ApartFromHere(a, b, h);
      AncestorInPath(a, h);
      AncestorInPath(b, h);
      if pa.pskip != null && pb.pskip != null && pa.pskip != pb.pskip {
        ghost var k := GetSkipHeight(h);
        AncestorOfAncestor(a, h, k);
        AncestorOfAncestor(b, h, k);
        ApartFromHere(a, b, k);
        pa, pb, h := pa.pskip, pb.pskip, k;
        assert pa.nHeight == pb.nHeight;
      } else {
        if h > 0 {
          AncestorOfAncestor(a, h, h - 1);
          AncestorOfAncestor(b, h, h - 1);
        }
        pa, pb, h := pa.pprev, pb.pprev, h - 1;
      }
    }
    assert pa == pb;
    r := pa;
    if h >= 0 {
      AncestorOfAncestor(a, h, 0);
      AncestorOfAncestor(b, h, 0);
    } else {
      assert Apart(a, b, 0);
    }
  }

  // ---- The active chain ------------------------------------------------------------------------------------------

  /** Blocks in the order of their heights, each the parent of the next. */
  ghost predicate IsChain(c: seq<BlockIndex?>) {
    && (forall i :: 0 <= i < |c| ==> c[i] != null && Linked(c[i]) && c[i].nHeight == i)
    && (forall i :: 0 < i < |c| ==> c[i].pprev == c[i - 1])
  }

  /** Below a block of a chain, the chain is that block's ancestor path. */
  lemma {:induction false} ChainIsPath(c: seq<BlockIndex?>, i: nat, h: nat)
    requires IsChain(c) && h <= i < |c|
    ensures Ancestor(c[i], h) == c[h]
  {
    if h < i {
      ChainIsPath(c, i - 1, h);
      assert c[i].pprev == c[i - 1];
    }
  }

  /** If a chain and a path agree at a height, they agree below it. */
  lemma AgreeBelow(c: seq<BlockIndex?>, tip: BlockIndex, h: nat)
    requires IsChain(c) && Linked(tip) && h <= tip.nHeight && h < |c| && c[h] == Ancestor(tip, h)
    ensures forall k :: 0 <= k <= h ==> c[k] == Ancestor(tip, k)
  {
    forall k | 0 <= k <= h ensures c[k] == Ancestor(tip, k) {
      ChainIsPath(c, h, k);
      AncestorOfAncestor(tip, h, k);
    }
  }

  lemma PathIsChain(c: seq<BlockIndex?>, tip: BlockIndex)
    requires Linked(tip) && |c| == tip.nHeight + 1 && forall h :: 0 <= h <= tip.nHeight ==> c[h] == Ancestor(tip, h)
    ensures IsChain(c) && c[tip.nHeight] == tip
  {
    forall k | 0 < k < |c| ensures Ancestor(tip, k).pprev == Ancestor(tip, k - 1) { ParentBelow(tip, k); }
  }

  lemma OwnAncestor(b: BlockIndex)
    requires Linked(b)
    ensures Ancestor(b, b.nHeight) == b
  {
  }

  class Chain {
    var vChain: seq<BlockIndex?>

    ghost predicate Valid()
      reads this
    {
      IsChain(vChain)
    }

    constructor ()
      ensures Valid() && vChain == []
    {
      vChain := [];
    }

    function At(nHeight: int): BlockIndex?
      reads this
    {
      if nHeight < 0 || nHeight >= |vChain| then null else vChain[nHeight]
    }

    predicate Contains(pindex: BlockIndex)
      reads this
    {
      At(pindex.nHeight) == pindex
    }

    function Tip(): BlockIndex?
      reads this
    {
      if |vChain| > 0 then vChain[|vChain| - 1] else null
    }

    function Height(): int
      reads this
    {
      |vChain| - 1
    }

    function Next(pindex: BlockIndex): BlockIndex?
      reads this
    {
      if !Contains(pindex) then null else At(pindex.nHeight + 1)
    }

    /** The successor is the only block of the chain on top of the given one. */
    lemma NextIsChild(b: BlockIndex)
      requires Valid() && Linked(b)
      ensures Next(b) != null <==> Contains(b) && b != Tip()
      ensures Next(b) != null ==> Next(b).pprev == b && Contains(Next(b))
    {
    }

    method SetTip(tip: BlockIndex?)
      requires Valid() && (tip != null ==> Linked(tip))
      modifies this
      ensures Valid() && Tip() == tip
      ensures tip != null ==> |vChain| == tip.nHeight + 1 && forall h :: 0 <= h <= tip.nHeight ==>
                vChain[h] == Ancestor(tip, h)
    {
      if tip == null {
        vChain := [];
        return;
      }
      hide IsChain, Linked, Ancestor;
      var n := tip.nHeight + 1;
      vChain := if n <= |vChain| then vChain[..n] else vChain + seq(n - |vChain|, _ => null);
      ghost var h := tip.nHeight;
      OwnAncestor(tip);
      var pindex: BlockIndex? := tip;
      while pindex != null && vChain[pindex.nHeight] != pindex
        invariant -1 <= h < n && |vChain| == n && (if h < 0 then pindex == null else pindex == Ancestor(tip, h))
        invariant forall k :: h < k < n ==> vChain[k] == Ancestor(tip, k)
        invariant forall k :: 0 <= k <= h ==> vChain[k] == if k < |old(vChain)| then old(vChain)[k] else null
        decreases h
      {
        vChain := vChain[pindex.nHeight := pindex];
        ParentBelow(tip, h);
        pindex := pindex.pprev;
        h := h - 1;
      }
      if h >= 0 { AgreeBelow(old(vChain), tip, h); }
      PathIsChain(vChain, tip);
    }

    /** The highest block of the chain at or below the given one, or nothing if there is none. */
    method FindFork(b: BlockIndex?) returns (r: BlockIndex?)
      requires Valid() && (b != null ==> Linked(b) && SkipsOk(b))
      ensures b == null ==> r == null
      ensures r != null ==> IsAncestor(r, b) && Contains(r)
      ensures b != null ==> forall h :: (if r == null then 0 else r.nHeight + 1) <= h <= b.nHeight ==>
                !Contains(Ancestor(b, h))
    {
      if b == null { return null; }
      r := b;
      ghost var steps;
      if b.nHeight > Height() { r, steps := b.GetAncestor(Height()); }
      ghost var h: int := if r == null then -1 else r.nHeight;
      while r != null && !Contains(r)
        invariant -1 <= h <= b.nHeight && (if h < 0 then r == null else r == Ancestor(b, h))
        invariant forall k :: h < k <= b.nHeight ==> !Contains(Ancestor(b, k))
        decreases h
      {
        if h > 0 {
          AncestorOfAncestor(b, h, h - 1);
          assert Ancestor(r, h - 1) == r.pprev;
        }
        r := r.pprev;
        h := h - 1;
      }
    }

    static const INT_MAX := 0x7fff_ffff
    static const OVERFLOW_HEIGHT := 0x4000_0009

    /** How far below the start the locator's n-th entry is: ten single steps, then steps that double. */
    static function Depth(n: nat): nat { if n <= 11 then n else 9 + Pow(2, n - 10) }

    static function StepAfter(n: nat): (r: nat)
      ensures r >= 1
    {
      if n <= 10 then 1 else PowPositive(2, n - 10); Pow(2, n - 10)
    }

    static lemma DepthGrows(n: nat)
      ensures Depth(n + 1) == Depth(n) + StepAfter(n)
    {
      assert Pow(2, 1) == 2;
    }

    /** The step is a 32-bit int: it overflows in the round that would double 2^30. */
    static lemma StepOverflows(n: nat)
      ensures StepAfter(n) > INT_MAX <==> n > 40
    {
      Pow2Of30();
      if n > 40 { PowMonotone(2, 31, n - 10); } else if n > 10 { PowMonotone(2, n - 10, 30); }
    }

    static lemma Pow2Of30()
      ensures Pow(2, 30) == 0x4000_0000 && Pow(2, 31) == 0x8000_0000
    {
      assert Pow(2, 4) == 16 && Pow(2, 8) == 256 && Pow(2, 12) == 4096 && Pow(2, 16) == 65536 && Pow(2, 20) == 1048576;
      assert Pow(2, 24) == 16777216 && Pow(2, 28) == 268435456;
    }

    /** A locator of `n` blocks ends after the step overflowed exactly if it began above a certain height. */
    static lemma OverflowsFrom(s: BlockIndex, n: nat)
      requires n >= 1 && Reached(s, n - 1) == 0 && (n >= 2 ==> Depth(n - 2) < s.nHeight)
      ensures StepAfter(n - 1) > INT_MAX <==> s.nHeight > OVERFLOW_HEIGHT
    {
      StepOverflows(n - 1);
      Pow2Of30();
      assert Depth(40) == OVERFLOW_HEIGHT;
      if n - 2 > 40 { DepthMonotone(40, n - 2); }
      if n - 1 < 40 { DepthMonotone(n - 1, 40); }
    }

    /**
     * Blocks at falling heights from the start down to the genesis block, all on the path below the
     * start; there are at most 12 of them more than the logarithm of the starting height. `overflowed` says
     * that the step left the range of an int, after which the source does not say what happens.
     */
    method GetLocator(start: BlockIndex?) returns (have: seq<BlockIndex>, overflowed: bool)
      requires Valid() && (start != null ==> Linked(start) && SkipsOk(start))
      requires start == null && Tip() != null ==> SkipsOk(Tip())
      ensures var s := if start == null then Tip() else start;
              if s == null then have == [] && !overflowed else
                && Linked(s) && have != [] && have[0] == s && have[|have| - 1].nHeight == 0
                && Located(s, have)
                && (forall i, j :: 0 <= i < j < |have| ==> have[i].nHeight > have[j].nHeight)
                && (|have| > 12 ==> 9 + Pow(2, |have| - 12) < s.nHeight)
                && (overflowed <==> s.nHeight > OVERFLOW_HEIGHT)
    {
      hide Depth, StepAfter, Pow, Path, Located, Reached;
      var pindex := if start == null then Tip() else start;
      have, overflowed := [], false;
      if pindex == null { return; }
      var s: BlockIndex := pindex;
      PathAllocated(s);
      var nStep := 1;
      LocatorStart(s, have);
      while pindex != null
        invariant SkipsOk(s) && nStep == StepAfter(Rounds(pindex, have))
        invariant pindex == null ==> have != [] && have[|have| - 1].nHeight == 0
        invariant overflowed <==> nStep > INT_MAX
        invariant pindex != null ==> Linked(pindex) && IsAncestor(pindex, s) && pindex.nHeight == Reached(s, |have|)
        invariant pindex != null && have != [] ==> Depth(|have| - 1) < s.nHeight
        invariant Located(s, have)
        invariant have != [] ==> have[0] == s && (|have| >= 2 ==> Depth(|have| - 2) < s.nHeight)
        decreases if pindex == null then 0 else pindex.nHeight + 1
      {
        LocatedMore(s, have, pindex);
        have := have + [pindex];
        if pindex.nHeight == 0 { pindex := null; break; }
        var height := Max(pindex.nHeight - nStep, 0);
        NextReached(s, |have| - 1, height);
        pindex := StepBack(pindex, s, height);
        StepDoubles(|have|);
        if |have| > 10 { nStep := nStep * 2; }
        overflowed := overflowed || nStep > INT_MAX;
      }
      LastLocated(s, have);
      OverflowsFrom(s, |have|);
      Falls(s, |have|);
      LocatorLength(s, |have|);
    }

    /** Through the chain where the block is on it, through the skip links otherwise. */
    method StepBack(pindex: BlockIndex, ghost s: BlockIndex, height: nat) returns (r: BlockIndex)
      requires Valid() && Linked(pindex) && Linked(s) && SkipsOk(s) && IsAncestor(pindex, s) && height <= pindex.nHeight
      ensures r == Ancestor(s, height)
    {
      AncestorOfAncestor(s, pindex.nHeight, height);
      if Contains(pindex) {
        ChainIsPath(vChain, pindex.nHeight, height);
        r := At(height);
      } else {
        PathWithin(s, pindex.nHeight);
        var b, _ := pindex.GetAncestor(height);
        r := b;
      }
    }

    static lemma {:induction false} DepthMonotone(i: nat, j: nat)
      requires i < j
      ensures Depth(i) < Depth(j)
    {
      DepthGrows(j - 1);
      if i < j - 1 { DepthMonotone(i, j - 1); }
    }

    static lemma StepDoubles(n: nat)
      requires n > 0
      ensures StepAfter(n) == StepAfter(n - 1) * if n > 10 then 2 else 1
    {
    }

    static lemma LocatorStart(s: BlockIndex, have: seq<BlockIndex>)
      requires Linked(s) && have == []
      ensures Reached(s, 0) == s.nHeight && StepAfter(0) == 1 && Located(s, have)
    {
    }

    /** All of the blocks are ancestors at the prescribed depths. */
    ghost static predicate Located(s: BlockIndex, have: seq<BlockIndex>)
      requires Linked(s)
    {
      forall i :: 0 <= i < |have| ==> IsAncestor(have[i], s) && have[i].nHeight == Reached(s, i)
    }

    static lemma LocatedMore(s: BlockIndex, have: seq<BlockIndex>, b: BlockIndex)
      requires Linked(s) && Located(s, have) && IsAncestor(b, s) && b.nHeight == Reached(s, |have|)
      ensures Located(s, have + [b])
    {
    }

    /** How often the step was considered for doubling. */
    ghost static function Rounds(pindex: BlockIndex?, have: seq<BlockIndex>): nat {
      if pindex == null && have != [] then |have| - 1 else |have|
    }

    static lemma LastLocated(s: BlockIndex, have: seq<BlockIndex>)
      requires Linked(s) && Located(s, have) && have != []
      ensures have[|have| - 1].nHeight == Reached(s, |have| - 1) && have[0].nHeight == Reached(s, 0)
      ensures forall i :: 0 <= i < |have| ==> have[i].nHeight == Reached(s, i)
    {
    }

    /** The next height is the next depth, or the genesis block. */
    static lemma NextReached(s: BlockIndex, n: nat, height: int)
      requires Reached(s, n) > 0 && height == Max(Reached(s, n) - StepAfter(n), 0)
      ensures Reached(s, n + 1) == height && Depth(n) < s.nHeight
    {
      DepthGrows(n);
    }

    static lemma LocatorLength(s: BlockIndex, n: nat)
      requires n >= 2 ==> Depth(n - 2) < s.nHeight
      ensures n > 12 ==> 9 + Pow(2, n - 12) < s.nHeight
    {
    }

    static lemma Falls(s: BlockIndex, n: nat)
      requires n >= 2 ==> Depth(n - 2) < s.nHeight
      ensures forall i, j :: 0 <= i < j < n ==> Reached(s, i) > Reached(s, j)
    {
      forall i, j | 0 <= i < j < n ensures Reached(s, i) > Reached(s, j) {
        DepthMonotone(i, j);
        if i < n - 2 { DepthMonotone(i, n - 2); }
      }
    }

    static function Reached(s: BlockIndex, n: nat): nat { if Depth(n) < s.nHeight then s.nHeight - Depth(n) else 0 }
  }

  // ---- Tall trees ------------------------------------------------------------------------------------------------

  /** A branch of n blocks on top of a first one, each with its skip link. */
  method Branch(n: nat) returns (tip: BlockIndex)
    ensures Linked(tip) && tip.nHeight == n && SkipsOk(tip) && NoSkipMissing(tip)
  {
    tip := new BlockIndex(null);
    for i := 0 to n
      invariant Linked(tip) && tip.nHeight == i && SkipsOk(tip) && NoSkipMissing(tip)
    {
      PathAllocated(tip);
      var next := new BlockIndex(tip);
      next.BuildSkip();
      tip := next;
    }
  }

  /** The locator of such a branch overflows exactly above the height found. */
  method LocatorOfBranch(n: nat) returns (overflowed: bool)
    ensures overflowed <==> n > Chain.OVERFLOW_HEIGHT
  {
    var chain := new Chain();
    var tip := Branch(n);
    var _, over := chain.GetLocator(tip);
    return over;
  }

  /** So the locator of a branch one block higher does. */
  method LocatorOverflows() returns (overflowed: bool)
    ensures overflowed
  {
    overflowed := LocatorOfBranch(Chain.OVERFLOW_HEIGHT + 1);
  }
}
