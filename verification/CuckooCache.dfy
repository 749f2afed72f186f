/**
 * The cuckoo cache: a fixed table with eight locations per key, lazy deletion through collection
 * flags, displacement of bounded depth, and epochs that are aged by an occasional scan.
 */
module CuckooCache {
  import opened Basics

  datatype Element<K, V> = Element(key: K, value: V)

  // ---- Counting live slots ----------------------------------------------------------------------------

  /** How many of the first n slots are live and carry the given epoch flag. */
  function Live(epoch: seq<bool>, collected: seq<bool>, flag: bool, n: nat): nat
    requires n <= |epoch| == |collected|
  {
    if n == 0 then 0
    else Live(epoch, collected, flag, n - 1) + if epoch[n - 1] == flag && !collected[n - 1] then 1 else 0
  }

  function Here(e: bool, c: bool, flag: bool): nat { if e == flag && !c then 1 else 0 }

  lemma {:induction false} LiveSet(epoch: seq<bool>, collected: seq<bool>, flag: bool, n: nat, i: nat, e: bool, c: bool)
    requires n <= |epoch| == |collected| && i < |epoch|
    ensures Live(epoch[i := e], collected[i := c], flag, n) ==
            Live(epoch, collected, flag, n) + if i < n then Here(e, c, flag) - Here(epoch[i], collected[i], flag) else 0
  {
    if n > 0 { LiveSet(epoch, collected, flag, n - 1, i, e, c); }
  }

  /** After aging nothing is recent, and what is old and live is what was recent and live. */
  lemma {:induction false} LiveAged(epoch: seq<bool>, collected: seq<bool>, epoch': seq<bool>, collected': seq<bool>,
      n: nat)
    requires n <= |epoch| == |collected| == |epoch'| == |collected'|
    requires forall i :: 0 <= i < n ==> !epoch'[i] && collected'[i] == (collected[i] || !epoch[i])
    ensures Live(epoch', collected', true, n) == 0 &&
              Live(epoch', collected', false, n) == Live(epoch, collected, true, n)
  {
    if n > 0 { LiveAged(epoch, collected, epoch', collected', n - 1); }
  }

  lemma {:induction false} LiveNone(epoch: seq<bool>, collected: seq<bool>, flag: bool, n: nat)
    requires n <= |epoch| == |collected| && forall i :: 0 <= i < n ==> collected[i]
    ensures Live(epoch, collected, flag, n) == 0
  {
    if n > 0 { LiveNone(epoch, collected, flag, n - 1); }
  }

  // ---- Locations -----------------------------------------------------------------------------------------

  /** A 32-bit hash as a fraction of the table size. */
  function Location(hash: U32, size: nat): (loc: nat)
    requires size > 0
    ensures loc < size
  {
    assert hash * size < 0x1_0000_0000 * size;
    hash * size / 0x1_0000_0000
  }

  lemma LocationIsFraction(hash: U32, size: nat)
    requires size > 0
    ensures Location(hash, size) * 0x1_0000_0000 <= hash * size < (Location(hash, size) + 1) * 0x1_0000_0000
  {
  }

  /** The slot to displace after the one last looked at; `-1` stands for no slot. */
  function NextLocation(locs: seq<nat>, last: int): (loc: nat)
    requires |locs| == 8
    ensures loc in locs
  {
    locs[(1 + IndexOf(locs, last)) % 8]
  }

  /** The first displacement starts at the second location, although its comment says the first. */
  lemma FirstDisplacement(locs: seq<nat>)
    requires |locs| == 8
    ensures NextLocation(locs, -1) == locs[1]
  {
    assert IndexOf(locs, -1) == 8;
  }

  /** An element is not moved back where it came from, provided its locations differ. */
  lemma NoBouncing(locs: seq<nat>, last: nat)
    requires |locs| == 8 && last in locs && forall i, j :: 0 <= i < j < 8 ==> locs[i] != locs[j]
    ensures NextLocation(locs, last) != last
  {
    var i := IndexOf(locs, last);
    assert i < 8 && (1 + i) % 8 != i;
  }

  /** The location after the given one in the list, around its end; the second one if it is not in the list. */
  ghost predicate Follows(locs: seq<nat>, last: int, loc: nat)
    requires |locs| == 8
  {
    if last in locs
    then exists k :: 0 <= k < 8 && locs[k] == last && last !in locs[..k] && loc == locs[if k == 7 then 0 else k + 1]
    else loc == locs[1]
  }

  lemma NextFollows(locs: seq<nat>, last: int)
    requires |locs| == 8
    ensures Follows(locs, last, NextLocation(locs, last))
  {
    var k := IndexOf(locs, last);
    if last in locs {
      assert k < 8 && locs[k] == last && last !in locs[..k];
    } else {
      assert k == 8;
    }
  }

  /** The first of the locations that may be overwritten. */
  ghost predicate FirstFree(locs: seq<nat>, collected: seq<bool>, loc: nat)
    requires forall j :: 0 <= j < |locs| ==> locs[j] < |collected|
  {
    exists k :: 0 <= k < |locs| && locs[k] == loc && collected[loc] && forall j :: 0 <= j < k ==> !collected[locs[j]]
  }

  ghost predicate NoneFree(locs: seq<nat>, collected: seq<bool>)
    requires forall j :: 0 <= j < |locs| ==> locs[j] < |collected|
  {
    forall j :: 0 <= j < |locs| ==> !collected[locs[j]]
  }

  // ---- Displacements -------------------------------------------------------------------------------------------

  /** An element, with its epoch flag, is put into a slot. */
  datatype Move<K, V> = Move(x: Element<K, V>, flag: bool, loc: nat)

  datatype Hand<K, V> = Hand(x: Element<K, V>, flag: bool)

  ghost predicate Within<K, V>(path: seq<Move<K, V>>, size: nat) { forall i :: 0 <= i < |path| ==> path[i].loc < size }

  ghost function TableAfter<K, V>(t: seq<Element<K, V>>, path: seq<Move<K, V>>): (r: seq<Element<K, V>>)
    requires Within(path, |t|)
    ensures |r| == |t|
  {
    if path == [] then t
    else
      var n := |path| - 1;
      assert Within(path[..n], |t|) && path[n].loc < |t|;
      TableAfter(t, path[..n])[path[n].loc := path[n].x]
  }

  ghost function FlagsAfter<K, V>(f: seq<bool>, path: seq<Move<K, V>>): (r: seq<bool>)
    requires Within(path, |f|)
    ensures |r| == |f|
  {
    if path == [] then f
    else
      var n := |path| - 1;
      assert Within(path[..n], |f|) && path[n].loc < |f|;
      FlagsAfter(f, path[..n])[path[n].loc := path[n].flag]
  }

  /** What is left in hand after the moves: the last element that was displaced, or the new one. */
  ghost function InHand<K, V>(t: seq<Element<K, V>>, f: seq<bool>, e: Element<K, V>, path: seq<Move<K, V>>): Hand<K, V>
    requires |t| == |f| && Within(path, |t|)
  {
    if path == [] then Hand(e, true)
    else
      var n := |path| - 1;
      assert Within(path[..n], |t|) && path[n].loc < |t|;
      Hand(TableAfter(t, path[..n])[path[n].loc], FlagsAfter(f, path[..n])[path[n].loc])
  }

  function IndexOf(locs: seq<nat>, x: int): (i: nat)
    ensures i <= |locs|
    ensures i < |locs| ==> locs[i] == x
    ensures forall j :: 0 <= j < i ==> locs[j] != x
  {
    if locs == [] then 0
    else if locs[0] == x then 0
    else 1 + IndexOf(locs[1..], x)
  }

  lemma FreeIsOwn(locs: seq<nat>, collected: seq<bool>, loc: nat)
    requires forall j :: 0 <= j < |locs| ==> locs[j] < |collected|
    requires FirstFree(locs, collected, loc)
    ensures loc in locs && loc < |collected| && collected[loc]
  {
  }

  lemma NeverFree(locs: seq<nat>, collected: seq<bool>)
    requires forall j :: 0 <= j < |locs| ==> locs[j] < |collected|
    requires NoneFree(locs, collected)
    ensures forall loc: nat :: !FirstFree(locs, collected, loc)
  {
  }

  lemma NotFree(locs: seq<nat>, collected: seq<bool>, loc: nat)
    requires forall j :: 0 <= j < |locs| ==> locs[j] < |collected|
    requires NoneFree(locs, collected) && loc in locs
    ensures loc < |collected| && !collected[loc]
  {
  }

  // ---- The cache ---------------------------------------------------------------------------------------------

  /** The most live slots that one epoch can have. */
  function EpochBound(epochSize: int): int { epochSize + Max(1, epochSize / 16) }

  class Cache<K(==), V> {
    const size: nat
    const epochSize: nat
    const depthLimit: nat
    const hash: (nat, K) -> U32
    const blank: Element<K, V>

    var table: seq<Element<K, V>>
    var collected: seq<bool>
    var epoch: seq<bool>
    var counter: nat

    /** The size is at least 2, the epoch size 45% of it in 32-bit arithmetic, the depth limit at least 1. */
    constructor (newSize: U32, depthLimit: nat, hash: (nat, K) -> U32, blank: Element<K, V>)
      requires depthLimit >= 1
      ensures Valid() && size == Max(2, newSize) && this.hash == hash && this.blank == blank &&
                this.depthLimit == depthLimit
      ensures epochSize == Max(1, 45 * size % 0x1_0000_0000 / 100)
      ensures forall i :: 0 <= i < size ==> table[i] == blank && collected[i]
    {
      var n := Max(2, newSize);
      size, this.depthLimit, this.hash, this.blank := n, depthLimit, hash, blank;
      epochSize := Max(1, 45 * n % 0x1_0000_0000 / 100);
      table := seq(n, _ => blank);
      collected := seq(n, _ => true);
      epoch := seq(n, _ => false);
      counter := Max(1, 45 * n % 0x1_0000_0000 / 100);
      new;
      LiveNone(epoch, collected, true, size);
      LiveNone(epoch, collected, false, size);
    }

    function Locs(k: K): (l: seq<nat>)
      requires size > 0
      ensures |l| == 8 && forall j :: 0 <= j < 8 ==> l[j] < size
    {
      [Location(hash(0, k), size), Location(hash(1, k), size), Location(hash(2, k), size), Location(hash(3, k), size),
       Location(hash(4, k), size), Location(hash(5, k), size), Location(hash(6, k), size), Location(hash(7, k), size)]
    }

    /** The eight locations are the eight hashes as fractions of the table, rounded down. */
    lemma LocsAreFractions(k: K, j: nat)
      requires size > 0 && j < 8
      ensures Locs(k)[j] * 0x1_0000_0000 <= hash(j, k) * size < (Locs(k)[j] + 1) * 0x1_0000_0000
    {
      hide Location;
      LocationIsFraction(hash(j, k), size);
    }

    // ---- What every operation keeps ----------------------------------------------------------------------

    ghost predicate Shaped()
      reads this
    {
      |table| == |collected| == |epoch| == size && size > 0 && epochSize > 0 && depthLimit > 0
    }

    /** Every element but the blank one is at one of its own locations, and no key is there twice. */
    ghost predicate Placed(t: seq<Element<K, V>>)
      requires size > 0
    {
      && (forall i :: 0 <= i < |t| && t[i].key != blank.key ==> i in Locs(t[i].key))
      && (forall i, j :: 0 <= i < j < |t| && t[i].key != blank.key ==> t[i].key != t[j].key)
    }

    ghost function Recent(): nat
      reads this
      requires Shaped()
    {
      Live(epoch, collected, true, size)
    }

    ghost function Old(): nat
      reads this
      requires Shaped()
    {
      Live(epoch, collected, false, size)
    }

    ghost predicate Valid()
      reads this
    {
      Shaped() && Placed(table) && Recent() + counter <= EpochBound(epochSize) && Old() <= EpochBound(epochSize)
    }

    /** The next epoch check will find the epoch full. */
    ghost predicate Full()
      reads this
      requires Shaped()
    {
      counter == 0 && Recent() >= epochSize
    }

    /** Which slots may be overwritten after the next epoch check, and which are then recent. */
    ghost function Freed(): (c: seq<bool>)
      reads this
      requires Shaped()
      ensures |c| == size
    {
      if Full() then seq(size, i requires 0 <= i < |epoch| == |collected| reads this => collected[i] || !epoch[i])
      else collected
    }

    ghost function Turned(): (f: seq<bool>)
      reads this
      requires Shaped()
      ensures |f| == size
    {
      if Full() then seq(size, _ => false) else epoch
    }

    // ---- Epochs ----------------------------------------------------------------------------------------------

    method CountRecent() returns (n: nat)
      requires Shaped()
      ensures n == Recent()
    {
      n := 0;
      for i := 0 to size
        invariant n == Live(epoch, collected, true, i)
      {
        if epoch[i] && !collected[i] { n := n + 1; }
      }
    }

    method Age()
      requires Shaped()
      modifies `epoch, `collected
      ensures Shaped() && Recent() == 0 && Old() == old(Recent())
      ensures forall i :: 0 <= i < size ==> !epoch[i] && collected[i] == (old(collected[i]) || !old(epoch[i]))
    {
      for i := 0 to size
        invariant Shaped()
        invariant forall j :: 0 <= j < i ==> !epoch[j] && collected[j] == (old(collected[j]) || !old(epoch[j]))
        invariant forall j :: i <= j < size ==> epoch[j] == old(epoch[j]) && collected[j] == old(collected[j])
      {
        if epoch[i] {
          epoch := epoch[i := false];
        } else {
          collected := collected[i := true];
        }
      }
      LiveAged(old(epoch), old(collected), epoch, collected, size);
    }

    /** Makes room in the budget for one insertion. */
    method EpochCheck()
      requires Valid()
      modifies `epoch, `collected, `counter
      ensures Shaped() && Recent() + 1 + counter <= EpochBound(epochSize) && Old() <= EpochBound(epochSize)
      ensures collected == old(Freed()) && epoch == old(Turned())
      ensures old(counter) != 0 ==> counter == old(counter) - 1
      ensures old(counter) == 0 && !old(Full()) ==> counter == Max(1, Max(epochSize / 16, epochSize - old(Recent())))
      ensures old(Full()) ==> Recent() == 0 && Old() == old(Recent()) && counter == epochSize
    {
      if counter != 0 {
        counter := counter - 1;
        return;
      }
      var unused := CountRecent();
      if unused >= epochSize {
        Age();
        counter := epochSize;
      } else {
        counter := Max(1, Max(epochSize / 16, epochSize - unused));
      }
    }

    // ---- Insertion -----------------------------------------------------------------------------------------------

    /** The first of the locations that holds the key. */
    ghost predicate HeldFirst(t: seq<Element<K, V>>, locs: seq<nat>, k: K, loc: nat)
      requires forall j :: 0 <= j < |locs| ==> locs[j] < |t|
    {
      exists i :: 0 <= i < |locs| && locs[i] == loc && t[loc].key == k && forall j :: 0 <= j < i ==> t[locs[j]].key != k
    }

    /** Looks for the first of the locations that holds the key. */
    method Search(locs: seq<nat>, k: K) returns (found: bool, loc: nat)
      requires Shaped() && forall j :: 0 <= j < |locs| ==> locs[j] < size
      ensures found ==> HeldFirst(table, locs, k, loc)
      ensures !found ==> forall j :: 0 <= j < |locs| ==> table[locs[j]].key != k
    {
      found, loc := false, 0;
      for j := 0 to |locs|
        invariant forall i :: 0 <= i < j ==> table[locs[i]].key != k
      {
        if table[locs[j]].key == k { return true, locs[j]; }
      }
    }

    /** Looks for the first of the locations that may be overwritten. */
    method Vacant(locs: seq<nat>) returns (found: bool, loc: nat)
      requires Shaped() && forall j :: 0 <= j < |locs| ==> locs[j] < size
      ensures found ==> FirstFree(locs, collected, loc)
      ensures !found ==> NoneFree(locs, collected)
    {
      found, loc := false, 0;
      for j := 0 to |locs|
        invariant forall i :: 0 <= i < j ==> !collected[locs[i]]
      {
        if collected[locs[j]] { return true, locs[j]; }
      }
    }

    /** Whether the key is at one of its own locations. */
    ghost predicate Present(t: seq<Element<K, V>>, k: K)
      requires size > 0 && |t| == size
    {
      exists j :: 0 <= j < 8 && t[Locs(k)[j]].key == k
    }

    /** A key other than the blank one is somewhere in the table only if it is at one of its own locations. */
    lemma PresentIfAnywhere(t: seq<Element<K, V>>, k: K)
      requires size > 0 && |t| == size && Placed(t) && k != blank.key
      ensures Present(t, k) <==> exists i :: 0 <= i < |t| && t[i].key == k
    {
      if i :| 0 <= i < |t| && t[i].key == k {
        assert i in Locs(t[i].key);
        var j :| 0 <= j < 8 && Locs(k)[j] == i;
      }
    }

    /** A new element takes a slot among its own locations. */
    lemma PlacedSet(t: seq<Element<K, V>>, loc: nat, e: Element<K, V>)
      requires size > 0 && |t| == size && Placed(t) && loc < size && loc in Locs(e.key)
      requires e.key != blank.key ==> forall i :: 0 <= i < |t| ==> t[i].key != e.key
      ensures Placed(t[loc := e])
    {
      var t' := t[loc := e];
      forall i, j | 0 <= i < j < |t'| && t'[i].key != blank.key ensures t'[i].key != t'[j].key {
        if i == loc { assert t'[j] == t[j]; } else if j == loc { assert t'[i] == t[i]; }
      }
    }

    /** Puts an element into a vacant slot with the given epoch flag. */
    method Put(loc: nat, e: Element<K, V>, flag: bool)
      requires Shaped() && Placed(table) && loc < size && collected[loc] && loc in Locs(e.key)
      requires e.key != blank.key ==> forall i :: 0 <= i < size ==> table[i].key != e.key
      modifies `table, `collected, `epoch
      ensures Shaped() && Placed(table) && table == old(table)[loc := e]
      ensures collected == old(collected)[loc := false] && epoch == old(epoch)[loc := flag]
      ensures Recent() == old(Recent()) + (if flag then 1 else 0) && Old() == old(Old()) + (if flag then 0 else 1)
      ensures multiset(table) + multiset{old(table)[loc]} == multiset(old(table)) + multiset{e}
    {
      PlacedSet(table, loc, e);
      LiveSet(epoch, collected, true, size, loc, flag, false);
      LiveSet(epoch, collected, false, size, loc, flag, false);
      table := table[loc := e];
      collected := collected[loc := false];
      epoch := epoch[loc := flag];
    }

    /** Swaps the carried element with the one in a live slot; epoch flags travel with their elements. */
    method Swap(loc: nat, e: Element<K, V>, flag: bool) returns (out: Element<K, V>, outFlag: bool)
      requires Shaped() && Placed(table) && loc < size && !collected[loc] && loc in Locs(e.key)
      requires e.key != blank.key ==> forall i :: 0 <= i < size ==> table[i].key != e.key
      modifies `table, `epoch
      ensures Shaped() && Placed(table) && out == old(table)[loc] && table == old(table)[loc := e]
      ensures outFlag == old(epoch)[loc] && epoch == old(epoch)[loc := flag]
      ensures multiset(table) + multiset{out} == multiset(old(table)) + multiset{e}
      ensures out.key != blank.key ==> forall i :: 0 <= i < size ==> table[i].key != out.key
      ensures Recent() + (if outFlag then 1 else 0) == old(Recent()) + (if flag then 1 else 0)
      ensures Old() + (if outFlag then 0 else 1) == old(Old()) + (if flag then 0 else 1)
    {
      PlacedSet(table, loc, e);
      LiveSet(epoch, collected, true, size, loc, flag, false);
      LiveSet(epoch, collected, false, size, loc, flag, false);
      assert collected[loc := false] == collected;
      out, outFlag := table[loc], epoch[loc];
      table := table[loc := e];
      epoch := epoch[loc := flag];
    }

    /** The element is there already: it is kept, and becomes recent. */
    method Keep(loc: nat, e: Element<K, V>, replace: bool)
      requires Shaped() && Placed(table) && loc < size && table[loc].key == e.key
      modifies `table, `collected, `epoch
      ensures Shaped() && Placed(table) && table == (if replace then old(table)[loc := e] else old(table))
      ensures collected == old(collected)[loc := false] && epoch == old(epoch)[loc := true]
      ensures Recent() <= old(Recent()) + 1 && Old() <= old(Old())
    {
      LiveSet(epoch, collected, true, size, loc, true, false);
      LiveSet(epoch, collected, false, size, loc, true, false);
      if replace { table := table[loc := e]; }
      collected := collected[loc := false];
      epoch := epoch[loc := true];
    }

    /**
     * The moves of an insertion into a table t with epoch flags f, where the slots c may be overwritten: the new
     * element goes to its second location, and each displaced one to the location after the one it lost; none
     * of those moved had a free location.
     */
    ghost predicate Chain(t: seq<Element<K, V>>, c: seq<bool>, f: seq<bool>, e: Element<K, V>, path: seq<Move<K, V>>)
      requires |t| == |c| == |f| == size && size > 0
    {
      Within(path, size) && forall i :: 0 <= i < |path| ==> ChainAt(t, c, f, e, path, i)
    }

    ghost predicate ChainAt(t: seq<Element<K, V>>, c: seq<bool>, f: seq<bool>, e: Element<K, V>,
        path: seq<Move<K, V>>, i: nat)
      requires |t| == |c| == |f| == size && size > 0 && Within(path, size) && i < |path|
    {
      assert Within(path[..i], size);
      && Hand(path[i].x, path[i].flag) == InHand(t, f, e, path[..i])
      && NoneFree(Locs(path[i].x.key), c)
      && (if i == 0 then path[i].loc == Locs(e.key)[1] else Follows(Locs(path[i].x.key), path[i - 1].loc, path[i].loc))
    }

    /** How the insertion ended: the element in hand found a free location, or the moves are used up and it is lost. */
    ghost predicate Ended(t: seq<Element<K, V>>, c: seq<bool>, f: seq<bool>, e: Element<K, V>, path: seq<Move<K, V>>,
        t': seq<Element<K, V>>, c': seq<bool>, f': seq<bool>)
      requires |t| == |c| == |f| == size && size > 0
    {
      && Chain(t, c, f, e, path) && |path| <= depthLimit
      && var hand := InHand(t, f, e, path);
         if |path| == depthLimit then t' == TableAfter(t, path) && c' == c && f' == FlagsAfter(f, path)
         else exists loc: nat ::
                && loc < size && FirstFree(Locs(hand.x.key), c, loc)
                && t' == TableAfter(t, path)[loc := hand.x] && c' == c[loc := false]
                && f' == FlagsAfter(f, path)[loc := hand.flag]
    }

    lemma ChainMore(t: seq<Element<K, V>>, c: seq<bool>, f: seq<bool>, e: Element<K, V>, path: seq<Move<K, V>>,
        loc: nat)
      requires |t| == |c| == |f| == size && size > 0 && Chain(t, c, f, e, path) && loc < size
      requires var hand := InHand(t, f, e, path);
               && NoneFree(Locs(hand.x.key), c)
               && (if path == [] then loc == Locs(e.key)[1]
                   else Follows(Locs(hand.x.key), path[|path| - 1].loc, loc))
      ensures var hand := InHand(t, f, e, path);
              var path' := path + [Move(hand.x, hand.flag, loc)];
              && Chain(t, c, f, e, path')
              && TableAfter(t, path') == TableAfter(t, path)[loc := hand.x]
              && FlagsAfter(f, path') == FlagsAfter(f, path)[loc := hand.flag]
              && InHand(t, f, e, path') == Hand(TableAfter(t, path)[loc], FlagsAfter(f, path)[loc])
    {
      hide Locs, Follows, NoneFree;
      var hand := InHand(t, f, e, path);
      var path' := path + [Move(hand.x, hand.flag, loc)];
      var n := |path|;
      assert path'[..n] == path;
      forall i | 0 <= i < n + 1 ensures ChainAt(t, c, f, e, path', i) {
        if i < n {
          assert ChainAt(t, c, f, e, path, i);
          assert path'[..i] == path[..i];
        }
      }
    }

    /** An element without a free location ousts one from its second location; with one move only, it stays there. */
    lemma OneMove(t: seq<Element<K, V>>, c: seq<bool>, f: seq<bool>, e: Element<K, V>, path: seq<Move<K, V>>,
        t': seq<Element<K, V>>, c': seq<bool>, f': seq<bool>)
      requires |t| == |c| == |f| == size && size > 0 && depthLimit == 1
      requires Ended(t, c, f, e, path, t', c', f') && NoneFree(Locs(e.key), c)
      ensures t' == t[Locs(e.key)[1] := e] && e in t'
    {
      hide Locs, FirstFree;
      assert path != [] by {
        if path == [] { NeverFree(Locs(e.key), c); }
      }
      assert ChainAt(t, c, f, e, path, 0);
      assert path[..0] == [];
      assert TableAfter(t, path[..0]) == t;
      assert t'[Locs(e.key)[1]] == e;
    }

    /** The element is there already, or is put into the table by the moves of `path`. */
    method Insert(e: Element<K, V>, replace: bool) returns (ghost path: seq<Move<K, V>>)
      requires Valid()
      modifies `table, `collected, `epoch, `counter
      ensures Valid()
      ensures Present(old(table), e.key) ==> exists loc: nat ::
                && loc < size && HeldFirst(old(table), Locs(e.key), e.key, loc)
                && collected == old(Freed())[loc := false] && epoch == old(Turned())[loc := true]
                && table == if replace then old(table)[loc := e] else old(table)
      ensures !Present(old(table), e.key) ==>
                Ended(old(table), old(Freed()), old(Turned()), e, path, table, collected, epoch)
      ensures !Present(old(table), e.key) ==> exists dropped ::
                multiset(table) + multiset{dropped} == multiset(old(table)) + multiset{e}
      ensures !Present(old(table), e.key) && NoneFree(Locs(e.key), old(Freed())) && depthLimit == 1 ==> e in table
    {
      EpochCheck();
      path := [];
      var locs := Locs(e.key);
      var found, loc := Search(locs, e.key);
      if found {
        Keep(loc, e, replace);
        return;
      }
      if e.key != blank.key { PresentIfAnywhere(table, e.key); }
      ghost var t, c, f, dropped, placed := table, collected, epoch, e, false;
      path, dropped, placed := Displace(e);
      if NoneFree(locs, c) && depthLimit == 1 { OneMove(t, c, f, e, path, table, collected, epoch); }
    }

    /** Displaces elements until one finds a vacant slot, or drops the last one. */
    method Displace(e: Element<K, V>) returns (ghost path: seq<Move<K, V>>, ghost dropped: Element<K, V>,
        ghost placed: bool)
      requires Shaped() && Placed(table) && (e.key != blank.key ==> forall i :: 0 <= i < size ==> table[i].key != e.key)
      modifies `table, `collected, `epoch
      ensures Shaped() && Placed(table)
      ensures Ended(old(table), old(collected), old(epoch), e, path, table, collected, epoch)
      ensures multiset(table) + multiset{dropped} == multiset(old(table)) + multiset{e}
      ensures placed <==> |path| < depthLimit
      ensures !placed ==> dropped == InHand(old(table), old(epoch), e, path).x
      ensures placed ==> Recent() == old(Recent()) + 1 && Old() == old(Old())
      ensures !placed ==>
                Recent() + Old() == old(Recent()) + old(Old()) && old(Recent()) <= Recent() <= old(Recent()) + 1
    {
      hide Locs, Placed, Live, Chain, TableAfter, FlagsAfter, InHand, Follows, FirstFree, NoneFree;
      var x, flag := e, true;
      var last: int := -1;
      path := [];
      ChainStart(table, collected, epoch, e);
      for depth := 0 to depthLimit
        invariant Shaped() && Placed(table) && (x.key != blank.key ==> forall i :: 0 <= i < size ==>
                    table[i].key != x.key)
        invariant multiset(table) + multiset{x} == multiset(old(table)) + multiset{e}
        invariant Recent() + (if flag then 1 else 0) == old(Recent()) + 1
        invariant Old() + (if flag then 0 else 1) == old(Old())
        invariant collected == old(collected) && |path| == depth
        invariant Chain(old(table), old(collected), old(epoch), e, path) && Within(path, size)
        invariant table == TableAfter(old(table), path) && epoch == FlagsAfter(old(epoch), path)
        invariant Hand(x, flag) == InHand(old(table), old(epoch), e, path)
        invariant path == [] ==> x == e && last == -1
        invariant path != [] ==> last == path[|path| - 1].loc
      {
        var locs := Locs(x.key);
        var found, loc := Vacant(locs);
        if found {
          FreeIsOwn(locs, collected, loc);
          dropped, placed := table[loc], true;
          Put(loc, x, flag);
          return;
        }
        ghost var before := last;
        NextFollows(locs, last);
        if path == [] { FirstDisplacement(locs); }
        last := NextLocation(locs, last);
        ChainMore(old(table), old(collected), old(epoch), e, path, last);
        NotFree(locs, collected, last);
        path := path + [Move(x, flag, last)];
        x, flag := Swap(last, x, flag);
      }
      dropped, placed := x, false;
    }

    lemma ChainStart(t: seq<Element<K, V>>, c: seq<bool>, f: seq<bool>, e: Element<K, V>)
      requires |t| == |c| == |f| == size && size > 0
      ensures Chain(t, c, f, e, []) && TableAfter(t, []) == t && FlagsAfter<K, V>(f, []) == f
      ensures InHand(t, f, e, []) == Hand(e, true)
    {
    }

    // ---- Queries -------------------------------------------------------------------------------------------------

    /** Marks a slot as free to overwrite. */
    method AllowErase(loc: nat)
      requires Valid() && loc < size
      modifies `collected
      ensures Valid() && collected == old(collected)[loc := true]
    {
      LiveSet(epoch, collected, true, size, loc, epoch[loc], true);
      LiveSet(epoch, collected, false, size, loc, epoch[loc], true);
      assert epoch[loc := epoch[loc]] == epoch;
      collected := collected[loc := true];
    }

    /** Finds an element and may mark its slot as free to overwrite. */
    method Find(k: K, erase: bool) returns (found: bool, e: Element<K, V>)
      requires Valid()
      modifies `collected
      ensures Valid()
      ensures found <==> Present(table, k)
      ensures k != blank.key ==> (found <==> exists i :: 0 <= i < size && table[i].key == k)
      ensures found ==> exists loc: nat ::
                && loc < size && HeldFirst(table, Locs(k), k, loc) && table[loc] == e && e.key == k
                && collected == if erase then old(collected)[loc := true] else old(collected)
      ensures !found ==> collected == old(collected)
    {
      hide Live, Location;
      var locs := Locs(k);
      var loc;
      found, loc := Search(locs, k);
      if k != blank.key { PresentIfAnywhere(table, k); }
      e := blank;
      if found {
        assert loc < size && table[loc].key == k;
        e := table[loc];
        if erase { AllowErase(loc); }
      }
    }
  }

  datatype Op<K, V> = InsertOp(e: Element<K, V>, replace: bool) | ContainsOp(k: K, erase: bool)

  /** Over any run: each epoch stays within its bound and the live slots within twice that. */
  method Execute<K(==), V>(newSize: U32, depthLimit: nat, hash: (nat, K) -> U32, blank: Element<K, V>, ops: seq<Op<K,
      V>>) returns (c: Cache<K, V>)
    requires depthLimit >= 1
    ensures fresh(c) && c.Valid() && c.Recent() <= EpochBound(c.epochSize) &&
              c.Recent() + c.Old() <= 2 * EpochBound(c.epochSize)
  {
    c := new Cache<K, V>(newSize, depthLimit, hash, blank);
    for i := 0 to |ops|
      invariant fresh(c) && c.Valid()
    {
      match ops[i]
      case InsertOp(e, replace) => ghost var _ := c.Insert(e, replace);
      case ContainsOp(k, erase) => var _, _ := c.Find(k, erase);
    }
  }
}
