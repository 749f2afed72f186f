/**
 * The rolling bloom filter: two bits per position give the generation, 1 to 3, in which the position
 * was last set, or 0; entering a generation wipes the positions left from three generations ago.
 */
module RollingBloom {
  import opened Arithmetic
  import opened Basics

  // ---- Two bits per position -------------------------------------------------------------------------

  predicate Bit(x: bv64, b: bv6)
  {
    (x >> b) & 1 == 1
  }

  function Mask(on: bool): bv64 { if on then 0xFFFF_FFFF_FFFF_FFFF else 0 }

  /** The positions of a word pair that do not have the given generation bits. */
  function Others(x: bv64, y: bv64, on1: bool, on2: bool): bv64 { (x ^ Mask(on1)) | (y ^ Mask(on2)) }

  function Both(x: bv64, y: bv64): bv64 { x & y }

  lemma LowBitOfWiped(x: bv64, y: bv64, on1: bool, on2: bool, b: bv6)
    ensures Bit(x & ((x ^ Mask(on1)) | (y ^ Mask(on2))), b) <==> Bit(x, b) && !(Bit(x, b) == on1 && Bit(y, b) == on2)
  {
  }

  lemma HighBitOfWiped(x: bv64, y: bv64, on1: bool, on2: bool, b: bv6)
    ensures Bit(y & ((x ^ Mask(on1)) | (y ^ Mask(on2))), b) <==> Bit(y, b) && !(Bit(x, b) == on1 && Bit(y, b) == on2)
  {
  }

  lemma BitsOfWiped(x: bv64, y: bv64, on1: bool, on2: bool, b: bv6)
    ensures Bit(Both(x, Others(x, y, on1, on2)), b) <==> Bit(x, b) && !(Bit(x, b) == on1 && Bit(y, b) == on2)
    ensures Bit(Both(y, Others(x, y, on1, on2)), b) <==> Bit(y, b) && !(Bit(x, b) == on1 && Bit(y, b) == on2)
  {
    hide Bit, Mask;
    LowBitOfWiped(x, y, on1, on2, b);
    HighBitOfWiped(x, y, on1, on2, b);
  }

  function SetBit(x: bv64, b: bv6, on: bool): bv64
  {
    (x & !(1 << b)) | ((if on then 1 else 0) << b)
  }

  lemma BitOfSet(x: bv64, b: bv6, on: bool, c: bv6)
    ensures Bit(SetBit(x, b, on), c) <==> if b == c then on else Bit(x, c)
  {
  }

  lemma BitOfEither(x: bv64, y: bv64, b: bv6)
    ensures ((x | y) >> b) & 1 == 1 <==> Bit(x, b) || Bit(y, b)
  {
  }

  datatype Pos = Pos(word: nat, bit: bv6)

  /** The generation number that the two words of a position spell, 0 for unset. */
  function Gen(d: seq<bv64>, p: Pos): nat
    requires 2 * p.word + 1 < |d|
  {
    (if Bit(d[2 * p.word], p.bit) then 1 else 0) + if Bit(d[2 * p.word + 1], p.bit) then 2 else 0
  }

  /** A word pair after wiping the positions of one generation. */
  predicate WipedPair(d: seq<bv64>, d': seq<bv64>, w: nat, generation: nat)
    requires 2 * w + 1 < |d| == |d'|
  {
    var mask := Others(d[2 * w], d[2 * w + 1], generation % 2 == 1, generation / 2 == 1);
    d'[2 * w] == Both(d[2 * w], mask) && d'[2 * w + 1] == Both(d[2 * w + 1], mask)
  }

  lemma GenOfWiped(d: seq<bv64>, d': seq<bv64>, generation: nat, p: Pos)
    requires 1 <= generation <= 3 && 2 * p.word + 1 < |d| == |d'|
    requires WipedPair(d, d', p.word, generation)
    ensures Gen(d', p) == if Gen(d, p) == generation then 0 else Gen(d, p)
  {
    hide Bit, Both, Others;
    var x, y := d[2 * p.word], d[2 * p.word + 1];
    BitsOfWiped(x, y, generation % 2 == 1, generation / 2 == 1, p.bit);
  }

  lemma GenOfSet(d: seq<bv64>, p: Pos, generation: nat, q: Pos)
    requires 1 <= generation <= 3 && 2 * p.word + 1 < |d| && 2 * q.word + 1 < |d|
    ensures var d' := d[2 * p.word := SetBit(d[2 * p.word], p.bit, generation % 2 == 1)]
                       [2 * p.word + 1 := SetBit(d[2 * p.word + 1], p.bit, generation / 2 == 1)];
            Gen(d', q) == if q == p then generation else Gen(d, q)
  {
    hide Bit, SetBit;
    BitOfSet(d[2 * p.word], p.bit, generation % 2 == 1, q.bit);
    BitOfSet(d[2 * p.word + 1], p.bit, generation / 2 == 1, q.bit);
  }

  /** Replaces a remainder: scales a 32-bit value down to the range of n; there is no range for 0. */
  function FastMod(x: bv32, n: nat): (r: nat)
    ensures r < n || r == n == 0
  {
    Scaled(x as nat, n);
    x as nat * n / 0x1_0000_0000
  }

  lemma Scaled(x: nat, n: nat)
    requires x < 0x1_0000_0000
    ensures 0 <= x * n / 0x1_0000_0000 < n || x * n / 0x1_0000_0000 == n == 0
  {
    if n > 0 { assert x * n < 0x1_0000_0000 * n; }
  }

  // ---- Sizes -------------------------------------------------------------------------------------------------

  /** Half the elements, rounded up; the sum wraps around. */
  function PerGeneration(nElements: U32): nat { (nElements + 1) % 0x1_0000_0000 / 2 }

  function MaxElements(nElements: U32): nat { 3 * PerGeneration(nElements) % 0x1_0000_0000 }

  function Ceiling(x: real): int { if x == x.Floor as real then x.Floor else x.Floor + 1 }

  /** How many bits the filter has, given how many each hash function needs per element. */
  function FilterBits(nElements: U32, nHashFuncs: nat, bitsPerHash: real): int {
    Ceiling(nHashFuncs as real * MaxElements(nElements) as real * bitsPerHash)
  }

  /** How many pairs of words hold the bits; this sum wraps around too. */
  function WordsFor(nFilterBits: U32): nat { (nFilterBits + 63) % 0x1_0000_0000 / 64 }

  /** The filter holds no position at all; a false positive rate of one needs no bits. */
  predicate HasNoTable(nElements: U32, bitsPerHash: real, nFilterBits: U32) {
    nElements == 0 || nElements == 0xFFFF_FFFF || bitsPerHash == 0.0 || nFilterBits > 0xFFFF_FFC0
  }

  /** Two generations are enough for the wanted number of elements, but for the largest one. */
  lemma GenerationsSuffice(nElements: U32)
    ensures PerGeneration(nElements) == 0 <==> nElements == 0 || nElements == 0xFFFF_FFFF
    ensures 2 * PerGeneration(nElements) >= nElements <==> nElements != 0xFFFF_FFFF
    ensures MaxElements(nElements) == 0 <==> PerGeneration(nElements) == 0
    ensures 2 * PerGeneration(nElements) <= nElements + 1
  {
  }

  /** The bits are just as many as needed for three generations, where their number fits into 32 bits. */
  lemma BitsNeeded(nElements: U32, nHashFuncs: nat, bitsPerHash: real)
    ensures 3 * PerGeneration(nElements) < 0x1_0000_0000 ==>
              var needed := nHashFuncs as real * (3 * PerGeneration(nElements)) as real * bitsPerHash;
              var bits := FilterBits(nElements, nHashFuncs, bitsPerHash);
              needed <= bits as real < needed + 1.0
  {
    hide Ceiling, PerGeneration;
    CeilingIs(nHashFuncs as real * MaxElements(nElements) as real * bitsPerHash);
  }

  lemma CeilingIs(x: real)
    ensures x <= Ceiling(x) as real < x + 1.0
  {
  }

  /** The table has just enough words for the bits, unless rounding up wraps around. */
  lemma WordsNeeded(nFilterBits: U32)
    ensures nFilterBits <= 0xFFFF_FFC0 ==> nFilterBits <= 64 * WordsFor(nFilterBits) < nFilterBits + 64
    ensures nFilterBits > 0xFFFF_FFC0 ==> WordsFor(nFilterBits) == 0
  {
  }

  lemma BitsOfNothing(nElements: U32, nHashFuncs: nat, bitsPerHash: real)
    requires nHashFuncs >= 1 && bitsPerHash >= 0.0
    ensures FilterBits(nElements, nHashFuncs, bitsPerHash) >= 0
    ensures FilterBits(nElements, nHashFuncs, bitsPerHash) == 0 <==>
              PerGeneration(nElements) == 0 || bitsPerHash == 0.0
  {
    GenerationsSuffice(nElements);
    var n, m := nHashFuncs as real, MaxElements(nElements) as real;
    if MaxElements(nElements) > 0 { assert n * m > 0.0; }
  }

  lemma NoTableExactly(nElements: U32, nHashFuncs: nat, bitsPerHash: real)
    requires nHashFuncs >= 1 && bitsPerHash >= 0.0 && FilterBits(nElements, nHashFuncs, bitsPerHash) < 0x1_0000_0000
    ensures FilterBits(nElements, nHashFuncs, bitsPerHash) >= 0
    ensures var bits := FilterBits(nElements, nHashFuncs, bitsPerHash);
            WordsFor(bits) == 0 <==> HasNoTable(nElements, bitsPerHash, bits)
  {
    hide FilterBits;
    BitsOfNothing(nElements, nHashFuncs, bitsPerHash);
    GenerationsSuffice(nElements);
  }

  // ---- Generations --------------------------------------------------------------------------------------------

  function Label(era: nat): (g: nat)
    ensures 1 <= g <= 3
  {
    1 + era % 3
  }

  /** Before a new era is entered, its label is left over from exactly the era before the last two. */
  lemma LabelReused(era: nat, s: nat)
    requires s <= era <= s + 2
    ensures Label(s) == Label(era + 1) <==> s + 2 == era
  {
  }

  /** Positions show the era in which they were last set, for the last three eras. */
  ghost predicate Shows(d: seq<bv64>, words: nat, stamp: map<Pos, nat>, era: nat) {
    && |d| == 2 * words
    && (forall p :: p in stamp ==> stamp[p] <= era)
    && (forall p: Pos {:trigger Gen(d, p)} :: p.word < words ==>
          Gen(d, p) == if p in stamp && era <= stamp[p] + 2 then Label(stamp[p]) else 0)
  }

  lemma WipedShows(d: seq<bv64>, d': seq<bv64>, words: nat, stamp: map<Pos, nat>, era: nat, generation: nat)
    requires Shows(d, words, stamp, era) && |d'| == |d| && generation == Label(era + 1)
    requires forall w :: 0 <= w < words ==> WipedPair(d, d', w, generation)
    ensures Shows(d', words, stamp, era + 1)
  {
    hide Bit, Both, Others, Gen;
    forall p: Pos | p.word < words
      ensures Gen(d', p) == if p in stamp && era + 1 <= stamp[p] + 2 then Label(stamp[p]) else 0
    {
      assert WipedPair(d, d', p.word, generation);
      GenOfWiped(d, d', generation, p);
      assert Gen(d, p) == if p in stamp && era <= stamp[p] + 2 then Label(stamp[p]) else 0;
      if p in stamp && era <= stamp[p] + 2 { LabelReused(era, stamp[p]); }
    }
  }

  lemma SetShows(d: seq<bv64>, words: nat, stamp: map<Pos, nat>, era: nat, p: Pos)
    requires Shows(d, words, stamp, era) && p.word < words
    ensures var d' := d[2 * p.word := SetBit(d[2 * p.word], p.bit, Label(era) % 2 == 1)]
                       [2 * p.word + 1 := SetBit(d[2 * p.word + 1], p.bit, Label(era) / 2 == 1)];
            Shows(d', words, stamp[p := era], era)
  {
    hide Bit, SetBit, Gen;
    forall q: Pos | q.word < words
      ensures var d' := d[2 * p.word := SetBit(d[2 * p.word], p.bit, Label(era) % 2 == 1)]
                         [2 * p.word + 1 := SetBit(d[2 * p.word + 1], p.bit, Label(era) / 2 == 1)];
              Gen(d', q) == if q == p then Label(era) else Gen(d, q)
    {
      GenOfSet(d, p, Label(era), q);
    }
  }

  // ---- The filter ----------------------------------------------------------------------------------------------

  ghost predicate Later(stamp: map<Pos, nat>, stamp': map<Pos, nat>) {
    forall p :: p in stamp ==> p in stamp' && stamp'[p] >= stamp[p]
  }

  /** The era of the last of `count` insertions, with `per` insertions to an era. */
  function EraAfter(count: nat, per: nat): nat
    requires per > 0
  {
    if count == 0 then 0 else EraOf(count - 1, per)
  }

  /** The era of the j-th insertion, counted from 0. */
  function EraOf(j: nat, per: nat): nat
    requires per > 0
  {
    j / per
  }

  /** How many of `count` insertions belong to the era of the last one. */
  function InEra(count: nat, per: nat): int
    requires per > 0
  {
    count - EraAfter(count, per) * per
  }

  class RollingBloomFilter<K> {
    const nEntriesPerGeneration: nat
    const nHashFuncs: nat
    const hash: (nat, U32, K) -> bv32
    const data: array<bv64>

    var nEntriesThisGeneration: nat
    var nGeneration: nat
    var nTweak: U32

    /** The keys inserted since the last reset, and the era in which each position was last set. */
    ghost var inserted: seq<K>
    ghost var stamp: map<Pos, nat>

    /**
     * The false positive rate decides about the number of hash functions, at least one, and how many bits
     * each needs per element; the number of bits must fit into 32 bits.
     */
    constructor (nElements: U32, nHashFuncs: nat, bitsPerHash: real, hash: (nat, U32, K) -> bv32, tweak: U32)
      requires nHashFuncs >= 1 && bitsPerHash >= 0.0 && FilterBits(nElements, nHashFuncs, bitsPerHash) < 0x1_0000_0000
      ensures Valid() && fresh(data) && inserted == [] && this.nHashFuncs == nHashFuncs && this.hash == hash
      ensures nEntriesPerGeneration == 0 <==> nElements == 0 || nElements == 0xFFFF_FFFF
      ensures 2 * nEntriesPerGeneration >= nElements <==> nElements != 0xFFFF_FFFF
      ensures FilterBits(nElements, nHashFuncs, bitsPerHash) >= 0
      ensures data.Length == 0 <==> HasNoTable(nElements, bitsPerHash, FilterBits(nElements, nHashFuncs, bitsPerHash))
      ensures var bits := FilterBits(nElements, nHashFuncs, bitsPerHash);
              bits <= 0xFFFF_FFC0 ==> bits <= 32 * data.Length < bits + 64
      ensures 2 * nEntriesPerGeneration <= nElements + 1
    {
      hide FilterBits;
      NoTableExactly(nElements, nHashFuncs, bitsPerHash);
      WordsNeeded(FilterBits(nElements, nHashFuncs, bitsPerHash));
      GenerationsSuffice(nElements);
      nEntriesPerGeneration := PerGeneration(nElements);
      this.nHashFuncs, this.hash := nHashFuncs, hash;
      data := new bv64[2 * WordsFor(FilterBits(nElements, nHashFuncs, bitsPerHash))];
      new;
      Reset(tweak);
    }

    function Words(): nat { data.Length / 2 }

    /** Where the n-th hash function puts a key. */
    function Place(n: nat, tweak: U32, key: K): (p: Pos)
      requires data.Length > 0 && data.Length % 2 == 0
      ensures p.word < Words()
    {
      var h := hash(n, tweak, key);
      Pos(FastMod(h, data.Length) / 2, (h & 0x3F) as bv6)
    }

    /** A table is there; there is none without a generation to fill. */
    ghost predicate Shaped() {
      data.Length > 0 && data.Length % 2 == 0 && nEntriesPerGeneration > 0
    }

    ghost predicate Sized() {
      data.Length % 2 == 0 && nHashFuncs >= 1 && (nEntriesPerGeneration == 0 ==> data.Length == 0)
    }

    /** Every position of a key was set in the given era or later. */
    ghost predicate SetSince(stamp: map<Pos, nat>, tweak: U32, key: K, era: nat)
      requires Shaped()
    {
      forall n {:trigger Place(n, tweak, key)} :: 0 <= n < nHashFuncs ==>
          Place(n, tweak, key) in stamp && stamp[Place(n, tweak, key)] >= era
    }

    ghost predicate Stamped(stamp: map<Pos, nat>, tweak: U32, keys: seq<K>)
      requires Shaped()
    {
      forall j :: 0 <= j < |keys| ==> SetSince(stamp, tweak, keys[j], EraOf(j, nEntriesPerGeneration))
    }

    /** Some key that was inserted in that era put the position there. */
    ghost predicate Traces(tweak: U32, keys: seq<K>, p: Pos, era: nat)
      requires Shaped()
    {
      exists j, n {:trigger Place(n, tweak, keys[j])} :: 0 <= j < |keys| && 0 <= n < nHashFuncs &&
          Place(n, tweak, keys[j]) == p && EraOf(j, nEntriesPerGeneration) == era
    }

    /** No position was set but by the inserted keys. */
    ghost predicate Traced(stamp: map<Pos, nat>, tweak: U32, keys: seq<K>)
      requires Shaped()
    {
      forall p :: p in stamp ==> Traces(tweak, keys, p, stamp[p])
    }

    lemma StillTraces(tweak: U32, keys: seq<K>, key: K, p: Pos, era: nat)
      requires Shaped() && Traces(tweak, keys, p, era)
      ensures Traces(tweak, keys + [key], p, era)
    {
      var j, n :| 0 <= j < |keys| && 0 <= n < nHashFuncs && Place(n, tweak, keys[j]) == p &&
        EraOf(j, nEntriesPerGeneration) == era;
      assert Place(n, tweak, (keys + [key])[j]) == p;
    }

    /** The key's own positions were set, and no others. */
    ghost predicate OnlyMarks(stamp: map<Pos, nat>, stamp': map<Pos, nat>, tweak: U32, key: K, era: nat, k: nat)
      requires Shaped()
    {
      forall p :: p in stamp' ==>
        || (p in stamp && stamp'[p] == stamp[p])
        || (stamp'[p] == era && exists n {:trigger Place(n, tweak, key)} :: 0 <= n < k && Place(n, tweak, key) == p)
    }

    lemma StillTraced(stamp: map<Pos, nat>, stamp': map<Pos, nat>, tweak: U32, keys: seq<K>, key: K)
      requires Shaped() && Traced(stamp, tweak, keys)
      requires OnlyMarks(stamp, stamp', tweak, key, EraOf(|keys|, nEntriesPerGeneration), nHashFuncs)
      ensures Traced(stamp', tweak, keys + [key])
    {
      hide Place, EraOf;
      forall p | p in stamp' ensures Traces(tweak, keys + [key], p, stamp'[p]) {
        if p in stamp && stamp'[p] == stamp[p] {
          StillTraces(tweak, keys, key, p, stamp[p]);
        } else {
          var n :| 0 <= n < nHashFuncs && Place(n, tweak, key) == p;
          assert Place(n, tweak, (keys + [key])[|keys|]) == p;
        }
      }
    }

    lemma StillStamped(stamp: map<Pos, nat>, stamp': map<Pos, nat>, tweak: U32, keys: seq<K>, key: K)
      requires Shaped() && Stamped(stamp, tweak, keys) && Later(stamp, stamp') &&
                 SetSince(stamp', tweak, key, EraOf(|keys|, nEntriesPerGeneration))
      ensures Stamped(stamp', tweak, keys + [key])
    {
      forall j | 0 <= j < |keys| ensures SetSince(stamp', tweak, keys[j], EraOf(j, nEntriesPerGeneration)) {
        assert SetSince(stamp, tweak, keys[j], EraOf(j, nEntriesPerGeneration));
      }
    }

    ghost predicate Valid()
      reads this, data
    {
      && Sized()
      && if data.Length == 0 then inserted == []
         else
           && nGeneration == Label(Era())
           && nEntriesThisGeneration == InEra(|inserted|, nEntriesPerGeneration)
           && Shows(data[..], Words(), stamp, Era())
           && Stamped(stamp, nTweak, inserted)
           && Traced(stamp, nTweak, inserted)
    }

    ghost function Era(): nat
      requires Shaped()
      reads this
    {
      EraAfter(|inserted|, nEntriesPerGeneration)
    }

    method Reset(tweak: U32)
      requires Sized()
      modifies this, data
      ensures Valid() && inserted == []
    {
      nTweak, nEntriesThisGeneration, nGeneration := tweak, 0, 1;
      inserted, stamp := [], map[];
      for i := 0 to data.Length
        modifies data
        invariant forall k :: 0 <= k < i ==> data[k] == 0
      {
        data[i] := 0;
      }
      if data.Length > 0 { Cleared(data[..], Words()); }
    }

    /** `overrun`: there is no table, and the first position is written outside of it; nothing is known afterwards. */
    method Insert(key: K) returns (overrun: bool)
      requires Valid()
      modifies this, data
      ensures overrun <==> data.Length == 0
      ensures !overrun ==> Valid() && inserted == old(inserted) + [key] && nTweak == old(nTweak)
    {
      hide Shows, Stamped, SetSince, EraAfter, EraOf, InEra, Traced, OnlyMarks;
      if data.Length == 0 { return true; }
      overrun := false;
      ghost var per, count := nEntriesPerGeneration, |inserted|;
      ghost var era := EraAfter(count, per);
      NextEra(count, per);
      if nEntriesThisGeneration == nEntriesPerGeneration {
        nEntriesThisGeneration := 0;
        nGeneration := nGeneration + 1;
        if nGeneration == 4 { nGeneration := 1; }
        Wipe(era);
        era := era + 1;
      }
      nEntriesThisGeneration := nEntriesThisGeneration + 1;
      Mark(key, era);
      StillStamped(old(stamp), stamp, nTweak, inserted, key);
      StillTraced(old(stamp), stamp, nTweak, inserted, key);
      inserted := inserted + [key];
    }

    /** Gives every position of the key the current generation. */
    method Mark(key: K, ghost era: nat)
      requires Shaped() && Shows(data[..], Words(), stamp, era) && nGeneration == Label(era)
      modifies data, `stamp
      ensures Shows(data[..], Words(), stamp, era) && Later(old(stamp), stamp) && SetSince(stamp, nTweak, key, era)
      ensures OnlyMarks(old(stamp), stamp, nTweak, key, era, nHashFuncs)
    {
      hide Gen;
      for n := 0 to nHashFuncs
        invariant Shows(data[..], Words(), stamp, era) && Later(old(stamp), stamp)
        invariant OnlyMarks(old(stamp), stamp, nTweak, key, era, n)
        invariant forall k {:trigger Place(k, nTweak, key)} :: 0 <= k < n ==>
                    Place(k, nTweak, key) in stamp && stamp[Place(k, nTweak, key)] >= era
      {
        SetPosition(Place(n, nTweak, key), era);
      }
    }

    /** Wipes old entries that used this generation number. */
    method Wipe(ghost era: nat)
      requires Shaped() && Shows(data[..], Words(), stamp, era) && nGeneration == Label(era + 1)
      modifies data
      ensures Shows(data[..], Words(), stamp, era + 1)
    {
      hide Bit, Others, Both, Shows, Gen;
      ghost var d := data[..];
      var on1, on2 := nGeneration % 2 == 1, nGeneration / 2 == 1;
      for w := 0 to Words()
        invariant forall v {:trigger d[2 * v]} :: 0 <= v < w ==>
                    data[2 * v] == Both(d[2 * v], Others(d[2 * v], d[2 * v + 1], on1, on2))
        invariant forall v {:trigger d[2 * v]} :: 0 <= v < w ==>
                    data[2 * v + 1] == Both(d[2 * v + 1], Others(d[2 * v], d[2 * v + 1], on1, on2))
        invariant forall k :: 2 * w <= k < data.Length ==> data[k] == d[k]
      {
        var p1, p2 := data[2 * w], data[2 * w + 1];
        var mask := Others(p1, p2, on1, on2);
        data[2 * w] := Both(p1, mask);
        data[2 * w + 1] := Both(p2, mask);
      }
      ghost var d', generation := data[..], nGeneration;
      forall v | 0 <= v < Words() ensures WipedPair(d, d', v, generation) {
        assert data[2 * v] == Both(d[2 * v], Others(d[2 * v], d[2 * v + 1], on1, on2));
      }
      WipedShows(d, d', Words(), stamp, era, generation);
    }

    method SetPosition(p: Pos, ghost era: nat)
      requires Shaped() && p.word < Words() && Shows(data[..], Words(), stamp, era) && nGeneration == Label(era)
      modifies data, `stamp
      ensures Shows(data[..], Words(), stamp, era) && stamp == old(stamp)[p := era]
    {
      hide SetBit, Bit;
      ghost var d := data[..];
      SetShows(d, Words(), stamp, era, p);
      data[2 * p.word] := SetBit(data[2 * p.word], p.bit, nGeneration % 2 == 1);
      data[2 * p.word + 1] := SetBit(data[2 * p.word + 1], p.bit, nGeneration / 2 == 1);
      assert data[..] == d[2 * p.word := SetBit(d[2 * p.word], p.bit, Label(era) % 2 == 1)]
                          [2 * p.word + 1 := SetBit(d[2 * p.word + 1], p.bit, Label(era) / 2 == 1)];
      stamp := stamp[p := era];
    }

    /** The j-th key was inserted in the current generation or in one of the two before it. */
    ghost predicate Recent(j: nat)
      requires Shaped()
      reads this
    {
      EraAfter(|inserted|, nEntriesPerGeneration) <= EraOf(j, nEntriesPerGeneration) + 2
    }

    /** Two hashes lead to the same bit of the same pair of words. */
    predicate Coincide(x: bv32, y: bv32) {
      && x & 0x3F == y & 0x3F
      && x as nat * data.Length / 0x1_0000_0000 / 2 == y as nat * data.Length / 0x1_0000_0000 / 2
    }

    /** A hash of some key of the last three generations coincides with the given one. */
    ghost predicate Covered(x: bv32)
      requires Shaped()
      reads this
    {
      exists j, m {:trigger hash(m, nTweak, inserted[j])} ::
        0 <= j < |inserted| && 0 <= m < nHashFuncs && Recent(j) && Coincide(x, hash(m, nTweak, inserted[j]))
    }

    /**
     * The answer is yes exactly if hashes of keys of the last three generations cover all hashes of the key: so for
     * every key of these generations, for at least as many of the last keys as the filter was made for, and never
     * after a reset.
     */
    method Contains(key: K) returns (overrun: bool, found: bool)
      requires Valid()
      ensures overrun <==> data.Length == 0
      ensures !overrun ==> (found <==> forall n :: 0 <= n < nHashFuncs ==> Covered(hash(n, nTweak, key)))
      ensures !overrun && inserted == [] ==> !found
      ensures !overrun ==> forall j :: 0 <= j < |inserted| && inserted[j] == key && Recent(j) ==> found
      ensures !overrun ==> (key in inserted[Max0(|inserted| - 2 * nEntriesPerGeneration)..] ==> found)
    {
      hide Bit, Shows, Stamped, EraAfter, InEra, Recent, Traced, Covered;
      if data.Length == 0 { return true, false; }
      overrun, found := false, true;
      for n := 0 to nHashFuncs
        invariant found && forall k :: 0 <= k < n ==> Covered(hash(k, nTweak, key))
      {
        var p := Place(n, nTweak, key);
        BitOfEither(data[2 * p.word], data[2 * p.word + 1], p.bit);
        SetIfCovered(n, key);
        if ((data[2 * p.word] | data[2 * p.word + 1]) >> p.bit) & 1 != 1 {
          found := false;
          break;
        }
      }
      NothingCovered();
      assert found ==> Covered(hash(0, nTweak, key));
      Remembers(key);
      LastOnesRecent();
    }

    lemma LastOnesRecent()
      requires Shaped()
      ensures forall j :: 0 <= j < |inserted| && j + 2 * nEntriesPerGeneration >= |inserted| ==> Recent(j)
    {
      hide EraAfter, EraOf;
      forall j | 0 <= j < |inserted| && j + 2 * nEntriesPerGeneration >= |inserted| ensures Recent(j) {
        RecentEra(j, |inserted|, nEntriesPerGeneration);
      }
    }

    lemma SamePlace(x: bv32, y: bv32)
      requires Shaped()
      ensures var p := Pos(FastMod(x, data.Length) / 2, (x & 0x3F) as bv6);
              var q := Pos(FastMod(y, data.Length) / 2, (y & 0x3F) as bv6);
              Coincide(x, y) <==> p == q
    {
      Narrow(x & 0x3F, y & 0x3F);
    }

    /** Positions that show a generation are those that a hash of a recent key leads to. */
    lemma SetIfCovered(n: nat, key: K)
      requires Valid() && data.Length > 0 && n < nHashFuncs
      ensures Gen(data[..], Place(n, nTweak, key)) != 0 <==> Covered(hash(n, nTweak, key))
    {
      hide EraAfter, EraOf, InEra, Gen, FastMod, Coincide, Covered, Stamped, Traced;
      var p, era := Place(n, nTweak, key), EraAfter(|inserted|, nEntriesPerGeneration);
      assert Gen(data[..], p) == if p in stamp && era <= stamp[p] + 2 then Label(stamp[p]) else 0;
      if p in stamp && era <= stamp[p] + 2 { CoveredIfTraced(n, key); }
      if Covered(hash(n, nTweak, key)) { StampedIfCovered(n, key); }
    }

    lemma CoveredIfTraced(n: nat, key: K)
      requires Shaped() && Traced(stamp, nTweak, inserted)
      requires var p := Place(n, nTweak, key);
               p in stamp && EraAfter(|inserted|, nEntriesPerGeneration) <= stamp[p] + 2
      ensures Covered(hash(n, nTweak, key))
    {
      hide EraAfter, EraOf, FastMod, Coincide;
      var p := Place(n, nTweak, key);
      assert Traces(nTweak, inserted, p, stamp[p]);
      var j, m :| 0 <= j < |inserted| && 0 <= m < nHashFuncs && Place(m, nTweak, inserted[j]) == p &&
        EraOf(j, nEntriesPerGeneration) == stamp[p];
      assert Recent(j);
      SamePlace(hash(n, nTweak, key), hash(m, nTweak, inserted[j]));
    }

    lemma StampedIfCovered(n: nat, key: K)
      requires Shaped() && Stamped(stamp, nTweak, inserted) && Covered(hash(n, nTweak, key))
      ensures var p := Place(n, nTweak, key);
              p in stamp && EraAfter(|inserted|, nEntriesPerGeneration) <= stamp[p] + 2
    {
      hide EraAfter, EraOf, FastMod, Coincide;
      var j, m :| 0 <= j < |inserted| && 0 <= m < nHashFuncs && Recent(j) &&
        Coincide(hash(n, nTweak, key), hash(m, nTweak, inserted[j]));
      SamePlace(hash(n, nTweak, key), hash(m, nTweak, inserted[j]));
      assert SetSince(stamp, nTweak, inserted[j], EraOf(j, nEntriesPerGeneration));
      assert Place(m, nTweak, inserted[j]) in stamp;
    }

    lemma NothingCovered()
      requires Shaped()
      ensures inserted == [] ==> forall x :: !Covered(x)
    {
    }

    /** A key's own hashes coincide with themselves. */
    lemma Remembers(key: K)
      requires Shaped()
      ensures forall j, n :: 0 <= j < |inserted| && inserted[j] == key && Recent(j) && 0 <= n < nHashFuncs ==>
                Covered(hash(n, nTweak, key))
    {
      hide Recent;
      forall j, n | 0 <= j < |inserted| && inserted[j] == key && Recent(j) && 0 <= n < nHashFuncs
        ensures Covered(hash(n, nTweak, key))
      {
        assert Coincide(hash(n, nTweak, key), hash(n, nTweak, inserted[j]));
      }
    }
  }

  lemma Narrow(x: bv32, y: bv32)
    requires x < 64 && y < 64
    ensures x as bv6 == y as bv6 <==> x == y
  {
  }

  lemma Cleared(d: seq<bv64>, words: nat)
    requires |d| == 2 * words && forall k :: 0 <= k < |d| ==> d[k] == 0
    ensures Shows(d, words, map[], 0)
  {
    forall p: Pos | p.word < words ensures Gen(d, p) == 0 { NoBits(p.bit); }
  }

  lemma NoBits(b: bv6)
    ensures !Bit(0, b)
  {
  }

  /** An era begins exactly after `per` insertions in the one before. */
  lemma NextEra(count: nat, per: nat)
    requires per > 0
    ensures var full := InEra(count, per) == per;
            && EraAfter(count + 1, per) == EraOf(count, per) == EraAfter(count, per) + (if full then 1 else 0)
            && InEra(count + 1, per) == if full then 1 else InEra(count, per) + 1
  {
    var era := EraAfter(count, per);
    if count > 0 {
      DivModUnique(count - 1, per, era, (count - 1) % per);
      if count - era * per == per {
        assert count == (era + 1) * per + 0;
        DivModUnique(count, per, era + 1, 0);
      } else {
        DivModUnique(count, per, era, count - era * per);
      }
    }
  }

  lemma {:induction false} InEraBounded(count: nat, per: nat)
    requires per > 0 && count > 0
    ensures 1 <= InEra(count, per) <= per
  {
    hide EraAfter;
    NextEra(count - 1, per);
    if count > 1 { InEraBounded(count - 1, per); } else { assert EraAfter(0, per) == 0 by { FirstEra(per); } }
  }

  lemma FirstEra(per: nat)
    requires per > 0
    ensures EraAfter(0, per) == 0
  {
  }

  /**
   * The keys of the last three generations are exactly the last ones: two full generations and what
   * the current one has, so more than two generations and at most three.
   */
  lemma LastThree(j: nat, count: nat, per: nat)
    requires per > 0 && j < count
    ensures EraAfter(count, per) <= EraOf(j, per) + 2 <==> count - j <= 2 * per + InEra(count, per)
    ensures 2 * per < 2 * per + InEra(count, per) <= 3 * per
  {
    hide EraAfter;
    InEraBounded(count, per);
    Gap(EraAfter(count, per) - j / per, per, j % per);
    Apart(EraAfter(count, per), j / per, per);
    assert j == (j / per) * per + j % per;
  }

  lemma Apart(a: int, b: int, c: nat)
    ensures (a - b) * c == a * c - b * c
  {
  }

  /** Whole generations apart, less what the older one has. */
  lemma Gap(d: int, per: nat, rest: nat)
    requires rest < per
    ensures d <= 2 <==> d * per - rest <= 2 * per
  {
    if d >= 3 {
      MulMonotone(3, d, per);
    } else if d >= 0 {
      MulMonotone(d, 2, per);
    } else {
      assert (0 - d) * per >= 0;
    }
  }

  lemma RecentEra(j: nat, count: nat, per: nat)
    requires per > 0 && j < count <= j + 2 * per
    ensures EraAfter(count, per) <= EraOf(j, per) + 2
  {
    hide EraAfter, EraOf, InEra;
    LastThree(j, count, per);
  }

  // ---- Filters without a table -----------------------------------------------------------------------------------

  /** The first insertion into a new filter runs outside of the table exactly if the filter has none. */
  method FirstInsertion<K>(nElements: U32, nHashFuncs: nat, bitsPerHash: real, hash: (nat, U32, K) -> bv32,
                           tweak: U32, key: K)
    returns (overrun: bool)
    requires nHashFuncs >= 1 && bitsPerHash >= 0.0 && FilterBits(nElements, nHashFuncs, bitsPerHash) < 0x1_0000_0000
    ensures FilterBits(nElements, nHashFuncs, bitsPerHash) >= 0
    ensures overrun <==> HasNoTable(nElements, bitsPerHash, FilterBits(nElements, nHashFuncs, bitsPerHash))
  {
    hide FilterBits;
    var filter := new RollingBloomFilter(nElements, nHashFuncs, bitsPerHash, hash, tweak);
    overrun := filter.Insert(key);
  }

  /** For instance a filter made for no elements, whatever the rate. */
  method NoElements<K>(nHashFuncs: nat, bitsPerHash: real, hash: (nat, U32, K) -> bv32, tweak: U32, key: K)
    returns (overrun: bool)
    requires nHashFuncs >= 1 && bitsPerHash >= 0.0
    ensures overrun
  {
    BitsOfNothing(0, nHashFuncs, bitsPerHash);
    overrun := FirstInsertion(0, nHashFuncs, bitsPerHash, hash, tweak, key);
  }

  /** Or one with a false positive rate of one, which has one hash function without bits. */
  method RateOfOne<K>(nElements: U32, hash: (nat, U32, K) -> bv32, tweak: U32, key: K) returns (overrun: bool)
    ensures overrun
  {
    BitsOfNothing(nElements, 1, 0.0);
    overrun := FirstInsertion(nElements, 1, 0.0, hash, tweak, key);
  }
}
