/**
 * The address manager: addresses heard of ("new") and addresses connected to ("tried"), each in
 * fixed tables of salted buckets, with an index, reference counts and a random order beside them.
 */
module AddrMan {
  import opened Basics
  import opened Radix
  import opened AddrManTables
  import opened AddrManBook
  import opened AddrManSteps
  import opened AddrManCheck
  import opened AddrManLaws
  import opened AddrManCollisions
  import opened AddrManFile
  import opened AddrManRebucket

  lemma SetTwice(info: Infos, id: int, d: AddrInfo, e: AddrInfo)
    ensures info[id := d][id := e] == info[id := e]
  {
  }

  /** Whether an address may be handed out. */
  predicate Offered(book: Book, a: Service, wanted: Service -> bool, now: int) {
    a in book.stats && wanted(a) && !IsTerrible(book.stats[a], now)
  }

  /** The entries in the first `n` places of the random order that may be handed out are listed. */
  ghost predicate Sampled(info: Infos, n: nat, listed: seq<Service>, book: Book, wanted: Service -> bool, now: int) {
    forall id :: id in info ==> (info[id].addr in listed <==>
        info[id].nRandomPos < n && Offered(book, info[id].addr, wanted, now))
  }

  lemma SampledAll(h: Hashes, s: State, listed: seq<Service>, wanted: Service -> bool, now: int)
    requires Inv(h, s, {}, 0) && Sampled(s.info, |s.vr|, listed, BookOf(s), wanted, now)
    ensures forall a :: Offered(BookOf(s), a, wanted, now) ==> a in listed
  {
    forall a | Offered(BookOf(s), a, wanted, now) ensures a in listed {
      var id := s.ma[a];
      assert id in s.info && s.info[id].addr == a && s.info[id].nRandomPos < |s.vr|;
    }
  }

  /** A shuffle of the places from `n` on, and then a look at the entry in place `n`. */
  lemma SampledNext(info: Infos, info': Infos, vr': seq<int>, n: nat, listed: seq<Service>, listed': seq<Service>,
                    book: Book, wanted: Service -> bool, now: int)
    requires Sampled(info, n, listed, book, wanted, now) && SameButPos(info, info') && RandomOk(info', vr') && n < |vr'|
    requires forall id :: id in info ==>
               if info[id].nRandomPos < n then info'[id].nRandomPos == info[id].nRandomPos
                   else info'[id].nRandomPos >= n
    requires forall id, id' :: id in info && id' in info && info[id].addr == info[id'].addr ==> id == id'
    requires var a := info'[vr'[n]].addr; listed' == if Offered(book, a, wanted, now) then listed + [a] else listed
    ensures Sampled(info', n + 1, listed', book, wanted, now) && info'[vr'[n]].addr !in listed
  {
    hide Offered;
    var x := vr'[n];
    assert x in info' && info'[x].nRandomPos == n && info[x].nRandomPos >= n;
    forall id | id in info'
      ensures info'[id].addr in listed' <==> info'[id].nRandomPos < n + 1 && Offered(book, info'[id].addr, wanted, now)
    {
      assert info'[id].addr == info[id].addr && (info'[id].nRandomPos == n ==> id == x);
    }
  }

  lemma DistinctAddrs(h: Hashes, s: State, limbo: set<int>, u: int)
    requires Inv(h, s, limbo, u)
    ensures forall id, id' :: id in s.info && id' in s.info && s.info[id].addr == s.info[id'].addr ==> id == id'
  {
  }

  /** `waiting` lists the addresses of the collisions that are no longer in `rest`. */
  lemma Listing(collisions: set<int>, info: Infos, rest: set<int>, id: int, waiting: seq<Service>,
      waiting': seq<Service>)
    requires id in rest && rest <= collisions && waiting' == waiting + if id in info then [info[id].addr] else []
    requires forall a :: a in waiting <==> exists x :: x in collisions - rest && x in info && info[x].addr == a
    ensures forall a :: a in waiting' <==> exists x :: x in collisions - (rest - {id}) && x in info && info[x].addr == a
  {
    forall a ensures a in waiting' <==> exists x :: x in collisions - (rest - {id}) && x in info && info[x].addr == a {
      if exists x :: x in collisions - rest && x in info && info[x].addr == a {
        var x :| x in collisions - rest && x in info && info[x].addr == a;
        assert x in collisions - (rest - {id});
      }
    }
  }

  class AddrMan {
    const h: Hashes
    const keyIsNull: bool
    const isRoutable: NetAddr -> bool
    const isValid: Service -> bool

    var mapInfo: Infos
    var mapAddr: map<Service, int>
    var vRandom: seq<int>
    var vvTried: Table
    var vvNew: Table
    var nNew: int
    var nTried: int
    var nIdCount: int
    var nLastGood: int
    var triedCollisions: set<int>

    ghost function St(): State
      reads this
    {
      State(mapInfo, mapAddr, vRandom, vvTried, vvNew, nNew, nTried, nIdCount)
    }

    /** The invariant, but for entries in `limbo` and `uncounted` new entries. */
    ghost predicate Holding(limbo: set<int>, uncounted: int)
      reads this
    {
      Shaped(St()) && Inv(h, St(), limbo, uncounted)
    }

    ghost function Contents(): Book
      reads this
      requires Shaped(St())
    {
      BookOf(St())
    }

    /** What every public operation keeps. */
    ghost predicate Valid()
      reads this
    {
      Holding({}, 0) && Colliding(h, triedCollisions, mapInfo, nIdCount, Contents().tried)
    }

    constructor (h: Hashes, keyIsNull: bool, isRoutable: NetAddr -> bool, isValid: Service -> bool)
      ensures this.h == h && this.keyIsNull == keyIsNull && this.isRoutable == isRoutable && this.isValid == isValid
      ensures Valid() && Blank(Contents()) && vRandom == [] && triedCollisions == {} && nLastGood == 1
    {
      hide Inv, BookOf;
      this.h, this.keyIsNull, this.isRoutable, this.isValid := h, keyIsNull, isRoutable, isValid;
      mapInfo, mapAddr, vRandom := map[], map[], [];
      vvTried, vvNew := EmptyTable(TRIED_BUCKET_COUNT), EmptyTable(NEW_BUCKET_COUNT);
      nNew, nTried, nIdCount, nLastGood, triedCollisions := 0, 0, 0, 1, {};
      new;
      EmptyHolds(h);
      assert St() == EmptyState();
    }

    method Find(addr: Service, ghost limbo: set<int>, ghost u: int) returns (found: bool, nId: int)
      requires Holding(limbo, u)
      ensures found <==> addr in Contents().stats
      ensures found ==> nId in mapInfo && mapInfo[nId].addr == addr && Contents().stats[addr] == StatsOf(mapInfo[nId])
      ensures (addr in mapAddr <==> found) && (found ==> mapAddr[addr] == nId)
    {
      hide Inv, BookOf;
      Found(h, St(), limbo, u, addr);
      found, nId := false, -1;
      if addr in mapAddr {
        nId := mapAddr[addr];
        found := nId in mapInfo;
      }
    }

    method Create(a: Announced, source: NetAddr, ghost limbo: set<int>, ghost u: int) returns (nId: int)
      requires Holding(limbo, u) && a.addr !in mapAddr
      modifies `mapInfo, `mapAddr, `vRandom, `nIdCount
      ensures Holding(limbo + {nId}, u + 1)
      ensures nId == old(nIdCount) && nIdCount == nId + 1 && nId !in old(mapInfo)
      ensures mapInfo == old(mapInfo)[nId :=
                AddrInfo(a.addr, a.nTime, a.nServices, source, 0, 0, 0, 0, 0, false, |vRandom| - 1)]
      ensures Contents() == old(Contents()).(stats := old(Contents()).stats[a.addr :=
                Stats(a.nTime, a.nServices, source, 0, 0, 0, 0)])
    {
      hide Inv, BookOf;
      ghost var s, e := St(), AddrInfo(a.addr, a.nTime, a.nServices, source, 0, 0, 0, 0, 0, false, |vRandom|);
      Ranges(h, s, limbo, u);
      Created(h, s, limbo, u, e);
      nId := nIdCount;
      nIdCount := nIdCount + 1;
      var info := AddrInfo(a.addr, a.nTime, a.nServices, source, 0, 0, 0, 0, 0, false, -1);
      mapInfo := mapInfo[nId := info];
      mapAddr := mapAddr[a.addr := nId];
      mapInfo := mapInfo[nId := info.(nRandomPos := |vRandom|)];
      vRandom := vRandom + [nId];
      SetTwice(s.info, nId, info, e);
      assert St() == s.(info := s.info[nId := e], ma := s.ma[e.addr := nId], vr := s.vr + [nId], nIdCount := nId + 1);
    }

    method SwapRandom(nRndPos1: nat, nRndPos2: nat, ghost limbo: set<int>, ghost u: int)
      requires Holding(limbo, u) && nRndPos1 < |vRandom| && nRndPos2 < |vRandom|
      modifies `mapInfo, `vRandom
      ensures Holding(limbo, u) && Contents() == old(Contents()) && SameButPos(old(mapInfo), mapInfo)
      ensures vRandom == old(vRandom)[nRndPos1 := old(vRandom)[nRndPos2]][nRndPos2 := old(vRandom)[nRndPos1]]
    {
      if nRndPos1 == nRndPos2 { return; }
      hide BookOf, TriedOk, NewOk, RefsOk, EntriesOk, AddrOk;
      var nId1, nId2 := vRandom[nRndPos1], vRandom[nRndPos2];
      Swapped(mapInfo, vRandom, nRndPos1, nRndPos2);
      ghost var s := St();
      mapInfo := mapInfo[nId1 := mapInfo[nId1].(nRandomPos := nRndPos2)];
      mapInfo := mapInfo[nId2 := mapInfo[nId2].(nRandomPos := nRndPos1)];
      vRandom := vRandom[nRndPos1 := nId2];
      vRandom := vRandom[nRndPos2 := nId1];
      Reordered(h, s, limbo, u, mapInfo, vRandom);
    }

    method Delete(nId: int, ghost limbo: set<int>, ghost u: int)
      requires Holding(limbo, u) && nId in mapInfo && !mapInfo[nId].fInTried && mapInfo[nId].nRefCount == 0
      modifies `mapInfo, `mapAddr, `vRandom, `nNew
      ensures Holding(limbo - {nId}, u)
      ensures Contents() == old(Contents()).(stats := old(Contents()).stats - {old(mapInfo[nId]).addr})
      ensures SameButPos(old(mapInfo) - {nId}, mapInfo) && nNew == old(nNew) - 1
    {
      hide Inv, BookOf;
      ghost var info := mapInfo[nId];
      Ranges(h, St(), limbo, u);
      SwapRandom(mapInfo[nId].nRandomPos, |vRandom| - 1, limbo, u);
      Deleted(h, St(), limbo, u, nId);
      vRandom := vRandom[..|vRandom| - 1];
      mapAddr := mapAddr - {mapInfo[nId].addr};
      mapInfo := mapInfo - {nId};
      nNew := nNew - 1;
    }

    /** Every entry but one is still there, possibly elsewhere in the random order. */
    ghost predicate Kept(info: Infos, but: int)
      reads this
    {
      forall id :: id in info && id != but ==>
          id in mapInfo && mapInfo[id] == info[id].(nRandomPos := mapInfo[id].nRandomPos)
    }

    method ClearNew(nUBucket: nat, nUBucketPos: nat, ghost limbo: set<int>, ghost u: int)
      requires Holding(limbo, u) && nUBucket < NEW_BUCKET_COUNT && nUBucketPos < BUCKET_SIZE
      modifies `mapInfo, `mapAddr, `vRandom, `vvNew, `nNew
      ensures Holding(limbo, u) && At(vvNew, nUBucket, nUBucketPos) == -1
      ensures Contents() == ClearSlot(old(Contents()), Slot(nUBucket, nUBucketPos))
      ensures Kept(old(mapInfo), old(At(vvNew, nUBucket, nUBucketPos))) && SubIds(old(mapInfo), mapInfo)
    {
      hide Inv, BookOf;
      ghost var s := St();
      NewOccupant(h, s, limbo, u, nUBucket, nUBucketPos);
      if At(vvNew, nUBucket, nUBucketPos) != -1 {
        var nIdDelete := At(vvNew, nUBucket, nUBucketPos);
        var infoDelete := mapInfo[nIdDelete].(nRefCount := mapInfo[nIdDelete].nRefCount - 1);
        Ranges(h, s, limbo, u);
        NewSlotChanged(h, s, limbo, limbo + {nIdDelete}, u, nUBucket, nUBucketPos, -1, nIdDelete, infoDelete);
        mapInfo := mapInfo[nIdDelete := infoDelete];
        vvNew := Set(vvNew, NEW_BUCKET_COUNT, nUBucket, nUBucketPos, -1);
        UnreferencedIffUnplaced(h, St(), limbo + {nIdDelete}, u, nIdDelete);
        if infoDelete.nRefCount == 0 {
          Delete(nIdDelete, limbo + {nIdDelete}, u);
          Widen(h, St(), limbo + {nIdDelete} - {nIdDelete}, limbo, u);
        } else {
          Narrow(h, St(), limbo + {nIdDelete}, limbo, u);
        }
      }
    }

    /** The scan at the start of MakeTried: the entry leaves every new bucket. */
    method RemoveFromNew(nId: int)
      requires Holding({}, 0) && nId in mapInfo && !mapInfo[nId].fInTried
      modifies `mapInfo, `vvNew
      ensures Holding({nId}, 0) && mapInfo == old(mapInfo)[nId := old(mapInfo[nId]).(nRefCount := 0)]
      ensures Contents() == old(Contents()).(fresh' := Without(old(Contents()).fresh', mapInfo[nId].addr))
    {
      hide Inv, BookOf;
      ghost var a, book := mapInfo[nId].addr, Contents();
      var startBucket := h.New(mapInfo[nId].addr, mapInfo[nId].source);
      Widen(h, St(), {}, {nId}, 0);
      var n := 0;
      assert mapInfo == old(mapInfo)[nId := mapInfo[nId]];
      while n < NEW_BUCKET_COUNT
        invariant 0 <= n <= NEW_BUCKET_COUNT && Holding({nId}, 0) && nId in mapInfo
        invariant mapInfo[nId] == old(mapInfo[nId]).(nRefCount := mapInfo[nId].nRefCount)
        invariant mapInfo == old(mapInfo)[nId := mapInfo[nId]]
        invariant Contents() == book.(fresh' := Contents().fresh') && Dropping(book.fresh', Contents().fresh', a)
        invariant forall m :: 0 <= m < n ==> !Stands(h, St(), nId, Wrap(startBucket, m))
      {
        var bucket := Wrap(startBucket, n);
        n := n + 1;
        if At(vvNew, bucket, h.NewPos(mapInfo[nId].addr, bucket)) == nId {
          TakeOut(nId, bucket);
          if mapInfo[nId].nRefCount == 0 { break; }
        }
      }
      if mapInfo[nId].nRefCount != 0 { ScanCovers(h, St(), {nId}, 0, nId, startBucket); }
      UnreferencedIffUnplaced(h, St(), {nId}, 0, nId);
      Dropped(book.fresh', Contents().fresh', a);
    }

    method TakeOut(nId: int, bucket: nat)
      requires Holding({nId}, 0) && nId in mapInfo && !mapInfo[nId].fInTried && bucket < NEW_BUCKET_COUNT
      requires Stands(h, St(), nId, bucket)
      modifies `mapInfo, `vvNew
      ensures Holding({nId}, 0) && mapInfo == old(mapInfo)[nId := old(mapInfo[nId]).(nRefCount :=
                old(mapInfo[nId].nRefCount) - 1)]
      ensures forall b: nat :: b < NEW_BUCKET_COUNT ==>
                Stands(h, St(), nId, b) == (b != bucket && old(Stands(h, St(), nId, b)))
      ensures var l := Slot(bucket, h.NewPos(mapInfo[nId].addr, bucket));
              && l in old(Contents()).fresh' && old(Contents()).fresh'[l] == mapInfo[nId].addr
              && Contents() == old(Contents()).(fresh' := old(Contents()).fresh' - {l})
    {
      hide Inv, BookOf;
      var pos := h.NewPos(mapInfo[nId].addr, bucket);
      ghost var s := St();
      Ranges(h, s, {nId}, 0);
      NewOccupant(h, s, {nId}, 0, bucket, pos);
      var info := mapInfo[nId].(nRefCount := mapInfo[nId].nRefCount - 1);
      NewSlotChanged(h, s, {nId}, {nId}, 0, bucket, pos, -1, nId, info);
      vvNew := Set(vvNew, NEW_BUCKET_COUNT, bucket, pos, -1);
      mapInfo := mapInfo[nId := info];
    }

    /** Puts an entry without references into an empty new slot. */
    method Enter(nId: int, nUBucket: nat, ghost limbo: set<int>, ghost u: int)
      requires Holding(limbo, u) && nId in mapInfo && !mapInfo[nId].fInTried && nUBucket < NEW_BUCKET_COUNT
      requires mapInfo[nId].nRefCount < NEW_BUCKETS_PER_ADDRESS &&
                 At(vvNew, nUBucket, h.NewPos(mapInfo[nId].addr, nUBucket)) == -1
      modifies `mapInfo, `vvNew
      ensures Holding(limbo - {nId}, u)
      ensures mapInfo == old(mapInfo)[nId := old(mapInfo[nId]).(nRefCount := old(mapInfo[nId].nRefCount) + 1)]
      ensures var l := NewSlotIn(h, mapInfo[nId].addr, nUBucket);
              Contents() == old(Contents()).(fresh' := old(Contents()).fresh'[l := mapInfo[nId].addr])
    {
      hide Inv, BookOf;
      var pos := h.NewPos(mapInfo[nId].addr, nUBucket);
      var info := mapInfo[nId].(nRefCount := mapInfo[nId].nRefCount + 1);
      Ranges(h, St(), limbo, u);
      NewSlotChanged(h, St(), limbo, limbo - {nId}, u, nUBucket, pos, nId, nId, info);
      mapInfo := mapInfo[nId := info];
      vvNew := Set(vvNew, NEW_BUCKET_COUNT, nUBucket, pos, nId);
    }

    /** Takes the entry out of a tried slot. */
    method Untry(nKBucket: nat, nKBucketPos: nat, ghost limbo: set<int>, ghost u: int) returns (nIdEvict: int)
      requires Holding(limbo, u) && nKBucket < TRIED_BUCKET_COUNT && nKBucketPos < BUCKET_SIZE
      requires At(vvTried, nKBucket, nKBucketPos) != -1
      modifies `mapInfo, `vvTried, `nTried
      ensures nIdEvict == At(old(vvTried), nKBucket, nKBucketPos) && nIdEvict in old(mapInfo) &&
                old(mapInfo[nIdEvict].fInTried)
      ensures Holding(limbo + {nIdEvict}, u + 1) &&
                vvTried == Set(old(vvTried), TRIED_BUCKET_COUNT, nKBucket, nKBucketPos, -1)
      ensures mapInfo == old(mapInfo)[nIdEvict := old(mapInfo[nIdEvict]).(fInTried := false)] &&
                mapInfo[nIdEvict].nRefCount == 0
      ensures var l := Slot(nKBucket, nKBucketPos);
              && l in old(Contents()).tried && old(Contents()).tried[l] == mapInfo[nIdEvict].addr
              && SourceOf(old(Contents()).stats, mapInfo[nIdEvict].addr) == mapInfo[nIdEvict].source
              && Contents() == old(Contents()).(tried := old(Contents()).tried - {l})
    {
      hide Inv, BookOf;
      ghost var s := St();
      nIdEvict := At(vvTried, nKBucket, nKBucketPos);
      TriedOccupant(h, s, limbo, u, nKBucket, nKBucketPos);
      Ranges(h, s, limbo, u);
      Located(h, s, limbo, u, nIdEvict);
      var infoOld := mapInfo[nIdEvict].(fInTried := false);
      TriedSlotChanged(h, s, limbo, limbo + {nIdEvict}, u, -1, nIdEvict, infoOld);
      mapInfo := mapInfo[nIdEvict := infoOld];
      vvTried := Set(vvTried, TRIED_BUCKET_COUNT, nKBucket, nKBucketPos, -1);
      nTried := nTried - 1;
    }

    /** The tried entry in the way goes back to its new slot, whose occupant loses a reference. */
    method Evict(nKBucket: nat, nKBucketPos: nat, nId: int)
      requires Holding({nId}, 1) && nId in mapInfo && mapInfo[nId].nRefCount == 0 && !mapInfo[nId].fInTried
      requires nKBucket < TRIED_BUCKET_COUNT && nKBucketPos < BUCKET_SIZE && At(vvTried, nKBucket, nKBucketPos) != -1
      modifies `mapInfo, `mapAddr, `vRandom, `vvNew, `vvTried, `nNew, `nTried
      ensures Holding({nId}, 1) && nId in mapInfo &&
                mapInfo[nId] == old(mapInfo[nId]).(nRandomPos := mapInfo[nId].nRandomPos)
      ensures vvTried == Set(old(vvTried), TRIED_BUCKET_COUNT, nKBucket, nKBucketPos, -1) &&
                SubIds(old(mapInfo), mapInfo)
      ensures Slot(nKBucket, nKBucketPos) in old(Contents()).tried
      ensures Contents() == Evicted(h, old(Contents()), Slot(nKBucket, nKBucketPos))
    {
      hide Inv, BookOf, ClearSlot;
      var nIdEvict := Untry(nKBucket, nKBucketPos, {nId}, 1);
      var nUBucket := h.New(mapInfo[nIdEvict].addr, mapInfo[nIdEvict].source);
      var nUBucketPos := h.NewPos(mapInfo[nIdEvict].addr, nUBucket);
      NewOccupant(h, St(), {nId} + {nIdEvict}, 2, nUBucket, nUBucketPos);
      Ranges(h, St(), {nId} + {nIdEvict}, 2);
      ClearNew(nUBucket, nUBucketPos, {nId} + {nIdEvict}, 2);
      Reenter(nIdEvict, nId, nUBucket);
    }

    /** Enters an evicted entry into the new set again. */
    method Reenter(nIdEvict: int, nId: int, nUBucket: nat)
      requires Holding({nId} + {nIdEvict}, 2) && nIdEvict in mapInfo && nUBucket < NEW_BUCKET_COUNT
      requires !mapInfo[nIdEvict].fInTried && mapInfo[nIdEvict].nRefCount == 0
      requires At(vvNew, nUBucket, h.NewPos(mapInfo[nIdEvict].addr, nUBucket)) == -1
      modifies `mapInfo, `vvNew, `nNew
      ensures Holding({nId}, 1) && mapInfo == old(mapInfo)[nIdEvict := old(mapInfo[nIdEvict]).(nRefCount := 1)]
      ensures Contents() == old(Contents()).(fresh' :=
                old(Contents()).fresh'[NewSlotIn(h, mapInfo[nIdEvict].addr, nUBucket) := mapInfo[nIdEvict].addr])
    {
      hide Inv, BookOf;
      Enter(nIdEvict, nUBucket, {nId} + {nIdEvict}, 2);
      Counted(h, St(), {nId} + {nIdEvict} - {nIdEvict}, 2, 1);
      nNew := nNew + 1;
      Widen(h, St(), {nId} + {nIdEvict} - {nIdEvict}, {nId}, 1);
    }

    /** Puts an entry without references into its empty tried slot. */
    method EnterTried(nId: int)
      requires Holding({nId}, 1) && nId in mapInfo && mapInfo[nId].nRefCount == 0 && !mapInfo[nId].fInTried
      requires At(vvTried, h.Tried(mapInfo[nId].addr), h.TriedPos(mapInfo[nId].addr)) == -1
      modifies `mapInfo, `vvTried, `nTried
      ensures Holding({}, 0) && mapInfo == old(mapInfo)[nId := old(mapInfo[nId]).(fInTried := true)]
      ensures Contents() == old(Contents()).(tried := old(Contents()).tried[TriedSlot(h, mapInfo[nId].addr) :=
                mapInfo[nId].addr])
    {
      hide Inv, BookOf;
      var nKBucket, nKBucketPos := h.Tried(mapInfo[nId].addr), h.TriedPos(mapInfo[nId].addr);
      var info := mapInfo[nId].(fInTried := true);
      TriedSlotChanged(h, St(), {nId}, {}, 1, nId, nId, info);
      vvTried := Set(vvTried, TRIED_BUCKET_COUNT, nKBucket, nKBucketPos, nId);
      nTried := nTried + 1;
      mapInfo := mapInfo[nId := info];
    }

    method MakeTried(nId: int)
      requires Holding({}, 0) && nId in mapInfo && !mapInfo[nId].fInTried
      modifies `mapInfo, `mapAddr, `vRandom, `vvNew, `vvTried, `nNew, `nTried
      ensures Holding({}, 0) && nId in mapInfo && mapInfo[nId].addr == old(mapInfo[nId].addr)
      ensures Contents() == MoveToTried(h, old(Contents()), mapInfo[nId].addr) && SubIds(old(mapInfo), mapInfo)
    {
      hide Inv, BookOf, Evicted, Without;
      RemoveFromNew(nId);
      Counted(h, St(), {nId}, 0, -1);
      nNew := nNew - 1;
      var nKBucket := h.Tried(mapInfo[nId].addr);
      var nKBucketPos := h.TriedPos(mapInfo[nId].addr);
      TriedOccupant(h, St(), {nId}, 1, nKBucket, nKBucketPos);
      if At(vvTried, nKBucket, nKBucketPos) != -1 {
        Evict(nKBucket, nKBucketPos, nId);
      }
      EnterTried(nId);
    }

    /** Changes what is known about an address, and no bookkeeping. */
    method Update(nId: int, info: AddrInfo, ghost limbo: set<int>, ghost u: int)
      requires Holding(limbo, u) && nId in mapInfo && SameBookkeeping(mapInfo[nId], info)
      modifies `mapInfo
      ensures Holding(limbo, u) && mapInfo == old(mapInfo)[nId := info]
      ensures Contents() == old(Contents()).(stats := old(Contents()).stats[info.addr := StatsOf(info)])
    {
      hide Inv, BookOf;
      Sound(h, St(), limbo, u, nId);
      StatsUpdated(h, St(), limbo, u, nId, info);
      mapInfo := mapInfo[nId := info];
    }

    /** The same between operations. */
    method Amend(nId: int, info: AddrInfo)
      requires Valid() && nId in mapInfo && SameBookkeeping(mapInfo[nId], info)
      modifies `mapInfo
      ensures Valid() && mapInfo == old(mapInfo)[nId := info] && SubIds(old(mapInfo), mapInfo)
      ensures Contents() == old(Contents()).(stats := old(Contents()).stats[info.addr := StatsOf(info)])
    {
      hide Inv, BookOf, Colliding;
      Update(nId, info, {}, 0);
      StillColliding(h, triedCollisions, old(mapInfo), mapInfo, nIdCount, old(Contents()).tried, Contents().tried);
    }

    method Good_(addr: Service, testBeforeEvict: bool, nTime: int)
      requires Valid()
      modifies `mapInfo, `mapAddr, `vRandom, `vvNew, `vvTried, `nNew, `nTried, `triedCollisions, `nLastGood
      ensures Valid() && nLastGood == nTime && SubIds(old(mapInfo), mapInfo)
      ensures Contents() == Good(h, old(Contents()), addr, testBeforeEvict, nTime)
      ensures triedCollisions == old(triedCollisions) + if Waits(h, old(Contents()), addr, testBeforeEvict) &&
                addr in old(mapAddr)
                && |old(triedCollisions)| < SET_TRIED_COLLISION_SIZE then {old(mapAddr)[addr]} else {}
    {
      hide Inv, BookOf, MoveToTried, Colliding;
      nLastGood := nTime;
      var found, nId := Find(addr, {}, 0);
      if found {
        var info := mapInfo[nId];
        TriedFlag(h, St(), {}, 0, nId);
        Amend(nId, info.(nLastSuccess := nTime, nLastTry := nTime, nAttempts := 0));
        if !info.fInTried { Promote(nId, testBeforeEvict); }
      }
    }

    /** The second half of Good_: the entry is new. */
    method Promote(nId: int, testBeforeEvict: bool)
      requires Valid() && nId in mapInfo && !mapInfo[nId].fInTried
      modifies `mapInfo, `mapAddr, `vRandom, `vvNew, `vvTried, `nNew, `nTried, `triedCollisions
      ensures Valid() && SubIds(old(mapInfo), mapInfo)
      ensures var a, book := old(mapInfo[nId].addr), old(Contents());
              var waits := testBeforeEvict && TriedSlot(h, a) in book.tried;
              && Contents() == (if waits then book else MoveToTried(h, book, a))
              && triedCollisions == old(triedCollisions) + if waits &&
                  |old(triedCollisions)| < SET_TRIED_COLLISION_SIZE then {nId} else {}
    {
      hide Inv, BookOf, MoveToTried;
      var addr := mapInfo[nId].addr;
      TriedFlag(h, St(), {}, 0, nId);
      Sound(h, St(), {}, 0, nId);
      assert mapInfo[nId].nRefCount > 0;
      if testBeforeEvict && At(vvTried, h.Tried(addr), h.TriedPos(addr)) != -1 {
        if |triedCollisions| < SET_TRIED_COLLISION_SIZE {
          OneMoreColliding(h, triedCollisions, mapInfo, nIdCount, Contents().tried, nId);
          triedCollisions := triedCollisions + {nId};
        }
      } else {
        MakeTried(nId);
        TriedGrows(h, old(Contents()), addr);
        StillColliding(h, triedCollisions, old(mapInfo), mapInfo, nIdCount, old(Contents()).tried, Contents().tried);
      }
    }

    method Attempt_(addr: Service, fCountFailure: bool, nTime: int)
      requires Valid()
      modifies `mapInfo
      ensures Valid() && Contents() == Attempt(old(Contents()), addr, fCountFailure, nTime, nLastGood)
    {
      hide Inv, BookOf;
      var found, nId := Find(addr, {}, 0);
      if !found { return; }
      var info := mapInfo[nId].(nLastTry := nTime);
      if fCountFailure && info.nLastCountAttempt < nLastGood {
        info := info.(nLastCountAttempt := nTime, nAttempts := info.nAttempts + 1);
      }
      Amend(nId, info);
    }

    method Connected_(addr: Service, nTime: int)
      requires Valid()
      modifies `mapInfo
      ensures Valid() && Contents() == Connected(old(Contents()), addr, nTime)
    {
      hide Inv, BookOf;
      var found, nId := Find(addr, {}, 0);
      if !found { return; }
      var nUpdateInterval := 20 * 60;
      if nTime - mapInfo[nId].nTime > nUpdateInterval {
        Amend(nId, mapInfo[nId].(nTime := ToU32(nTime)));
      }
    }

    method SetServices_(addr: Service, nServices: bv64)
      requires Valid()
      modifies `mapInfo
      ensures Valid() && Contents() == SetServices(old(Contents()), addr, nServices)
    {
      hide Inv, BookOf;
      var found, nId := Find(addr, {}, 0);
      if !found { return; }
      Amend(nId, mapInfo[nId].(nServices := nServices));
    }

    /** The last part of Add_: offers the entry the new slot that its source gives it. */
    method OfferSlot(nId: int, source: NetAddr, now: int)
      requires Holding({nId}, 0) && nId in mapInfo && !mapInfo[nId].fInTried &&
                 mapInfo[nId].nRefCount < NEW_BUCKETS_PER_ADDRESS
      modifies `mapInfo, `mapAddr, `vRandom, `vvNew, `nNew
      ensures Holding({}, 0) && SubIds(old(mapInfo), mapInfo)
      ensures var a := old(mapInfo[nId].addr); Contents() == Offer(h, old(Contents()), a, NewSlot(h, a, source), now)
    {
      hide Inv, BookOf, ClearSlot, Yields, References, IsTerrible;
      var nUBucket := h.New(mapInfo[nId].addr, source);
      var nUBucketPos := h.NewPos(mapInfo[nId].addr, nUBucket);
      var occupant := At(vvNew, nUBucket, nUBucketPos);
      NewOccupant(h, St(), {nId}, 0, nUBucket, nUBucketPos);
      Ranges(h, St(), {nId}, 0);
      RefCount(h, St(), {nId}, 0, nId);
      if occupant == nId {
        Narrow(h, St(), {nId}, {}, 0);
      } else {
        var fInsert := occupant == -1;
        if !fInsert {
          SameId(h, St(), {nId}, 0, nId, occupant);
          Yielding(h, St(), {nId}, 0, nId, occupant, now);
          fInsert := IsTerrible(StatsOf(mapInfo[occupant]), now) || (mapInfo[occupant].nRefCount > 1 &&
              mapInfo[nId].nRefCount == 0);
        }
        if fInsert {
          ClearNew(nUBucket, nUBucketPos, {nId}, 0);
          Enter(nId, nUBucket, {nId}, 0);
          Widen(h, St(), {nId} - {nId}, {}, 0);
        } else if mapInfo[nId].nRefCount == 0 {
          Delete(nId, {nId}, 0);
          Widen(h, St(), {nId} - {nId}, {}, 0);
        } else {
          Narrow(h, St(), {nId}, {}, 0);
        }
      }
    }

    method OfferIn(nId: int, source: NetAddr, now: int)
      requires Holding({nId}, 0) && nId in mapInfo && !mapInfo[nId].fInTried &&
                 mapInfo[nId].nRefCount < NEW_BUCKETS_PER_ADDRESS
      requires Colliding(h, triedCollisions, mapInfo, nIdCount, Contents().tried)
      modifies `mapInfo, `mapAddr, `vRandom, `vvNew, `nNew
      ensures Valid()
      ensures var a := old(mapInfo[nId].addr); Contents() == Offer(h, old(Contents()), a, NewSlot(h, a, source), now)
    {
      hide Inv, BookOf, Colliding, Offer;
      OfferSlot(nId, source, now);
      OfferKeepsTried(h, old(Contents()), old(mapInfo[nId].addr), NewSlot(h, old(mapInfo[nId].addr), source), now);
      StillColliding(h, triedCollisions, old(mapInfo), mapInfo, nIdCount, old(Contents()).tried, Contents().tried);
    }

    /** The tests Add_ makes before a known address gets another slot. */
    method EarnsSlot(nId: int, a: Announced, draw: nat) returns (earns: bool)
      requires Holding({}, 0) && nId in mapInfo && mapInfo[nId].addr == a.addr
      ensures earns <==> Earns(h, Contents(), a, StatsOf(mapInfo[nId]), draw)
      ensures earns ==> !mapInfo[nId].fInTried && mapInfo[nId].nRefCount < NEW_BUCKETS_PER_ADDRESS
    {
      hide Inv, BookOf, References, IsTried;
      TriedFlag(h, St(), {}, 0, nId);
      RefCount(h, St(), {}, 0, nId);
      Ranges(h, St(), {}, 0);
      if a.nTime == 0 || (mapInfo[nId].nTime != 0 && a.nTime <= mapInfo[nId].nTime) { return false; }
      if mapInfo[nId].fInTried { return false; }
      if mapInfo[nId].nRefCount == NEW_BUCKETS_PER_ADDRESS { return false; }
      var nFactor := 1;
      for n := 0 to mapInfo[nId].nRefCount
        invariant nFactor == Pow(2, n)
      {
        nFactor := nFactor * 2;
      }
      PowPositive(2, mapInfo[nId].nRefCount);
      if nFactor > 1 && draw % nFactor != 0 { return false; }
      return true;
    }

    method Add_(a: Announced, source: NetAddr, nTimePenalty: int, now: int, draw: nat) returns (fNew: bool)
      requires Valid()
      modifies `mapInfo, `mapAddr, `vRandom, `vvNew, `nNew, `nIdCount
      ensures Valid()
      ensures fNew <==> isRoutable(a.addr.net) && a.addr !in old(Contents()).stats
      ensures Contents() == if isRoutable(a.addr.net) then Add(h, old(Contents()), a, source, nTimePenalty, now, draw)
                else old(Contents())
    {
      hide Inv, BookOf, Offer, Earns, Colliding;
      if !isRoutable(a.addr.net) { return false; }
      var penalty := if a.addr.net == source then 0 else nTimePenalty;
      var found, nId := Find(a.addr, {}, 0);
      if found {
        fNew := false;
        Refresh(nId, a, penalty, now);
        EarnsByPlace(h, old(Contents()), Contents(), a, StatsOf(mapInfo[nId]), draw);
        var earns := EarnsSlot(nId, a, draw);
        if earns {
          Widen(h, St(), {}, {nId}, 0);
          OfferIn(nId, source, now);
        }
      } else {
        fNew := true;
        nId := Introduce(a, source, penalty);
        OfferIn(nId, source, now);
      }
    }

    method Refresh(nId: int, a: Announced, penalty: int, now: int)
      requires Valid() && nId in mapInfo && mapInfo[nId].addr == a.addr
      modifies `mapInfo
      ensures Valid() && SubIds(old(mapInfo), mapInfo) && nId in mapInfo && mapInfo[nId].addr == a.addr
      ensures var e := Refreshed(StatsOf(old(mapInfo[nId])), a, penalty, now);
              StatsOf(mapInfo[nId]) == e && Contents() == old(Contents()).(stats := old(Contents()).stats[a.addr := e])
    {
      hide Inv, BookOf, Colliding, Refreshed, StatsOf;
      var info := RefreshInfo(mapInfo[nId], a, penalty, now);
      Amend(nId, info);
    }

    static method RefreshInfo(old': AddrInfo, a: Announced, penalty: int, now: int) returns (info: AddrInfo)
      ensures SameBookkeeping(old', info) && StatsOf(info) == Refreshed(StatsOf(old'), a, penalty, now)
    {
      hide ToU32, AllServices;
      info := old';
      var fCurrentlyOnline := now - a.nTime < 24 * 60 * 60;
      var nUpdateInterval := if fCurrentlyOnline then 60 * 60 else 24 * 60 * 60;
      if a.nTime != 0 && (info.nTime == 0 || info.nTime < a.nTime - nUpdateInterval - penalty) {
        info := info.(nTime := ToU32(Max0(a.nTime - penalty)));
      }
      info := info.(nServices := AllServices(info.nServices, a.nServices));
    }

    method Introduce(a: Announced, source: NetAddr, penalty: int) returns (nId: int)
      requires Valid() && a.addr !in mapAddr
      modifies `mapInfo, `mapAddr, `vRandom, `nIdCount, `nNew
      ensures Holding({nId}, 0) && nId in mapInfo && Colliding(h, triedCollisions, mapInfo, nIdCount, Contents().tried)
      ensures mapInfo[nId].addr == a.addr && !mapInfo[nId].fInTried && mapInfo[nId].nRefCount == 0
      ensures Contents() == old(Contents()).(stats := old(Contents()).stats[a.addr :=
                Stats(ToU32(Max0(a.nTime - penalty)), a.nServices, source, 0, 0, 0, 0)])
    {
      hide Inv, BookOf;
      nId := Create(a, source, {}, 0);
      var info := mapInfo[nId];
      Update(nId, info.(nTime := ToU32(Max0(info.nTime - penalty))), {} + {nId}, 1);
      Counted(h, St(), {} + {nId}, 1, 1);
      nNew := nNew + 1;
      Widen(h, St(), {} + {nId}, {nId}, 0);
    }

    /** Offers a waiting address's rival for a test connection; forgets a collision that is no longer known. */
    method SelectTriedCollision_() returns (r: Option<(Service, int)>)
      requires Valid()
      modifies `triedCollisions
      ensures Valid() && triedCollisions <= old(triedCollisions)
      ensures r.Some? ==> triedCollisions == old(triedCollisions) && exists id ::
                && id in triedCollisions && id in mapInfo
                && TriedSlot(h, mapInfo[id].addr) == TriedSlot(h, r.value.0) && IsTried(h, Contents(), r.value.0)
                && r.value.0 in Contents().stats && r.value.1 == Contents().stats[r.value.0].nLastTry
      ensures r.None? ==>
                || old(triedCollisions) == {}
                || exists id ::
                     id in old(triedCollisions) && id !in mapInfo && triedCollisions == old(triedCollisions) - {id}
    {
      hide Inv, BookOf;
      if |triedCollisions| == 0 { return None; }
      ghost var some := Least(triedCollisions);
      var idNew :| idNew in triedCollisions;
      if idNew !in mapInfo {
        triedCollisions := triedCollisions - {idNew};
        return None;
      }
      var bucket, pos := h.Tried(mapInfo[idNew].addr), h.TriedPos(mapInfo[idNew].addr);
      TriedOccupant(h, St(), {}, 0, bucket, pos);
      var idOld := At(vvTried, bucket, pos);
      Located(h, St(), {}, 0, idOld);
      r := Some((mapInfo[idOld].addr, mapInfo[idOld].nLastTry));
    }

    method ResolveCollision(idNew: int, now: int) returns (erase: bool)
      requires Valid()
      modifies `mapInfo, `mapAddr, `vRandom, `vvNew, `vvTried, `nNew, `nTried, `triedCollisions, `nLastGood
      ensures Valid() && triedCollisions == old(triedCollisions) && SubIds(old(mapInfo), mapInfo)
      ensures idNew !in old(mapInfo) ==> erase && Contents() == old(Contents())
      ensures idNew in old(mapInfo) ==>
                var a, book := old(mapInfo[idNew].addr), old(Contents());
                Contents() == Resolve(h, isValid, book, a, now) && (erase <==> Judge(h, isValid, book, a, now) != Keep)
    {
      hide Inv, BookOf, Good, Colliding;
      if idNew !in mapInfo { return true; }
      var infoNew := mapInfo[idNew];
      Located(h, St(), {}, 0, idNew);
      var bucket, pos := h.Tried(infoNew.addr), h.TriedPos(infoNew.addr);
      TriedOccupant(h, St(), {}, 0, bucket, pos);
      var good := false;
      if !isValid(infoNew.addr) {
        erase := true;
      } else if At(vvTried, bucket, pos) != -1 {
        var idOld := At(vvTried, bucket, pos);
        Located(h, St(), {}, 0, idOld);
        good, erase := JudgeRival(StatsOf(mapInfo[idOld]), StatsOf(infoNew), now);
      } else {
        good, erase := true, true;
      }
      if good { Good_(infoNew.addr, false, now); }
    }

    static method JudgeRival(infoOld: Stats, infoNew: Stats, now: int) returns (good: bool, erase: bool)
      ensures erase <==> good || now - infoOld.nLastSuccess < REPLACEMENT_SECONDS
      ensures good <==> && now - infoOld.nLastSuccess >= REPLACEMENT_SECONDS
                        && if now - infoOld.nLastTry < REPLACEMENT_SECONDS then now - infoOld.nLastTry > 60
                           else now - infoNew.nLastSuccess > TEST_WINDOW
    {
      good, erase := false, false;
      if now - infoOld.nLastSuccess < REPLACEMENT_SECONDS {
        erase := true;
      } else if now - infoOld.nLastTry < REPLACEMENT_SECONDS {
        if now - infoOld.nLastTry > 60 { good, erase := true, true; }
      } else if now - infoNew.nLastSuccess > TEST_WINDOW {
        good, erase := true, true;
      }
    }

    /** Goes through the collisions in the order of their ids; `waiting` lists the addresses met. */
    method ResolveCollisions_(now: int) returns (ghost waiting: seq<Service>)
      requires Valid()
      modifies `mapInfo, `mapAddr, `vRandom, `vvNew, `vvTried, `nNew, `nTried, `triedCollisions, `nLastGood
      ensures Valid() && triedCollisions <= old(triedCollisions) && triedCollisions <= old(mapInfo).Keys
      ensures Contents() == ResolveAll(h, isValid, old(Contents()), waiting, now)
      ensures TimesOk(old(Contents())) ==> TimesOk(Contents())
      ensures Stored(old(triedCollisions), old(mapInfo), waiting)
    {
      hide Inv, BookOf, Good, Judge, Colliding, TimesOk;
      var rest := triedCollisions;
      ghost var s0 := St();
      waiting := [];
      while rest != {}
        invariant Valid() && SubIds(s0.info, mapInfo) && rest <= triedCollisions <= old(triedCollisions)
        invariant triedCollisions - rest <= s0.info.Keys
        invariant Contents() == ResolveAll(h, isValid, old(Contents()), waiting, now)
        invariant forall a :: a in waiting <==>
                    exists id :: id in old(triedCollisions) - rest && id in s0.info && s0.info[id].addr == a
        decreases rest
      {
        ghost var least := Least(rest);
        var idNew :| idNew in rest && forall x :: x in rest ==> idNew <= x;
        ghost var were := waiting;
        if idNew in s0.info { waiting := waiting + [s0.info[idNew].addr]; }
        var erase := ResolveNext(idNew, now, s0);
        Listing(old(triedCollisions), s0.info, rest, idNew, were, waiting);
        rest := rest - {idNew};
        assert waiting != were ==> waiting[..|waiting| - 1] == were;
      }
      if TimesOk(BookOf(s0)) { StoredTimes(h, isValid, s0, old(triedCollisions), waiting, now); }
    }

    method ResolveNext(idNew: int, now: int, ghost s0: State) returns (erase: bool)
      requires Valid() && Inv(h, s0, {}, 0) && SubIds(s0.info, mapInfo)
      modifies `mapInfo, `mapAddr, `vRandom, `vvNew, `vvTried, `nNew, `nTried, `triedCollisions, `nLastGood
      ensures Valid() && SubIds(s0.info, mapInfo) &&
                triedCollisions == old(triedCollisions) - if erase then {idNew} else {}
      ensures idNew !in s0.info ==> erase && Contents() == old(Contents())
      ensures idNew in s0.info ==> Contents() == Resolve(h, isValid, old(Contents()), s0.info[idNew].addr, now)
    {
      hide Inv, BookOf, Good, Colliding;
      if idNew in s0.info && idNew !in mapInfo { Gone(h, s0, St(), idNew); }
      erase := ResolveCollision(idNew, now);
      if erase {
        FewerColliding(h, triedCollisions, mapInfo, nIdCount, Contents().tried, idNew);
        triedCollisions := triedCollisions - {idNew};
      }
    }

    /** A random sample: `wanted` is the network filter, and the order is any that the shuffle gives. */
    method GetAddr_(maxAddresses: nat, maxPct: nat, wanted: Service -> bool, now: int) returns (addresses: seq<Service>)
      requires Valid()
      modifies `mapInfo, `vRandom
      ensures Valid() && Contents() == old(Contents())
      ensures forall i :: 0 <= i < |addresses| ==> Offered(Contents(), addresses[i], wanted, now)
      ensures forall i, j :: 0 <= i < j < |addresses| ==> addresses[i] != addresses[j]
      ensures var all := |old(vRandom)|;
              var share := if maxPct != 0 then maxPct * all / 100 else all;
              var limit := if maxAddresses != 0 && maxAddresses < share then maxAddresses else share;
              |addresses| <= limit && (|addresses| < limit ==> forall a :: Offered(Contents(), a, wanted, now) ==>
                  a in addresses)
    {
      hide Inv, BookOf, Colliding, Offered;
      var nNodes := |vRandom|;
      if maxPct != 0 { nNodes := maxPct * nNodes / 100; }
      if maxAddresses != 0 && maxAddresses < nNodes { nNodes := maxAddresses; }
      addresses := [];
      Ranges(h, St(), {}, 0);
      var n := 0;
      while n < |vRandom| && |addresses| < nNodes
        invariant 0 <= n <= |vRandom| == |old(vRandom)| && |addresses| <= nNodes
        invariant Valid() && Contents() == old(Contents())
        invariant forall i :: 0 <= i < |addresses| ==> Offered(Contents(), addresses[i], wanted, now)
        invariant forall i, j :: 0 <= i < j < |addresses| ==> addresses[i] != addresses[j]
        invariant Sampled(mapInfo, n, addresses, Contents(), wanted, now)
      {
        addresses := Sample(n, addresses, wanted, now);
        n := n + 1;
      }
      if n == |vRandom| { SampledAll(h, St(), addresses, wanted, now); }
    }

    method Sample(n: nat, sofar: seq<Service>, wanted: Service -> bool, now: int) returns (addresses: seq<Service>)
      requires Valid() && n < |vRandom| && Sampled(mapInfo, n, sofar, Contents(), wanted, now)
      modifies `mapInfo, `vRandom
      ensures Valid() && Contents() == old(Contents()) && |vRandom| == |old(vRandom)|
      ensures || addresses == sofar
              || exists a :: addresses == sofar + [a] && a !in sofar && Offered(Contents(), a, wanted, now)
      ensures Sampled(mapInfo, n + 1, addresses, Contents(), wanted, now)
    {
      hide Inv, BookOf, Colliding, IsTerrible, Sampled;
      Ranges(h, St(), {}, 0);
      DistinctAddrs(h, St(), {}, 0);
      var nRndPos :| n <= nRndPos < |vRandom|;
      SwapRandom(n, nRndPos, {}, 0);
      StillColliding(h, triedCollisions, old(mapInfo), mapInfo, nIdCount, Contents().tried, Contents().tried);
      Ranges(h, St(), {}, 0);
      var nId := vRandom[n];
      var ai := mapInfo[nId];
      Located(h, St(), {}, 0, nId);
      addresses := sofar;
      if wanted(ai.addr) && !IsTerrible(StatsOf(ai), now) { addresses := addresses + [ai.addr]; }
      SampledNext(old(mapInfo), mapInfo, vRandom, n, sofar, addresses, Contents(), wanted, now);
    }

    /** The consistency check passes unless a caller supplied a bad time. */
    method CheckAddrman() returns (err: int)
      requires Valid()
      ensures err == 0 <==> TimesOk(Contents()) && !keyIsNull
    {
      hide Inv, BookOf, TimesOk, Consistent;
      CheckPasses(h, St(), keyIsNull);
      err := AddrManCheck.CheckAddrman(h, State(mapInfo, mapAddr, vRandom, vvTried, vvNew, nNew, nTried, nIdCount),
          keyIsNull);
    }

    /** `order` is the order in which the entries are iterated. */
    method Serialize(order: seq<int>, asmap: nat) returns (file: File)
      requires Valid() && Lists(order, mapInfo)
      ensures file == Saved(St(), order, asmap)
    {
      hide Inv, BookOf, Colliding, Saved;
      file := Save(h, State(mapInfo, mapAddr, vRandom, vvTried, vvNew, nNew, nTried, nIdCount), order, asmap);
    }

    /** Fills a manager that is still empty; on failure the manager is not to be used. */
    method Unserialize(file: File, asmap: nat) returns (ok: bool)
      requires Valid() && vRandom == [] && triedCollisions == {}
      modifies `mapInfo, `mapAddr, `vRandom, `vvTried, `vvNew, `nNew, `nTried, `nIdCount
      ensures ok ==> Valid() && TimesOk(Contents()) && !keyIsNull
      ensures Sized(file) ==> Shaped(St()) && Pruned(Loaded(h, file, Restores(file, asmap)), St()) && (ok <==>
                Consistent(h, St(), keyIsNull))
      ensures Sized(file) && Differing(file) ==>
                && Valid() && Rehoused(h, file, Restores(file, asmap), Contents())
                && (ok <==> TimesOk(Contents()) && !keyIsNull)
    {
      hide Inv, BookOf, TimesOk, Consistent, Pruned, Sized, Loaded, Differing, Rehoused;
      var s;
      ok, s := Load(h, file, asmap, keyIsNull);
      mapInfo, mapAddr, vRandom, vvTried, vvNew := s.info, s.ma, s.vr, s.vt, s.vn;
      nNew, nTried, nIdCount := s.nNew, s.nTried, s.nIdCount;
      assert St() == s;
      if Sized(file) && Differing(file) {
        LoadRehouses(h, file, Restores(file, asmap), s);
        CheckPasses(h, s, keyIsNull);
      }
      if ok {
        HasShape(h, s, {}, 0);
        CheckPasses(h, s, keyIsNull);
      }
    }
  }

  // ---- Runs -----------------------------------------------------------------------------------------------

  datatype Op =
    | AddOp(a: Announced, source: NetAddr, penalty: int, now: int, draw: nat)
    | GoodOp(addr: Service, testBeforeEvict: bool, nTime: int)
    | AttemptOp(addr: Service, fCountFailure: bool, nTime: int)
    | ConnectedOp(addr: Service, nTime: int)
    | SetServicesOp(addr: Service, nServices: bv64)
    | ResolveOp(now: int)
    | SelectCollisionOp
    | GetAddrOp(maxAddresses: nat, maxPct: nat, wanted: Service -> bool, now: int)

  /** Not a success at a time that is not positive, nor an attempt at a negative one. */
  predicate Timely(op: Op) {
    match op
    case GoodOp(_, _, nTime) => nTime > 0
    case AttemptOp(_, _, nTime) => nTime >= 0
    case _ => true
  }

  method Perform(m: AddrMan, op: Op)
    requires m.Valid()
    modifies m
    ensures m.Valid() && (Timely(op) && TimesOk(old(m.Contents())) ==> TimesOk(m.Contents()))
    ensures old(m.Contents()).tried.Keys <= m.Contents().tried.Keys
  {
    hide Inv, BookOf, Colliding, TimesOk, WellPlaced, Good, Add, ResolveAll;
    EveryAddressPlaced(m.h, m.St());
    ghost var book := m.Contents();
    match op {
      case AddOp(a, source, penalty, now, draw) =>
        AddKeepsTried(m.h, book, a, source, penalty, now, draw);
        if TimesOk(book) { AddTimes(m.h, book, a, source, penalty, now, draw); }
        var _ := m.Add_(a, source, penalty, now, draw);
      case GoodOp(addr, test, nTime) =>
        GoodGrows(m.h, book, addr, test, nTime);
        if TimesOk(book) { GoodTimes(m.h, book, addr, test, nTime); }
        m.Good_(addr, test, nTime);
      case AttemptOp(addr, fCountFailure, nTime) =>
        if TimesOk(book) { AttemptTimes(m.h, book, addr, fCountFailure, nTime, m.nLastGood); }
        m.Attempt_(addr, fCountFailure, nTime);
      case ConnectedOp(addr, nTime) =>
        if TimesOk(book) { ConnectedTimes(book, addr, nTime, 0); }
        m.Connected_(addr, nTime);
      case SetServicesOp(addr, nServices) =>
        if TimesOk(book) { ConnectedTimes(book, addr, 0, nServices); }
        m.SetServices_(addr, nServices);
      case ResolveOp(now) =>
        ghost var waiting := m.ResolveCollisions_(now);
        ResolveGrows(m.h, m.isValid, book, waiting, now);
      case SelectCollisionOp => var _ := m.SelectTriedCollision_();
      case GetAddrOp(maxAddresses, maxPct, wanted, now) => var _ := m.GetAddr_(maxAddresses, maxPct, wanted, now);
    }
  }

  /** From an empty manager with a key, after any sequence of timely calls, the check passes. */
  method Execute(h: Hashes, isRoutable: NetAddr -> bool, isValid: Service -> bool, ops: seq<Op>)
      returns (m: AddrMan, err: int)
    requires forall i :: 0 <= i < |ops| ==> Timely(ops[i])
    ensures fresh(m) && m.Valid() && err == 0
  {
    hide Inv, BookOf, Colliding;
    m := new AddrMan(h, false, isRoutable, isValid);
    for i := 0 to |ops|
      invariant fresh(m) && m.Valid() && TimesOk(m.Contents()) && !m.keyIsNull
    {
      Perform(m, ops[i]);
    }
    err := m.CheckAddrman();
  }

  /** Saving a manager and loading the file into an empty one with the same key and map. */
  method Restart(m: AddrMan, order: seq<int>, asmap: nat) returns (again: AddrMan, ok: bool)
    requires m.Valid() && Lists(order, m.mapInfo)
    ensures fresh(again) && again.Valid() && again.Contents() == Reread(m.Contents())
    ensures ok <==> TimesOk(Reread(m.Contents())) && !m.keyIsNull
    ensures TimesOk(m.Contents()) && !m.keyIsNull ==> ok
  {
    hide Inv, BookOf, TimesOk, Consistent, Pruned, Sized, Restores, Loaded, Saved, Lists;
    again := new AddrMan(m.h, m.keyIsNull, m.isRoutable, m.isValid);
    var file := m.Serialize(order, asmap);
    ok := again.Unserialize(file, asmap);
    SavedSized(m.h, m.St(), order, asmap);
    RereadTimes(m.Contents());
    SavedLoads(m.h, m.St(), order, asmap, m.keyIsNull, again.St());
  }

  /**
   * Loading the file under another key or another map, where an address belongs into other slots: what is known is
   * what was known, and only addresses whose new place another one got are lost.
   */
  method Relocate(m: AddrMan, order: seq<int>, asmap: nat, h: Hashes, asmap': nat) returns (again: AddrMan, ok: bool)
    requires m.Valid() && Lists(order, m.mapInfo)
    ensures fresh(again) && again.Valid() && again.h == h
    ensures Carried(m.h, h, m.Contents(), again.Contents(), asmap == asmap')
    ensures ok <==> TimesOk(again.Contents()) && !m.keyIsNull
    ensures TimesOk(m.Contents()) && !m.keyIsNull ==> ok
  {
    hide Inv, BookOf, TimesOk, Consistent, Pruned, Sized, Loaded, Saved, Lists, Differing, Rehoused, Carried;
    again := new AddrMan(h, m.keyIsNull, m.isRoutable, m.isValid);
    var file := m.Serialize(order, asmap);
    SavedSized(m.h, m.St(), order, asmap);
    SavedDiffers(m.h, m.St(), order, asmap);
    SavedUnder(m.St(), order, asmap);
    ok := again.Unserialize(file, asmap');
    SavedElsewhere(m.h, h, m.St(), order, asmap, asmap == asmap', again.St());
    if TimesOk(m.Contents()) { CarriedTimes(m.h, h, m.Contents(), again.Contents(), asmap == asmap', again.St()); }
  }

  // ---- Times that spoil the check ----------------------------------------------------------------------------

  /** The first address announced to an empty manager is known, and new. */
  lemma FirstKnown(h: Hashes, book: Book, a: Announced, source: NetAddr, penalty: int, now: int, draw: nat)
    requires Blank(book)
    ensures var after := Add(h, book, a, source, penalty, now, draw); a.addr in after.stats && Untried(after.tried)
  {
    hide ToU32;
    var e := Stats(ToU32(Max0(a.nTime - if a.addr.net == source then 0 else penalty)), a.nServices, source, 0, 0, 0, 0);
    var l, told := NewSlot(h, a.addr, source), book.(stats := book.stats[a.addr := e]);
    assert l !in told.fresh';
  }

  ghost predicate Untried(p: Placement) { forall l :: l !in p }

  /** An empty manager that learns one routable address. */
  method Acquainted(h: Hashes, isRoutable: NetAddr -> bool, isValid: Service -> bool, a: Announced, source: NetAddr,
                    now: int, draw: nat)
    returns (m: AddrMan)
    requires isRoutable(a.addr.net)
    ensures fresh(m) && m.Valid() && !m.keyIsNull && m.h == h
    ensures a.addr in m.Contents().stats && Untried(m.Contents().tried) && TimesOk(m.Contents())
  {
    hide Inv, BookOf, Colliding, Add, WellPlaced;
    m := new AddrMan(h, false, isRoutable, isValid);
    FirstKnown(h, m.Contents(), a, source, 0, now, draw);
    EveryAddressPlaced(h, m.St());
    AddTimes(h, m.Contents(), a, source, 0, now, draw);
    var _ := m.Add_(a, source, 0, now, draw);
  }

  /** A success at time zero makes the check fail. */
  method SuccessAtZero(h: Hashes, isRoutable: NetAddr -> bool, isValid: Service -> bool, a: Announced, source: NetAddr,
                       now: int, draw: nat, testBeforeEvict: bool)
    returns (err: int)
    requires isRoutable(a.addr.net)
    ensures err != 0
  {
    hide Inv, BookOf, Colliding, WellPlaced, TimesOk, Good;
    var m := Acquainted(h, isRoutable, isValid, a, source, now, draw);
    EveryAddressPlaced(h, m.St());
    GoodTimes(h, m.Contents(), a.addr, testBeforeEvict, 0);
    m.Good_(a.addr, testBeforeEvict, 0);
    err := m.CheckAddrman();
  }

  /** So does an attempt at a negative time. */
  method AttemptBeforeZero(h: Hashes, isRoutable: NetAddr -> bool, isValid: Service -> bool, a: Announced,
                           source: NetAddr, now: int, draw: nat, fCountFailure: bool)
    returns (err: int)
    requires isRoutable(a.addr.net)
    ensures err != 0
  {
    hide Inv, BookOf, Colliding, WellPlaced, TimesOk, Attempt;
    var m := Acquainted(h, isRoutable, isValid, a, source, now, draw);
    EveryAddressPlaced(h, m.St());
    AttemptTimes(h, m.Contents(), a.addr, fCountFailure, -1, m.nLastGood);
    m.Attempt_(a.addr, fCountFailure, -1);
    err := m.CheckAddrman();
  }
}
