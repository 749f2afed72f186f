/**
 * What the address manager's operations promise about its book: every address stands in exactly
 * one table, nothing is lost but what a slot's new occupant displaces, and the recorded times stay
 * good enough for the consistency check exactly when the callers' times are.
 */
module AddrManLaws {
  import opened Basics
  import opened AddrManTables
  import opened AddrManBook
  import opened AddrManSteps
  import opened AddrManCheck

  // ---- Every address in one table ---------------------------------------------------------------------

  ghost predicate WellPlaced(h: Hashes, book: Book) {
    && (forall l :: l in book.tried ==> l == TriedSlot(h, book.tried[l]) && book.tried[l] in book.stats)
    && (forall l :: l in book.fresh' ==> l == NewSlotIn(h, book.fresh'[l], l.bucket) && book.fresh'[l] in book.stats)
    && (forall l :: l in book.fresh' ==> l.bucket < NEW_BUCKET_COUNT)
    && (forall a :: a in book.stats ==> (IsTried(h, book, a) <==> a !in book.fresh'.Values))
  }

  /** The invariant places every known address in its tried slot or in one to eight new slots, and never in both. */
  lemma EveryAddressPlaced(h: Hashes, s: State)
    requires Inv(h, s, {}, 0)
    ensures WellPlaced(h, BookOf(s))
    ensures forall a :: a in BookOf(s).stats ==> References(h, BookOf(s), a) <= NEW_BUCKETS_PER_ADDRESS
  {
    hide Inv, BookOf, References;
    Shape(h, s);
    var book := BookOf(s);
    forall a | a in book.stats
      ensures (IsTried(h, book, a) <==> a !in book.fresh'.Values) && References(h, book, a) <= NEW_BUCKETS_PER_ADDRESS
    {
      Found(h, s, {}, 0, a);
      var id := s.ma[a];
      Ranges(h, s, {}, 0);
      RefCount(h, s, {}, 0, id);
      TriedFlag(h, s, {}, 0, id);
      UnreferencedIffUnplaced(h, s, {}, 0, id);
      Sound(h, s, {}, 0, id);
      if s.info[id].fInTried { TriedZero(h, s, id); }
    }
    SlotsOwned(h, s);
    forall l | l in book.fresh' ensures l.bucket < NEW_BUCKET_COUNT { InTable(s, l); }
  }

  lemma Shape(h: Hashes, s: State)
    requires Inv(h, s, {}, 0)
    ensures Shaped(s)
  {
  }

  lemma TriedZero(h: Hashes, s: State, id: int)
    requires Inv(h, s, {}, 0) && id in s.info && s.info[id].fInTried
    ensures s.info[id].nRefCount == 0
  {
    TriedUnreferenced(h, s.info, s.vn, id);
  }

  lemma SlotsOwned(h: Hashes, s: State)
    requires Inv(h, s, {}, 0)
    ensures forall l :: l in BookOf(s).tried ==>
              l == TriedSlot(h, BookOf(s).tried[l]) && BookOf(s).tried[l] in BookOf(s).stats
    ensures forall l :: l in BookOf(s).fresh' ==>
              l == NewSlotIn(h, BookOf(s).fresh'[l], l.bucket) && BookOf(s).fresh'[l] in BookOf(s).stats
  {
    hide Inv, BookOf;
    Shape(h, s);
    forall l | l in BookOf(s).tried
        ensures l == TriedSlot(h, BookOf(s).tried[l]) && BookOf(s).tried[l] in BookOf(s).stats {
      InTable(s, l);
      TriedOccupant(h, s, {}, 0, l.bucket, l.pos);
      Located(h, s, {}, 0, At(s.vt, l.bucket, l.pos));
    }
    forall l | l in BookOf(s).fresh'
        ensures l == NewSlotIn(h, BookOf(s).fresh'[l], l.bucket) && BookOf(s).fresh'[l] in BookOf(s).stats {
      InTable(s, l);
      NewOccupant(h, s, {}, 0, l.bucket, l.pos);
      Located(h, s, {}, 0, At(s.vn, l.bucket, l.pos));
    }
  }

  lemma InTable(s: State, l: Slot)
    requires Shaped(s)
    ensures l in BookOf(s).tried ==> l.bucket < TRIED_BUCKET_COUNT && l.pos < BUCKET_SIZE
    ensures l in BookOf(s).fresh' ==> l.bucket < NEW_BUCKET_COUNT && l.pos < BUCKET_SIZE
  {
    InSlots(TRIED_BUCKET_COUNT, l.bucket, l.pos);
    InSlots(NEW_BUCKET_COUNT, l.bucket, l.pos);
  }

  // ---- What moving to tried keeps ---------------------------------------------------------------------------

  /** Only the slot's occupant can be forgotten, and only if it stood nowhere else. */
  lemma ClearForgets(book: Book, l: Slot)
    ensures ClearSlot(book, l).tried == book.tried && ClearSlot(book, l).fresh' == book.fresh' - {l}
    ensures forall a :: a in book.stats && a !in ClearSlot(book, l).stats ==>
              l in book.fresh' && book.fresh'[l] == a && a !in (book.fresh' - {l}).Values
    ensures forall a :: a in ClearSlot(book, l).stats ==>
              a in book.stats && ClearSlot(book, l).stats[a] == book.stats[a]
  {
  }

  /**
   * After a move the address is tried and no longer new; the address it displaced is new again, in its
   * own slot, and still known; and whoever is forgotten stood in that slot and nowhere else.
   */
  lemma MoveConserves(h: Hashes, book: Book, a: Service)
    requires WellPlaced(h, book) && a in book.stats && !IsTried(h, book, a)
    ensures var after := MoveToTried(h, book, a);
            && IsTried(h, after, a) && a !in after.fresh'.Values && a in after.stats && after.stats[a] == book.stats[a]
            && (TriedSlot(h, a) !in book.tried ==> after.stats == book.stats)
            && (TriedSlot(h, a) in book.tried ==>
                  var e := book.tried[TriedSlot(h, a)];
                  var back := NewSlot(h, e, book.stats[e].source);
                  && back in after.fresh' && after.fresh'[back] == e && e in after.stats &&
                      after.stats[e] == book.stats[e]
                  && forall x :: x in book.stats && x !in after.stats ==>
                       back in book.fresh' && book.fresh'[back] == x && x !in (book.fresh' - {back}).Values &&
                           x != e && x != a)
  {
    var l := TriedSlot(h, a);
    var left := book.(fresh' := Without(book.fresh', a));
    assert a !in left.fresh'.Values;
    if l in book.tried {
      var e := book.tried[l];
      assert IsTried(h, book, e) && e !in book.fresh'.Values;
      var back := NewSlot(h, e, book.stats[e].source);
      var room := left.(tried := left.tried - {l});
      ClearForgets(room, back);
      Displaced(book, room, back, a, e);
    }
  }

  lemma Displaced(book: Book, room: Book, back: Slot, a: Service, e: Service)
    requires room.fresh' == Without(book.fresh', a) && room.stats == book.stats && e !in book.fresh'.Values && a != e
    requires a in book.stats && e in book.stats
    ensures var cleared := ClearSlot(room, back);
            && a in cleared.stats && e in cleared.stats && a !in cleared.fresh'[back := e].Values
            && forall x :: x in book.stats && x !in cleared.stats ==>
                 back in book.fresh' && book.fresh'[back] == x && x !in (book.fresh' - {back}).Values && x != e &&
                     x != a
  {
    ClearForgets(room, back);
    var cleared := ClearSlot(room, back);
    forall l | l in cleared.fresh' ensures cleared.fresh'[l] != a { assert l in Without(book.fresh', a); }
    forall x | x in book.stats && x !in cleared.stats
      ensures back in book.fresh' && book.fresh'[back] == x && x !in (book.fresh' - {back}).Values && x != e && x != a
    {
      assert back in room.fresh' && room.fresh'[back] == x;
      assert book.fresh'[back] in book.fresh'.Values;
      forall l | l in book.fresh' - {back} ensures book.fresh'[l] != x {
        var others := room.fresh' - {back};
        assert l in others ==> others[l] in others.Values;
        assert l in others <==> book.fresh'[l] != a;
      }
    }
  }

  // ---- Times ---------------------------------------------------------------------------------------------------

  predicate TimesFine(e: Stats) { e.nLastTry >= 0 && e.nLastSuccess >= 0 }

  ghost predicate TimesOk(book: Book) {
    && (forall a :: a in book.stats ==> TimesFine(book.stats[a]))
    && (forall l :: l in book.tried && book.tried[l] in book.stats ==> book.stats[book.tried[l]].nLastSuccess != 0)
  }

  /** The check passes on a kept invariant exactly when the recorded times are fine and there is a key. */
  lemma CheckPasses(h: Hashes, s: State, keyIsNull: bool)
    requires Inv(h, s, {}, 0)
    ensures Consistent(h, s, keyIsNull) <==> TimesOk(BookOf(s)) && !keyIsNull
  {
    Counts(s.info, s.vr);
    EntriesByBook(h, s);
  }

  lemma Counts(info: Infos, vr: seq<int>)
    requires RandomOk(info, vr)
    ensures |vr| == |TriedIds(info)| + |NewIds(info)|
  {
    Split(info);
    ListedOnce(info, vr);
    Distinct(vr, |vr|);
  }

  lemma Split(info: Infos)
    ensures |info.Keys| == |TriedIds(info)| + |NewIds(info)|
  {
    assert info.Keys == TriedIds(info) + NewIds(info);
    assert TriedIds(info) !! NewIds(info);
  }

  lemma ListedOnce(info: Infos, vr: seq<int>)
    requires RandomOk(info, vr)
    ensures info.Keys == (set j | 0 <= j < |vr| :: vr[j]) && forall i, j :: 0 <= i < j < |vr| ==> vr[i] != vr[j]
  {
    forall id | id in info.Keys ensures id in set j | 0 <= j < |vr| :: vr[j] { assert vr[info[id].nRandomPos] == id; }
    forall i, j | 0 <= i < j < |vr| ensures vr[i] != vr[j] { assert info[vr[i]].nRandomPos == i; }
  }

  lemma {:induction false} Distinct(vr: seq<int>, n: nat)
    requires n <= |vr| && forall i, j :: 0 <= i < j < |vr| ==> vr[i] != vr[j]
    ensures |set j | 0 <= j < n :: vr[j]| == n
  {
    if n > 0 {
      Distinct(vr, n - 1);
      assert (set j | 0 <= j < n :: vr[j]) == (set j | 0 <= j < n - 1 :: vr[j]) + {vr[n - 1]};
    }
  }

  lemma EntriesByBook(h: Hashes, s: State)
    requires Inv(h, s, {}, 0)
    ensures (forall id :: id in s.info ==> EntryFine(s.info, s.ma, s.vr, id)) <==> TimesOk(BookOf(s))
  {
    hide Inv, BookOf;
    Shape(h, s);
    Ranges(h, s, {}, 0);
    var book := BookOf(s);
    forall id | id in s.info
      ensures EntryFine(s.info, s.ma, s.vr, id) <==>
              TimesFine(StatsOf(s.info[id])) && (s.info[id].fInTried ==> s.info[id].nLastSuccess != 0)
    {
      Located(h, s, {}, 0, id);
      Sound(h, s, {}, 0, id);
      if s.info[id].fInTried { TriedZero(h, s, id); }
    }
    SlotsOwned(h, s);
    forall id | id in s.info
      ensures s.info[id].addr in book.stats && book.stats[s.info[id].addr] == StatsOf(s.info[id])
      ensures s.info[id].fInTried <==> IsTried(h, book, s.info[id].addr)
    {
      Located(h, s, {}, 0, id);
      TriedFlag(h, s, {}, 0, id);
    }
    if TimesOk(book) {
      forall id | id in s.info ensures EntryFine(s.info, s.ma, s.vr, id) {
        var l := TriedSlot(h, s.info[id].addr);
        assert s.info[id].fInTried ==> l in book.tried && book.tried[l] == s.info[id].addr;
      }
    } else if forall id :: id in s.info ==> EntryFine(s.info, s.ma, s.vr, id) {
      forall a | a in book.stats ensures TimesFine(book.stats[a]) && (IsTried(h, book, a) ==>
          book.stats[a].nLastSuccess != 0) {
        Found(h, s, {}, 0, a);
        assert EntryFine(s.info, s.ma, s.vr, s.ma[a]);
      }
      assert false;
    }
  }

  lemma Restated(h: Hashes, book: Book, a: Service, e: Stats)
    requires WellPlaced(h, book) && TimesOk(book)
    ensures var met := book.(stats := book.stats[a := e]);
            TimesOk(met) <==> TimesFine(e) && (IsTried(h, book, a) ==> e.nLastSuccess != 0)
  {
    var met := book.(stats := book.stats[a := e]);
    assert met.stats[a] == e;
    if IsTried(h, book, a) { assert met.tried[TriedSlot(h, a)] == a; }
  }

  lemma Shrunk(book: Book, after: Book)
    requires TimesOk(book) && after.tried == book.tried
    requires forall x :: x in after.stats ==> x in book.stats && after.stats[x] == book.stats[x]
    ensures TimesOk(after)
  {
  }

  /** Moving to tried keeps what is recorded about every address that stays known. */
  lemma MoveTimes(h: Hashes, book: Book, a: Service)
    requires WellPlaced(h, book) && a in book.stats && !IsTried(h, book, a)
    ensures var after := MoveToTried(h, book, a);
            && IsTried(h, after, a) && after.tried == book.tried[TriedSlot(h, a) := a] && a in after.stats
            && (forall x :: x in after.stats ==> x in book.stats && after.stats[x] == book.stats[x])
            && (forall x :: x in book.stats && x !in after.stats ==> !IsTried(h, book, x))
  {
    MoveConserves(h, book, a);
    TriedGrows(h, book, a);
    var l := TriedSlot(h, a);
    var left := book.(fresh' := Without(book.fresh', a));
    if l in book.tried {
      ClearForgets(left.(tried := left.tried - {l}), NewSlot(h, book.tried[l], SourceOf(book.stats, book.tried[l])));
    }
  }

  lemma MovedTimes(h: Hashes, book: Book, a: Service, e: Stats)
    requires WellPlaced(h, book) && TimesOk(book) && a in book.stats && !IsTried(h, book, a)
    ensures TimesOk(MoveToTried(h, book.(stats := book.stats[a := e]), a)) <==> TimesFine(e) && e.nLastSuccess != 0
  {
    hide MoveToTried, TriedSlot, NewSlotIn;
    var met := book.(stats := book.stats[a := e]);
    assert WellPlaced(h, met);
    MoveTimes(h, met, a);
    var after := MoveToTried(h, met, a);
    assert after.tried[TriedSlot(h, a)] == a && after.stats[a] == e;
    forall l | l in after.tried && l != TriedSlot(h, a) && after.tried[l] in after.stats
        ensures after.stats[after.tried[l]].nLastSuccess != 0 {
      assert l in book.tried && after.tried[l] == book.tried[l] && book.tried[l] != a;
    }
  }

  /** A success keeps the times fine exactly when its time is positive, or zero for an address that stays new. */
  lemma GoodTimes(h: Hashes, book: Book, a: Service, testBeforeEvict: bool, nTime: int)
    requires WellPlaced(h, book) && TimesOk(book)
    ensures var stays := !IsTried(h, book, a) && testBeforeEvict && TriedSlot(h, a) in book.tried;
            TimesOk(Good(h, book, a, testBeforeEvict, nTime)) <==>
                a !in book.stats || nTime > 0 || (nTime == 0 && stays)
  {
    hide MoveToTried, WellPlaced, TimesOk;
    if a in book.stats {
      var e := book.stats[a].(nLastSuccess := nTime, nLastTry := nTime, nAttempts := 0);
      Restated(h, book, a, e);
      if !IsTried(h, book, a) { MovedTimes(h, book, a, e); }
    }
  }

  // ---- Tried slots stay occupied ------------------------------------------------------------------------------

  lemma GoodGrows(h: Hashes, book: Book, a: Service, testBeforeEvict: bool, nTime: int)
    ensures book.tried.Keys <= Good(h, book, a, testBeforeEvict, nTime).tried.Keys
  {
    hide MoveToTried;
    if a in book.stats {
      var e := book.stats[a].(nLastSuccess := nTime, nLastTry := nTime, nAttempts := 0);
      TriedGrows(h, book.(stats := book.stats[a := e]), a);
    }
  }

  lemma {:induction false} ResolveGrows(
      h: Hashes, isValid: Service -> bool, book: Book, waiting: seq<Service>, now: int)
    ensures book.tried.Keys <= ResolveAll(h, isValid, book, waiting, now).tried.Keys
  {
    hide Good, Judge;
    if waiting != [] {
      var n := |waiting| - 1;
      ResolveGrows(h, isValid, book, waiting[..n], now);
      GoodGrows(h, ResolveAll(h, isValid, book, waiting[..n], now), waiting[n], false, now);
    }
  }

  // ---- What an announcement tells ---------------------------------------------------------------------------

  const TWO_32 := 0x1_0000_0000

  /** Every service of the one set is in the other. */
  predicate Includes(x: bv64, y: bv64) { x & y == y }

  lemma Union(x: bv64, y: bv64)
    ensures Includes(AllServices(x, y), x) && Includes(AllServices(x, y), y)
  {
  }

  lemma LeastUnion(x: bv64, y: bv64, z: bv64)
    ensures Includes(z, x) && Includes(z, y) ==> Includes(z, AllServices(x, y))
  {
  }

  /** A refresh adds the announced services and no others. */
  lemma RefreshServices(e: Stats, a: Announced, penalty: int, now: int)
    ensures var r := Refreshed(e, a, penalty, now);
            && Includes(r.nServices, e.nServices) && Includes(r.nServices, a.nServices)
            && (forall z :: Includes(z, e.nServices) && Includes(z, a.nServices) ==> Includes(z, r.nServices))
  {
    hide Includes, AllServices, ToU32;
    var x, y := e.nServices, a.nServices;
    Union(x, y);
    forall z | Includes(z, x) && Includes(z, y) ensures Includes(z, AllServices(x, y)) { LeastUnion(x, y, z); }
  }

  lemma Fits(x: nat)
    requires x < TWO_32
    ensures ToU32(x) == x
  {
  }

  /**
   * A refresh changes no statistics but the services and the time of last sighting. Unless that time wraps
   * around, it moves forward, by more than an hour if it was set, and not past the announced time less the
   * penalty.
   */
  lemma RefreshGrows(e: Stats, a: Announced, penalty: int, now: int)
    ensures var r := Refreshed(e, a, penalty, now);
            && r == e.(nTime := r.nTime, nServices := r.nServices)
            && (a.nTime - penalty < TWO_32 ==>
                  && e.nTime <= r.nTime <= Max(e.nTime, a.nTime - penalty)
                  && (r.nTime != e.nTime && e.nTime != 0 ==> r.nTime - e.nTime > 60 * 60))
  {
    hide AllServices, ToU32;
    if a.nTime - penalty < TWO_32 { Fits(Max0(a.nTime - penalty)); }
  }

  // ---- What an announcement keeps ----------------------------------------------------------------------------

  /** An address that stands in one slot only is counted at most once. */
  lemma {:induction false} ListedAtMostOnce(h: Hashes, p: Placement, a: Service, l: Slot, n: nat)
    requires a !in (p - {l}).Values
    ensures Listed(h, p, a, n) <= if l.bucket < n then 1 else 0
  {
    if n > 0 {
      ListedAtMostOnce(h, p, a, l, n - 1);
      var s := NewSlotIn(h, a, n - 1);
      if s in p && s != l { assert (p - {l})[s] == p[s]; }
    }
  }

  /** An address that stands in a bucket is counted. */
  lemma {:induction false} ListedSomewhere(h: Hashes, p: Placement, a: Service, b: nat, n: nat)
    requires b < n && NewSlotIn(h, a, b) in p && p[NewSlotIn(h, a, b)] == a
    ensures Listed(h, p, a, n) > 0
  {
    if b < n - 1 { ListedSomewhere(h, p, a, b, n - 1); }
  }

  lemma StillReferenced(h: Hashes, book: Book, a: Service)
    requires WellPlaced(h, book) && a in book.stats && !IsTried(h, book, a)
    ensures References(h, book, a) > 0
  {
    var l :| l in book.fresh' && book.fresh'[l] == a;
    ListedSomewhere(h, book.fresh', a, l.bucket, NEW_BUCKET_COUNT);
  }

  /** What is known of the others stays, but for a terrible address that had no slot but `l`. */
  ghost predicate Spares(book: Book, after: Book, a: Service, l: Slot, now: int) {
    && (forall x :: x in after.stats && x != a ==> x in book.stats && after.stats[x] == book.stats[x])
    && (forall x :: x in book.stats && x !in after.stats && x != a ==>
          && l in book.fresh' && book.fresh'[l] == x && IsTerrible(book.stats[x], now)
          && x !in (book.fresh' - {l}).Values)
  }

  lemma OfferSpares(h: Hashes, book: Book, a: Service, l: Slot, now: int)
    requires l in book.fresh' ==> book.fresh'[l] in book.stats
    ensures Spares(book, Offer(h, book, a, l, now), a, l, now)
  {
    hide IsTerrible;
    ClearForgets(book, l);
    if l in book.fresh' && book.fresh'[l] !in (book.fresh' - {l}).Values {
      ListedAtMostOnce(h, book.fresh', book.fresh'[l], l, NEW_BUCKET_COUNT);
    }
  }

  /** An address with a slot stays known; one without is known afterwards exactly if it got this one. */
  lemma OfferKnows(h: Hashes, book: Book, a: Service, l: Slot, now: int)
    requires a in book.stats
    ensures References(h, book, a) > 0 ==> a in Offer(h, book, a, l, now).stats
    ensures References(h, book, a) == 0 ==>
              (a in Offer(h, book, a, l, now).stats <==>
               l in Offer(h, book, a, l, now).fresh' && Offer(h, book, a, l, now).fresh'[l] == a)
  {
    hide IsTerrible, References;
    ClearForgets(book, l);
  }

  lemma SparesTold(book: Book, e: Stats, after: Book, a: Service, l: Slot, now: int)
    requires Spares(book.(stats := book.stats[a := e]), after, a, l, now)
    ensures Spares(book, after, a, l, now)
  {
    hide IsTerrible;
  }

  /**
   * An announcement forgets no one but a terrible address whose only slot it takes; a known address
   * stays known, and a newcomer is known afterwards exactly if it got the slot.
   */
  lemma AddConserves(h: Hashes, book: Book, a: Announced, source: NetAddr, penalty: int, now: int, draw: nat)
    requires WellPlaced(h, book)
    ensures var after, l := Add(h, book, a, source, penalty, now, draw), NewSlot(h, a.addr, source);
            && Spares(book, after, a.addr, l, now)
            && (a.addr in book.stats ==> a.addr in after.stats)
            && (a.addr !in book.stats ==>
                  (a.addr in after.stats <==> l in after.fresh' && after.fresh'[l] == a.addr))
  {
    hide Offer, Spares, ToU32, AllServices, References, Refreshed;
    var p := if a.addr.net == source then 0 else penalty;
    var l := NewSlot(h, a.addr, source);
    var e := if a.addr !in book.stats then Stats(ToU32(Max0(a.nTime - p)), a.nServices, source, 0, 0, 0, 0)
             else Refreshed(book.stats[a.addr], a, p, now);
    var told := book.(stats := book.stats[a.addr := e]);
    OfferSpares(h, told, a.addr, l, now);
    OfferKnows(h, told, a.addr, l, now);
    SparesItself(told, a.addr, l, now);
    SparesTold(book, e, Add(h, book, a, source, penalty, now, draw), a.addr, l, now);
    if a.addr in book.stats {
      if !IsTried(h, book, a.addr) { StillReferenced(h, told, a.addr); }
    } else {
      Unplaced(h, book, told, a.addr);
    }
  }

  lemma SparesItself(book: Book, a: Service, l: Slot, now: int)
    ensures Spares(book, book, a, l, now)
  {
  }

  /** An address nobody knows is counted nowhere. */
  lemma Unplaced(h: Hashes, book: Book, told: Book, a: Service)
    requires WellPlaced(h, book) && a !in book.stats && told.fresh' == book.fresh'
    ensures References(h, told, a) == 0
  {
    NotListed(h, book.fresh', a, NEW_BUCKET_COUNT);
  }

  lemma {:induction false} NotListed(h: Hashes, p: Placement, a: Service, n: nat)
    requires forall l :: l in p ==> p[l] != a
    ensures Listed(h, p, a, n) == 0
  {
    if n > 0 { NotListed(h, p, a, n - 1); }
  }

  lemma OfferTimes(h: Hashes, book: Book, a: Service, l: Slot, now: int)
    requires TimesOk(book)
    ensures TimesOk(Offer(h, book, a, l, now))
  {
    hide Yields, References;
    ClearForgets(book, l);
    Shrunk(book, Offer(h, book, a, l, now));
  }

  lemma AddKeepsTried(h: Hashes, book: Book, a: Announced, source: NetAddr, penalty: int, now: int, draw: nat)
    ensures Add(h, book, a, source, penalty, now, draw).tried == book.tried
  {
    hide Offer, Earns, ToU32, AllServices, Refreshed;
    var p := if a.addr.net == source then 0 else penalty;
    var e := if a.addr !in book.stats then Stats(ToU32(Max0(a.nTime - p)), a.nServices, source, 0, 0, 0, 0)
             else Refreshed(book.stats[a.addr], a, p, now);
    OfferKeepsTried(h, book.(stats := book.stats[a.addr := e]), a.addr, NewSlot(h, a.addr, source), now);
  }

  lemma AddTimes(h: Hashes, book: Book, a: Announced, source: NetAddr, penalty: int, now: int, draw: nat)
    requires WellPlaced(h, book) && TimesOk(book)
    ensures TimesOk(Add(h, book, a, source, penalty, now, draw))
  {
    hide Offer, Earns, ToU32, AllServices;
    var p := if a.addr.net == source then 0 else penalty;
    var slot := NewSlot(h, a.addr, source);
    var e := if a.addr !in book.stats then Stats(ToU32(Max0(a.nTime - p)), a.nServices, source, 0, 0, 0, 0)
             else Refreshed(book.stats[a.addr], a, p, now);
    var told := book.(stats := book.stats[a.addr := e]);
    Restated(h, book, a.addr, e);
    OfferTimes(h, told, a.addr, slot, now);
  }

  datatype Try = Try(addr: Service, fCountFailure: bool, nTime: int)

  /** Attempts on any addresses, one after the other, with no success of any address in between. */
  function Tries(book: Book, tries: seq<Try>, nLastGood: int): Book {
    if tries == [] then book
    else
      var n := |tries| - 1;
      Attempt(Tries(book, tries[..n], nLastGood), tries[n].addr, tries[n].fCountFailure, tries[n].nTime, nLastGood)
  }

  /** The times of an address's attempts that may count as failures. */
  function Failures(tries: seq<Try>, a: Service): seq<int> {
    if tries == [] then []
    else
      var n := |tries| - 1;
      Failures(tries[..n], a) + if tries[n].addr == a && tries[n].fCountFailure then [tries[n].nTime] else []
  }

  /** How many times at the beginning are before the given one. */
  function Leading(times: seq<int>, nLastGood: int): (k: nat)
    ensures k <= |times|
  {
    if times == [] then 0
    else
      var n := |times| - 1;
      var k := Leading(times[..n], nLastGood);
      if k == n && times[n] < nLastGood then n + 1 else k
  }

  lemma LeadingMore(times: seq<int>, t: int, nLastGood: int)
    ensures var k := Leading(times, nLastGood);
            Leading(times + [t], nLastGood) == if k == |times| && t < nLastGood then k + 1 else k
  {
    assert (times + [t])[..|times|] == times;
  }

  /**
   * A counted failure makes the next ones count no more, unless its time is before the last success: so what
   * is counted are the failures with such times at the beginning, and the one after them.
   */
  lemma {:induction false} FailuresCounted(book: Book, tries: seq<Try>, a: Service, nLastGood: int)
    requires a in book.stats
    ensures var after, e, f := Tries(book, tries, nLastGood), book.stats[a], Failures(tries, a);
            && a in after.stats
            && after.stats[a].nAttempts - e.nAttempts ==
                 (if e.nLastCountAttempt >= nLastGood then 0 else Min(|f|, Leading(f, nLastGood) + 1))
            && (after.stats[a].nLastCountAttempt < nLastGood <==>
                e.nLastCountAttempt < nLastGood && Leading(f, nLastGood) == |f|)
  {
    hide Leading;
    if tries == [] {
      assert Leading([], nLastGood) == 0 by { NoneLeading(nLastGood); }
    } else {
      var n := |tries| - 1;
      FailuresCounted(book, tries[..n], a, nLastGood);
      var f := Failures(tries[..n], a);
      if tries[n].addr == a && tries[n].fCountFailure {
        LeadingMore(f, tries[n].nTime, nLastGood);
      } else {
        assert Failures(tries, a) == f;
      }
    }
  }

  lemma NoneLeading(nLastGood: int)
    ensures Leading([], nLastGood) == 0
  {
  }

  lemma {:induction false} FirstLeads(times: seq<int>, nLastGood: int)
    requires times != []
    ensures Leading(times, nLastGood) > 0 <==> times[0] < nLastGood
  {
    if |times| > 1 { FirstLeads(times[..|times| - 1], nLastGood); }
  }

  /**
   * Between two successes of any address, any number of failures of one address count at most once, exactly if
   * one was counted since the last success already, or there are no two, or the first is not before that success.
   */
  lemma AttemptsCountOnce(book: Book, tries: seq<Try>, a: Service, nLastGood: int)
    requires a in book.stats
    ensures var after, f := Tries(book, tries, nLastGood), Failures(tries, a);
            && a in after.stats
            && (after.stats[a].nAttempts <= book.stats[a].nAttempts + 1 <==>
                book.stats[a].nLastCountAttempt >= nLastGood || |f| <= 1 || f[0] >= nLastGood)
  {
    hide Leading;
    FailuresCounted(book, tries, a, nLastGood);
    var f := Failures(tries, a);
    if f != [] { FirstLeads(f, nLastGood); }
  }

  /** Two failures at a time before the last success count twice. */
  lemma CountedTwice(book: Book, a: Service, nTime: int, nLastGood: int)
    requires a in book.stats && book.stats[a].nLastCountAttempt < nLastGood && nTime < nLastGood
    ensures var after := Tries(book, [Try(a, true, nTime), Try(a, true, nTime)], nLastGood);
            a in after.stats && after.stats[a].nAttempts == book.stats[a].nAttempts + 2
  {
    var one := Try(a, true, nTime);
    assert [one, one][..1] == [one] && [one][..0] == [];
    assert Tries(book, [one], nLastGood) == Attempt(book, a, true, nTime, nLastGood);
  }

  /** An attempt keeps the times fine exactly when its time is not negative. */
  lemma AttemptTimes(h: Hashes, book: Book, a: Service, fCountFailure: bool, nTime: int, nLastGood: int)
    requires WellPlaced(h, book) && TimesOk(book)
    ensures TimesOk(Attempt(book, a, fCountFailure, nTime, nLastGood)) <==> a !in book.stats || nTime >= 0
  {
    if a in book.stats {
      var after := Attempt(book, a, fCountFailure, nTime, nLastGood);
      Restated(h, book, a, after.stats[a]);
      assert after == book.(stats := book.stats[a := after.stats[a]]);
    }
  }

  lemma ConnectedTimes(book: Book, a: Service, nTime: int, nServices: bv64)
    requires TimesOk(book)
    ensures TimesOk(Connected(book, a, nTime)) && TimesOk(SetServices(book, a, nServices))
  {
    hide ToU32;
  }
}
