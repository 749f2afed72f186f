/**
 * Collisions: addresses that wait for the tried slot of another one. Resolving them keeps every address
 * in its own slots and never takes the slot of an address that proved itself lately. On any view it spoils
 * the recorded times exactly if it gives away a free slot at a time that is not positive; the collisions that
 * a manager stores wait for occupied slots, so there it never does.
 */
module AddrManCollisions {
  import opened AddrManTables
  import opened AddrManBook
  import opened AddrManSteps
  import opened AddrManLaws

  // ---- Moving keeps everyone in place ---------------------------------------------------------------------------

  lemma WithoutKeeps(p: Placement, a: Service, x: Service)
    ensures x in Without(p, a).Values <==> x in p.Values && x != a
  {
    if x in p.Values && x != a {
      var l :| l in p && p[l] == x;
      assert Without(p, a)[l] == x;
    }
  }

  lemma ReplacedValues(p: Placement, l: Slot, e: Service, x: Service)
    ensures x in p[l := e].Values <==> x == e || x in (p - {l}).Values
  {
    if x == e { assert p[l := e][l] == e; }
    if x in (p - {l}).Values {
      var k :| k in p - {l} && (p - {l})[k] == x;
      assert p[l := e][k] == x;
    }
    if x in p[l := e].Values && x != e {
      var k :| k in p[l := e] && p[l := e][k] == x;
      assert (p - {l})[k] == x;
    }
  }

  /** Who is tried after a move: the moved address, and whoever was tried in another slot. */
  lemma TriedAfter(h: Hashes, book: Book, after: Book, a: Service, x: Service)
    requires after.tried == book.tried[TriedSlot(h, a) := a]
    ensures IsTried(h, after, x) <==> x == a || (IsTried(h, book, x) && TriedSlot(h, x) != TriedSlot(h, a))
  {
  }

  lemma PlacedFreely(h: Hashes, book: Book, a: Service)
    requires WellPlaced(h, book) && a in book.stats && TriedSlot(h, a) !in book.tried
    ensures WellPlaced(h, book.(tried := book.tried[TriedSlot(h, a) := a], fresh' := Without(book.fresh', a)))
  {
    var after := book.(tried := book.tried[TriedSlot(h, a) := a], fresh' := Without(book.fresh', a));
    forall x | x in after.stats ensures IsTried(h, after, x) <==> x !in after.fresh'.Values {
      WithoutKeeps(book.fresh', a, x);
      TriedAfter(h, book, after, a, x);
    }
  }

  lemma Forgotten(book: Book, l: Slot, x: Service)
    ensures x in ClearSlot(book, l).stats <==>
              x in book.stats && !(l in book.fresh' && book.fresh'[l] == x && x !in (book.fresh' - {l}).Values)
  {
  }

  /** The address `e` makes way for `a` in the tried slot and takes the new slot `back`. */
  ghost predicate Instead(h: Hashes, book: Book, after: Book, a: Service, e: Service, back: Slot) {
    var left := book.(fresh' := Without(book.fresh', a));
    && TriedSlot(h, a) in book.tried && book.tried[TriedSlot(h, a)] == e && e in book.stats && a != e
    && back == NewSlot(h, e, book.stats[e].source)
    && after.tried == book.tried[TriedSlot(h, a) := a]
    && after.fresh' == left.fresh'[back := e] && after.stats == ClearSlot(left, back).stats
  }

  lemma InsteadOne(h: Hashes, book: Book, after: Book, a: Service, e: Service, back: Slot, x: Service)
    requires WellPlaced(h, book) && a in book.stats && Instead(h, book, after, a, e, back) && x in after.stats
    ensures IsTried(h, after, x) <==> x !in after.fresh'.Values
  {
    var left := book.(fresh' := Without(book.fresh', a));
    assert IsTried(h, book, e);
    WithoutKeeps(book.fresh', a, x);
    ReplacedValues(left.fresh', back, e, x);
    TriedAfter(h, book, after, a, x);
    Forgotten(left, back, x);
    ElsewhereStill(left.fresh', back, x);
  }

  lemma InsteadSlot(h: Hashes, book: Book, after: Book, a: Service, e: Service, back: Slot, l: Slot)
    requires WellPlaced(h, book) && a in book.stats && Instead(h, book, after, a, e, back) && l in after.fresh'
    ensures l == NewSlotIn(h, after.fresh'[l], l.bucket) && l.bucket < NEW_BUCKET_COUNT
    ensures after.fresh'[l] in after.stats
  {
    var left := book.(fresh' := Without(book.fresh', a));
    assert IsTried(h, book, e);
    Forgotten(left, back, after.fresh'[l]);
    if l == back {
      WithoutKeeps(book.fresh', a, e);
      if back in left.fresh' { assert left.fresh'[back] in left.fresh'.Values; }
    } else {
      assert (left.fresh' - {back})[l] == after.fresh'[l];
    }
  }

  lemma InsteadTried(h: Hashes, book: Book, after: Book, a: Service, e: Service, back: Slot, l: Slot)
    requires WellPlaced(h, book) && a in book.stats && Instead(h, book, after, a, e, back) && l in after.tried
    ensures l == TriedSlot(h, after.tried[l]) && after.tried[l] in after.stats
  {
    var left := book.(fresh' := Without(book.fresh', a));
    var x := after.tried[l];
    Forgotten(left, back, x);
    WithoutKeeps(book.fresh', a, x);
    assert x == a || IsTried(h, book, x);
    if back in left.fresh' { assert left.fresh'[back] in left.fresh'.Values; }
  }

  lemma ElsewhereStill(p: Placement, l: Slot, x: Service)
    ensures x in p.Values <==> x in (p - {l}).Values || (l in p && p[l] == x)
  {
    if x in (p - {l}).Values {
      var k :| k in p - {l} && (p - {l})[k] == x;
      assert p[k] == x;
    }
    if x in p.Values && !(l in p && p[l] == x) {
      var k :| k in p && p[k] == x;
      assert (p - {l})[k] == x;
    }
  }

  lemma InsteadPlaced(h: Hashes, book: Book, after: Book, a: Service, e: Service, back: Slot)
    requires WellPlaced(h, book) && a in book.stats && Instead(h, book, after, a, e, back)
    ensures WellPlaced(h, after)
  {
    hide Instead;
    forall x | x in after.stats ensures IsTried(h, after, x) <==> x !in after.fresh'.Values {
      InsteadOne(h, book, after, a, e, back, x);
    }
    forall l | l in after.fresh'
      ensures l == NewSlotIn(h, after.fresh'[l], l.bucket) && l.bucket < NEW_BUCKET_COUNT
      ensures after.fresh'[l] in after.stats
    {
      InsteadSlot(h, book, after, a, e, back, l);
    }
    forall l | l in after.tried ensures l == TriedSlot(h, after.tried[l]) && after.tried[l] in after.stats {
      InsteadTried(h, book, after, a, e, back, l);
    }
  }

  /** A move keeps every address in its own slots, in one table only. */
  lemma MoveKeepsPlaced(h: Hashes, book: Book, a: Service)
    requires WellPlaced(h, book) && a in book.stats && !IsTried(h, book, a)
    ensures WellPlaced(h, MoveToTried(h, book, a))
  {
    hide WellPlaced, Instead, Evicted;
    var s := TriedSlot(h, a);
    if s in book.tried {
      var e := book.tried[s];
      OccupantKnown(h, book, s);
      var back := NewSlot(h, e, book.stats[e].source);
      MoveIsInstead(h, book, a, e, back);
      InsteadPlaced(h, book, MoveToTried(h, book, a), a, e, back);
    } else {
      PlacedFreely(h, book, a);
    }
  }

  lemma OccupantKnown(h: Hashes, book: Book, l: Slot)
    requires WellPlaced(h, book) && l in book.tried
    ensures book.tried[l] in book.stats && IsTried(h, book, book.tried[l])
  {
  }

  lemma MoveIsInstead(h: Hashes, book: Book, a: Service, e: Service, back: Slot)
    requires WellPlaced(h, book) && !IsTried(h, book, a) && TriedSlot(h, a) in book.tried
    requires e == book.tried[TriedSlot(h, a)] && back == NewSlot(h, e, book.stats[e].source)
    ensures Instead(h, book, MoveToTried(h, book, a), a, e, back)
  {
    hide Hashes.New, Hashes.NewPos, Hashes.Tried, Hashes.TriedPos;
    var left := book.(fresh' := Without(book.fresh', a));
    var room := left.(tried := left.tried - {TriedSlot(h, a)});
    assert ClearSlot(room, back).stats == ClearSlot(left, back).stats;
    assert (left.fresh' - {back})[back := e] == left.fresh'[back := e];
    TriedGrows(h, book, a);
  }

  lemma MetPlaced(h: Hashes, book: Book, a: Service, e: Stats)
    requires WellPlaced(h, book) && a in book.stats
    ensures WellPlaced(h, book.(stats := book.stats[a := e]))
  {
    var met := book.(stats := book.stats[a := e]);
    forall x | x in met.stats ensures IsTried(h, met, x) <==> x !in met.fresh'.Values { assert x in book.stats; }
  }

  lemma GoodKeepsPlaced(h: Hashes, book: Book, a: Service, testBeforeEvict: bool, nTime: int)
    requires WellPlaced(h, book)
    ensures WellPlaced(h, Good(h, book, a, testBeforeEvict, nTime))
  {
    hide WellPlaced, MoveToTried;
    if a in book.stats {
      var e := book.stats[a].(nLastSuccess := nTime, nLastTry := nTime, nAttempts := 0);
      MetPlaced(h, book, a, e);
      if !IsTried(h, book, a) { MoveKeepsPlaced(h, book.(stats := book.stats[a := e]), a); }
    }
  }

  lemma {:induction false} ResolveKeepsPlaced(
      h: Hashes, isValid: Service -> bool, book: Book, waiting: seq<Service>, now: int)
    requires WellPlaced(h, book)
    ensures WellPlaced(h, ResolveAll(h, isValid, book, waiting, now))
  {
    hide WellPlaced, Good, Judge;
    if waiting != [] {
      var n := |waiting| - 1;
      ResolveKeepsPlaced(h, isValid, book, waiting[..n], now);
      GoodKeepsPlaced(h, ResolveAll(h, isValid, book, waiting[..n], now), waiting[n], false, now);
    }
  }

  // ---- Times -----------------------------------------------------------------------------------------------

  lemma JudgedKnown(h: Hashes, isValid: Service -> bool, book: Book, a: Service, now: int)
    requires Judge(h, isValid, book, a, now) == Replace
    ensures a in book.stats
  {
  }

  lemma {:induction false} ResolveKeepsTimes(
      h: Hashes, isValid: Service -> bool, book: Book, waiting: seq<Service>, now: int)
    requires WellPlaced(h, book) && TimesOk(book) && now > 0
    ensures TimesOk(ResolveAll(h, isValid, book, waiting, now))
  {
    hide WellPlaced, Good, Judge, TimesOk;
    if waiting != [] {
      var n := |waiting| - 1;
      ResolveKeepsTimes(h, isValid, book, waiting[..n], now);
      ResolveKeepsPlaced(h, isValid, book, waiting[..n], now);
      GoodTimes(h, ResolveAll(h, isValid, book, waiting[..n], now), waiting[n], false, now);
    }
  }

  /** Some waiting address would be given its slot. */
  ghost predicate SomeReplace(h: Hashes, isValid: Service -> bool, book: Book, waiting: seq<Service>, now: int) {
    exists i :: 0 <= i < |waiting| && Judge(h, isValid, book, waiting[i], now) == Replace
  }

  lemma {:induction false} Unmoved(h: Hashes, isValid: Service -> bool, book: Book, waiting: seq<Service>, now: int)
    requires !SomeReplace(h, isValid, book, waiting, now)
    ensures ResolveAll(h, isValid, book, waiting, now) == book
  {
    hide Good, Judge;
    if waiting != [] {
      var n := |waiting| - 1;
      forall i | 0 <= i < n ensures Judge(h, isValid, book, waiting[..n][i], now) != Replace {
        assert waiting[..n][i] == waiting[i];
      }
      Unmoved(h, isValid, book, waiting[..n], now);
      assert Judge(h, isValid, book, waiting[n], now) != Replace;
    }
  }

  /** Some tried address has its last success at the given time. */
  ghost predicate Marked(h: Hashes, book: Book, nTime: int) {
    exists x :: x in book.stats && IsTried(h, book, x) && book.stats[x].nLastSuccess == nTime
  }

  lemma GoodMarks(h: Hashes, book: Book, a: Service, nTime: int)
    requires WellPlaced(h, book) && a in book.stats
    ensures Marked(h, Good(h, book, a, false, nTime), nTime)
  {
    hide MoveToTried, WellPlaced;
    var e := book.stats[a].(nLastSuccess := nTime, nLastTry := nTime, nAttempts := 0);
    var met, after := book.(stats := book.stats[a := e]), Good(h, book, a, false, nTime);
    MetPlaced(h, book, a, e);
    if !IsTried(h, book, a) { MoveTimes(h, met, a); }
    assert a in after.stats && IsTried(h, after, a) && after.stats[a].nLastSuccess == nTime;
  }

  lemma MarkedSpoils(h: Hashes, book: Book, nTime: int)
    requires Marked(h, book, nTime) && nTime <= 0
    ensures !TimesOk(book)
  {
    var x :| x in book.stats && IsTried(h, book, x) && book.stats[x].nLastSuccess == nTime;
    assert book.tried[TriedSlot(h, x)] == x;
  }

  lemma {:induction false} ResolveMarks(
      h: Hashes, isValid: Service -> bool, book: Book, waiting: seq<Service>, now: int)
    requires WellPlaced(h, book) && SomeReplace(h, isValid, book, waiting, now)
    ensures Marked(h, ResolveAll(h, isValid, book, waiting, now), now)
  {
    hide WellPlaced, Good, Judge, Marked;
    var n := |waiting| - 1;
    var prev, b := ResolveAll(h, isValid, book, waiting[..n], now), waiting[n];
    ResolveKeepsPlaced(h, isValid, book, waiting[..n], now);
    if SomeReplace(h, isValid, book, waiting[..n], now) {
      ResolveMarks(h, isValid, book, waiting[..n], now);
    } else {
      Unmoved(h, isValid, book, waiting[..n], now);
      forall i | 0 <= i < n ensures Judge(h, isValid, book, waiting[i], now) != Replace {
        assert waiting[..n][i] == waiting[i];
      }
    }
    if Judge(h, isValid, prev, b, now) == Replace {
      JudgedKnown(h, isValid, prev, b, now);
      GoodMarks(h, prev, b, now);
    }
  }

  /** On any view, resolving keeps the times fine exactly if the time is positive or no waiting address gets a slot. */
  lemma ResolveTimes(h: Hashes, isValid: Service -> bool, book: Book, waiting: seq<Service>, now: int)
    requires WellPlaced(h, book) && TimesOk(book)
    ensures TimesOk(ResolveAll(h, isValid, book, waiting, now)) <==>
              now > 0 || !SomeReplace(h, isValid, book, waiting, now)
  {
    hide WellPlaced, TimesOk, Marked, SomeReplace, ResolveAll;
    if now > 0 {
      ResolveKeepsTimes(h, isValid, book, waiting, now);
    } else if SomeReplace(h, isValid, book, waiting, now) {
      ResolveMarks(h, isValid, book, waiting, now);
      MarkedSpoils(h, ResolveAll(h, isValid, book, waiting, now), now);
    } else {
      Unmoved(h, isValid, book, waiting, now);
    }
  }

  /** At a time that is not positive an address gets no slot but a free one. */
  lemma NoReplaceEarly(h: Hashes, isValid: Service -> bool, book: Book, a: Service, now: int)
    requires WellPlaced(h, book) && TimesOk(book) && now <= 0
    ensures Judge(h, isValid, book, a, now) == Replace <==>
              a in book.stats && isValid(a) && TriedSlot(h, a) !in book.tried
  {
  }

  /** Addresses that wait for occupied slots never spoil the times, whatever the time. */
  lemma OccupiedTimes(h: Hashes, isValid: Service -> bool, book: Book, waiting: seq<Service>, now: int)
    requires WellPlaced(h, book) && TimesOk(book)
    requires forall i :: 0 <= i < |waiting| ==> TriedSlot(h, waiting[i]) in book.tried
    ensures TimesOk(ResolveAll(h, isValid, book, waiting, now))
  {
    hide WellPlaced, TimesOk, ResolveAll, Judge;
    if now > 0 {
      ResolveKeepsTimes(h, isValid, book, waiting, now);
    } else {
      forall i | 0 <= i < |waiting| ensures Judge(h, isValid, book, waiting[i], now) != Replace {
        NoReplaceEarly(h, isValid, book, waiting[i], now);
      }
      Unmoved(h, isValid, book, waiting, now);
    }
  }

  /** The addresses of stored collisions that are still known, in some order. */
  ghost predicate Stored(collisions: set<int>, info: Infos, waiting: seq<Service>) {
    forall a :: a in waiting <==> exists id :: id in collisions && id in info && info[id].addr == a
  }

  /** A manager's stored collisions wait for occupied slots, so resolving them keeps the times fine at every time. */
  lemma StoredTimes(
      h: Hashes, isValid: Service -> bool, s: State, collisions: set<int>, waiting: seq<Service>, now: int)
    requires Inv(h, s, {}, 0) && Colliding(h, collisions, s.info, s.nIdCount, BookOf(s).tried)
    requires Stored(collisions, s.info, waiting) && TimesOk(BookOf(s))
    ensures TimesOk(ResolveAll(h, isValid, BookOf(s), waiting, now))
  {
    hide Inv, BookOf, TimesOk, WellPlaced, ResolveAll;
    Shape(h, s);
    EveryAddressPlaced(h, s);
    forall i | 0 <= i < |waiting| ensures TriedSlot(h, waiting[i]) in BookOf(s).tried { assert waiting[i] in waiting; }
    OccupiedTimes(h, isValid, BookOf(s), waiting, now);
  }

  // ---- Who keeps a slot ------------------------------------------------------------------------------------------

  /** The address succeeded in the last four hours, or its test is still young. */
  predicate Safe(e: Stats, now: int) {
    now - e.nLastSuccess < REPLACEMENT_SECONDS || now - e.nLastTry <= 60
  }

  /** A known, safe address stands in the slot. */
  ghost predicate Holds(book: Book, l: Slot, o: Service, now: int) {
    l in book.tried && book.tried[l] == o && o in book.stats && Safe(book.stats[o], now)
  }

  /** No one replaces a safe address. */
  lemma SafeWins(h: Hashes, isValid: Service -> bool, book: Book, l: Slot, o: Service, a: Service, now: int)
    requires Holds(book, l, o, now) && TriedSlot(h, a) == l
    ensures Judge(h, isValid, book, a, now) != Replace
  {
  }

  lemma SafeSurvives(h: Hashes, isValid: Service -> bool, book: Book, l: Slot, o: Service, a: Service, now: int)
    requires WellPlaced(h, book) && Holds(book, l, o, now)
    ensures Holds(Resolve(h, isValid, book, a, now), l, o, now)
  {
    hide Judge, MoveToTried, Safe;
    assert l == TriedSlot(h, o);
    if Judge(h, isValid, book, a, now) == Replace {
      JudgedKnown(h, isValid, book, a, now);
      if TriedSlot(h, a) == l { SafeWins(h, isValid, book, l, o, a, now); }
      var e := book.stats[a].(nLastSuccess := now, nLastTry := now, nAttempts := 0);
      MetPlaced(h, book, a, e);
      if !IsTried(h, book, a) { MoveTimes(h, book.(stats := book.stats[a := e]), a); }
    }
  }

  /** An address that is safe keeps its tried slot, whoever waits for it. */
  lemma {:induction false} SafeStays(
      h: Hashes, isValid: Service -> bool, book: Book, waiting: seq<Service>, now: int, l: Slot, o: Service)
    requires WellPlaced(h, book) && Holds(book, l, o, now)
    ensures Holds(ResolveAll(h, isValid, book, waiting, now), l, o, now)
  {
    hide WellPlaced, Resolve, Holds;
    if waiting != [] {
      var n := |waiting| - 1;
      SafeStays(h, isValid, book, waiting[..n], now, l, o);
      ResolveKeepsPlaced(h, isValid, book, waiting[..n], now);
      SafeSurvives(h, isValid, ResolveAll(h, isValid, book, waiting[..n], now), l, o, waiting[n], now);
    }
  }
}
