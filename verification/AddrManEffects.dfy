/**
 * What is known of an address after each call, and what decides about it: which addresses are terrible and what
 * that costs them, who gets a tried slot, and how likely an announcement earns another new slot.
 */
module AddrManEffects {
  import opened Basics
  import opened Arithmetic
  import opened Radix
  import opened AddrManTables
  import opened AddrManBook
  import opened AddrManSteps
  import opened AddrManLaws

  // ---- Terrible addresses ----------------------------------------------------------------------------------------

  const MINUTE := 60
  const DAY := 24 * 60 * 60

  predicate TriedJustNow(e: Stats, now: int) { e.nLastTry != 0 && now - e.nLastTry <= MINUTE }

  /** Never seen, not seen for thirty days, or seen more than ten minutes from now. */
  predicate NotSeen(e: Stats, now: int) {
    e.nTime == 0 || now - e.nTime > 30 * DAY || e.nTime - now > 10 * MINUTE
  }

  /** Three failures without any success, or ten without one for a week. */
  predicate Failing(e: Stats, now: int) {
    (e.nLastSuccess == 0 && e.nAttempts >= 3) || (now - e.nLastSuccess > 7 * DAY && e.nAttempts >= 10)
  }

  /** An address is terrible exactly if it is out of sight or failing, and not being tried. */
  lemma TerribleExactly(e: Stats, now: int)
    ensures IsTerrible(e, now) <==> !TriedJustNow(e, now) && (NotSeen(e, now) || Failing(e, now))
  {
  }

  /** A contested new slot changes hands exactly if its occupant is terrible, or has others and the other has none. */
  lemma ContestedSlot(h: Hashes, book: Book, a: Service, s: Slot, now: int)
    requires s in book.fresh' && book.fresh'[s] != a && book.fresh'[s] in book.stats
    ensures var o, after := book.fresh'[s], Offer(h, book, a, s, now);
            if (!TriedJustNow(book.stats[o], now) && (NotSeen(book.stats[o], now) || Failing(book.stats[o], now)))
               || (References(h, book, o) > 1 && References(h, book, a) == 0)
            then after.fresh' == book.fresh'[s := a]
            else after.fresh' == book.fresh'
  {
    hide IsTerrible, References;
    TerribleExactly(book.stats[book.fresh'[s]], now);
    assert (book.fresh' - {s})[s := a] == book.fresh'[s := a];
  }

  // ---- Successes, attempts and connections -----------------------------------------------------------------------

  /** What is known of the others stays as it is, as far as they are still known. */
  ghost predicate OthersSame(book: Book, after: Book, a: Service) {
    forall x :: x in after.stats && x != a ==> x in book.stats && after.stats[x] == book.stats[x]
  }

  /** A success: the address counts as tried and met at that time, without failures. */
  lemma GoodKnown(h: Hashes, book: Book, a: Service, testBeforeEvict: bool, nTime: int)
    requires WellPlaced(h, book)
    ensures var after := Good(h, book, a, testBeforeEvict, nTime);
            && OthersSame(book, after, a) && (a in after.stats <==> a in book.stats)
            && (a !in book.stats ==> after == book)
            && (a in book.stats ==>
                  && var e, e' := book.stats[a], after.stats[a];
                  && e'.nLastSuccess == nTime && e'.nLastTry == nTime && e'.nAttempts == 0
                  && e'.nTime == e.nTime && e'.nServices == e.nServices && e'.source == e.source
                  && e'.nLastCountAttempt == e.nLastCountAttempt
                  && (IsTried(h, after, a) <==>
                      IsTried(h, book, a) || !testBeforeEvict || TriedSlot(h, a) !in book.tried))
  {
    hide MoveToTried, TriedSlot;
    if a in book.stats {
      var e := book.stats[a].(nLastSuccess := nTime, nLastTry := nTime, nAttempts := 0);
      var met := book.(stats := book.stats[a := e]);
      assert WellPlaced(h, met);
      if !IsTried(h, book, a) { MoveTimes(h, met, a); }
    }
  }

  /** An attempt: only the time of the last try changes, and the count of failures if it counts. */
  lemma AttemptKnown(book: Book, a: Service, fCountFailure: bool, nTime: int, nLastGood: int)
    ensures var after := Attempt(book, a, fCountFailure, nTime, nLastGood);
            && after.tried == book.tried && after.fresh' == book.fresh' && after.stats.Keys == book.stats.Keys
            && OthersSame(book, after, a)
            && (a in book.stats ==>
                  && var e, e' := book.stats[a], after.stats[a];
                  && e'.nLastTry == nTime && e'.nLastSuccess == e.nLastSuccess && e'.nTime == e.nTime
                  && e'.nServices == e.nServices && e'.source == e.source
                  && if fCountFailure && e.nLastCountAttempt < nLastGood
                     then e'.nAttempts == e.nAttempts + 1 && e'.nLastCountAttempt == nTime
                     else e'.nAttempts == e.nAttempts && e'.nLastCountAttempt == e.nLastCountAttempt)
  {
    if a in book.stats { assert Attempt(book, a, fCountFailure, nTime, nLastGood).stats.Keys == book.stats.Keys; }
  }

  /** A connection is a sighting, if the last one was more than twenty minutes before; nothing else changes. */
  lemma ConnectedKnown(book: Book, a: Service, nTime: U32)
    ensures var after := Connected(book, a, nTime);
            && after.tried == book.tried && after.fresh' == book.fresh' && after.stats.Keys == book.stats.Keys
            && OthersSame(book, after, a)
            && (a in book.stats ==>
                  && after.stats[a] == book.stats[a].(nTime := after.stats[a].nTime)
                  && book.stats[a].nTime <= after.stats[a].nTime && nTime - after.stats[a].nTime <= 20 * MINUTE
                  && (after.stats[a].nTime != book.stats[a].nTime ==> after.stats[a].nTime == nTime))
            && (a in book.stats && nTime - book.stats[a].nTime <= 20 * MINUTE ==> after == book)
  {
    hide ToU32;
    Fits(nTime);
    if a in book.stats { assert Connected(book, a, nTime).stats.Keys == book.stats.Keys; }
  }

  /** Services learned from the address itself replace those it was announced with; nothing else changes. */
  lemma ServicesKnown(book: Book, a: Service, nServices: bv64)
    ensures var after := SetServices(book, a, nServices);
            && after.tried == book.tried && after.fresh' == book.fresh' && after.stats.Keys == book.stats.Keys
            && OthersSame(book, after, a)
            && (a in book.stats ==>
                  && after.stats[a].nServices == nServices
                  && after.stats[a].(nServices := 0) == book.stats[a].(nServices := 0))
  {
    if a in book.stats { assert SetServices(book, a, nServices).stats.Keys == book.stats.Keys; }
  }

  // ---- Announcements ---------------------------------------------------------------------------------------------

  /** A newcomer that stays is known as announced, never tried, and seen when it was announced less the penalty. */
  lemma NewcomerKnown(h: Hashes, book: Book, a: Announced, source: NetAddr, penalty: int, now: int, draw: nat)
    requires a.addr !in book.stats && a.nTime - penalty < TWO_32
    ensures var after := Add(h, book, a, source, penalty, now, draw);
            a.addr in after.stats ==>
              && var e := after.stats[a.addr];
              && e.nTime == (if a.addr.net == source then a.nTime else Max(0, a.nTime - penalty))
              && e.nServices == a.nServices && e.source == source
              && e.nLastTry == e.nLastSuccess == e.nLastCountAttempt == 0 && e.nAttempts == 0
  {
    hide Offer, ToU32;
    var p := if a.addr.net == source then 0 else penalty;
    Fits(Max0(a.nTime - p));
    var e := Stats(ToU32(Max0(a.nTime - p)), a.nServices, source, 0, 0, 0, 0);
    OfferStats(h, book.(stats := book.stats[a.addr := e]), a.addr, NewSlot(h, a.addr, source), now);
  }

  lemma OfferStats(h: Hashes, book: Book, a: Service, s: Slot, now: int)
    ensures forall x :: x in Offer(h, book, a, s, now).stats ==>
              x in book.stats && Offer(h, book, a, s, now).stats[x] == book.stats[x]
  {
    hide Yields, References;
    ClearForgets(book, s);
  }

  /** When an announcement counts as a sighting: after an hour if the address is online, after a day otherwise. */
  lemma RefreshExactly(e: Stats, a: Announced, penalty: int, now: int)
    requires a.nTime - penalty < TWO_32
    ensures var online := now - a.nTime < DAY;
            var interval := if online then 60 * MINUTE else DAY;
            var sighting := a.nTime != 0 && (e.nTime == 0 || a.nTime - penalty - e.nTime > interval);
            Refreshed(e, a, penalty, now).nTime == if sighting then Max(0, a.nTime - penalty) else e.nTime
  {
    hide ToU32, AllServices;
    Fits(Max0(a.nTime - penalty));
  }

  /** Numbers that leave a remainder of zero: exactly one in a row of p. */
  lemma OneInRow(start: nat, p: nat) returns (d: nat)
    requires p >= 1
    ensures start <= d < start + p && d % p == 0
    ensures forall x :: start <= x < start + p && x % p == 0 ==> x == d
  {
    var q := (start + p - 1) / p;
    var r := (start + p - 1) % p;
    d := start + p - 1 - r;
    assert d == q * p;
    DivModUnique(d, p, q, 0);
    forall x | start <= x < start + p && x % p == 0 ensures x == d {
      var k := x / p;
      assert x == k * p;
      assert (k - q) * p == x - d;
      Small(k - q, p);
    }
  }

  /**
   * An address that may have another slot gets it with a chance that halves with every slot it has: among any 2^k
   * draws in a row exactly one earns it, and an address with eight slots, or in the tried table, never does.
   */
  lemma EarnsOneIn(h: Hashes, book: Book, a: Announced, e: Stats, start: nat) returns (d: nat)
    ensures (IsTried(h, book, a.addr) || References(h, book, a.addr) == 8 || a.nTime == 0) ==>
              forall draw :: !Earns(h, book, a, e, draw)
    ensures (e.nTime != 0 && a.nTime <= e.nTime) ==> forall draw :: !Earns(h, book, a, e, draw)
    ensures !IsTried(h, book, a.addr) && References(h, book, a.addr) != 8 && a.nTime != 0 &&
            (e.nTime == 0 || a.nTime > e.nTime) ==>
              && start <= d < start + Pow(2, References(h, book, a.addr))
              && forall draw :: start <= draw < start + Pow(2, References(h, book, a.addr)) ==>
                   (Earns(h, book, a, e, draw) <==> draw == d)
  {
    hide References, Pow;
    PowPositive(2, References(h, book, a.addr));
    d := OneInRow(start, Pow(2, References(h, book, a.addr)));
  }

  // ---- Tried slots -----------------------------------------------------------------------------------------------

  const HOUR := 60 * 60

  /**
   * Who gets a tried slot for which a valid address waits: the occupant keeps it for four hours after a success; then
   * the waiting address gets it one minute after a test failed, or without a test forty minutes after its own success.
   */
  lemma WhoGetsTheSlot(h: Hashes, isValid: Service -> bool, book: Book, a: Service, now: int)
    requires WellPlaced(h, book) && a in book.stats && isValid(a)
    requires !IsTried(h, book, a) && TriedSlot(h, a) in book.tried
    ensures var o, after := book.tried[TriedSlot(h, a)], Resolve(h, isValid, book, a, now);
            && o in book.stats
            && var tested := now - book.stats[o].nLastTry;
            && after.tried == (
                 if now - book.stats[o].nLastSuccess >= 4 * HOUR &&
                    (if tested < 4 * HOUR then tested > MINUTE else now - book.stats[a].nLastSuccess > 40 * MINUTE)
                 then book.tried[TriedSlot(h, a) := a] else book.tried)
  {
    hide MoveToTried, TriedSlot;
    if Judge(h, isValid, book, a, now) == Replace {
      var e := book.stats[a].(nLastSuccess := now, nLastTry := now, nAttempts := 0);
      var met := book.(stats := book.stats[a := e]);
      assert WellPlaced(h, met);
      MoveTimes(h, met, a);
    }
  }
}
