/**
 * The address manager as an observer sees it: which address stands in which slot, and what is
 * known about each address. Ids, reference counts, the random order and the address index are
 * bookkeeping that the invariant ties to this book.
 */
module AddrManBook {
  import opened Basics
  import opened Radix
  import opened AddrManTables

  datatype Slot = Slot(bucket: nat, pos: nat)

  datatype Stats = Stats(nTime: U32, nServices: bv64, source: NetAddr,
                         nLastTry: int, nLastCountAttempt: int, nLastSuccess: int, nAttempts: int)

  type Placement = map<Slot, Service>

  datatype Book = Book(tried: Placement, fresh': Placement, stats: map<Service, Stats>)

  function TriedSlot(h: Hashes, a: Service): Slot { Slot(h.Tried(a), h.TriedPos(a)) }
  function NewSlotIn(h: Hashes, a: Service, b: nat): Slot { Slot(b, h.NewPos(a, b)) }
  function NewSlot(h: Hashes, a: Service, src: NetAddr): Slot { NewSlotIn(h, a, h.New(a, src)) }

  ghost function Without(p: Placement, a: Service): Placement { map s | s in p && p[s] != a :: p[s] }

  /** In how many of the first `n` new buckets the address stands. */
  ghost function Listed(h: Hashes, p: Placement, a: Service, n: nat): nat {
    if n == 0 then 0
    else Listed(h, p, a, n - 1) + if NewSlotIn(h, a, n - 1) in p && p[NewSlotIn(h, a, n - 1)] == a then 1 else 0
  }

  ghost function References(h: Hashes, book: Book, a: Service): nat {
    Listed(h, book.fresh', a, NEW_BUCKET_COUNT)
  }

  // ---- Operations ---------------------------------------------------------------------------------

  /** Empties a new slot; an address that stands nowhere else is forgotten. */
  ghost function ClearSlot(book: Book, s: Slot): Book {
    if s !in book.fresh' then book
    else
      var a, p := book.fresh'[s], book.fresh' - {s};
      Book(book.tried, p, if a in p.Values then book.stats else book.stats - {a})
  }

  function SourceOf(stats: map<Service, Stats>, a: Service): NetAddr {
    if a in stats then stats[a].source else 0
  }

  /** The address in a tried slot goes back to its new slot, whose occupant is cleared. */
  ghost function Evicted(h: Hashes, book: Book, s: Slot): Book
    requires s in book.tried
  {
    var e := book.tried[s];
    var back := NewSlot(h, e, SourceOf(book.stats, e));
    var cleared := ClearSlot(book.(tried := book.tried - {s}), back);
    cleared.(fresh' := cleared.fresh'[back := e])
  }

  /** Moves an address to its tried slot; whoever stood there goes back to its new slot. */
  ghost function MoveToTried(h: Hashes, book: Book, a: Service): Book {
    var s, left := TriedSlot(h, a), book.(fresh' := Without(book.fresh', a));
    var room := if s in book.tried then Evicted(h, left, s) else left;
    room.(tried := room.tried[s := a])
  }

  /** Moving to tried empties no tried slot, and changes only the one it fills. */
  lemma TriedGrows(h: Hashes, book: Book, a: Service)
    ensures MoveToTried(h, book, a).tried == book.tried[TriedSlot(h, a) := a]
  {
  }

  predicate IsTried(h: Hashes, book: Book, a: Service) {
    TriedSlot(h, a) in book.tried && book.tried[TriedSlot(h, a)] == a
  }

  /** A connection to the address worked; it moves to tried unless it is there or must wait for a test. */
  ghost function Good(h: Hashes, book: Book, a: Service, testBeforeEvict: bool, nTime: int): Book {
    if a !in book.stats then book
    else
      var e := book.stats[a].(nLastSuccess := nTime, nLastTry := nTime, nAttempts := 0);
      var met := book.(stats := book.stats[a := e]);
      if IsTried(h, book, a) || (testBeforeEvict && TriedSlot(h, a) in book.tried) then met else MoveToTried(h, met, a)
  }

  /** A connected address that must wait until the tried entry in its way has been tested. */
  predicate Waits(h: Hashes, book: Book, a: Service, testBeforeEvict: bool) {
    a in book.stats && !IsTried(h, book, a) && testBeforeEvict && TriedSlot(h, a) in book.tried
  }

  const HORIZON := 30 * 24 * 60 * 60
  const MIN_FAIL := 7 * 24 * 60 * 60
  const RETRIES := 3
  const MAX_FAILURES := 10

  function IsTerrible(e: Stats, now: int): bool {
    if e.nLastTry != 0 && e.nLastTry >= now - 60 then false
    else if e.nTime > now + 10 * 60 then true
    else if e.nTime == 0 || now - e.nTime > HORIZON then true
    else if e.nLastSuccess == 0 && e.nAttempts >= RETRIES then true
    else now - e.nLastSuccess > MIN_FAIL && e.nAttempts >= MAX_FAILURES
  }

  /** Offers a new slot to an address; an address left without any slot is forgotten. */
  ghost function Offer(h: Hashes, book: Book, a: Service, s: Slot, now: int): Book {
    if s in book.fresh' && book.fresh'[s] == a then book
    else if s !in book.fresh' || Yields(h, book, book.fresh'[s], a, now) then
      var cleared := ClearSlot(book, s);
      cleared.(fresh' := cleared.fresh'[s := a])
    else if References(h, book, a) == 0 then book.(stats := book.stats - {a})
    else book
  }

  /** Whether the occupant of a new slot makes way for `a`. */
  ghost predicate Yields(h: Hashes, book: Book, occupant: Service, a: Service, now: int) {
    || (occupant in book.stats && IsTerrible(book.stats[occupant], now))
    || (References(h, book, occupant) > 1 && References(h, book, a) == 0)
  }

  lemma OfferKeepsTried(h: Hashes, book: Book, a: Service, s: Slot, now: int)
    ensures Offer(h, book, a, s, now).tried == book.tried
  {
  }

  function AllServices(x: bv64, y: bv64): bv64 { x | y }

  /** What an announcement of a known address changes. */
  function Refreshed(e: Stats, a: Announced, penalty: int, now: int): Stats {
    var interval := if now - a.nTime < 24 * 60 * 60 then 60 * 60 else 24 * 60 * 60;
    var seen := a.nTime != 0 && (e.nTime == 0 || e.nTime < a.nTime - interval - penalty);
    e.(nTime := if seen then ToU32(Max0(a.nTime - penalty))
        else e.nTime, nServices := AllServices(e.nServices, a.nServices))
  }

  /** Whether an announcement of a known address earns it another new slot; each costs twice the luck. */
  ghost predicate Earns(h: Hashes, book: Book, a: Announced, e: Stats, draw: nat) {
    && a.nTime != 0 && (e.nTime == 0 || a.nTime > e.nTime) && !IsTried(h, book, a.addr)
    && References(h, book, a.addr) != NEW_BUCKETS_PER_ADDRESS
    && (PowPositive(2, References(h, book, a.addr)); draw % Pow(2, References(h, book, a.addr)) == 0)
  }

  lemma EarnsByPlace(h: Hashes, book: Book, book': Book, a: Announced, e: Stats, draw: nat)
    requires book'.fresh' == book.fresh' && book'.tried == book.tried
    ensures Earns(h, book, a, e, draw) <==> Earns(h, book', a, e, draw)
  {
  }

  ghost function Add(h: Hashes, book: Book, a: Announced, source: NetAddr, penalty: int, now: int, draw: nat): Book {
    var p := if a.addr.net == source then 0 else penalty;
    var slot := NewSlot(h, a.addr, source);
    if a.addr !in book.stats then
      var e := Stats(ToU32(Max0(a.nTime - p)), a.nServices, source, 0, 0, 0, 0);
      Offer(h, book.(stats := book.stats[a.addr := e]), a.addr, slot, now)
    else
      var e := Refreshed(book.stats[a.addr], a, p, now);
      var told := book.(stats := book.stats[a.addr := e]);
      if Earns(h, book, a, e, draw) then Offer(h, told, a.addr, slot, now) else told
  }

  /** A connection attempt; it counts as a failure at most once per success of any address. */
  function Attempt(book: Book, a: Service, fCountFailure: bool, nTime: int, nLastGood: int): Book {
    if a !in book.stats then book
    else
      var e := book.stats[a].(nLastTry := nTime);
      var counted := if fCountFailure && e.nLastCountAttempt < nLastGood
                     then e.(nLastCountAttempt := nTime, nAttempts := e.nAttempts + 1) else e;
      book.(stats := book.stats[a := counted])
  }

  function Connected(book: Book, a: Service, nTime: int): Book {
    if a in book.stats && nTime - book.stats[a].nTime > 20 * 60
    then book.(stats := book.stats[a := book.stats[a].(nTime := ToU32(nTime))]) else book
  }

  function SetServices(book: Book, a: Service, nServices: bv64): Book {
    if a in book.stats then book.(stats := book.stats[a := book.stats[a].(nServices := nServices)]) else book
  }

  const REPLACEMENT_SECONDS := 4 * 60 * 60
  const TEST_WINDOW := 40 * 60

  datatype Verdict = Keep | Drop | Replace

  /** What becomes of an address that waits for a tried slot: Replace gives it the slot, Keep lets it wait. */
  function Judge(h: Hashes, isValid: Service -> bool, book: Book, a: Service, now: int): Verdict {
    if a !in book.stats || !isValid(a) then Drop
    else if TriedSlot(h, a) !in book.tried then Replace
    else
      var old' := book.tried[TriedSlot(h, a)];
      if old' !in book.stats || now - book.stats[old'].nLastSuccess < REPLACEMENT_SECONDS then Drop
      else if now - book.stats[old'].nLastTry < REPLACEMENT_SECONDS then
        if now - book.stats[old'].nLastTry > 60 then Replace else Keep
      else if now - book.stats[a].nLastSuccess > TEST_WINDOW then Replace else Keep
  }

  ghost function Resolve(h: Hashes, isValid: Service -> bool, book: Book, a: Service, now: int): Book {
    if Judge(h, isValid, book, a, now) == Replace then Good(h, book, a, false, now) else book
  }

  /** Resolves waiting addresses one after the other. */
  ghost function ResolveAll(h: Hashes, isValid: Service -> bool, book: Book, waiting: seq<Service>, now: int): Book {
    if waiting == [] then book
    else
      var n := |waiting| - 1;
      Resolve(h, isValid, ResolveAll(h, isValid, book, waiting[..n], now), waiting[n], now)
  }

  // ---- The book of a state ------------------------------------------------------------------------------

  function Slots(rows: nat): set<Slot> {
    set b, i | 0 <= b < rows && 0 <= i < BUCKET_SIZE :: Slot(b, i)
  }

  lemma InSlots(rows: nat, b: nat, i: nat)
    ensures Slot(b, i) in Slots(rows) <==> b < rows && i < BUCKET_SIZE
  {
  }

  ghost function Placed(info: Infos, t: Table, rows: nat): Placement
    requires IsTable(t, rows)
  {
    map s | s in Slots(rows) && At(t, s.bucket, s.pos) in info :: info[At(t, s.bucket, s.pos)].addr
  }

  function StatsOf(e: AddrInfo): Stats {
    Stats(e.nTime, e.nServices, e.source, e.nLastTry, e.nLastCountAttempt, e.nLastSuccess, e.nAttempts)
  }

  ghost function StatsBook(info: Infos, ma: map<Service, int>): map<Service, Stats> {
    map a | a in ma && ma[a] in info :: StatsOf(info[ma[a]])
  }

  datatype State = State(info: Infos, ma: map<Service, int>, vr: seq<int>, vt: Table, vn: Table,
                         nNew: int, nTried: int, nIdCount: int)

  ghost predicate Shaped(s: State) {
    IsTable(s.vt, TRIED_BUCKET_COUNT) && IsTable(s.vn, NEW_BUCKET_COUNT)
  }

  ghost function BookOf(s: State): Book
    requires Shaped(s)
  {
    Book(Placed(s.info, s.vt, TRIED_BUCKET_COUNT), Placed(s.info, s.vn, NEW_BUCKET_COUNT), StatsBook(s.info, s.ma))
  }

  /**
   * The invariant. Entries in `limbo` may be new without a reference, and `uncounted` new entries
   * are not in nNew; both are empty between operations.
   */
  ghost predicate Inv(h: Hashes, s: State, limbo: set<int>, uncounted: int) {
    && Shaped(s)
    && RandomOk(s.info, s.vr)
    && AddrOk(s.info, s.ma)
    && TriedOk(h, s.info, s.vt)
    && NewOk(h, s.info, s.vn)
    && RefsOk(h, s.info, s.vn)
    && EntriesOk(s.info, limbo, s.nIdCount)
    && s.nTried == |TriedIds(s.info)|
    && s.nNew == |NewIds(s.info)| - uncounted
  }

  // ---- What each promise depends on ----------------------------------------------------------------------

  ghost predicate SameKeys(info: Infos, info': Infos) {
    info.Keys == info'.Keys
  }

  ghost predicate SameAddrs(info: Infos, info': Infos) {
    SameKeys(info, info') && forall id :: id in info ==> info'[id].addr == info[id].addr
  }

  ghost predicate SamePos(info: Infos, info': Infos) {
    SameKeys(info, info') && forall id :: id in info ==> info'[id].nRandomPos == info[id].nRandomPos
  }

  ghost predicate SameTried(info: Infos, info': Infos) {
    SameKeys(info, info') && forall id :: id in info ==> info'[id].fInTried == info[id].fInTried
  }

  ghost predicate SameRefs(info: Infos, info': Infos) {
    SameKeys(info, info') && forall id :: id in info ==> info'[id].nRefCount == info[id].nRefCount
  }

  lemma KeepsRandom(info: Infos, info': Infos, vr: seq<int>)
    requires RandomOk(info, vr) && SamePos(info, info')
    ensures RandomOk(info', vr)
  {
  }

  lemma KeepsAddrs(info: Infos, info': Infos, ma: map<Service, int>)
    requires AddrOk(info, ma) && SameAddrs(info, info')
    ensures AddrOk(info', ma)
  {
  }

  lemma KeepsTried(h: Hashes, info: Infos, info': Infos, vt: Table)
    requires IsTable(vt, TRIED_BUCKET_COUNT) && TriedOk(h, info, vt) && SameAddrs(info, info') && SameTried(info, info')
    ensures TriedOk(h, info', vt)
  {
  }

  lemma KeepsNew(h: Hashes, info: Infos, info': Infos, vn: Table)
    requires IsTable(vn, NEW_BUCKET_COUNT) && NewOk(h, info, vn) && SameAddrs(info, info') && SameTried(info, info')
    ensures NewOk(h, info', vn)
  {
  }

  lemma KeepsRefs(h: Hashes, info: Infos, info': Infos, vn: Table)
    requires IsTable(vn, NEW_BUCKET_COUNT) && RefsOk(h, info, vn) && SameAddrs(info, info') && SameRefs(info, info')
    ensures RefsOk(h, info', vn)
  {
  }

  lemma KeepsIds(info: Infos, info': Infos)
    requires SameTried(info, info')
    ensures TriedIds(info') == TriedIds(info) && NewIds(info') == NewIds(info)
  {
    assert forall id :: id in TriedIds(info') <==> id in TriedIds(info);
    assert forall id :: id in NewIds(info') <==> id in NewIds(info);
  }

  /** Placements depend only on the addresses of the ids that are placed. */
  lemma KeepsPlaced(info: Infos, info': Infos, t: Table, rows: nat)
    requires IsTable(t, rows)
    requires forall b, i :: 0 <= b < rows && 0 <= i < BUCKET_SIZE ==>
               (At(t, b, i) in info <==> At(t, b, i) in info') && (At(t, b, i) in info ==>
                   info[At(t, b, i)].addr == info'[At(t, b, i)].addr)
    ensures Placed(info, t, rows) == Placed(info', t, rows)
  {
  }

  lemma StatsSet(info: Infos, ma: map<Service, int>, id: int, e: AddrInfo)
    requires AddrOk(info, ma) && id in info && info[id].addr == e.addr
    ensures StatsBook(info[id := e], ma) == StatsBook(info, ma)[e.addr := StatsOf(e)]
  {
    assert e.addr in ma && ma[e.addr] == id;
  }

  // ---- Updating what is known ---------------------------------------------------------------------------

  /** An entry whose bookkeeping and address stay the same. */
  predicate SameBookkeeping(e: AddrInfo, f: AddrInfo) {
    e.addr == f.addr && e.nRefCount == f.nRefCount && e.fInTried == f.fInTried && e.nRandomPos == f.nRandomPos
  }

  lemma StatsUpdated(h: Hashes, s: State, limbo: set<int>, u: int, id: int, e: AddrInfo)
    requires Inv(h, s, limbo, u) && id in s.info && SameBookkeeping(s.info[id], e) && EntryOk(e, id in limbo)
    ensures Inv(h, s.(info := s.info[id := e]), limbo, u)
    ensures BookOf(s.(info := s.info[id := e])) == BookOf(s).(stats := BookOf(s).stats[e.addr := StatsOf(e)])
  {
    var info' := s.info[id := e];
    KeepsRandom(s.info, info', s.vr);
    KeepsAddrs(s.info, info', s.ma);
    KeepsTried(h, s.info, info', s.vt);
    KeepsNew(h, s.info, info', s.vn);
    KeepsRefs(h, s.info, info', s.vn);
    KeepsIds(s.info, info');
    KeepsPlaced(s.info, info', s.vt, TRIED_BUCKET_COUNT);
    KeepsPlaced(s.info, info', s.vn, NEW_BUCKET_COUNT);
    StatsSet(s.info, s.ma, id, e);
  }

  // ---- Changing the random order -----------------------------------------------------------------------

  ghost predicate SameButPos(info: Infos, info': Infos) {
    && SameKeys(info, info')
    && forall id :: id in info ==> info'[id] == info[id].(nRandomPos := info'[id].nRandomPos)
  }

  lemma StatsSame(info: Infos, info': Infos, ma: map<Service, int>)
    requires SameButPos(info, info')
    ensures StatsBook(info', ma) == StatsBook(info, ma)
  {
    assert forall id :: id in info ==> StatsOf(info'[id]) == StatsOf(info[id]);
  }

  lemma Reordered(h: Hashes, s: State, limbo: set<int>, u: int, info': Infos, vr': seq<int>)
    requires Inv(h, s, limbo, u) && SameButPos(s.info, info') && RandomOk(info', vr')
    ensures Inv(h, s.(info := info', vr := vr'), limbo, u)
    ensures BookOf(s.(info := info', vr := vr')) == BookOf(s)
  {
    KeepsAddrs(s.info, info', s.ma);
    KeepsTried(h, s.info, info', s.vt);
    KeepsNew(h, s.info, info', s.vn);
    KeepsRefs(h, s.info, info', s.vn);
    KeepsIds(s.info, info');
    KeepsPlaced(s.info, info', s.vt, TRIED_BUCKET_COUNT);
    KeepsPlaced(s.info, info', s.vn, NEW_BUCKET_COUNT);
    StatsSame(s.info, info', s.ma);
  }

  lemma Swapped(info: Infos, vr: seq<int>, p: nat, q: nat)
    requires RandomOk(info, vr) && p < |vr| && q < |vr| && p != q
    ensures vr[p] in info && vr[q] in info
    ensures var x, y := vr[p], vr[q];
            var info' := info[x := info[x].(nRandomPos := q)][y := info[y].(nRandomPos := p)];
            SameButPos(info, info') && RandomOk(info', vr[p := y][q := x])
  {
  }
}
