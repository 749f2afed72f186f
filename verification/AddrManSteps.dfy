/**
 * What each primitive change of the address manager does to its invariant and to its book.
 */
module AddrManSteps {
  import opened AddrManTables
  import opened AddrManBook

  // ---- One slot ------------------------------------------------------------------------------------

  ghost function PlacedWith(info: Infos, p: Placement, s: Slot, v: int): Placement {
    if v in info then p[s := info[v].addr] else p - {s}
  }

  lemma PlacedSet(info: Infos, t: Table, rows: nat, b: nat, i: nat, v: int)
    requires IsTable(t, rows) && b < rows && i < BUCKET_SIZE
    ensures Placed(info, Set(t, rows, b, i, v), rows) == PlacedWith(info, Placed(info, t, rows), Slot(b, i), v)
  {
    InSlots(rows, b, i);
    var l, r := Placed(info, Set(t, rows, b, i, v), rows), PlacedWith(info, Placed(info, t, rows), Slot(b, i), v);
    forall s: Slot ensures (s in l <==> s in r) && (s in l ==> l[s] == r[s]) {
      if s != Slot(b, i) && s in Slots(rows) {
        assert s.bucket != b || s.pos != i;
        InSlots(rows, s.bucket, s.pos);
      }
    }
  }

  /** The new table after `v` replaced what stood in a slot, with the counts that go with it. */
  lemma RefsChanged(h: Hashes, info: Infos, info': Infos, vn: Table, b: nat, i: nat, v: int, id: int, d: int)
    requires IsTable(vn, NEW_BUCKET_COUNT) && b < NEW_BUCKET_COUNT && i < BUCKET_SIZE
    requires RefsOk(h, info, vn) && SameAddrs(info, info')
    requires id in info && h.NewPos(info[id].addr, b) == i
    requires (At(vn, b, i) == -1 && v == id && d == 1) || (At(vn, b, i) == id && v == -1 && d == -1)
    requires -1 !in info
    requires forall x :: x in info ==> info'[x].nRefCount == info[x].nRefCount + if x == id then d else 0
    ensures RefsOk(h, info', Set(vn, NEW_BUCKET_COUNT, b, i, v))
  {
    forall x | x in info' ensures info'[x].nRefCount ==
        AllRefs(h, Set(vn, NEW_BUCKET_COUNT, b, i, v), info'[x].addr, x) {
      RefsSet(h, vn, b, i, v, info[x].addr, x, NEW_BUCKET_COUNT);
    }
  }

  lemma NewChanged(h: Hashes, info: Infos, info': Infos, vn: Table, b: nat, i: nat, v: int)
    requires IsTable(vn, NEW_BUCKET_COUNT) && b < NEW_BUCKET_COUNT && i < BUCKET_SIZE
    requires NewOk(h, info, vn) && SameAddrs(info, info') && SameTried(info, info')
    requires v == -1 || (v in info && !info[v].fInTried && h.NewPos(info[v].addr, b) == i)
    ensures NewOk(h, info', Set(vn, NEW_BUCKET_COUNT, b, i, v))
  {
    var vn' := Set(vn, NEW_BUCKET_COUNT, b, i, v);
    forall c, j | 0 <= c < NEW_BUCKET_COUNT && 0 <= j < BUCKET_SIZE && At(vn', c, j) != -1
      ensures At(vn', c, j) in info' && !info'[At(vn', c, j)].fInTried && h.NewPos(info'[At(vn', c, j)].addr, c) == j
    {
      if c != b || j != i { assert At(vn', c, j) == At(vn, c, j); }
    }
  }

  lemma EntryChanged(info: Infos, id: int, e: AddrInfo, limbo: set<int>, limbo': set<int>, nIdCount: int)
    requires EntriesOk(info, limbo, nIdCount) && id in info && EntryOk(e, id in limbo')
    requires forall x :: x in info && x != id && x in limbo ==> x in limbo'
    ensures EntriesOk(info[id := e], limbo', nIdCount)
  {
  }

  lemma NewSlotChanged(h: Hashes, s: State, limbo: set<int>, limbo': set<int>, u: int, b: nat, i: nat, v: int,
      id: int, e: AddrInfo)
    requires Inv(h, s, limbo, u) && b < NEW_BUCKET_COUNT && i < BUCKET_SIZE
    requires id in s.info && !s.info[id].fInTried && h.NewPos(s.info[id].addr, b) == i
    requires || (At(s.vn, b, i) == -1 && v == id && e.nRefCount == s.info[id].nRefCount + 1)
             || (At(s.vn, b, i) == id && v == -1 && e.nRefCount == s.info[id].nRefCount - 1)
    requires e == s.info[id].(nRefCount := e.nRefCount) && EntryOk(e, id in limbo')
    requires forall x :: x in s.info && x != id && x in limbo ==> x in limbo'
    ensures var s' := s.(info := s.info[id := e], vn := Set(s.vn, NEW_BUCKET_COUNT, b, i, v));
            && Inv(h, s', limbo', u)
            && BookOf(s') == BookOf(s).(fresh' := PlacedWith(s.info, BookOf(s).fresh', Slot(b, i), v))
  {
    var info' := s.info[id := e];
    KeepsRandom(s.info, info', s.vr);
    KeepsAddrs(s.info, info', s.ma);
    KeepsTried(h, s.info, info', s.vt);
    NewChanged(h, s.info, info', s.vn, b, i, v);
    RefsChanged(h, s.info, info', s.vn, b, i, v, id, e.nRefCount - s.info[id].nRefCount);
    KeepsIds(s.info, info');
    EntryChanged(s.info, id, e, limbo, limbo', s.nIdCount);
    SlotBook(s, id, e, b, i, v);
  }

  lemma SlotBook(s: State, id: int, e: AddrInfo, b: nat, i: nat, v: int)
    requires Shaped(s) && AddrOk(s.info, s.ma) && b < NEW_BUCKET_COUNT && i < BUCKET_SIZE
    requires id in s.info && StatsOf(e) == StatsOf(s.info[id]) && e.addr == s.info[id].addr
    ensures BookOf(s.(info := s.info[id := e], vn := Set(s.vn, NEW_BUCKET_COUNT, b, i, v))) ==
            BookOf(s).(fresh' := PlacedWith(s.info, BookOf(s).fresh', Slot(b, i), v))
  {
    var info' := s.info[id := e];
    PlacedByAddrs(s.info, info', s.vt, TRIED_BUCKET_COUNT);
    PlacedByAddrs(s.info, info', s.vn, NEW_BUCKET_COUNT);
    PlacedSet(info', s.vn, NEW_BUCKET_COUNT, b, i, v);
    StatsKept(s.info, s.ma, id, e);
  }

  lemma PlacedByAddrs(info: Infos, info': Infos, t: Table, rows: nat)
    requires IsTable(t, rows) && SameAddrs(info, info')
    ensures Placed(info, t, rows) == Placed(info', t, rows)
  {
    forall b, i | 0 <= b < rows && 0 <= i < BUCKET_SIZE && At(t, b, i) in info
      ensures At(t, b, i) in info' && info[At(t, b, i)].addr == info'[At(t, b, i)].addr
    {
    }
    KeepsPlaced(info, info', t, rows);
  }

  lemma StatsKept(info: Infos, ma: map<Service, int>, id: int, e: AddrInfo)
    requires id in info && StatsOf(info[id]) == StatsOf(e)
    ensures StatsBook(info[id := e], ma) == StatsBook(info, ma)
  {
  }

  // ---- A tried slot -----------------------------------------------------------------------------------

  lemma TriedChanged(h: Hashes, info: Infos, info': Infos, vt: Table, b: nat, i: nat, v: int, id: int)
    requires IsTable(vt, TRIED_BUCKET_COUNT) && b < TRIED_BUCKET_COUNT && i < BUCKET_SIZE
    requires TriedOk(h, info, vt) && SameAddrs(info, info') && -1 !in info
    requires id in info && h.Tried(info[id].addr) == b && h.TriedPos(info[id].addr) == i
    requires (At(vt, b, i) == -1 && v == id) || (At(vt, b, i) == id && v == -1)
    requires forall x :: x in info && x != id ==> info'[x].fInTried == info[x].fInTried
    requires info'[id].fInTried == (v == id)
    ensures TriedOk(h, info', Set(vt, TRIED_BUCKET_COUNT, b, i, v))
  {
    var vt' := Set(vt, TRIED_BUCKET_COUNT, b, i, v);
    forall x | x in info' && info'[x].fInTried
      ensures At(vt', h.Tried(info'[x].addr), h.TriedPos(info'[x].addr)) == x
    {
      if x != id { assert At(vt, h.Tried(info[x].addr), h.TriedPos(info[x].addr)) == x; }
    }
  }

  /** An id that no new slot holds may change between tried and new. */
  lemma NewIgnores(h: Hashes, info: Infos, info': Infos, vn: Table, id: int)
    requires IsTable(vn, NEW_BUCKET_COUNT) && NewOk(h, info, vn) && SameAddrs(info, info')
    requires forall x :: x in info && x != id ==> info'[x].fInTried == info[x].fInTried
    requires forall b, i :: 0 <= b < NEW_BUCKET_COUNT && 0 <= i < BUCKET_SIZE ==> At(vn, b, i) != id
    ensures NewOk(h, info', vn)
  {
  }

  lemma IdsWith(info: Infos, id: int, e: AddrInfo)
    ensures TriedIds(info[id := e]) == if e.fInTried then TriedIds(info) + {id} else TriedIds(info) - {id}
    ensures NewIds(info[id := e]) == if e.fInTried then NewIds(info) - {id} else NewIds(info) + {id}
  {
  }

  lemma IdsMoved(info: Infos, id: int, e: AddrInfo)
    requires id in info && e.fInTried != info[id].fInTried
    ensures var d := if e.fInTried then 1 else -1;
            && |TriedIds(info[id := e])| == |TriedIds(info)| + d
            && |NewIds(info[id := e])| == |NewIds(info)| - d
  {
    IdsWith(info, id, e);
    assert id in TriedIds(info) <==> info[id].fInTried;
    assert id in NewIds(info) <==> !info[id].fInTried;
  }

  lemma TriedBook(s: State, id: int, e: AddrInfo, b: nat, i: nat, v: int, nTried: int)
    requires Shaped(s) && AddrOk(s.info, s.ma) && b < TRIED_BUCKET_COUNT && i < BUCKET_SIZE
    requires id in s.info && StatsOf(e) == StatsOf(s.info[id]) && e.addr == s.info[id].addr
    ensures BookOf(s.(info := s.info[id := e], vt := Set(s.vt, TRIED_BUCKET_COUNT, b, i, v), nTried := nTried)) ==
            BookOf(s).(tried := PlacedWith(s.info, BookOf(s).tried, Slot(b, i), v))
  {
    var info' := s.info[id := e];
    PlacedByAddrs(s.info, info', s.vt, TRIED_BUCKET_COUNT);
    PlacedByAddrs(s.info, info', s.vn, NEW_BUCKET_COUNT);
    PlacedSet(info', s.vt, TRIED_BUCKET_COUNT, b, i, v);
    StatsKept(s.info, s.ma, id, e);
  }

  /** An unreferenced entry enters or leaves its tried slot. */
  lemma TriedSlotChanged(h: Hashes, s: State, limbo: set<int>, limbo': set<int>, u: int, v: int, id: int, e: AddrInfo)
    requires Inv(h, s, limbo, u) && id in s.info && s.info[id].nRefCount == 0
    requires || (At(s.vt, h.Tried(e.addr), h.TriedPos(e.addr)) == -1 && v == id && !s.info[id].fInTried)
             || (At(s.vt, h.Tried(e.addr), h.TriedPos(e.addr)) == id && v == -1)
    requires e == s.info[id].(fInTried := v == id) && EntryOk(e, id in limbo')
    requires forall x :: x in s.info && x != id && x in limbo ==> x in limbo'
    ensures var b, i, d := h.Tried(e.addr), h.TriedPos(e.addr), if v == id then 1 else -1;
            var s' := s.(info := s.info[id := e], vt := Set(s.vt, TRIED_BUCKET_COUNT, b, i, v), nTried := s.nTried + d);
            && Inv(h, s', limbo', u - d)
            && BookOf(s') == BookOf(s).(tried := PlacedWith(s.info, BookOf(s).tried, Slot(b, i), v))
  {
    var info' := s.info[id := e];
    var b, i := h.Tried(e.addr), h.TriedPos(e.addr);
    Unreferenced(h, s.info, s.vn, id);
    KeepsRandom(s.info, info', s.vr);
    KeepsAddrs(s.info, info', s.ma);
    TriedChanged(h, s.info, info', s.vt, b, i, v, id);
    NewIgnores(h, s.info, info', s.vn, id);
    KeepsRefs(h, s.info, info', s.vn);
    IdsMoved(s.info, id, e);
    EntryChanged(s.info, id, e, limbo, limbo', s.nIdCount);
    TriedBook(s, id, e, b, i, v, s.nTried + if v == id then 1 else -1);
  }

  // ---- Creating and deleting -----------------------------------------------------------------------------

  lemma RandomAppended(info: Infos, vr: seq<int>, id: int, e: AddrInfo)
    requires RandomOk(info, vr) && id !in info && e.nRandomPos == |vr|
    ensures RandomOk(info[id := e], vr + [id])
  {
  }

  lemma RandomDropped(info: Infos, vr: seq<int>, id: int)
    requires RandomOk(info, vr) && id in info && vr != [] && vr[|vr| - 1] == id
    ensures RandomOk(info - {id}, vr[..|vr| - 1])
  {
  }

  lemma AddrsAdded(info: Infos, ma: map<Service, int>, id: int, e: AddrInfo)
    requires AddrOk(info, ma) && id !in info && e.addr !in ma
    ensures AddrOk(info[id := e], ma[e.addr := id])
  {
  }

  lemma StatsAdded(info: Infos, ma: map<Service, int>, id: int, e: AddrInfo)
    requires AddrOk(info, ma) && id !in info && e.addr !in ma
    ensures StatsBook(info[id := e], ma[e.addr := id]) == StatsBook(info, ma)[e.addr := StatsOf(e)]
  {
    var l, r := StatsBook(info[id := e], ma[e.addr := id]), StatsBook(info, ma)[e.addr := StatsOf(e)];
    forall a: Service ensures (a in l <==> a in r) && (a in l ==> l[a] == r[a]) {
      if a != e.addr && a in ma { assert ma[a] in info; }
    }
  }

  lemma EntryAdded(info: Infos, limbo: set<int>, id: int, e: AddrInfo)
    requires EntriesOk(info, limbo, id) && EntryOk(e, true)
    ensures EntriesOk(info[id := e], limbo + {id}, id + 1)
  {
  }

  lemma AddrsRemoved(info: Infos, ma: map<Service, int>, id: int)
    requires AddrOk(info, ma) && id in info
    ensures AddrOk(info - {id}, ma - {info[id].addr})
    ensures StatsBook(info - {id}, ma - {info[id].addr}) == StatsBook(info, ma) - {info[id].addr}
  {
  }

  lemma IdsAdded(info: Infos, id: int, e: AddrInfo)
    requires id !in info && !e.fInTried
    ensures TriedIds(info[id := e]) == TriedIds(info) && |NewIds(info[id := e])| == |NewIds(info)| + 1
  {
    assert NewIds(info[id := e]) == NewIds(info) + {id};
  }

  lemma IdsRemoved(info: Infos, id: int)
    requires id in info && !info[id].fInTried
    ensures TriedIds(info - {id}) == TriedIds(info) && |NewIds(info - {id})| == |NewIds(info)| - 1
  {
    assert NewIds(info) == NewIds(info - {id}) + {id};
  }

  /** An entry that no slot holds comes or goes. */
  ghost predicate Differ(info: Infos, info': Infos, id: int) {
    (forall x :: x in info || x in info' ==> x == id || (x in info && x in info' && info[x] == info'[x]))
  }

  ghost predicate Holds(t: Table, rows: nat, id: int)
    requires IsTable(t, rows)
  {
    exists b, i :: 0 <= b < rows && 0 <= i < BUCKET_SIZE && At(t, b, i) == id
  }

  lemma TablesIgnore(h: Hashes, s: State, info': Infos, id: int)
    requires Shaped(s) && TriedOk(h, s.info, s.vt) && NewOk(h, s.info, s.vn) && RefsOk(h, s.info, s.vn) &&
               Differ(s.info, info', id)
    requires !Holds(s.vt, TRIED_BUCKET_COUNT, id) && !Holds(s.vn, NEW_BUCKET_COUNT, id)
    requires id in info' ==> info'[id].nRefCount == 0 && !info'[id].fInTried
    ensures TriedOk(h, info', s.vt) && NewOk(h, info', s.vn) && RefsOk(h, info', s.vn)
  {
    if id in info' { RefsZero(h, s.vn, info'[id].addr, id, NEW_BUCKET_COUNT); }
  }

  lemma PlacedIgnores(info: Infos, info': Infos, t: Table, rows: nat, id: int)
    requires IsTable(t, rows) && !Holds(t, rows, id) && Differ(info, info', id)
    ensures Placed(info', t, rows) == Placed(info, t, rows)
  {
    KeepsPlaced(info, info', t, rows);
  }

  lemma NotHeld(h: Hashes, s: State, id: int)
    requires Shaped(s) && TriedOk(h, s.info, s.vt) && NewOk(h, s.info, s.vn) && id !in s.info && id != -1
    ensures !Holds(s.vt, TRIED_BUCKET_COUNT, id) && !Holds(s.vn, NEW_BUCKET_COUNT, id)
  {
  }

  lemma CreatedBook(s: State, s': State, id: int, e: AddrInfo)
    requires Shaped(s) && AddrOk(s.info, s.ma) && id !in s.info && e.addr !in s.ma
    requires !Holds(s.vt, TRIED_BUCKET_COUNT, id) && !Holds(s.vn, NEW_BUCKET_COUNT, id)
    requires s'.info == s.info[id := e] && s'.ma == s.ma[e.addr := id] && s'.vt == s.vt && s'.vn == s.vn
    ensures BookOf(s') == BookOf(s).(stats := BookOf(s).stats[e.addr := StatsOf(e)])
  {
    StatsAdded(s.info, s.ma, id, e);
    PlacedIgnores(s.info, s'.info, s.vt, TRIED_BUCKET_COUNT, id);
    PlacedIgnores(s.info, s'.info, s.vn, NEW_BUCKET_COUNT, id);
  }

  lemma Created(h: Hashes, s: State, limbo: set<int>, u: int, e: AddrInfo)
    requires Inv(h, s, limbo, u) && e.addr !in s.ma
    requires e.nRefCount == 0 && !e.fInTried && e.nRandomPos == |s.vr| && EntryOk(e, true)
    ensures var id := s.nIdCount;
            var s' := s.(info := s.info[id := e], ma := s.ma[e.addr := id], vr := s.vr + [id], nIdCount := id + 1);
            && Inv(h, s', limbo + {id}, u + 1)
            && BookOf(s') == BookOf(s).(stats := BookOf(s).stats[e.addr := StatsOf(e)])
  {
    var id := s.nIdCount;
    hide RandomOk, AddrOk, TriedOk, NewOk, RefsOk, BookOf;
    var s' := s.(info := s.info[id := e], ma := s.ma[e.addr := id], vr := s.vr + [id], nIdCount := id + 1);
    NotHeld(h, s, id);
    CreatedBook(s, s', id, e);
    RandomAppended(s.info, s.vr, id, e);
    AddrsAdded(s.info, s.ma, id, e);
    EntryAdded(s.info, limbo, id, e);
    TablesIgnore(h, s, s'.info, id);
    IdsAdded(s.info, id, e);
  }

  lemma Deleted(h: Hashes, s: State, limbo: set<int>, u: int, id: int)
    requires Inv(h, s, limbo, u) && id in s.info && !s.info[id].fInTried && s.info[id].nRefCount == 0
    requires s.vr != [] && s.vr[|s.vr| - 1] == id
    ensures var s' := s.(info := s.info - {id}, ma := s.ma - {s.info[id].addr}, vr := s.vr[..|s.vr| - 1], nNew :=
              s.nNew - 1);
            && Inv(h, s', limbo - {id}, u)
            && BookOf(s') == BookOf(s).(stats := BookOf(s).stats - {s.info[id].addr})
  {
    var info' := s.info - {id};
    RandomDropped(s.info, s.vr, id);
    AddrsRemoved(s.info, s.ma, id);
    Unreferenced(h, s.info, s.vn, id);
    TablesIgnore(h, s, info', id);
    IdsRemoved(s.info, id);
    PlacedIgnores(s.info, info', s.vt, TRIED_BUCKET_COUNT, id);
    PlacedIgnores(s.info, info', s.vn, NEW_BUCKET_COUNT, id);
  }

  // ---- References and placements --------------------------------------------------------------------------

  /** nRefCount is the number of buckets the address stands in. */
  lemma {:induction false} RefsAreListed(h: Hashes, s: State, id: int, n: nat)
    requires Shaped(s) && AddrOk(s.info, s.ma) && id in s.info && n <= NEW_BUCKET_COUNT
    ensures Refs(h, s.vn, s.info[id].addr, id, n) == Listed(h, BookOf(s).fresh', s.info[id].addr, n)
  {
    if n > 0 {
      RefsAreListed(h, s, id, n - 1);
      InSlots(NEW_BUCKET_COUNT, n - 1, h.NewPos(s.info[id].addr, n - 1));
      var x := At(s.vn, n - 1, h.NewPos(s.info[id].addr, n - 1));
      assert x in s.info && s.info[x].addr == s.info[id].addr ==> x == id;
    }
  }

  /** An entry without references stands in no new slot, and conversely. */
  lemma UnreferencedIffUnplaced(h: Hashes, s: State, limbo: set<int>, u: int, id: int)
    requires Inv(h, s, limbo, u) && id in s.info
    ensures s.info[id].nRefCount == 0 <==> s.info[id].addr !in BookOf(s).fresh'.Values
  {
    var a, p := s.info[id].addr, BookOf(s).fresh';
    if s.info[id].nRefCount == 0 {
      Unreferenced(h, s.info, s.vn, id);
      forall l | l in p ensures p[l] != a {
        var x := At(s.vn, l.bucket, l.pos);
        assert x in s.info && (s.info[x].addr == a ==> x == id);
      }
    } else {
      RefsZero(h, s.vn, a, id, NEW_BUCKET_COUNT);
      var b: nat :| b < NEW_BUCKET_COUNT && At(s.vn, b, h.NewPos(a, b)) == id;
      InSlots(NEW_BUCKET_COUNT, b, h.NewPos(a, b));
      assert p[Slot(b, h.NewPos(a, b))] == a;
    }
  }

  /** Between a placement and the same one without `a`. */
  ghost predicate Dropping(p: Placement, q: Placement, a: Service) {
    && (forall l :: l in q ==> l in p && q[l] == p[l])
    && (forall l :: l in p && l !in q ==> p[l] == a)
  }

  lemma Dropped(p: Placement, q: Placement, a: Service)
    requires Dropping(p, q, a) && a !in q.Values
    ensures q == Without(p, a)
  {
    forall l | l in q ensures q[l] != a { assert q[l] in q.Values; }
  }

  ghost function EmptyState(): State {
    State(map[], map[], [], EmptyTable(TRIED_BUCKET_COUNT), EmptyTable(NEW_BUCKET_COUNT), 0, 0, 0)
  }

  ghost predicate Blank(book: Book) {
    (forall l :: l !in book.tried && l !in book.fresh') && forall a :: a !in book.stats
  }

  lemma EmptyHolds(h: Hashes)
    ensures Inv(h, EmptyState(), {}, 0) && Blank(BookOf(EmptyState()))
  {
    assert TriedIds(map[]) == {} && NewIds(map[]) == {};
  }

  // ---- What a caller needs to know -------------------------------------------------------------------------

  lemma Ranges(h: Hashes, s: State, limbo: set<int>, u: int)
    requires Inv(h, s, limbo, u)
    ensures s.nIdCount !in s.info && -1 !in s.info && s.nIdCount >= 0
    ensures forall id :: id in s.info ==> 0 <= s.info[id].nRefCount <= NEW_BUCKETS_PER_ADDRESS
    ensures RandomOk(s.info, s.vr)
  {
  }

  lemma Found(h: Hashes, s: State, limbo: set<int>, u: int, a: Service)
    requires Inv(h, s, limbo, u)
    ensures a in s.ma <==> a in BookOf(s).stats
    ensures a in s.ma ==> s.ma[a] in s.info && s.info[s.ma[a]].addr == a
    ensures a in s.ma ==> BookOf(s).stats[a] == StatsOf(s.info[s.ma[a]])
  {
  }

  lemma Sound(h: Hashes, s: State, limbo: set<int>, u: int, id: int)
    requires Inv(h, s, limbo, u) && id in s.info
    ensures EntryOk(s.info[id], id in limbo) && 0 <= id < s.nIdCount
  {
  }

  /** The book knows every entry's statistics by its address. */
  lemma Located(h: Hashes, s: State, limbo: set<int>, u: int, id: int)
    requires Inv(h, s, limbo, u) && id in s.info
    ensures s.info[id].addr in s.ma && s.ma[s.info[id].addr] == id
    ensures s.info[id].addr in BookOf(s).stats && BookOf(s).stats[s.info[id].addr] == StatsOf(s.info[id])
  {
  }

  /** Who stands in a new slot. */
  lemma NewOccupant(h: Hashes, s: State, limbo: set<int>, u: int, b: nat, i: nat)
    requires Inv(h, s, limbo, u) && b < NEW_BUCKET_COUNT && i < BUCKET_SIZE
    ensures At(s.vn, b, i) != -1 <==> Slot(b, i) in BookOf(s).fresh'
    ensures At(s.vn, b, i) != -1 ==>
              var id := At(s.vn, b, i);
              && id in s.info && !s.info[id].fInTried && s.info[id].nRefCount > 0 && h.NewPos(s.info[id].addr, b) == i
              && BookOf(s).fresh'[Slot(b, i)] == s.info[id].addr
  {
    InSlots(NEW_BUCKET_COUNT, b, i);
    if At(s.vn, b, i) != -1 {
      var id := At(s.vn, b, i);
      RefsZero(h, s.vn, s.info[id].addr, id, NEW_BUCKET_COUNT);
    }
  }

  /** Who stands in a tried slot. */
  lemma TriedOccupant(h: Hashes, s: State, limbo: set<int>, u: int, b: nat, i: nat)
    requires Inv(h, s, limbo, u) && b < TRIED_BUCKET_COUNT && i < BUCKET_SIZE
    ensures At(s.vt, b, i) != -1 <==> Slot(b, i) in BookOf(s).tried
    ensures At(s.vt, b, i) != -1 ==>
              var id := At(s.vt, b, i);
              && id in s.info && s.info[id].fInTried && s.info[id].nRefCount == 0
              && h.Tried(s.info[id].addr) == b && h.TriedPos(s.info[id].addr) == i
              && BookOf(s).tried[Slot(b, i)] == s.info[id].addr
  {
    InSlots(TRIED_BUCKET_COUNT, b, i);
    if At(s.vt, b, i) != -1 { TriedUnreferenced(h, s.info, s.vn, At(s.vt, b, i)); }
  }

  lemma Widen(h: Hashes, s: State, limbo: set<int>, limbo': set<int>, u: int)
    requires Inv(h, s, limbo, u) && limbo <= limbo'
    ensures Inv(h, s, limbo', u)
  {
  }

  lemma Narrow(h: Hashes, s: State, limbo: set<int>, limbo': set<int>, u: int)
    requires Inv(h, s, limbo, u)
    requires forall id :: id in limbo && id !in limbo' && id in s.info ==>
               s.info[id].fInTried || s.info[id].nRefCount > 0
    ensures Inv(h, s, limbo', u)
  {
  }

  /** A scan of every new bucket that starts anywhere and wraps around leaves no bucket out. */
  lemma ScanCovers(h: Hashes, s: State, limbo: set<int>, u: int, id: int, start: nat)
    requires Inv(h, s, limbo, u) && id in s.info && start < NEW_BUCKET_COUNT
    requires forall m :: 0 <= m < NEW_BUCKET_COUNT ==> !Stands(h, s, id, Wrap(start, m))
    ensures s.info[id].nRefCount == 0
  {
    forall b | 0 <= b < NEW_BUCKET_COUNT ensures At(s.vn, b, h.NewPos(s.info[id].addr, b)) != id {
      var m := if start <= b then b - start else b - start + NEW_BUCKET_COUNT;
      assert Wrap(start, m) == b;
      assert !Stands(h, s, id, Wrap(start, m));
    }
    RefsZero(h, s.vn, s.info[id].addr, id, NEW_BUCKET_COUNT);
  }

  function Wrap(start: nat, m: nat): (b: nat)
    ensures b < NEW_BUCKET_COUNT
  {
    (start + m) % NEW_BUCKET_COUNT
  }

  ghost predicate Stands(h: Hashes, s: State, id: int, b: nat)
    requires Shaped(s) && id in s.info && b < NEW_BUCKET_COUNT
  {
    At(s.vn, b, h.NewPos(s.info[id].addr, b)) == id
  }

  lemma Counted(h: Hashes, s: State, limbo: set<int>, u: int, d: int)
    requires Inv(h, s, limbo, u)
    ensures Inv(h, s.(nNew := s.nNew + d), limbo, u - d) && BookOf(s.(nNew := s.nNew + d)) == BookOf(s)
  {
  }

  lemma SameId(h: Hashes, s: State, limbo: set<int>, u: int, id: int, id': int)
    requires Inv(h, s, limbo, u) && id in s.info && id' in s.info
    ensures s.info[id].addr == s.info[id'].addr <==> id == id'
  {
  }

  /** Whether the occupant of a new slot makes way, read off its entry. */
  lemma Yielding(h: Hashes, s: State, limbo: set<int>, u: int, id: int, id': int, now: int)
    requires Inv(h, s, limbo, u) && id in s.info && id' in s.info
    ensures Yields(h, BookOf(s), s.info[id'].addr, s.info[id].addr, now) <==>
            IsTerrible(StatsOf(s.info[id']), now) || (s.info[id'].nRefCount > 1 && s.info[id].nRefCount == 0)
  {
    hide Inv, BookOf, IsTerrible, References;
    RefCount(h, s, limbo, u, id);
    RefCount(h, s, limbo, u, id');
    Located(h, s, limbo, u, id');
  }

  /** The tried flag is what the book shows. */
  lemma TriedFlag(h: Hashes, s: State, limbo: set<int>, u: int, id: int)
    requires Inv(h, s, limbo, u) && id in s.info
    ensures s.info[id].fInTried <==> IsTried(h, BookOf(s), s.info[id].addr)
    ensures At(s.vt, h.Tried(s.info[id].addr), h.TriedPos(s.info[id].addr)) != -1 <==>
              TriedSlot(h, s.info[id].addr) in BookOf(s).tried
  {
    var a := s.info[id].addr;
    TriedOccupant(h, s, limbo, u, h.Tried(a), h.TriedPos(a));
    var x := At(s.vt, h.Tried(a), h.TriedPos(a));
    assert x in s.info && s.info[x].addr == a ==> x == id;
  }

  /** The reference count is what the book shows. */
  lemma RefCount(h: Hashes, s: State, limbo: set<int>, u: int, id: int)
    requires Inv(h, s, limbo, u) && id in s.info
    ensures s.info[id].nRefCount == References(h, BookOf(s), s.info[id].addr)
  {
    RefsAreListed(h, s, id, NEW_BUCKET_COUNT);
  }

  // ---- Collisions ------------------------------------------------------------------------------------------

  ghost predicate SubIds(info: Infos, info': Infos) {
    forall id :: id in info' ==> id in info && info'[id].addr == info[id].addr
  }

  /** A collision that is still known waits for an occupied tried slot. */
  ghost predicate Colliding(h: Hashes, collisions: set<int>, info: Infos, nIdCount: int, tried: Placement) {
    && |collisions| <= SET_TRIED_COLLISION_SIZE
    && forall id :: id in collisions ==> 0 <= id < nIdCount && (id in info ==> TriedSlot(h, info[id].addr) in tried)
  }

  lemma StillColliding(h: Hashes, collisions: set<int>, info: Infos, info': Infos, nIdCount: int, tried: Placement,
      tried': Placement)
    requires Colliding(h, collisions, info, nIdCount, tried) && SubIds(info, info') && tried.Keys <= tried'.Keys
    ensures Colliding(h, collisions, info', nIdCount, tried')
  {
  }

  lemma OneMoreColliding(h: Hashes, collisions: set<int>, info: Infos, nIdCount: int, tried: Placement, id: int)
    requires Colliding(h, collisions, info, nIdCount, tried) && |collisions| < SET_TRIED_COLLISION_SIZE
    requires 0 <= id < nIdCount && (id in info ==> TriedSlot(h, info[id].addr) in tried)
    ensures Colliding(h, collisions + {id}, info, nIdCount, tried)
  {
  }

  lemma FewerColliding(h: Hashes, collisions: set<int>, info: Infos, nIdCount: int, tried: Placement, id: int)
    requires Colliding(h, collisions, info, nIdCount, tried)
    ensures Colliding(h, collisions - {id}, info, nIdCount, tried)
  {
    var fewer := collisions - {id};
    assert collisions == fewer || collisions == fewer + {id};
  }

  /** An entry that was deleted since, with no id made since, left an unknown address. */
  lemma Gone(h: Hashes, s0: State, s: State, id: int)
    requires Inv(h, s0, {}, 0) && Inv(h, s, {}, 0) && SubIds(s0.info, s.info) && id in s0.info && id !in s.info
    ensures s0.info[id].addr !in BookOf(s).stats
  {
    hide Inv, BookOf;
    var a := s0.info[id].addr;
    Found(h, s, {}, 0, a);
    if a in s.ma { SameId(h, s0, {}, 0, id, s.ma[a]); }
  }
}
