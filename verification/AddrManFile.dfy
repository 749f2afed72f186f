/**
 * Saving the address manager and loading it back. The file holds the entries and, per new bucket,
 * which of them stand in it; the tables, the index, the counts and the random order are rebuilt.
 */
module AddrManFile {
  import opened Basics
  import opened AddrManTables
  import opened AddrManBook
  import opened AddrManSteps
  import opened AddrManCheck
  import opened AddrManLaws

  /** What the file keeps of an entry. */
  datatype Record = Record(addr: Service, nTime: U32, nServices: bv64, source: NetAddr, nLastSuccess: int,
      nAttempts: int)

  /** `asmap` is the checksum of the IP-to-ASN map the buckets were computed with. */
  datatype File = File(fresh': seq<Record>, tried: seq<Record>, buckets: seq<seq<int>>, asmap: nat)

  function RecordOf(e: AddrInfo): Record {
    Record(e.addr, e.nTime, e.nServices, e.source, e.nLastSuccess, e.nAttempts)
  }

  function EntryOf(r: Record, pos: int): AddrInfo {
    AddrInfo(r.addr, r.nTime, r.nServices, r.source, 0, 0, r.nLastSuccess, r.nAttempts, 0, false, pos)
  }

  /** What a book keeps across a restart: everything but the times of the last tries. */
  ghost function Reread(book: Book): Book {
    book.(stats := map a | a in book.stats :: book.stats[a].(nLastTry := 0, nLastCountAttempt := 0))
  }

  // ---- What is written ----------------------------------------------------------------------------------

  /** An order in which a map may list its entries. */
  ghost predicate Lists(order: seq<int>, info: Infos) {
    && (forall i, j :: 0 <= i < j < |order| ==> order[i] != order[j])
    && (forall id :: id in order <==> id in info)
  }

  predicate Picked(e: AddrInfo, tried: bool) { if tried then e.fInTried else e.nRefCount != 0 }

  function Nth(ids: seq<int>, k: nat): (id: int)
    requires k < |ids|
    ensures id in ids
  {
    ids[k]
  }

  function Pick(info: Infos, order: seq<int>, tried: bool): (ids: seq<int>)
    requires forall id :: id in order ==> id in info
    ensures forall id :: id in ids <==> id in order && Picked(info[id], tried)
  {
    if order == [] then []
    else
      var n := |order| - 1;
      var ids := Pick(info, order[..n], tried);
      assert order == order[..n] + [order[n]];
      if Picked(info[Nth(order, n)], tried) then ids + [order[n]] else ids
  }

  function Records(info: Infos, ids: seq<int>): (rs: seq<Record>)
    requires forall id :: id in ids ==> id in info
    ensures |rs| == |ids| && forall k :: 0 <= k < |ids| ==> rs[k] == RecordOf(info[Nth(ids, k)])
  {
    seq(|ids|, k requires 0 <= k < |ids| => RecordOf(info[Nth(ids, k)]))
  }

  function IndexIn(ids: seq<int>, id: int): (k: int)
    ensures id in ids ==> 0 <= k < |ids| && ids[k] == id
    ensures id !in ids ==> k == -1
  {
    if ids == [] then -1
    else if ids[|ids| - 1] == id then |ids| - 1
    else
      var n := |ids| - 1;
      assert ids == ids[..n] + [ids[n]];
      IndexIn(ids[..n], id)
  }

  /** The indices of the entries in the first `i` places of a new bucket. */
  function Row(vn: Table, ids: seq<int>, b: nat, i: nat): seq<int>
    requires IsTable(vn, NEW_BUCKET_COUNT) && b < NEW_BUCKET_COUNT && i <= BUCKET_SIZE
  {
    if i == 0 then []
    else Row(vn, ids, b, i - 1) + if At(vn, b, i - 1) == -1 then [] else [IndexIn(ids, At(vn, b, i - 1))]
  }

  function Rows(vn: Table, ids: seq<int>, n: nat): (rows: seq<seq<int>>)
    requires IsTable(vn, NEW_BUCKET_COUNT) && n <= NEW_BUCKET_COUNT
    ensures |rows| == n
  {
    if n == 0 then [] else Rows(vn, ids, n - 1) + [Row(vn, ids, n - 1, BUCKET_SIZE)]
  }

  ghost function Saved(s: State, order: seq<int>, asmap: nat): File
    requires Shaped(s) && Lists(order, s.info)
  {
    var ids := Pick(s.info, order, false);
    File(Records(s.info, ids), Records(s.info, Pick(s.info, order, true)), Rows(s.vn, ids, NEW_BUCKET_COUNT), asmap)
  }

  // ---- What is read ---------------------------------------------------------------------------------------

  function AddNew(s: State, r: Record): State {
    var id := s.nIdCount;
    s.(info := s.info[id := EntryOf(r, |s.vr|)], ma := s.ma[r.addr := id], vr := s.vr + [id], nIdCount := id + 1)
  }

  /** A tried record whose slot is taken is lost. */
  function AddTried(h: Hashes, s: State, r: Record): State
    requires IsTable(s.vt, TRIED_BUCKET_COUNT)
  {
    var b, i, id := h.Tried(r.addr), h.TriedPos(r.addr), s.nIdCount;
    if At(s.vt, b, i) != -1 then s
    else
      s.(info := s.info[id := EntryOf(r, |s.vr|).(fInTried := true)], ma := s.ma[r.addr := id], vr := s.vr + [id],
         vt := Set(s.vt, TRIED_BUCKET_COUNT, b, i, id), nTried := s.nTried + 1, nIdCount := id + 1)
  }

  function Put(h: Hashes, s: State, b: nat, id: int): State
    requires IsTable(s.vn, NEW_BUCKET_COUNT) && id in s.info && b < NEW_BUCKET_COUNT
  {
    s.(info := s.info[id := s.info[id].(nRefCount := s.info[id].nRefCount + 1)],
       vn := Set(s.vn, NEW_BUCKET_COUNT, b, h.NewPos(s.info[id].addr, b), id))
  }

  /** A bucket entry goes back where it was, or to the bucket of its source, or is dropped. */
  function Place(h: Hashes, s: State, b: nat, id: int, nNew: nat, restore: bool): State
    requires IsTable(s.vn, NEW_BUCKET_COUNT) && (restore ==> b < NEW_BUCKET_COUNT)
  {
    if !(0 <= id < nNew && id in s.info) || s.info[id].nRefCount >= NEW_BUCKETS_PER_ADDRESS then s
    else if restore && At(s.vn, b, h.NewPos(s.info[id].addr, b)) == -1 then Put(h, s, b, id)
    else
      var c := h.New(s.info[id].addr, s.info[id].source);
      if At(s.vn, c, h.NewPos(s.info[id].addr, c)) == -1 then Put(h, s, c, id) else s
  }

  function LoadNew(s: State, rs: seq<Record>): (r: State)
    ensures r.vt == s.vt && r.vn == s.vn
  {
    if rs == [] then s else AddNew(LoadNew(s, rs[..|rs| - 1]), rs[|rs| - 1])
  }

  function LoadTried(h: Hashes, s: State, rs: seq<Record>): (r: State)
    requires IsTable(s.vt, TRIED_BUCKET_COUNT)
    ensures IsTable(r.vt, TRIED_BUCKET_COUNT) && r.vn == s.vn
  {
    if rs == [] then s else AddTried(h, LoadTried(h, s, rs[..|rs| - 1]), rs[|rs| - 1])
  }

  function PlaceRow(h: Hashes, s: State, b: nat, row: seq<int>, nNew: nat, restore: bool): (r: State)
    requires IsTable(s.vn, NEW_BUCKET_COUNT) && (restore ==> b < NEW_BUCKET_COUNT)
    ensures IsTable(r.vn, NEW_BUCKET_COUNT)
  {
    if row == [] then s else Place(h, PlaceRow(h, s, b, row[..|row| - 1], nNew, restore), b, row[|row| - 1], nNew,
        restore)
  }

  function PlaceAll(h: Hashes, s: State, rows: seq<seq<int>>, nNew: nat, restore: bool): (r: State)
    requires IsTable(s.vn, NEW_BUCKET_COUNT) && (restore ==> |rows| <= NEW_BUCKET_COUNT)
    ensures IsTable(r.vn, NEW_BUCKET_COUNT)
  {
    if rows == [] then s
    else
      var n := |rows| - 1;
      PlaceRow(h, PlaceAll(h, s, rows[..n], nNew, restore), n, rows[n], nNew, restore)
  }

  // ---- A sequence of distinct ids ------------------------------------------------------------------------

  ghost predicate Distinct(ids: seq<int>) { forall i, j :: 0 <= i < j < |ids| ==> ids[i] != ids[j] }

  lemma {:induction false} PickDistinct(info: Infos, order: seq<int>, tried: bool)
    requires Distinct(order) && forall id :: id in order ==> id in info
    ensures Distinct(Pick(info, order, tried))
  {
    if order != [] {
      var n := |order| - 1;
      PickDistinct(info, order[..n], tried);
      assert order[n] !in order[..n];
    }
  }

  lemma IndexOfElement(ids: seq<int>, k: nat)
    requires Distinct(ids) && k < |ids|
    ensures IndexIn(ids, ids[k]) == k
  {
    var j := IndexIn(ids, ids[k]);
    assert ids[j] == ids[k];
  }

  ghost function Below(n: nat): (ids: set<int>)
    ensures forall i :: i in ids <==> 0 <= i < n
  {
    if n == 0 then {} else Below(n - 1) + {n - 1}
  }

  // ---- The entries ------------------------------------------------------------------------------------------

  /** The first `n` ids are the new records, the next ones the first `m` tried records. */
  ghost predicate Filled(info: Infos, rs: seq<Record>, ts: seq<Record>, n: nat, m: nat)
    requires n <= |rs| && m <= |ts|
  {
    && (forall id :: id in info <==> 0 <= id < n + m)
    && (forall k :: 0 <= k < n ==> info[k] == EntryOf(rs[k], k).(nRefCount := info[k].nRefCount))
    && (forall k :: n <= k < n + m ==> info[k] == EntryOf(ts[k - n], k).(fInTried := true))
  }

  /** No two records have the same address, and no two tried records the same slot. */
  ghost predicate Apart(h: Hashes, rs: seq<Record>, ts: seq<Record>) {
    && (forall i, j :: 0 <= i < j < |rs| ==> rs[i].addr != rs[j].addr)
    && (forall i, j :: 0 <= i < |rs| && 0 <= j < |ts| ==> rs[i].addr != ts[j].addr)
    && (forall i, j :: 0 <= i < j < |ts| ==> TriedSlot(h, ts[i].addr) != TriedSlot(h, ts[j].addr))
  }

  ghost function Start(n: nat): State { EmptyState().(nNew := n) }

  lemma StartHolds(h: Hashes, n: nat)
    ensures Inv(h, Start(n), Below(n), 0 - n) && Start(n).info == map[] && Start(n).vr == [] && Start(n).nIdCount == 0
    ensures forall b, i :: 0 <= b < NEW_BUCKET_COUNT && 0 <= i < BUCKET_SIZE ==> At(Start(n).vn, b, i) == -1
  {
    hide Inv, BookOf;
    EmptyHolds(h);
    Counted(h, EmptyState(), {}, 0, n);
    Widen(h, Start(n), {}, Below(n), 0 - n);
  }

  /** An address that no loaded record has is unknown. */
  lemma NotLoaded(h: Hashes, s: State, limbo: set<int>, u: int, rs: seq<Record>, ts: seq<Record>, n: nat, m: nat,
      a: Service)
    requires Inv(h, s, limbo, u) && n <= |rs| && m <= |ts| && Filled(s.info, rs, ts, n, m)
    requires (forall k :: 0 <= k < n ==> rs[k].addr != a) && (forall k :: 0 <= k < m ==> ts[k].addr != a)
    ensures a !in s.ma
  {
    hide Inv, BookOf;
    HasShape(h, s, limbo, u);
    forall id | id in s.info ensures s.info[id].addr != a {
      if id >= n { assert s.info[id] == EntryOf(ts[id - n], id).(fInTried := true); }
    }
    Found(h, s, limbo, u, a);
  }

  lemma FilledNew(info: Infos, rs: seq<Record>, ts: seq<Record>, n: nat)
    requires n < |rs| && Filled(info, rs, ts, n, 0)
    ensures Filled(info[n := EntryOf(rs[n], n)], rs, ts, n + 1, 0)
  {
  }

  lemma FilledTried(info: Infos, rs: seq<Record>, ts: seq<Record>, m: nat)
    requires m < |ts| && Filled(info, rs, ts, |rs|, m)
    ensures Filled(info[|rs| + m := EntryOf(ts[m], |rs| + m).(fInTried := true)], rs, ts, |rs|, m + 1)
  {
  }

  ghost predicate AfterNew(h: Hashes, s: State, rs: seq<Record>, ts: seq<Record>, n: nat)
    requires n <= |rs|
  {
    && Inv(h, s, Below(|rs|), n - |rs|) && s.nIdCount == n && |s.vr| == n && Filled(s.info, rs, ts, n, 0)
    && s.vn == Start(|rs|).vn
  }

  ghost predicate AfterTried(h: Hashes, s: State, rs: seq<Record>, ts: seq<Record>, m: nat)
    requires m <= |ts|
  {
    && Inv(h, s, Below(|rs|), 0) && s.nIdCount == |rs| + m && |s.vr| == |rs| + m && Filled(s.info, rs, ts, |rs|, m)
    && s.vn == Start(|rs|).vn
  }

  lemma NextNew(h: Hashes, s: State, rs: seq<Record>, ts: seq<Record>, n: nat)
    requires Apart(h, rs, ts) && n < |rs| && AfterNew(h, s, rs, ts, n)
    ensures AfterNew(h, AddNew(s, rs[n]), rs, ts, n + 1)
  {
    hide Inv, BookOf, Filled, Start;
    NotLoaded(h, s, Below(|rs|), n - |rs|, rs, ts, n, 0, rs[n].addr);
    Created(h, s, Below(|rs|), n - |rs|, EntryOf(rs[n], n));
    assert Below(|rs|) + {n} == Below(|rs|);
    FilledNew(s.info, rs, ts, n);
  }

  lemma {:induction false} NewLoaded(h: Hashes, rs: seq<Record>, ts: seq<Record>, n: nat)
    requires Apart(h, rs, ts) && n <= |rs|
    ensures AfterNew(h, LoadNew(Start(|rs|), rs[..n]), rs, ts, n)
  {
    hide Inv, Start, AddNew, Apart;
    StartHolds(h, |rs|);
    if n > 0 {
      NewLoaded(h, rs, ts, n - 1);
      assert rs[..n][..n - 1] == rs[..n - 1];
      NextNew(h, LoadNew(Start(|rs|), rs[..n - 1]), rs, ts, n - 1);
    }
  }

  lemma TriedAdded(h: Hashes, s: State, limbo: set<int>, u: int, r: Record)
    requires Inv(h, s, limbo, u) && r.addr !in s.ma && At(s.vt, h.Tried(r.addr), h.TriedPos(r.addr)) == -1 &&
               s.nIdCount !in limbo
    ensures Inv(h, AddTried(h, s, r), limbo, u)
  {
    hide Inv, BookOf;
    HasShape(h, s, limbo, u);
    Ranges(h, s, limbo, u);
    var id, e := s.nIdCount, EntryOf(r, |s.vr|);
    Created(h, s, limbo, u, e);
    var s1 := s.(info := s.info[id := e], ma := s.ma[e.addr := id], vr := s.vr + [id], nIdCount := id + 1);
    TriedSlotChanged(h, s1, limbo + {id}, limbo, u + 1, id, id, e.(fInTried := true));
    assert s1.info[id := e.(fInTried := true)] == s.info[id := e.(fInTried := true)];
  }

  lemma TriedSlotFree(h: Hashes, s: State, rs: seq<Record>, ts: seq<Record>, m: nat)
    requires Apart(h, rs, ts) && m < |ts| && AfterTried(h, s, rs, ts, m)
    ensures Shaped(s) && At(s.vt, h.Tried(ts[m].addr), h.TriedPos(ts[m].addr)) == -1
  {
    hide Inv, BookOf, Start;
    HasShape(h, s, Below(|rs|), 0);
    var b, i := h.Tried(ts[m].addr), h.TriedPos(ts[m].addr);
    TriedOccupant(h, s, Below(|rs|), 0, b, i);
    if At(s.vt, b, i) != -1 {
      assert false;
    }
  }

  lemma NextTried(h: Hashes, s: State, rs: seq<Record>, ts: seq<Record>, m: nat)
    requires Apart(h, rs, ts) && m < |ts| && AfterTried(h, s, rs, ts, m)
    ensures Shaped(s) && AfterTried(h, AddTried(h, s, ts[m]), rs, ts, m + 1)
  {
    hide Inv, BookOf, Filled, Start;
    TriedSlotFree(h, s, rs, ts, m);
    forall k | 0 <= k < m ensures ts[k].addr != ts[m].addr { assert TriedSlot(h, ts[k].addr) != TriedSlot(h,
        ts[m].addr); }
    NotLoaded(h, s, Below(|rs|), 0, rs, ts, |rs|, m, ts[m].addr);
    TriedAdded(h, s, Below(|rs|), 0, ts[m]);
    FilledTried(s.info, rs, ts, m);
  }

  lemma {:induction false} TriedLoaded(h: Hashes, rs: seq<Record>, ts: seq<Record>, m: nat)
    requires Apart(h, rs, ts) && m <= |ts|
    ensures var s := LoadNew(Start(|rs|), rs); Shaped(s) && AfterTried(h, LoadTried(h, s, ts[..m]), rs, ts, m)
  {
    hide Inv, Start, AddTried, Apart, Filled;
    NewLoaded(h, rs, ts, |rs|);
    assert rs[..|rs|] == rs;
    var s := LoadNew(Start(|rs|), rs);
    HasShape(h, s, Below(|rs|), 0);
    if m > 0 {
      TriedLoaded(h, rs, ts, m - 1);
      assert ts[..m][..m - 1] == ts[..m - 1];
      NextTried(h, LoadTried(h, s, ts[..m - 1]), rs, ts, m - 1);
    }
  }

  lemma HasShape(h: Hashes, s: State, limbo: set<int>, u: int)
    requires Inv(h, s, limbo, u)
    ensures Shaped(s)
  {
  }

  // ---- The buckets ------------------------------------------------------------------------------------------

  /** The slots before the `i`-th of bucket `b` hold what they held, renamed; the others are empty. */
  ghost predicate Tracks(vn0: Table, ids: seq<int>, vn: Table, b: nat, i: nat)
    requires IsTable(vn0, NEW_BUCKET_COUNT) && IsTable(vn, NEW_BUCKET_COUNT)
  {
    forall c, j :: 0 <= c < NEW_BUCKET_COUNT && 0 <= j < BUCKET_SIZE ==>
      At(vn, c, j) == if Before(c, j, b, i) then IndexIn(ids, At(vn0, c, j)) else -1
  }

  lemma {:induction false} FewerRefs(h: Hashes, vn0: Table, vn: Table, a: Service, x: int, id: int, b: nat, n: nat)
    requires IsTable(vn0, NEW_BUCKET_COUNT) && IsTable(vn, NEW_BUCKET_COUNT) && n <= NEW_BUCKET_COUNT
    requires forall c :: 0 <= c < n && At(vn, c, h.NewPos(a, c)) == id ==> At(vn0, c, h.NewPos(a, c)) == x
    requires b < NEW_BUCKET_COUNT && At(vn0, b, h.NewPos(a, b)) == x && At(vn, b, h.NewPos(a, b)) != id
    ensures Refs(h, vn, a, id, n) + (if b < n then 1 else 0) <= Refs(h, vn0, a, x, n)
  {
    if n > 0 { FewerRefs(h, vn0, vn, a, x, id, b, n - 1); }
  }

  /** The state while the buckets are filled again, just before the `i`-th place of bucket `b`. */
  ghost predicate Loading(h: Hashes, s0: State, ids: seq<int>, rs: seq<Record>, ts: seq<Record>, s: State, b: nat,
      i: nat)
    requires Shaped(s0)
  {
    && Inv(h, s, Below(|rs|), 0) && Filled(s.info, rs, ts, |rs|, |ts|) && Tracks(s0.vn, ids, s.vn, b, i)
  }

  /** The listed ids are the picked ones, and their records go with them. */
  ghost predicate Goes(s0: State, ids: seq<int>, rs: seq<Record>, tried: bool) {
    && Distinct(ids) && (forall id :: id in ids <==> id in s0.info && Picked(s0.info[id], tried))
    && |rs| == |ids| && forall k :: 0 <= k < |ids| ==> rs[k] == RecordOf(s0.info[Nth(ids, k)])
  }

  lemma RefsLeft(h: Hashes, vn0: Table, ids: seq<int>, vn: Table, a: Service, x: int, b: nat)
    requires IsTable(vn0, NEW_BUCKET_COUNT) && IsTable(vn, NEW_BUCKET_COUNT) && b < NEW_BUCKET_COUNT
    requires Tracks(vn0, ids, vn, b, h.NewPos(a, b)) && At(vn0, b, h.NewPos(a, b)) == x && x in ids
    ensures At(vn, b, h.NewPos(a, b)) == -1 && AllRefs(h, vn, a, IndexIn(ids, x)) < AllRefs(h, vn0, a, x)
  {
    var id := IndexIn(ids, x);
    forall c | 0 <= c < NEW_BUCKET_COUNT && At(vn, c, h.NewPos(a, c)) == id ensures At(vn0, c, h.NewPos(a, c)) == x {
      assert IndexIn(ids, At(vn0, c, h.NewPos(a, c))) == id;
    }
    FewerRefs(h, vn0, vn, a, x, id, b, NEW_BUCKET_COUNT);
  }

  lemma CountsRefs(h: Hashes, s: State, limbo: set<int>, u: int, id: int)
    requires Inv(h, s, limbo, u) && id in s.info
    ensures Shaped(s) && s.info[id].nRefCount == AllRefs(h, s.vn, s.info[id].addr, id) <= NEW_BUCKETS_PER_ADDRESS
  {
  }

  lemma Twin(s0: State, ids: seq<int>, rs: seq<Record>, ts: seq<Record>, info: Infos, x: int)
    requires Goes(s0, ids, rs, false) && Filled(info, rs, ts, |rs|, |ts|) && x in ids
    ensures var id := IndexIn(ids, x);
            0 <= id < |rs| && id in info && x in s0.info &&
                info[id] == EntryOf(RecordOf(s0.info[x]), id).(nRefCount := info[id].nRefCount)
  {
  }

  lemma StillRoom(h: Hashes, s0: State, ids: seq<int>, rs: seq<Record>, ts: seq<Record>, s: State, b: nat, i: nat)
    requires Inv(h, s0, {}, 0) && Goes(s0, ids, rs, false) && Loading(h, s0, ids, rs, ts, s, b, i)
    requires b < NEW_BUCKET_COUNT && i < BUCKET_SIZE && At(s0.vn, b, i) != -1
    ensures var x := At(s0.vn, b, i);
            var id := IndexIn(ids, x);
            && x in ids && 0 <= id < |rs| && id in s.info && !s.info[id].fInTried && At(s.vn, b, i) == -1
            && h.NewPos(s.info[id].addr, b) == i && s.info[id].nRefCount < NEW_BUCKETS_PER_ADDRESS
            && s.info[id] == EntryOf(rs[id], id).(nRefCount := s.info[id].nRefCount)
  {
    hide Inv, BookOf, Filled, Tracks;
    HasShape(h, s0, {}, 0);
    HasShape(h, s, Below(|rs|), 0);
    NewOccupant(h, s0, {}, 0, b, i);
    var x := At(s0.vn, b, i);
    Twin(s0, ids, rs, ts, s.info, x);
    CountsRefs(h, s0, {}, 0, x);
    CountsRefs(h, s, Below(|rs|), 0, IndexIn(ids, x));
    RefsLeft(h, s0.vn, ids, s.vn, s0.info[x].addr, x, b);
  }

  lemma FilledAgain(info: Infos, rs: seq<Record>, ts: seq<Record>, id: int, e: AddrInfo)
    requires Filled(info, rs, ts, |rs|, |ts|) && 0 <= id < |rs| && e == EntryOf(rs[id], id).(nRefCount := e.nRefCount)
    ensures Filled(info[id := e], rs, ts, |rs|, |ts|)
  {
  }

  lemma TracksOn(vn0: Table, ids: seq<int>, vn: Table, b: nat, i: nat)
    requires IsTable(vn0, NEW_BUCKET_COUNT) && IsTable(vn, NEW_BUCKET_COUNT) && Tracks(vn0, ids, vn, b, i)
    requires b < NEW_BUCKET_COUNT && i < BUCKET_SIZE
    ensures Tracks(vn0, ids, Set(vn, NEW_BUCKET_COUNT, b, i, IndexIn(ids, At(vn0, b, i))), b, i + 1)
    ensures IndexIn(ids, At(vn0, b, i)) == -1 ==> Tracks(vn0, ids, vn, b, i + 1)
  {
  }

  lemma OnePlaced(h: Hashes, s0: State, ids: seq<int>, rs: seq<Record>, ts: seq<Record>, s: State, b: nat, i: nat)
    requires Inv(h, s0, {}, 0) && Goes(s0, ids, rs, false) && Loading(h, s0, ids, rs, ts, s, b, i)
    requires b < NEW_BUCKET_COUNT && i < BUCKET_SIZE
    ensures Shaped(s)
    ensures Loading(h, s0, ids, rs, ts, if At(s0.vn, b, i) == -1 then s
              else Place(h, s, b, IndexIn(ids, At(s0.vn, b, i)), |rs|, true), b, i + 1)
  {
    hide Inv, BookOf, Filled, Tracks, Goes, EntryOf;
    HasShape(h, s0, {}, 0);
    HasShape(h, s, Below(|rs|), 0);
    var x := At(s0.vn, b, i);
    TracksOn(s0.vn, ids, s.vn, b, i);
    if x == -1 {
      NoSuchId(h, s0, ids, rs);
    } else {
      StillRoom(h, s0, ids, rs, ts, s, b, i);
      var id := IndexIn(ids, x);
      var e := s.info[id].(nRefCount := s.info[id].nRefCount + 1);
      NewSlotChanged(h, s, Below(|rs|), Below(|rs|), 0, b, i, id, id, e);
      FilledAgain(s.info, rs, ts, id, e);
    }
  }

  lemma NoSuchId(h: Hashes, s0: State, ids: seq<int>, rs: seq<Record>)
    requires Inv(h, s0, {}, 0) && Goes(s0, ids, rs, false)
    ensures IndexIn(ids, -1) == -1
  {
  }

  lemma {:induction false} RowPlaced(h: Hashes, s0: State, ids: seq<int>, rs: seq<Record>, ts: seq<Record>, s: State,
      b: nat, i: nat)
    requires Inv(h, s0, {}, 0) && Goes(s0, ids, rs, false) && Loading(h, s0, ids, rs, ts, s, b, 0) && Shaped(s)
    requires b < NEW_BUCKET_COUNT && i <= BUCKET_SIZE
    ensures Loading(h, s0, ids, rs, ts, PlaceRow(h, s, b, Row(s0.vn, ids, b, i), |rs|, true), b, i)
  {
    hide Inv, Filled, Tracks, Goes, Place;
    HasShape(h, s0, {}, 0);
    if i > 0 {
      RowPlaced(h, s0, ids, rs, ts, s, b, i - 1);
      var row, row' := Row(s0.vn, ids, b, i - 1), Row(s0.vn, ids, b, i);
      var s1 := PlaceRow(h, s, b, row, |rs|, true);
      OnePlaced(h, s0, ids, rs, ts, s1, b, i - 1);
      if At(s0.vn, b, i - 1) == -1 { assert row' == row; } else { assert row'[..|row'| - 1] == row; }
    }
  }

  lemma NextBucket(vn0: Table, ids: seq<int>, vn: Table, b: nat)
    requires IsTable(vn0, NEW_BUCKET_COUNT) && IsTable(vn, NEW_BUCKET_COUNT) && Tracks(vn0, ids, vn, b, BUCKET_SIZE)
    ensures Tracks(vn0, ids, vn, b + 1, 0)
  {
  }

  lemma {:induction false} RowsPlaced(h: Hashes, s0: State, ids: seq<int>, rs: seq<Record>, ts: seq<Record>, s: State,
      n: nat)
    requires Inv(h, s0, {}, 0) && Goes(s0, ids, rs, false) && Loading(h, s0, ids, rs, ts, s, 0, 0) && Shaped(s) &&
               n <= NEW_BUCKET_COUNT
    ensures Loading(h, s0, ids, rs, ts, PlaceAll(h, s, Rows(s0.vn, ids, n), |rs|, true), n, 0)
  {
    hide Inv, Filled, Tracks, Goes, PlaceRow, Row;
    HasShape(h, s0, {}, 0);
    if n > 0 {
      RowsPlaced(h, s0, ids, rs, ts, s, n - 1);
      var rows := Rows(s0.vn, ids, n);
      assert rows[..n - 1] == Rows(s0.vn, ids, n - 1);
      var s1 := PlaceAll(h, s, rows[..n - 1], |rs|, true);
      HasShape(h, s1, Below(|rs|), 0);
      RowPlaced(h, s0, ids, rs, ts, s1, n - 1, BUCKET_SIZE);
      NextBucket(s0.vn, ids, PlaceRow(h, s1, n - 1, rows[n - 1], |rs|, true).vn, n - 1);
    }
  }

  // ---- The round trip ------------------------------------------------------------------------------------------

  lemma PickGoes(s0: State, order: seq<int>, tried: bool)
    requires Lists(order, s0.info)
    ensures var ids := Pick(s0.info, order, tried); Goes(s0, ids, Records(s0.info, ids), tried)
  {
    PickDistinct(s0.info, order, tried);
  }

  lemma TriedAt(h: Hashes, s: State, limbo: set<int>, u: int, id: int)
    requires Inv(h, s, limbo, u) && id in s.info && s.info[id].fInTried
    ensures Shaped(s) && At(s.vt, h.Tried(s.info[id].addr), h.TriedPos(s.info[id].addr)) == id &&
              s.info[id].nRefCount == 0
  {
    TriedUnreferenced(h, s.info, s.vn, id);
  }

  /** The records of a kept invariant have different addresses, and those of tried entries different slots. */
  lemma SavedApart(h: Hashes, s0: State, ids: seq<int>, rs: seq<Record>, tids: seq<int>, ts: seq<Record>)
    requires Inv(h, s0, {}, 0) && Goes(s0, ids, rs, false) && Goes(s0, tids, ts, true)
    ensures Apart(h, rs, ts)
  {
    hide Inv;
    forall i, j | 0 <= i < j < |rs| ensures rs[i].addr != rs[j].addr {
      SameId(h, s0, {}, 0, Nth(ids, i), Nth(ids, j));
    }
    forall i, j | 0 <= i < |rs| && 0 <= j < |ts| ensures rs[i].addr != ts[j].addr {
      SameId(h, s0, {}, 0, Nth(ids, i), Nth(tids, j));
      TriedAt(h, s0, {}, 0, Nth(tids, j));
    }
    forall i, j | 0 <= i < j < |ts| ensures TriedSlot(h, ts[i].addr) != TriedSlot(h, ts[j].addr) {
      TriedAt(h, s0, {}, 0, Nth(tids, i));
      TriedAt(h, s0, {}, 0, Nth(tids, j));
    }
  }

  /** Every entry that has references had them, and has them again. */
  lemma AllPlaced(h: Hashes, s0: State, ids: seq<int>, rs: seq<Record>, ts: seq<Record>, s: State)
    requires Inv(h, s0, {}, 0) && Goes(s0, ids, rs, false) && Loading(h, s0, ids, rs, ts, s, NEW_BUCKET_COUNT, 0)
    ensures Inv(h, s, {}, 0)
  {
    hide Inv, BookOf, Filled;
    HasShape(h, s0, {}, 0);
    HasShape(h, s, Below(|rs|), 0);
    forall id | 0 <= id < |rs| && id in s.info ensures s.info[id].nRefCount > 0 {
      var x := Nth(ids, id);
      IndexOfElement(ids, id);
      CountsRefs(h, s0, {}, 0, x);
      RefsZero(h, s0.vn, s0.info[x].addr, x, NEW_BUCKET_COUNT);
      var b: nat :| b < NEW_BUCKET_COUNT && At(s0.vn, b, h.NewPos(s0.info[x].addr, b)) == x;
      NewOccupant(h, s, Below(|rs|), 0, b, h.NewPos(s0.info[x].addr, b));
    }
    Narrow(h, s, Below(|rs|), {}, 0);
  }

  lemma SamePlaced(info: Infos, t: Table, info': Infos, t': Table, rows: nat)
    requires IsTable(t, rows) && IsTable(t', rows)
    requires forall b, i :: 0 <= b < rows && 0 <= i < BUCKET_SIZE ==>
               && (At(t, b, i) in info <==> At(t', b, i) in info')
               && (At(t, b, i) in info ==> info[At(t, b, i)].addr == info'[At(t', b, i)].addr)
    ensures Placed(info, t, rows) == Placed(info', t', rows)
  {
  }

  lemma FreshSame(h: Hashes, s0: State, ids: seq<int>, rs: seq<Record>, ts: seq<Record>, s: State)
    requires Inv(h, s0, {}, 0) && Goes(s0, ids, rs, false) && Loading(h, s0, ids, rs, ts, s, NEW_BUCKET_COUNT, 0) &&
               Inv(h, s, {}, 0)
    ensures Placed(s.info, s.vn, NEW_BUCKET_COUNT) == Placed(s0.info, s0.vn, NEW_BUCKET_COUNT)
  {
    hide Inv, BookOf, Filled, Placed;
    HasShape(h, s0, {}, 0);
    HasShape(h, s, {}, 0);
    Ranges(h, s0, {}, 0);
    Ranges(h, s, {}, 0);
    forall b, i | 0 <= b < NEW_BUCKET_COUNT && 0 <= i < BUCKET_SIZE
      ensures At(s.vn, b, i) in s.info <==> At(s0.vn, b, i) in s0.info
      ensures At(s.vn, b, i) in s.info ==> s.info[At(s.vn, b, i)].addr == s0.info[At(s0.vn, b, i)].addr
    {
      var x := At(s0.vn, b, i);
      NewOccupant(h, s0, {}, 0, b, i);
      if x == -1 { NoSuchId(h, s0, ids, rs); } else { Twin(s0, ids, rs, ts, s.info, x); }
    }
    SamePlaced(s.info, s.vn, s0.info, s0.vn, NEW_BUCKET_COUNT);
  }

  /** Every loaded entry is the record of an entry that was saved. */
  lemma Original(s0: State, ids: seq<int>, rs: seq<Record>, tids: seq<int>, ts: seq<Record>, info: Infos, id: int)
      returns (x: int)
    requires Goes(s0, ids, rs, false) && Goes(s0, tids, ts, true) && Filled(info, rs, ts, |rs|, |ts|) && id in info
    ensures x in s0.info && RecordOf(info[id]) == RecordOf(s0.info[x]) && (info[id].fInTried ==> s0.info[x].fInTried)
    ensures StatsOf(info[id]) == StatsOf(s0.info[x]).(nLastTry := 0, nLastCountAttempt := 0)
  {
    x := if id < |rs| then Nth(ids, id) else Nth(tids, id - |rs|);
  }

  /** Every saved entry is loaded. */
  lemma Copy(h: Hashes, s0: State, ids: seq<int>, rs: seq<Record>, tids: seq<int>, ts: seq<Record>, info: Infos,
      x: int) returns (id: int)
    requires Inv(h, s0, {}, 0) && Goes(s0, ids, rs, false) && Goes(s0, tids, ts, true) &&
               Filled(info, rs, ts, |rs|, |ts|) && x in s0.info
    ensures id in info && info[id].addr == s0.info[x].addr && (s0.info[x].fInTried ==> info[id].fInTried)
  {
    hide Inv;
    Sound(h, s0, {}, 0, x);
    if x in tids { id := |rs| + IndexIn(tids, x); } else { id := IndexIn(ids, x); }
  }

  lemma TriedMatch(h: Hashes, s: State, s': State, b: nat, i: nat)
    requires Inv(h, s, {}, 0) && Inv(h, s', {}, 0) && b < TRIED_BUCKET_COUNT && i < BUCKET_SIZE
    requires forall id :: id in s.info && s.info[id].fInTried ==>
               exists x :: x in s'.info && s'.info[x].fInTried && s'.info[x].addr == s.info[id].addr
    ensures Shaped(s) && Shaped(s')
    ensures At(s.vt, b, i) in s.info ==>
              At(s'.vt, b, i) in s'.info && s'.info[At(s'.vt, b, i)].addr == s.info[At(s.vt, b, i)].addr
  {
    hide Inv, BookOf;
    HasShape(h, s, {}, 0);
    HasShape(h, s', {}, 0);
    Ranges(h, s, {}, 0);
    TriedOccupant(h, s, {}, 0, b, i);
    var id := At(s.vt, b, i);
    if id in s.info {
      var x :| x in s'.info && s'.info[x].fInTried && s'.info[x].addr == s.info[id].addr;
      TriedAt(h, s', {}, 0, x);
    }
  }

  lemma TriedSame(h: Hashes, s0: State, ids: seq<int>, rs: seq<Record>, tids: seq<int>, ts: seq<Record>, s: State)
    requires Inv(h, s0, {}, 0) && Goes(s0, ids, rs, false) && Goes(s0, tids, ts, true)
    requires Filled(s.info, rs, ts, |rs|, |ts|) && Inv(h, s, {}, 0)
    ensures Placed(s.info, s.vt, TRIED_BUCKET_COUNT) == Placed(s0.info, s0.vt, TRIED_BUCKET_COUNT)
  {
    hide Inv, BookOf, Filled, Placed, Goes;
    HasShape(h, s0, {}, 0);
    HasShape(h, s, {}, 0);
    forall id | id in s.info && s.info[id].fInTried
      ensures exists x :: x in s0.info && s0.info[x].fInTried && s0.info[x].addr == s.info[id].addr
    {
      var x := Original(s0, ids, rs, tids, ts, s.info, id);
    }
    forall x | x in s0.info && s0.info[x].fInTried
      ensures exists id :: id in s.info && s.info[id].fInTried && s.info[id].addr == s0.info[x].addr
    {
      var id := Copy(h, s0, ids, rs, tids, ts, s.info, x);
    }
    forall b, i | 0 <= b < TRIED_BUCKET_COUNT && 0 <= i < BUCKET_SIZE
      ensures At(s.vt, b, i) in s.info <==> At(s0.vt, b, i) in s0.info
      ensures At(s.vt, b, i) in s.info ==> s.info[At(s.vt, b, i)].addr == s0.info[At(s0.vt, b, i)].addr
    {
      TriedMatch(h, s, s0, b, i);
      TriedMatch(h, s0, s, b, i);
    }
    SamePlaced(s.info, s.vt, s0.info, s0.vt, TRIED_BUCKET_COUNT);
  }

  lemma StatsReread(h: Hashes, s0: State, ids: seq<int>, rs: seq<Record>, tids: seq<int>, ts: seq<Record>, s: State)
    requires Inv(h, s0, {}, 0) && Goes(s0, ids, rs, false) && Goes(s0, tids, ts, true)
    requires Filled(s.info, rs, ts, |rs|, |ts|) && Inv(h, s, {}, 0)
    ensures Shaped(s) && Shaped(s0) && BookOf(s).stats == Reread(BookOf(s0)).stats
  {
    hide Inv, BookOf, Filled, Goes;
    HasShape(h, s0, {}, 0);
    HasShape(h, s, {}, 0);
    forall a ensures a in BookOf(s).stats <==> a in BookOf(s0).stats
             ensures a in BookOf(s).stats ==> BookOf(s).stats[a] == Reread(BookOf(s0)).stats[a] {
      Found(h, s, {}, 0, a);
      Found(h, s0, {}, 0, a);
      if a in s.ma {
        var x := Original(s0, ids, rs, tids, ts, s.info, s.ma[a]);
        Located(h, s0, {}, 0, x);
      } else if a in s0.ma {
        var id := Copy(h, s0, ids, rs, tids, ts, s.info, s0.ma[a]);
        Located(h, s, {}, 0, id);
      }
    }
  }

  ghost function Loaded(h: Hashes, file: File, restore: bool): State
    requires restore ==> |file.buckets| <= NEW_BUCKET_COUNT
  {
    var s := LoadNew(Start(|file.fresh'|), file.fresh');
    PlaceAll(h, LoadTried(h, s, file.tried), file.buckets, |file.fresh'|, restore)
  }

  /**
   * A saved manager, loaded again with the same key and map, is the same one: the same addresses in the
   * same tried and new slots, with the same counts, everything known but the times of the last tries,
   * whatever order the entries were written in.
   */
  lemma RoundTrip(h: Hashes, s0: State, order: seq<int>, asmap: nat)
    requires Inv(h, s0, {}, 0) && Lists(order, s0.info)
    ensures var s := Loaded(h, Saved(s0, order, asmap), true);
            Inv(h, s, {}, 0) && BookOf(s) == Reread(BookOf(s0))
  {
    hide Inv, Filled, Goes, Tracks, Apart, Placed, StatsBook, Start, PlaceAll, LoadTried, LoadNew, Rows, Records, Pick;
    HasShape(h, s0, {}, 0);
    var ids, tids := Pick(s0.info, order, false), Pick(s0.info, order, true);
    var rs, ts := Records(s0.info, ids), Records(s0.info, tids);
    PickGoes(s0, order, false);
    PickGoes(s0, order, true);
    SavedApart(h, s0, ids, rs, tids, ts);
    TriedLoaded(h, rs, ts, |ts|);
    assert ts[..|ts|] == ts;
    var s1 := LoadTried(h, LoadNew(Start(|rs|), rs), ts);
    HasShape(h, s1, Below(|rs|), 0);
    StartHolds(h, |rs|);
    NothingPlaced(s0.vn, ids, s1.vn);
    RowsPlaced(h, s0, ids, rs, ts, s1, NEW_BUCKET_COUNT);
    var s := Loaded(h, Saved(s0, order, asmap), true);
    AllPlaced(h, s0, ids, rs, ts, s);
    HasShape(h, s, {}, 0);
    FreshSame(h, s0, ids, rs, ts, s);
    TriedSame(h, s0, ids, rs, tids, ts, s);
    StatsReread(h, s0, ids, rs, tids, ts, s);
  }

  lemma NothingPlaced(vn0: Table, ids: seq<int>, vn: Table)
    requires IsTable(vn0, NEW_BUCKET_COUNT) && IsTable(vn, NEW_BUCKET_COUNT)
    requires forall b, i :: 0 <= b < NEW_BUCKET_COUNT && 0 <= i < BUCKET_SIZE ==> At(vn, b, i) == -1
    ensures Tracks(vn0, ids, vn, 0, 0)
  {
  }

  // ---- Any file -------------------------------------------------------------------------------------------------

  /** What loading keeps whatever the file says. */
  ghost predicate Sane(s: State) {
    && Shaped(s) && RandomOk(s.info, s.vr) && s.nIdCount >= 0
    && (forall a :: a in s.ma ==> s.ma[a] in s.info && s.info[s.ma[a]].addr == a)
    && (forall id :: id in s.info ==> 0 <= id < s.nIdCount)
  }

  lemma NewSane(s: State, r: Record)
    requires Sane(s)
    ensures Sane(AddNew(s, r))
  {
  }

  lemma TriedSane(h: Hashes, s: State, r: Record)
    requires Sane(s)
    ensures Sane(AddTried(h, s, r))
  {
  }

  lemma PlaceSane(h: Hashes, s: State, b: nat, id: int, nNew: nat, restore: bool)
    requires Sane(s) && (restore ==> b < NEW_BUCKET_COUNT)
    ensures Sane(Place(h, s, b, id, nNew, restore))
  {
  }

  /** A sane state that passes the consistency check satisfies the invariant. */
  lemma CheckedIsKept(h: Hashes, s: State, keyIsNull: bool)
    requires Sane(s) && Consistent(h, s, keyIsNull)
    ensures Inv(h, s, {}, 0)
  {
    hide TriedOk, NewOk, RefsOk;
  }

  /** Takes an entry out of the random order, the index and the entries. */
  function Removed(s: State, id: int): State
    requires id in s.info && 0 <= s.info[id].nRandomPos < |s.vr| && s.vr[|s.vr| - 1] in s.info
  {
    var p, last := s.info[id].nRandomPos, s.vr[|s.vr| - 1];
    s.(info := s.info[last := s.info[last].(nRandomPos := p)] - {id}, ma := s.ma - {s.info[id].addr},
       vr := s.vr[p := last][..|s.vr| - 1], nNew := s.nNew - 1)
  }

  ghost predicate Prunable(s: State, id: int) { id in s.info && !s.info[id].fInTried && s.info[id].nRefCount == 0 }

  lemma RemovedSane(s: State, id: int)
    requires Sane(s) && id in s.info
    ensures 0 <= s.info[id].nRandomPos < |s.vr| && s.vr[|s.vr| - 1] in s.info
    ensures var r := Removed(s, id);
            && Sane(r) && SameButPos(s.info - {id}, r.info) && r.vt == s.vt && r.vn == s.vn && r.nTried == s.nTried
            && r.nIdCount == s.nIdCount && r.ma == s.ma - {s.info[id].addr}
            && |r.info| == |s.info| - 1 && r.nNew == s.nNew - 1
  {
    assert Removed(s, id).info.Keys == s.info.Keys - {id};
  }

  /** A state and what is left of it without the entries that found no place. */
  ghost predicate Pruned(s: State, r: State) { Pruning(s, r, {}) }

  /** The entries in `rest` are still to be looked at. */
  ghost predicate Pruning(s: State, r: State, rest: set<int>) {
    && Sane(r) && r.vt == s.vt && r.vn == s.vn && r.nTried == s.nTried && r.nIdCount == s.nIdCount
    && r.nNew - |r.info| == s.nNew - |s.info|
    && (forall id :: id in r.info <==> id in s.info && !(Prunable(s, id) && id !in rest))
    && (forall id :: id in r.info ==> r.info[id] == s.info[id].(nRandomPos := r.info[id].nRandomPos))
    && (forall a :: a in r.ma <==> a in s.ma && !Stripped(s, a, rest))
    && (forall a :: a in r.ma ==> r.ma[a] == s.ma[a])
    && ((forall id :: !Prunable(s, id)) ==> r == s)
  }

  /** The address of an entry that found no place, outside of `rest`. */
  ghost predicate Stripped(s: State, a: Service, rest: set<int>) {
    exists id :: Prunable(s, id) && id !in rest && s.info[id].addr == a
  }

  lemma StripOne(s: State, rest: set<int>, id: int)
    requires id in rest && id in s.info
    ensures forall a :: Stripped(s, a, rest - {id}) <==>
              Stripped(s, a, rest) || (Prunable(s, id) && s.info[id].addr == a)
  {
    forall a
      ensures Stripped(s, a, rest - {id}) <==> Stripped(s, a, rest) || (Prunable(s, id) && s.info[id].addr == a)
    {
      if x :| Prunable(s, x) && x !in rest && s.info[x].addr == a { assert x !in rest - {id}; }
    }
  }

  lemma PruneStart(s: State)
    requires Sane(s)
    ensures Pruning(s, s, s.info.Keys)
  {
    hide RandomOk;
  }

  lemma PruneOne(s: State, r: State, rest: set<int>, id: int)
    requires Pruning(s, r, rest) && id in rest && id in s.info && Prunable(s, id)
    ensures id in r.info && 0 <= r.info[id].nRandomPos < |r.vr| && r.vr[|r.vr| - 1] in r.info
    ensures Pruning(s, Removed(r, id), rest - {id})
  {
    hide RandomOk, Removed, Stripped;
    assert id in r.info;
    RemovedSane(r, id);
    StripOne(s, rest, id);
  }

  lemma PruneNone(s: State, r: State, rest: set<int>, id: int)
    requires Pruning(s, r, rest) && id in rest && id in s.info && !Prunable(s, id)
    ensures Pruning(s, r, rest - {id})
  {
    hide RandomOk, Stripped;
    StripOne(s, rest, id);
  }

  method Prune(s: State) returns (r: State)
    requires Sane(s)
    ensures Pruned(s, r)
  {
    hide Pruning, Removed;
    r := s;
    var rest := s.info.Keys;
    PruneStart(s);
    while rest != {}
      invariant rest <= s.info.Keys && Pruning(s, r, rest)
      decreases rest
    {
      ghost var some := Element(rest);
      var id :| id in rest;
      StillThere(s, r, rest, id);
      if !r.info[id].fInTried && r.info[id].nRefCount == 0 {
        PruneOne(s, r, rest, id);
        r := Removed(r, id);
      } else {
        PruneNone(s, r, rest, id);
      }
      rest := rest - {id};
    }
  }

  lemma StillThere(s: State, r: State, rest: set<int>, id: int)
    requires Pruning(s, r, rest) && id in rest && id in s.info
    ensures id in r.info && (Prunable(s, id) <==> !r.info[id].fInTried && r.info[id].nRefCount == 0)
  {
    hide RandomOk;
  }

  // ---- How many entries there can be ---------------------------------------------------------------------------

  const MAX_NEW := 65536
  const MAX_TRIED := 16384

  predicate Sized(file: File) { |file.fresh'| <= MAX_NEW && |file.tried| <= MAX_TRIED }

  /** The ids in the first `k` slots, row by row. */
  ghost function Seen(t: Table, rows: nat, k: nat): (ids: set<int>)
    requires IsTable(t, rows) && k <= rows * BUCKET_SIZE
    ensures |ids| <= k
  {
    if k == 0 then {} else Seen(t, rows, k - 1) + {At(t, (k - 1) / BUCKET_SIZE, (k - 1) % BUCKET_SIZE)}
  }

  lemma {:induction false} SeenAll(t: Table, rows: nat, k: nat, b: nat, i: nat)
    requires IsTable(t, rows) && k <= rows * BUCKET_SIZE && b < rows && i < BUCKET_SIZE && b * BUCKET_SIZE + i < k
    ensures At(t, b, i) in Seen(t, rows, k)
  {
    if b * BUCKET_SIZE + i < k - 1 { SeenAll(t, rows, k - 1, b, i); }
  }

  lemma {:induction false} DistinctFit(ids: seq<int>, all: set<int>)
    requires Distinct(ids) && forall id :: id in ids ==> id in all
    ensures |ids| <= |all|
  {
    if ids != [] {
      var n := |ids| - 1;
      var x := Nth(ids, n);
      assert x !in ids[..n] && x in all;
      DistinctFit(ids[..n], all - {x});
    }
  }

  /** Every entry stands somewhere, so there are no more entries than slots. */
  lemma SavedFits(h: Hashes, s0: State, ids: seq<int>, rs: seq<Record>, tids: seq<int>, ts: seq<Record>)
    requires Inv(h, s0, {}, 0) && Goes(s0, ids, rs, false) && Goes(s0, tids, ts, true)
    ensures |ids| <= MAX_NEW && |tids| <= MAX_TRIED
  {
    hide Inv, Seen;
    HasShape(h, s0, {}, 0);
    var all := Seen(s0.vn, NEW_BUCKET_COUNT, MAX_NEW);
    forall x | x in ids ensures x in all {
      CountsRefs(h, s0, {}, 0, x);
      RefsZero(h, s0.vn, s0.info[x].addr, x, NEW_BUCKET_COUNT);
      var b: nat :| b < NEW_BUCKET_COUNT && At(s0.vn, b, h.NewPos(s0.info[x].addr, b)) == x;
      SeenAll(s0.vn, NEW_BUCKET_COUNT, MAX_NEW, b, h.NewPos(s0.info[x].addr, b));
    }
    DistinctFit(ids, all);
    var allTried := Seen(s0.vt, TRIED_BUCKET_COUNT, MAX_TRIED);
    forall x | x in tids ensures x in allTried {
      TriedAt(h, s0, {}, 0, x);
      SeenAll(s0.vt, TRIED_BUCKET_COUNT, MAX_TRIED, h.Tried(s0.info[x].addr), h.TriedPos(s0.info[x].addr));
    }
    DistinctFit(tids, allTried);
  }

  // ---- Writing ---------------------------------------------------------------------------------------------------

  /** Where each of the listed ids is among the picked ones, as far as it is picked. */
  ghost predicate Indexed(info: Infos, order: seq<int>, unkIds: map<int, int>)
    requires forall id :: id in order ==> id in info
  {
    forall id :: id in order && Picked(info[id], false) ==>
        id in unkIds && unkIds[id] == IndexIn(Pick(info, order, false), id)
  }

  lemma PickNext(info: Infos, order: seq<int>, n: nat, tried: bool)
    requires n < |order| && forall id :: id in order ==> id in info
    ensures Pick(info, order[..n + 1], tried) == Pick(info, order[..n], tried) + if Picked(info[Nth(order, n)], tried)
              then [order[n]] else []
  {
    assert order[..n + 1][..n] == order[..n];
  }

  lemma IndexedNext(info: Infos, order: seq<int>, n: nat, unkIds: map<int, int>)
    requires n < |order| && Distinct(order) && (forall id :: id in order ==>
               id in info) && Indexed(info, order[..n], unkIds)
    ensures Indexed(info, order[..n + 1], unkIds[order[n] := |Pick(info, order[..n], false)|])
  {
    var ids, ids' := Pick(info, order[..n], false), Pick(info, order[..n + 1], false);
    PickNext(info, order, n, false);
    assert order[..n + 1] == order[..n] + [order[n]] && order[n] !in order[..n];
    forall id | id in order[..n + 1] && Picked(info[id], false)
      ensures id in unkIds[order[n] := |ids|] && unkIds[order[n] := |ids|][id] == IndexIn(ids', id)
    {
      if ids' != ids { assert ids'[..|ids'| - 1] == ids; }
    }
  }

  lemma {:induction false} PickShorter(info: Infos, order: seq<int>, n: nat, tried: bool)
    requires n <= |order| && forall id :: id in order ==> id in info
    ensures |Pick(info, order[..n], tried)| <= |Pick(info, order, tried)|
    decreases |order| - n
  {
    if n == |order| {
      assert order[..n] == order;
    } else {
      PickNext(info, order, n, tried);
      PickShorter(info, order, n + 1, tried);
    }
  }

  lemma NothingSaved(info: Infos, order: seq<int>, tried: bool)
    ensures Records(info, Pick(info, order[..0], tried)) == [] && Indexed(info, order[..0], map[])
  {
  }

  lemma RecordsNext(info: Infos, ids: seq<int>, id: int)
    requires id in info && forall x :: x in ids ==> x in info
    ensures Records(info, ids + [id]) == Records(info, ids) + [RecordOf(info[id])]
  {
  }

  /** Writes the picked entries in order; `limit` is the count that was announced before them. */
  method SaveEntries(info: Infos, order: seq<int>, tried: bool, limit: int)
      returns (rs: seq<Record>, unkIds: map<int, int>)
    requires Lists(order, info) && limit == |Pick(info, order, tried)|
    ensures rs == Records(info, Pick(info, order, tried)) && (!tried ==> Indexed(info, order, unkIds))
  {
    hide Pick, Picked, Records, Indexed;
    rs, unkIds := [], map[];
    var nIds := 0;
    NothingSaved(info, order, tried);
    for n := 0 to |order|
      invariant nIds == |rs| && rs == Records(info, Pick(info, order[..n], tried))
      invariant !tried ==> Indexed(info, order[..n], unkIds)
    {
      PickNext(info, order, n, tried);
      PickShorter(info, order, n + 1, tried);
      if !tried { IndexedNext(info, order, n, unkIds); }
      unkIds := unkIds[order[n] := nIds];
      if Picked(info[Nth(order, n)], tried) {
        assert nIds != limit;
        RecordsNext(info, Pick(info, order[..n], tried), Nth(order, n));
        rs := rs + [RecordOf(info[Nth(order, n)])];
        nIds := nIds + 1;
      }
    }
    assert order[..|order|] == order;
  }

  method SaveBucket(vn: Table, ghost ids: seq<int>, unkIds: map<int, int>, b: nat) returns (row: seq<int>)
    requires IsTable(vn, NEW_BUCKET_COUNT) && b < NEW_BUCKET_COUNT
    requires forall i :: 0 <= i < BUCKET_SIZE && At(vn, b, i) != -1 ==>
               At(vn, b, i) in unkIds && unkIds[At(vn, b, i)] == IndexIn(ids, At(vn, b, i))
    ensures row == Row(vn, ids, b, BUCKET_SIZE)
  {
    row := [];
    for i := 0 to BUCKET_SIZE
      invariant row == Row(vn, ids, b, i)
    {
      if At(vn, b, i) != -1 { row := row + [unkIds[At(vn, b, i)]]; }
    }
  }

  /** The announced counts are those of the entries that are written. */
  lemma CountsSaved(h: Hashes, s: State, order: seq<int>)
    requires Inv(h, s, {}, 0) && Lists(order, s.info)
    ensures s.nNew == |Pick(s.info, order, false)| && s.nTried == |Pick(s.info, order, true)|
  {
    hide TriedOk, RefsOk, NewOk, RandomOk, AddrOk;
    PickDistinct(s.info, order, false);
    PickDistinct(s.info, order, true);
    forall id | id in s.info ensures Picked(s.info[id], false) <==> !s.info[id].fInTried {
      if s.info[id].fInTried { TriedAt(h, s, {}, 0, id); } else { Sound(h, s, {}, 0, id); }
    }
    DistinctCount(Pick(s.info, order, false), NewIds(s.info));
    DistinctCount(Pick(s.info, order, true), TriedIds(s.info));
  }

  lemma {:induction false} DistinctCount(ids: seq<int>, all: set<int>)
    requires Distinct(ids) && forall id :: id in ids <==> id in all
    ensures |ids| == |all|
  {
    if ids == [] {
      if all != {} { var x := Element(all); }
    } else {
      var n := |ids| - 1;
      var x := Nth(ids, n);
      assert x !in ids[..n] && x in all && ids == ids[..n] + [x];
      DistinctCount(ids[..n], all - {x});
    }
  }

  method Save(h: Hashes, s: State, order: seq<int>, asmap: nat) returns (file: File)
    requires Inv(h, s, {}, 0) && Lists(order, s.info)
    ensures file == Saved(s, order, asmap)
  {
    hide Inv;
    HasShape(h, s, {}, 0);
    CountsSaved(h, s, order);
    ghost var ids := Pick(s.info, order, false);
    var fresh', unkIds := SaveEntries(s.info, order, false, s.nNew);
    var tried, _ := SaveEntries(s.info, order, true, s.nTried);
    var buckets := [];
    for b := 0 to NEW_BUCKET_COUNT
      invariant buckets == Rows(s.vn, ids, b)
    {
      forall i | 0 <= i < BUCKET_SIZE && At(s.vn, b, i) != -1
        ensures At(s.vn, b, i) in unkIds && unkIds[At(s.vn, b, i)] == IndexIn(ids, At(s.vn, b, i))
      {
        NewOccupant(h, s, {}, 0, b, i);
      }
      var row := SaveBucket(s.vn, ids, unkIds, b);
      buckets := buckets + [row];
    }
    file := File(fresh', tried, buckets, asmap);
  }

  // ---- Reading ---------------------------------------------------------------------------------------------------

  predicate Restores(file: File, asmap: nat) { |file.buckets| == NEW_BUCKET_COUNT && file.asmap == asmap }

  method LoadEntries(h: Hashes, file: File) returns (s: State)
    ensures Sane(s) && s == LoadTried(h, LoadNew(Start(|file.fresh'|), file.fresh'), file.tried)
  {
    hide Sane, AddNew, AddTried;
    s := State(map[], map[], [], EmptyTable(TRIED_BUCKET_COUNT), EmptyTable(NEW_BUCKET_COUNT), |file.fresh'|, 0, 0);
    StartSane(|file.fresh'|);
    for n := 0 to |file.fresh'|
      invariant Sane(s) && s == LoadNew(Start(|file.fresh'|), file.fresh'[..n])
    {
      assert file.fresh'[..n + 1][..n] == file.fresh'[..n];
      NewSane(s, file.fresh'[n]);
      s := AddNew(s, file.fresh'[n]);
    }
    assert file.fresh'[..|file.fresh'|] == file.fresh';
    ghost var s1 := s;
    for n := 0 to |file.tried|
      invariant Sane(s) && Shaped(s1) && s == LoadTried(h, s1, file.tried[..n])
    {
      assert file.tried[..n + 1][..n] == file.tried[..n];
      TriedSane(h, s, file.tried[n]);
      s := AddTried(h, s, file.tried[n]);
    }
    assert file.tried[..|file.tried|] == file.tried;
  }

  lemma StartSane(n: nat)
    ensures Sane(Start(n))
  {
  }

  method LoadBuckets(h: Hashes, s0: State, rows: seq<seq<int>>, nNew: nat, restore: bool) returns (s: State)
    requires Sane(s0) && (restore ==> |rows| <= NEW_BUCKET_COUNT)
    ensures Sane(s) && s == PlaceAll(h, s0, rows, nNew, restore)
  {
    hide Place;
    s := s0;
    for b := 0 to |rows|
      invariant Sane(s) && s == PlaceAll(h, s0, rows[..b], nNew, restore)
    {
      assert rows[..b + 1][..b] == rows[..b];
      s := LoadBucket(h, s, b, rows[b], nNew, restore);
    }
    assert rows[..|rows|] == rows;
  }

  method LoadBucket(h: Hashes, s0: State, b: nat, row: seq<int>, nNew: nat, restore: bool) returns (s: State)
    requires Sane(s0) && (restore ==> b < NEW_BUCKET_COUNT)
    ensures Sane(s) && s == PlaceRow(h, s0, b, row, nNew, restore)
  {
    hide Place;
    s := s0;
    for n := 0 to |row|
      invariant Sane(s) && s == PlaceRow(h, s0, b, row[..n], nNew, restore)
    {
      assert row[..n + 1][..n] == row[..n];
      PlaceSane(h, s, b, row[n], nNew, restore);
      s := Place(h, s, b, row[n], nNew, restore);
    }
    assert row[..|row|] == row;
  }

  /** Whatever the file, a load that succeeds leaves a manager whose invariant holds. */
  method Load(h: Hashes, file: File, asmap: nat, keyIsNull: bool) returns (ok: bool, s: State)
    ensures ok ==> Inv(h, s, {}, 0)
    ensures ok ==> Sized(file)
    ensures Sized(file) ==> Shaped(s) && Pruned(Loaded(h, file, Restores(file, asmap)), s) && (ok <==>
              Consistent(h, s, keyIsNull))
  {
    hide Sane, Inv, Consistent, Pruned, Start, LoadNew, LoadTried, PlaceAll;
    s := State(map[], map[], [], EmptyTable(TRIED_BUCKET_COUNT), EmptyTable(NEW_BUCKET_COUNT), 0, 0, 0);
    if !Sized(file) { return false, s; }
    s := LoadEntries(h, file);
    s := LoadBuckets(h, s, file.buckets, |file.fresh'|, Restores(file, asmap));
    s := Prune(s);
    PrunedShape(Loaded(h, file, Restores(file, asmap)), s);
    var err := CheckAddrman(h, s, keyIsNull);
    ok := err == 0;
    if ok { CheckedIsKept(h, s, keyIsNull); }
  }

  lemma PrunedShape(s: State, r: State)
    requires Pruned(s, r)
    ensures Sane(r) && Shaped(r)
  {
  }

  /** Loading what was saved succeeds exactly when the recorded times are fine, and prunes nothing. */
  lemma SavedLoads(h: Hashes, s0: State, order: seq<int>, asmap: nat, keyIsNull: bool, s: State)
    requires Inv(h, s0, {}, 0) && Lists(order, s0.info)
    requires Pruned(Loaded(h, Saved(s0, order, asmap), true), s)
    ensures Inv(h, s, {}, 0) && BookOf(s) == Reread(BookOf(s0))
    ensures Consistent(h, s, keyIsNull) <==> TimesOk(Reread(BookOf(s0))) && !keyIsNull
  {
    hide Inv, BookOf, Goes, Consistent, TimesOk, PlaceAll, LoadNew, LoadTried, Rows, Reread;
    HasShape(h, s0, {}, 0);
    RoundTrip(h, s0, order, asmap);
    var r := Loaded(h, Saved(s0, order, asmap), true);
    forall id ensures !Prunable(r, id) { if id in r.info { Sound(h, r, {}, 0, id); } }
    CheckPasses(h, s, keyIsNull);
  }

  lemma SavedSized(h: Hashes, s0: State, order: seq<int>, asmap: nat)
    requires Inv(h, s0, {}, 0) && Lists(order, s0.info)
    ensures Sized(Saved(s0, order, asmap)) && Restores(Saved(s0, order, asmap), asmap)
  {
    hide Inv, Goes;
    HasShape(h, s0, {}, 0);
    var ids, tids := Pick(s0.info, order, false), Pick(s0.info, order, true);
    PickGoes(s0, order, false);
    PickGoes(s0, order, true);
    SavedFits(h, s0, ids, Records(s0.info, ids), tids, Records(s0.info, tids));
  }

  lemma RereadTimes(book: Book)
    ensures TimesOk(book) ==> TimesOk(Reread(book))
  {
  }
}
