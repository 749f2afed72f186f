/**
 * Loading any file whose addresses differ: under another key or another map the buckets are others, and
 * addresses that fall into the same slot cannot all stay. Who stays, where, and who is lost.
 */
module AddrManRebucket {
  import opened Basics
  import opened AddrManTables
  import opened AddrManBook
  import opened AddrManSteps
  import opened AddrManCheck
  import opened AddrManLaws
  import opened AddrManFile

  // ---- Tried records ---------------------------------------------------------------------------------------------

  /** Some of the records belongs into the tried slot. */
  ghost predicate Claims(h: Hashes, ts: seq<Record>, l: Slot) {
    exists j :: 0 <= j < |ts| && TriedSlot(h, ts[j].addr) == l
  }

  /** The records that are the first ones for their tried slots. */
  ghost function Kept(h: Hashes, ts: seq<Record>): seq<Record> {
    if ts == [] then []
    else
      var n := |ts| - 1;
      Kept(h, ts[..n]) + if Claims(h, ts[..n], TriedSlot(h, ts[n].addr)) then [] else [ts[n]]
  }

  lemma {:induction false} KeptClaims(h: Hashes, ts: seq<Record>, l: Slot)
    ensures Claims(h, Kept(h, ts), l) <==> Claims(h, ts, l)
  {
    if ts != [] {
      var n := |ts| - 1;
      KeptClaims(h, ts[..n], l);
      ClaimsMore(h, ts[..n], ts[n], l);
      assert ts == ts[..n] + [ts[n]];
      if Claims(h, ts[..n], TriedSlot(h, ts[n].addr)) {
        assert Kept(h, ts) == Kept(h, ts[..n]);
      } else {
        ClaimsMore(h, Kept(h, ts[..n]), ts[n], l);
      }
    }
  }

  lemma ClaimsMore(h: Hashes, ts: seq<Record>, r: Record, l: Slot)
    ensures Claims(h, ts + [r], l) <==> Claims(h, ts, l) || TriedSlot(h, r.addr) == l
  {
    if j :| 0 <= j < |ts| && TriedSlot(h, ts[j].addr) == l { assert (ts + [r])[j] == ts[j]; }
    if TriedSlot(h, r.addr) == l { assert (ts + [r])[|ts|] == r; }
  }

  /** The kept records are records of the file, and no two of them have the same slot. */
  lemma {:induction false} KeptApart(h: Hashes, ts: seq<Record>)
    ensures forall i, j :: 0 <= i < j < |Kept(h, ts)| ==> TriedSlot(h, Kept(h, ts)[i].addr) != TriedSlot(h, Kept(h,
              ts)[j].addr)
    ensures forall r :: r in Kept(h, ts) ==> r in ts
  {
    if ts != [] {
      var n := |ts| - 1;
      KeptApart(h, ts[..n]);
      KeptClaims(h, ts[..n], TriedSlot(h, ts[n].addr));
    }
  }

  /** A record is kept exactly if no earlier one has its slot. */
  lemma {:induction false} KeptIfFirst(h: Hashes, ts: seq<Record>, i: nat)
    requires i < |ts| && forall j, k :: 0 <= j < k < |ts| ==> ts[j].addr != ts[k].addr
    ensures ts[i] in Kept(h, ts) <==> !Claims(h, ts[..i], TriedSlot(h, ts[i].addr))
  {
    hide TriedSlot;
    var n := |ts| - 1;
    KeptApart(h, ts[..n]);
    if i < n {
      KeptIfFirst(h, ts[..n], i);
      assert ts[..n][..i] == ts[..i] && ts[..n][i] == ts[i] && ts[i] != ts[n];
    } else {
      assert ts[n] !in ts[..n];
    }
  }

  lemma {:induction false} SlotsClaimed(h: Hashes, s: State, ts: seq<Record>, b: nat, i: nat)
    requires IsTable(s.vt, TRIED_BUCKET_COUNT) && s.nIdCount >= 0 && b < TRIED_BUCKET_COUNT && i < BUCKET_SIZE
    requires At(s.vt, b, i) == -1
    ensures At(LoadTried(h, s, ts).vt, b, i) != -1 <==> Claims(h, ts, Slot(b, i))
    ensures LoadTried(h, s, ts).nIdCount >= 0
  {
    if ts != [] {
      var n := |ts| - 1;
      SlotsClaimed(h, s, ts[..n], b, i);
      ClaimsMore(h, ts[..n], ts[n], Slot(b, i));
      assert ts == ts[..n] + [ts[n]];
    }
  }

  /** Records whose slot is taken leave no trace. */
  lemma {:induction false} KeptLoads(h: Hashes, s: State, ts: seq<Record>)
    requires IsTable(s.vt, TRIED_BUCKET_COUNT) && s.nIdCount >= 0
    requires forall b, i :: 0 <= b < TRIED_BUCKET_COUNT && 0 <= i < BUCKET_SIZE ==> At(s.vt, b, i) == -1
    ensures LoadTried(h, s, ts) == LoadTried(h, s, Kept(h, ts))
  {
    if ts != [] {
      var n := |ts| - 1;
      KeptLoads(h, s, ts[..n]);
      var ks, a := Kept(h, ts[..n]), ts[n].addr;
      SlotsClaimed(h, s, ts[..n], h.Tried(a), h.TriedPos(a));
      assert At(s.vt, h.Tried(a), h.TriedPos(a)) == -1;
      if !Claims(h, ts[..n], TriedSlot(h, a)) {
        assert (ks + [ts[n]])[..|ks|] == ks;
      } else {
        assert Kept(h, ts) == ks;
      }
    }
  }

  /** All addresses of a file differ. */
  ghost predicate Differing(file: File) {
    && (forall i, j :: 0 <= i < j < |file.fresh'| ==> file.fresh'[i].addr != file.fresh'[j].addr)
    && (forall i, j :: 0 <= i < |file.fresh'| && 0 <= j < |file.tried| ==> file.fresh'[i].addr != file.tried[j].addr)
    && (forall i, j :: 0 <= i < j < |file.tried| ==> file.tried[i].addr != file.tried[j].addr)
  }

  /** The state before the new records are given their buckets. */
  lemma EntriesLoaded(h: Hashes, file: File)
    requires Differing(file)
    ensures var rs, ks := file.fresh', Kept(h, file.tried);
            var s := LoadTried(h, LoadNew(Start(|rs|), rs), file.tried);
            AfterTried(h, s, rs, ks, |ks|)
  {
    hide LoadNew, LoadTried, AfterTried, Kept, Inv;
    var rs, ks := file.fresh', Kept(h, file.tried);
    KeptApart(h, file.tried);
    forall i, j | 0 <= i < |rs| && 0 <= j < |ks| ensures rs[i].addr != ks[j].addr { assert ks[j] in ks; }
    TriedLoaded(h, rs, ks, |ks|);
    assert ks[..|ks|] == ks;
    NoneTried(h, rs);
    KeptLoads(h, LoadNew(Start(|rs|), rs), file.tried);
  }

  lemma {:induction false} NoneTried(h: Hashes, rs: seq<Record>)
    ensures var s := LoadNew(Start(|rs|), rs);
            && IsTable(s.vt, TRIED_BUCKET_COUNT) && s.nIdCount >= 0
            && forall b, i :: 0 <= b < TRIED_BUCKET_COUNT && 0 <= i < BUCKET_SIZE ==> At(s.vt, b, i) == -1
  {
    IdsGrow(Start(|rs|), rs);
  }

  lemma {:induction false} IdsGrow(s: State, rs: seq<Record>)
    ensures LoadNew(s, rs).nIdCount >= s.nIdCount
  {
    if rs != [] { IdsGrow(s, rs[..|rs| - 1]); }
  }

  // ---- New records -----------------------------------------------------------------------------------------------

  /** Some row lists the record. */
  ghost predicate InRows(rows: seq<seq<int>>, id: int) {
    exists c, k {:trigger rows[c][k]} :: 0 <= c < |rows| && 0 <= k < |rows[c]| && rows[c][k] == id
  }

  ghost predicate InRow(rows: seq<seq<int>>, c: nat, id: int) { c < |rows| && id in rows[c] }

  function HomeOf(h: Hashes, r: Record): Slot { NewSlot(h, r.addr, r.source) }

  function Occupant(s: State, l: Slot): int
    requires IsTable(s.vn, NEW_BUCKET_COUNT) && l.bucket < NEW_BUCKET_COUNT && l.pos < BUCKET_SIZE
  {
    At(s.vn, l.bucket, l.pos)
  }

  ghost predicate Ready(h: Hashes, rs: seq<Record>, ts: seq<Record>, s: State) {
    Inv(h, s, Below(|rs|), 0) && Filled(s.info, rs, ts, |rs|, |ts|)
  }

  /** A new slot holds a listed record, in a row that lists it or at home. */
  ghost predicate Sourced(h: Hashes, rs: seq<Record>, rows: seq<seq<int>>, s: State, restore: bool)
    requires IsTable(s.vn, NEW_BUCKET_COUNT)
  {
    forall c, j :: 0 <= c < NEW_BUCKET_COUNT && 0 <= j < BUCKET_SIZE && At(s.vn, c, j) != -1 ==>
      var id := At(s.vn, c, j);
      0 <= id < |rs| && InRows(rows, id) && (Slot(c, j) == HomeOf(h, rs[id]) || (restore && InRow(rows, c, id)))
  }

  /** The record has a slot, or neither its home nor the bucket it was listed in has room for it. */
  ghost predicate Settled(h: Hashes, rs: seq<Record>, s: State, b: nat, id: int, restore: bool)
    requires IsTable(s.vn, NEW_BUCKET_COUNT)
  {
    0 <= id < |rs| && id in s.info && (restore ==> b < NEW_BUCKET_COUNT) ==>
      || s.info[id].nRefCount > 0
      || (Occupant(s, HomeOf(h, rs[id])) != -1 && (restore ==> Occupant(s, NewSlotIn(h, rs[id].addr, b)) != -1))
  }

  /** Slots stay filled, and references are only added. */
  ghost predicate Fuller(s: State, s': State)
    requires IsTable(s.vn, NEW_BUCKET_COUNT) && IsTable(s'.vn, NEW_BUCKET_COUNT)
  {
    && (forall c, j :: 0 <= c < NEW_BUCKET_COUNT && 0 <= j < BUCKET_SIZE && At(s.vn, c, j) != -1 ==>
          At(s'.vn, c, j) == At(s.vn, c, j))
    && (forall id :: id in s'.info ==> id in s.info && s'.info[id].nRefCount >= s.info[id].nRefCount)
  }

  lemma StillSettled(h: Hashes, rs: seq<Record>, s: State, s': State, b: nat, id: int, restore: bool)
    requires IsTable(s.vn, NEW_BUCKET_COUNT) && IsTable(s'.vn, NEW_BUCKET_COUNT) && Fuller(s, s')
    requires Settled(h, rs, s, b, id, restore)
    ensures Settled(h, rs, s', b, id, restore)
  {
  }

  lemma PutReady(h: Hashes, rs: seq<Record>, ts: seq<Record>, s: State, b: nat, id: int)
    requires Ready(h, rs, ts, s) && 0 <= id < |rs| && b < NEW_BUCKET_COUNT
    ensures Shaped(s) && id in s.info && s.info[id].addr == rs[id].addr && s.info[id].source == rs[id].source
    ensures At(s.vn, b, h.NewPos(rs[id].addr, b)) == -1 && s.info[id].nRefCount < NEW_BUCKETS_PER_ADDRESS ==>
              && Ready(h, rs, ts, Put(h, s, b, id)) && Put(h, s, b, id).info[id].nRefCount > 0
              && Fuller(s, Put(h, s, b, id))
  {
    hide Inv, BookOf;
    HasShape(h, s, Below(|rs|), 0);
    Ranges(h, s, Below(|rs|), 0);
    if At(s.vn, b, h.NewPos(rs[id].addr, b)) == -1 && s.info[id].nRefCount < NEW_BUCKETS_PER_ADDRESS {
      var e := s.info[id].(nRefCount := s.info[id].nRefCount + 1);
      NewSlotChanged(h, s, Below(|rs|), Below(|rs|), 0, b, h.NewPos(rs[id].addr, b), id, id, e);
      FilledAgain(s.info, rs, ts, id, e);
    }
  }

  lemma PlaceSettles(h: Hashes, rs: seq<Record>, ts: seq<Record>, s: State, b: nat, id: int, restore: bool)
    requires Ready(h, rs, ts, s) && (restore ==> b < NEW_BUCKET_COUNT)
    ensures Shaped(s) && Shaped(Place(h, s, b, id, |rs|, restore))
    ensures var s' := Place(h, s, b, id, |rs|, restore);
            Ready(h, rs, ts, s') && Fuller(s, s') && Settled(h, rs, s', b, id, restore)
  {
    hide Ready, Fuller;
    IsReady(h, rs, ts, s);
    FullerItself(s);
    if 0 <= id < |rs| {
      PutReady(h, rs, ts, s, HomeOf(h, rs[id]).bucket, id);
      if restore { PutReady(h, rs, ts, s, b, id); }
    }
  }

  lemma IsReady(h: Hashes, rs: seq<Record>, ts: seq<Record>, s: State)
    requires Ready(h, rs, ts, s)
    ensures Shaped(s)
  {
    hide Filled;
  }

  lemma FullerItself(s: State)
    requires IsTable(s.vn, NEW_BUCKET_COUNT)
    ensures Fuller(s, s)
  {
  }

  lemma PlaceSourced(h: Hashes, rs: seq<Record>, ts: seq<Record>, rows: seq<seq<int>>, s: State, b: nat, n: nat,
      restore: bool)
    requires Ready(h, rs, ts, s) && b < |rows| && n < |rows[b]| && (restore ==> b < NEW_BUCKET_COUNT)
    requires Shaped(s) && Sourced(h, rs, rows, s, restore)
    ensures Sourced(h, rs, rows, Place(h, s, b, rows[b][n], |rs|, restore), restore)
  {
    hide Ready, InRows;
    var id := rows[b][n];
    ListedThere(rows, b, n);
    if 0 <= id < |rs| { PutReady(h, rs, ts, s, 0, id); }
  }

  lemma ListedThere(rows: seq<seq<int>>, b: nat, n: nat)
    requires b < |rows| && n < |rows[b]|
    ensures InRows(rows, rows[b][n]) && InRow(rows, b, rows[b][n])
  {
  }

  /** The state when the bucket entries before the `n`-th of row `b` were given their places. */
  ghost predicate Bucketing(h: Hashes, rs: seq<Record>, ts: seq<Record>, rows: seq<seq<int>>, s: State, b: nat, n: nat,
      restore: bool)
  {
    && Ready(h, rs, ts, s) && Shaped(s) && Sourced(h, rs, rows, s, restore)
    && forall c, k {:trigger rows[c][k]} :: 0 <= c < |rows| && 0 <= k < |rows[c]| && Before(c, k, b, n) ==>
        Settled(h, rs, s, c, rows[c][k], restore)
  }

  lemma OneBucketed(h: Hashes, rs: seq<Record>, ts: seq<Record>, rows: seq<seq<int>>, s: State, b: nat, n: nat,
      restore: bool)
    requires Bucketing(h, rs, ts, rows, s, b, n, restore) && b < |rows| && n < |rows[b]|
    requires restore ==> b < NEW_BUCKET_COUNT
    ensures Bucketing(h, rs, ts, rows, Place(h, s, b, rows[b][n], |rs|, restore), b, n + 1, restore)
  {
    hide Ready, Sourced, Settled, Fuller, Place;
    var s' := Place(h, s, b, rows[b][n], |rs|, restore);
    PlaceSettles(h, rs, ts, s, b, rows[b][n], restore);
    PlaceSourced(h, rs, ts, rows, s, b, n, restore);
    forall c, k | 0 <= c < |rows| && 0 <= k < |rows[c]| && Before(c, k, b, n + 1)
      ensures Settled(h, rs, s', c, rows[c][k], restore)
    {
      if Before(c, k, b, n) { StillSettled(h, rs, s, s', c, rows[c][k], restore); }
    }
  }

  lemma {:induction false} RowBucketed(h: Hashes, rs: seq<Record>, ts: seq<Record>, rows: seq<seq<int>>, s: State,
      b: nat, n: nat, restore: bool)
    requires Bucketing(h, rs, ts, rows, s, b, 0, restore) && b < |rows| && n <= |rows[b]|
    requires restore ==> b < NEW_BUCKET_COUNT
    ensures Bucketing(h, rs, ts, rows, PlaceRow(h, s, b, rows[b][..n], |rs|, restore), b, n, restore)
  {
    hide Ready, Sourced, Settled, Place;
    if n > 0 {
      RowBucketed(h, rs, ts, rows, s, b, n - 1, restore);
      assert rows[b][..n][..n - 1] == rows[b][..n - 1];
      OneBucketed(h, rs, ts, rows, PlaceRow(h, s, b, rows[b][..n - 1], |rs|, restore), b, n - 1, restore);
    }
  }

  lemma {:induction false} AllBucketed(h: Hashes, rs: seq<Record>, ts: seq<Record>, rows: seq<seq<int>>, s: State,
      n: nat, restore: bool)
    requires Bucketing(h, rs, ts, rows, s, 0, 0, restore) && n <= |rows| && (restore ==> |rows| <= NEW_BUCKET_COUNT)
    ensures Bucketing(h, rs, ts, rows, PlaceAll(h, s, rows[..n], |rs|, restore), n, 0, restore)
  {
    hide Ready, Sourced, Settled, PlaceRow;
    if n > 0 {
      AllBucketed(h, rs, ts, rows, s, n - 1, restore);
      assert rows[..n][..n - 1] == rows[..n - 1] && rows[..n][n - 1] == rows[n - 1];
      var s1 := PlaceAll(h, s, rows[..n - 1], |rs|, restore);
      RowBucketed(h, rs, ts, rows, s1, n - 1, |rows[n - 1]|, restore);
      assert rows[n - 1][..|rows[n - 1]|] == rows[n - 1];
    }
  }

  /** What a file with differing addresses is loaded to, before entries without a place are pruned. */
  lemma LoadBucketed(h: Hashes, file: File, restore: bool)
    requires Differing(file) && (restore ==> |file.buckets| <= NEW_BUCKET_COUNT)
    ensures var rows := file.buckets;
            Bucketing(h, file.fresh', Kept(h, file.tried), rows, Loaded(h, file, restore), |rows|, 0, restore)
  {
    hide Inv, PlaceAll, LoadNew, LoadTried, Filled, Start, Kept, Settled;
    var rs, ks, rows := file.fresh', Kept(h, file.tried), file.buckets;
    EntriesLoaded(h, file);
    NoneTried(h, rs);
    var s := LoadTried(h, LoadNew(Start(|rs|), rs), file.tried);
    HasShape(h, s, Below(|rs|), 0);
    StartHolds(h, |rs|);
    AllBucketed(h, rs, ks, rows, s, |rows|, restore);
    assert rows[..|rows|] == rows;
  }

  // ---- Pruning ---------------------------------------------------------------------------------------------------

  lemma Partition(info: Infos)
    ensures |info| == |TriedIds(info)| + |NewIds(info)|
  {
    assert info.Keys == TriedIds(info) + NewIds(info);
    assert TriedIds(info) !! NewIds(info);
  }

  /** Entries that stand in a slot are not pruned. */
  lemma NewOccupantStays(h: Hashes, s: State, limbo: set<int>, r: State, b: nat, i: nat)
    requires Inv(h, s, limbo, 0) && Pruned(s, r) && b < NEW_BUCKET_COUNT && i < BUCKET_SIZE
    ensures Shaped(s) && (At(s.vn, b, i) != -1 ==> At(s.vn, b, i) in r.info)
    ensures At(s.vn, b, i) in s.info <==> At(s.vn, b, i) in r.info
  {
    hide BookOf, RandomOk;
    Ranges(h, s, limbo, 0);
    var id := At(s.vn, b, i);
    if id != -1 && s.info[id].nRefCount == 0 { Unreferenced(h, s.info, s.vn, id); }
  }

  lemma PrunedAddrs(h: Hashes, s: State, limbo: set<int>, r: State)
    requires Inv(h, s, limbo, 0) && Pruned(s, r)
    ensures AddrOk(r.info, r.ma)
  {
    hide TriedOk, NewOk, RefsOk, RandomOk, EntriesOk;
    forall id | id in r.info ensures r.info[id].addr in r.ma && r.ma[r.info[id].addr] == id {
      assert s.ma[s.info[id].addr] == id;
    }
  }

  lemma PrunedTables(h: Hashes, s: State, limbo: set<int>, r: State)
    requires Inv(h, s, limbo, 0) && Pruned(s, r)
    ensures Shaped(r) && TriedOk(h, r.info, r.vt) && NewOk(h, r.info, r.vn) && RefsOk(h, r.info, r.vn)
  {
    hide RandomOk, AddrOk, EntriesOk, Sane;
    HasShape(h, s, limbo, 0);
    forall b, i | 0 <= b < NEW_BUCKET_COUNT && 0 <= i < BUCKET_SIZE && At(s.vn, b, i) != -1
      ensures At(s.vn, b, i) in r.info
    {
      NewOccupantStays(h, s, limbo, r, b, i);
    }
  }

  lemma PrunedCounts(h: Hashes, s: State, limbo: set<int>, r: State)
    requires Inv(h, s, limbo, 0) && Pruned(s, r)
    ensures EntriesOk(r.info, {}, r.nIdCount) && r.nTried == |TriedIds(r.info)| && r.nNew == |NewIds(r.info)|
  {
    hide TriedOk, NewOk, RefsOk, AddrOk, Stripped;
    Ranges(h, s, limbo, 0);
    Partition(s.info);
    Partition(r.info);
    forall id ensures id in TriedIds(r.info) <==> id in TriedIds(s.info) { assert id in s.info ==> id !in {}; }
    assert TriedIds(r.info) == TriedIds(s.info);
  }

  lemma PrunedHolds(h: Hashes, s: State, limbo: set<int>, r: State)
    requires Inv(h, s, limbo, 0) && Pruned(s, r)
    ensures Inv(h, r, {}, 0)
  {
    PrunedAddrs(h, s, limbo, r);
    PrunedTables(h, s, limbo, r);
    PrunedCounts(h, s, limbo, r);
  }

  // ---- Who stays and who is lost ---------------------------------------------------------------------------------

  /** The address stands in a slot that is not its own. */
  ghost predicate HeldByAnother(p: Placement, l: Slot, a: Service) { l in p && p[l] != a }

  /**
   * A new record's address is known exactly as recorded if it found a slot. If it is listed at all and is lost, its
   * home slot is held by another address, and so are the slots it was restored to; without restoring, a known one
   * stands at home and nowhere else.
   */
  ghost predicate NewFate(h: Hashes, r: Record, i: nat, rows: seq<seq<int>>, restore: bool, book: Book) {
    && (r.addr in book.stats ==>
          && InRows(rows, i) && book.stats[r.addr] == StatsOf(EntryOf(r, 0)) && !IsTried(h, book, r.addr)
          && (!restore ==> forall l :: l in book.fresh' && book.fresh'[l] == r.addr <==> l == HomeOf(h, r)))
    && (r.addr !in book.stats && InRows(rows, i) ==>
          && HeldByAnother(book.fresh', HomeOf(h, r), r.addr)
          && (restore ==> forall c :: 0 <= c < |rows| && i in rows[c] ==>
                HeldByAnother(book.fresh', NewSlotIn(h, r.addr, c), r.addr)))
  }

  /** A tried record's address is known, as recorded and in its slot, exactly if no earlier record has that slot. */
  ghost predicate TriedFate(h: Hashes, ts: seq<Record>, i: nat, book: Book)
    requires i < |ts|
  {
    var r, l := ts[i], TriedSlot(h, ts[i].addr);
    && l in book.tried
    && (book.tried[l] == r.addr <==> !Claims(h, ts[..i], l))
    && (r.addr in book.stats <==> book.tried[l] == r.addr)
    && (r.addr in book.stats ==> book.stats[r.addr] == StatsOf(EntryOf(r, 0)))
  }

  lemma Referenced(h: Hashes, s: State, limbo: set<int>, id: int) returns (b: nat)
    requires Inv(h, s, limbo, 0) && id in s.info && s.info[id].nRefCount > 0
    ensures Shaped(s) && b < NEW_BUCKET_COUNT && At(s.vn, b, h.NewPos(s.info[id].addr, b)) == id
  {
    CountsRefs(h, s, limbo, 0, id);
    RefsZero(h, s.vn, s.info[id].addr, id, NEW_BUCKET_COUNT);
    b :| b < NEW_BUCKET_COUNT && At(s.vn, b, h.NewPos(s.info[id].addr, b)) == id;
  }

  /** An address is known after pruning exactly if its entry was kept. */
  lemma KnownIfKept(h: Hashes, s: State, limbo: set<int>, r: State, id: int)
    requires Inv(h, s, limbo, 0) && Pruned(s, r) && Inv(h, r, {}, 0) && id in s.info
    ensures Shaped(r) && (s.info[id].addr in BookOf(r).stats <==> id in r.info)
    ensures id in r.info ==>
              BookOf(r).stats[s.info[id].addr] == StatsOf(s.info[id]) && r.info[id].addr == s.info[id].addr
  {
    hide Inv, BookOf, Sane;
    HasShape(h, r, {}, 0);
    var a := s.info[id].addr;
    Found(h, r, {}, 0, a);
    if id in r.info { Located(h, r, {}, 0, id); }
    if a in r.ma { SameId(h, s, limbo, 0, id, r.ma[a]); }
  }

  lemma OccupiedByAnother(h: Hashes, rs: seq<Record>, ts: seq<Record>, s: State, r: State, i: nat, l: Slot)
    requires Ready(h, rs, ts, s) && Pruned(s, r) && Inv(h, r, {}, 0) && i < |rs|
    requires i in s.info && s.info[i].nRefCount == 0 && Shaped(s) && l.bucket < NEW_BUCKET_COUNT && l.pos < BUCKET_SIZE
    requires Occupant(s, l) != -1
    ensures Shaped(r) && HeldByAnother(BookOf(r).fresh', l, rs[i].addr)
  {
    hide Inv, BookOf, Sane;
    HasShape(h, r, {}, 0);
    NewOccupant(h, r, {}, 0, l.bucket, l.pos);
    NewOccupant(h, s, Below(|rs|), 0, l.bucket, l.pos);
    var x := Occupant(s, l);
    CountsRefs(h, s, Below(|rs|), 0, i);
    RefsZero(h, s.vn, s.info[i].addr, i, NEW_BUCKET_COUNT);
    SameId(h, s, Below(|rs|), 0, i, x);
  }

  lemma NewIsKnown(h: Hashes, rs: seq<Record>, ts: seq<Record>, rows: seq<seq<int>>, s: State, r: State, i: nat,
      restore: bool)
    requires Bucketing(h, rs, ts, rows, s, |rows|, 0, restore) && Pruned(s, r) && Inv(h, r, {}, 0)
    requires i < |rs| && i in s.info && s.info[i].nRefCount > 0
    ensures Shaped(r) && rs[i].addr in BookOf(r).stats && NewFate(h, rs[i], i, rows, restore, BookOf(r))
  {
    hide Inv, BookOf, Sane, InRows, Settled, Filled;
    HasShape(h, r, {}, 0);
    IsNew(rs, ts, s.info, i);
    KnownIfKept(h, s, Below(|rs|), r, i);
    var b := Referenced(h, s, Below(|rs|), i);
    var book, a := BookOf(r), rs[i].addr;
    TriedFlag(h, r, {}, 0, i);
    if !restore {
      forall l ensures l in book.fresh' && book.fresh'[l] == a <==> l == HomeOf(h, rs[i]) {
        if l in book.fresh' {
          InTable(r, l);
          NewOccupant(h, r, {}, 0, l.bucket, l.pos);
          SameId(h, r, {}, 0, i, At(r.vn, l.bucket, l.pos));
        }
        NewOccupant(h, r, {}, 0, b, h.NewPos(a, b));
      }
    }
  }

  lemma IsNew(rs: seq<Record>, ts: seq<Record>, info: Infos, i: nat)
    requires Filled(info, rs, ts, |rs|, |ts|) && i < |rs|
    ensures i in info && info[i].addr == rs[i].addr && !info[i].fInTried
    ensures StatsOf(info[i]) == StatsOf(EntryOf(rs[i], 0))
  {
  }

  /** A listed record without a slot was turned away. */
  lemma TurnedAway(h: Hashes, rs: seq<Record>, ts: seq<Record>, rows: seq<seq<int>>, s: State, r: State, i: nat,
      c: nat, restore: bool)
    requires Bucketing(h, rs, ts, rows, s, |rows|, 0, restore) && Pruned(s, r) && Inv(h, r, {}, 0)
    requires i < |rs| && i in s.info && s.info[i].nRefCount == 0 && (restore ==> |rows| <= NEW_BUCKET_COUNT)
    requires c < |rows| && i in rows[c]
    ensures Shaped(r) && HeldByAnother(BookOf(r).fresh', HomeOf(h, rs[i]), rs[i].addr)
    ensures restore ==> HeldByAnother(BookOf(r).fresh', NewSlotIn(h, rs[i].addr, c), rs[i].addr)
  {
    hide Inv, BookOf, Pruned, Filled, HeldByAnother, Sourced;
    var k :| 0 <= k < |rows[c]| && rows[c][k] == i;
    assert Settled(h, rs, s, c, rows[c][k], restore);
    OccupiedByAnother(h, rs, ts, s, r, i, HomeOf(h, rs[i]));
    if restore { OccupiedByAnother(h, rs, ts, s, r, i, NewSlotIn(h, rs[i].addr, c)); }
  }

  lemma NewIsLost(h: Hashes, rs: seq<Record>, ts: seq<Record>, rows: seq<seq<int>>, s: State, r: State, i: nat,
      restore: bool)
    requires Bucketing(h, rs, ts, rows, s, |rows|, 0, restore) && Pruned(s, r) && Inv(h, r, {}, 0)
    requires i < |rs| && i in s.info && s.info[i].nRefCount == 0 && (restore ==> |rows| <= NEW_BUCKET_COUNT)
    ensures Shaped(r) && rs[i].addr !in BookOf(r).stats && NewFate(h, rs[i], i, rows, restore, BookOf(r))
  {
    hide Inv, BookOf, Filled, HeldByAnother, Settled, Sourced, Bucketing;
    HasShape(h, r, {}, 0);
    assert Ready(h, rs, ts, s) by { BucketingReady(h, rs, ts, rows, s, restore); }
    IsNew(rs, ts, s.info, i);
    LostIsUnknown(h, s, Below(|rs|), r, i);
    if InRows(rows, i) {
      var c, k :| 0 <= c < |rows| && 0 <= k < |rows[c]| && rows[c][k] == i;
      TurnedAway(h, rs, ts, rows, s, r, i, c, restore);
    }
    forall c | 0 <= c < |rows| && i in rows[c] && restore
      ensures HeldByAnother(BookOf(r).fresh', NewSlotIn(h, rs[i].addr, c), rs[i].addr)
    {
      TurnedAway(h, rs, ts, rows, s, r, i, c, restore);
    }
  }

  lemma BucketingReady(h: Hashes, rs: seq<Record>, ts: seq<Record>, rows: seq<seq<int>>, s: State, restore: bool)
    requires Bucketing(h, rs, ts, rows, s, |rows|, 0, restore)
    ensures Ready(h, rs, ts, s)
  {
  }

  lemma LostIsUnknown(h: Hashes, s: State, limbo: set<int>, r: State, i: int)
    requires Inv(h, s, limbo, 0) && Pruned(s, r) && Inv(h, r, {}, 0)
    requires i in s.info && !s.info[i].fInTried && s.info[i].nRefCount == 0
    ensures Shaped(r) && s.info[i].addr !in BookOf(r).stats
  {
    hide Inv, BookOf, Sane, Stripped;
    KnownIfKept(h, s, limbo, r, i);
    assert Prunable(s, i);
  }

  lemma IsTriedEntry(rs: seq<Record>, ks: seq<Record>, info: Infos, k: nat)
    requires Filled(info, rs, ks, |rs|, |ks|) && k < |ks|
    ensures var id := |rs| + k;
            id in info && info[id].addr == ks[k].addr && info[id].fInTried &&
                StatsOf(info[id]) == StatsOf(EntryOf(ks[k], 0))
  {
  }

  /** A kept record stands in its slot. */
  lemma KeptStands(h: Hashes, rs: seq<Record>, ks: seq<Record>, s: State, r: State, k: nat)
    requires Ready(h, rs, ks, s) && Pruned(s, r) && Inv(h, r, {}, 0) && k < |ks|
    ensures Shaped(r)
    ensures var book, l := BookOf(r), TriedSlot(h, ks[k].addr);
            && l in book.tried && book.tried[l] == ks[k].addr
            && ks[k].addr in book.stats && book.stats[ks[k].addr] == StatsOf(EntryOf(ks[k], 0))
  {
    hide Inv, BookOf, Sane, Filled, Stripped;
    HasShape(h, r, {}, 0);
    var id := |rs| + k;
    IsTriedEntry(rs, ks, s.info, k);
    KnownIfKept(h, s, Below(|rs|), r, id);
    TriedAt(h, r, {}, 0, id);
    TriedOccupant(h, r, {}, 0, h.Tried(ks[k].addr), h.TriedPos(ks[k].addr));
  }

  /** Whoever is known comes from a record. */
  lemma KnownComesFrom(h: Hashes, rs: seq<Record>, ks: seq<Record>, s: State, r: State, a: Service)
    requires Ready(h, rs, ks, s) && Pruned(s, r) && Inv(h, r, {}, 0)
    ensures Shaped(r)
    ensures a in BookOf(r).stats ==>
              (exists i :: 0 <= i < |rs| && rs[i].addr == a) || (exists k :: 0 <= k < |ks| && ks[k].addr == a)
  {
    hide Inv, BookOf, Sane, Stripped;
    HasShape(h, r, {}, 0);
    Found(h, r, {}, 0, a);
    if a in r.ma {
      var id := r.ma[a];
      assert id in s.info && s.info[id].addr == a;
      if id < |rs| { assert rs[id].addr == a; } else { assert ks[id - |rs|].addr == a; }
    }
  }

  lemma TriedRecordFate(h: Hashes, file: File, s: State, r: State, i: nat)
    requires Differing(file) && Ready(h, file.fresh', Kept(h, file.tried), s) && Pruned(s, r) && Inv(h, r, {}, 0)
    requires i < |file.tried|
    ensures Shaped(r) && TriedFate(h, file.tried, i, BookOf(r))
  {
    hide Inv, BookOf, Ready, Pruned;
    HasShape(h, r, {}, 0);
    var rs, ts, ks := file.fresh', file.tried, Kept(h, file.tried);
    var a, l := ts[i].addr, TriedSlot(h, ts[i].addr);
    KeptApart(h, ts);
    KeptIfFirst(h, ts, i);
    KeptClaims(h, ts, l);
    assert Claims(h, ts, l);
    var k :| 0 <= k < |ks| && TriedSlot(h, ks[k].addr) == l;
    KeptStands(h, rs, ks, s, r, k);
    SameRecord(ts, ks[k], i);
    if ts[i] in ks { var k' :| 0 <= k' < |ks| && ks[k'] == ts[i]; assert k' == k; }
    KnownComesFrom(h, rs, ks, s, r, a);
    if a in BookOf(r).stats {
      var k' :| 0 <= k' < |ks| && ks[k'].addr == a;
      SameRecord(ts, ks[k'], i);
    }
  }

  lemma SameRecord(ts: seq<Record>, r: Record, i: nat)
    requires r in ts && i < |ts| && forall j, k :: 0 <= j < k < |ts| ==> ts[j].addr != ts[k].addr
    ensures r.addr == ts[i].addr <==> r == ts[i]
  {
    var j :| 0 <= j < |ts| && ts[j] == r;
  }

  /** What becomes of every record of a file. */
  ghost predicate Rehoused(h: Hashes, file: File, restore: bool, book: Book) {
    && (forall i :: 0 <= i < |file.fresh'| ==> NewFate(h, file.fresh'[i], i, file.buckets, restore, book))
    && (forall i {:trigger file.tried[i]} :: 0 <= i < |file.tried| ==> TriedFate(h, file.tried, i, book))
    && (forall a :: a in book.stats ==> Recorded(file.fresh', a) || Recorded(file.tried, a))
  }

  ghost predicate Recorded(rs: seq<Record>, a: Service) { exists i :: 0 <= i < |rs| && rs[i].addr == a }

  /**
   * Loading a file whose addresses differ, under any key and map: the invariant holds, and no address is lost but
   * for another one that has its slot.
   */
  lemma LoadRehouses(h: Hashes, file: File, restore: bool, r: State)
    requires Differing(file) && (restore ==> |file.buckets| <= NEW_BUCKET_COUNT)
    requires Pruned(Loaded(h, file, restore), r)
    ensures Inv(h, r, {}, 0) && Rehoused(h, file, restore, BookOf(r))
  {
    hide Inv, BookOf, Loaded, Pruned, Settled, Filled, Kept, NewFate, TriedFate, Sourced;
    var rs, ks, rows, s := file.fresh', Kept(h, file.tried), file.buckets, Loaded(h, file, restore);
    LoadBucketed(h, file, restore);
    PrunedHolds(h, s, Below(|rs|), r);
    HasShape(h, r, {}, 0);
    forall i | 0 <= i < |rs| ensures NewFate(h, rs[i], i, rows, restore, BookOf(r)) {
      IsNew(rs, ks, s.info, i);
      Ranges(h, s, Below(|rs|), 0);
      if s.info[i].nRefCount > 0 {
        NewIsKnown(h, rs, ks, rows, s, r, i, restore);
      } else {
        NewIsLost(h, rs, ks, rows, s, r, i, restore);
      }
    }
    forall i | 0 <= i < |file.tried| ensures TriedFate(h, file.tried, i, BookOf(r)) {
      TriedRecordFate(h, file, s, r, i);
    }
    forall a | a in BookOf(r).stats ensures Recorded(rs, a) || Recorded(file.tried, a) {
      KnownComesFrom(h, rs, ks, s, r, a);
      KeptApart(h, file.tried);
      if k :| 0 <= k < |ks| && ks[k].addr == a { assert ks[k] in file.tried; }
    }
  }

  // ---- Saving here, loading elsewhere ----------------------------------------------------------------------------

  /** Where an address would go: its tried slot if it was tried, otherwise the new slot of its source. */
  ghost predicate Crowded(h: Hashes, h': Hashes, book: Book, after: Book, a: Service)
    requires a in book.stats
  {
    if IsTried(h, book, a) then HeldByAnother(after.tried, TriedSlot(h', a), a)
    else HeldByAnother(after.fresh', NewSlot(h', a, book.stats[a].source), a)
  }

  /** The address was known and is known as before; it is tried if it was, and stands in one new slot if it moved. */
  ghost predicate Stays(h: Hashes, h': Hashes, book: Book, after: Book, restore: bool, a: Service)
    requires a in after.stats
  {
    && a in book.stats && after.stats[a] == Reread(book).stats[a] && (IsTried(h', after, a) <==> IsTried(h, book, a))
    && (!restore && !IsTried(h', after, a) ==>
          forall l :: l in after.fresh' && after.fresh'[l] == a <==> l == NewSlot(h', a, after.stats[a].source))
  }

  /** Nothing is made up, and only crowded addresses are lost. */
  ghost predicate Carried(h: Hashes, h': Hashes, book: Book, after: Book, restore: bool) {
    && (forall a :: a in after.stats ==> Stays(h, h', book, after, restore, a))
    && (forall a :: a in book.stats && a !in after.stats ==> Crowded(h, h', book, after, a))
  }

  lemma {:induction false} InRowOf(vn: Table, ids: seq<int>, b: nat, n: nat, i: nat)
    requires IsTable(vn, NEW_BUCKET_COUNT) && b < NEW_BUCKET_COUNT && i < n <= BUCKET_SIZE && At(vn, b, i) != -1
    ensures IndexIn(ids, At(vn, b, i)) in Row(vn, ids, b, n)
  {
    if i < n - 1 { InRowOf(vn, ids, b, n - 1, i); }
  }

  lemma {:induction false} RowOf(vn: Table, ids: seq<int>, n: nat, b: nat)
    requires IsTable(vn, NEW_BUCKET_COUNT) && b < n <= NEW_BUCKET_COUNT
    ensures Rows(vn, ids, n)[b] == Row(vn, ids, b, BUCKET_SIZE)
  {
    hide Row;
    if b < n - 1 { RowOf(vn, ids, n - 1, b); }
  }

  /** Every new entry that is written stands in a bucket, and is listed. */
  lemma AllListed(h: Hashes, s0: State, ids: seq<int>, rs: seq<Record>, i: nat)
    requires Inv(h, s0, {}, 0) && Goes(s0, ids, rs, false) && i < |ids|
    ensures Shaped(s0) && InRows(Rows(s0.vn, ids, NEW_BUCKET_COUNT), i)
  {
    hide Inv, BookOf, Rows, Row;
    HasShape(h, s0, {}, 0);
    var x := Nth(ids, i);
    Ranges(h, s0, {}, 0);
    var b := Referenced(h, s0, {}, x);
    var j := h.NewPos(s0.info[x].addr, b);
    IndexOfElement(ids, i);
    InRowOf(s0.vn, ids, b, BUCKET_SIZE, j);
    RowOf(s0.vn, ids, NEW_BUCKET_COUNT, b);
    var rows := Rows(s0.vn, ids, NEW_BUCKET_COUNT);
    var k :| 0 <= k < |rows[b]| && rows[b][k] == i;
  }

  lemma SavedDiffers(h: Hashes, s0: State, order: seq<int>, asmap: nat)
    requires Inv(h, s0, {}, 0) && Lists(order, s0.info)
    ensures Shaped(s0) && Differing(Saved(s0, order, asmap))
    ensures forall i :: 0 <= i < |Saved(s0, order, asmap).fresh'| ==> InRows(Saved(s0, order, asmap).buckets, i)
  {
    hide Inv, Goes, Rows, InRows, Pick, Records;
    HasShape(h, s0, {}, 0);
    var ids, tids := Pick(s0.info, order, false), Pick(s0.info, order, true);
    var rs, ts := Records(s0.info, ids), Records(s0.info, tids);
    PickGoes(s0, order, false);
    PickGoes(s0, order, true);
    SavedApart(h, s0, ids, rs, tids, ts);
    forall i, j | 0 <= i < j < |ts| ensures ts[i].addr != ts[j].addr {
      assert TriedSlot(h, ts[i].addr) != TriedSlot(h, ts[j].addr);
    }
    forall i | 0 <= i < |rs| ensures InRows(Rows(s0.vn, ids, NEW_BUCKET_COUNT), i) { AllListed(h, s0, ids, rs, i); }
  }

  /** The record of a known address. */
  lemma RecordFound(h: Hashes, s0: State, order: seq<int>, a: Service) returns (tried: bool, i: nat)
    requires Inv(h, s0, {}, 0) && Lists(order, s0.info) && Shaped(s0) && a in BookOf(s0).stats
    ensures var rs := Records(s0.info, Pick(s0.info, order, tried)); i < |rs| && rs[i].addr == a
  {
    hide Inv, BookOf, Picked;
    Found(h, s0, {}, 0, a);
    var x := s0.ma[a];
    tried := s0.info[x].fInTried;
    var ids := Pick(s0.info, order, tried);
    assert x in ids by { IsPicked(h, s0, x); }
    i := IndexIn(ids, x);
  }

  lemma IsPicked(h: Hashes, s0: State, x: int)
    requires Inv(h, s0, {}, 0) && x in s0.info
    ensures Picked(s0.info[x], s0.info[x].fInTried)
  {
    hide Inv;
    Sound(h, s0, {}, 0, x);
  }

  /** What a record says about the address it was made of. */
  lemma RecordMeans(h: Hashes, s0: State, order: seq<int>, tried: bool, i: nat)
    requires Inv(h, s0, {}, 0) && Lists(order, s0.info)
    requires i < |Records(s0.info, Pick(s0.info, order, tried))|
    ensures var r := Records(s0.info, Pick(s0.info, order, tried))[i];
            && Shaped(s0) && r.addr in BookOf(s0).stats && (IsTried(h, BookOf(s0), r.addr) <==> tried)
            && StatsOf(EntryOf(r, 0)) == Reread(BookOf(s0)).stats[r.addr] && r.source == BookOf(s0).stats[r.addr].source
  {
    hide Inv, BookOf;
    HasShape(h, s0, {}, 0);
    var x := Nth(Pick(s0.info, order, tried), i);
    Located(h, s0, {}, 0, x);
    TriedFlag(h, s0, {}, 0, x);
    if s0.info[x].fInTried { TriedAt(h, s0, {}, 0, x); }
  }

  lemma StaysAsItWas(h: Hashes, h': Hashes, s0: State, order: seq<int>, asmap: nat, restore: bool, after: Book,
      a: Service)
    requires Inv(h, s0, {}, 0) && Lists(order, s0.info) && Shaped(s0)
    requires Rehoused(h', Saved(s0, order, asmap), restore, after) && a in after.stats
    ensures Stays(h, h', BookOf(s0), after, restore, a)
  {
    hide Inv, BookOf, Pick, Records, Rows, Reread;
    var file := Saved(s0, order, asmap);
    if Recorded(file.fresh', a) {
      var i :| 0 <= i < |file.fresh'| && file.fresh'[i].addr == a;
      RecordMeans(h, s0, order, false, i);
      assert NewFate(h', file.fresh'[i], i, file.buckets, restore, after);
    } else {
      assert Recorded(file.tried, a);
      var i :| 0 <= i < |file.tried| && file.tried[i].addr == a;
      RecordMeans(h, s0, order, true, i);
      assert TriedFate(h', file.tried, i, after);
    }
  }

  lemma LostIfCrowded(h: Hashes, h': Hashes, s0: State, order: seq<int>, asmap: nat, restore: bool, after: Book,
      a: Service)
    requires Inv(h, s0, {}, 0) && Lists(order, s0.info) && Shaped(s0)
    requires Rehoused(h', Saved(s0, order, asmap), restore, after) && a in BookOf(s0).stats && a !in after.stats
    ensures Crowded(h, h', BookOf(s0), after, a)
  {
    hide Inv, BookOf, Pick, Records, Rows, Reread, InRows;
    var file := Saved(s0, order, asmap);
    var tried, i := RecordFound(h, s0, order, a);
    RecordMeans(h, s0, order, tried, i);
    SavedDiffers(h, s0, order, asmap);
    if tried {
      assert TriedFate(h', file.tried, i, after);
    } else {
      assert NewFate(h', file.fresh'[i], i, file.buckets, restore, after);
    }
  }

  /**
   * A saved manager, loaded under any other key and map: the invariant holds, what is known is what was known, and
   * only addresses whose new place another one got are lost.
   */
  lemma SavedElsewhere(h: Hashes, h': Hashes, s0: State, order: seq<int>, asmap: nat, restore: bool, r: State)
    requires Inv(h, s0, {}, 0) && Lists(order, s0.info)
    requires Pruned(Loaded(h', Saved(s0, order, asmap), restore), r)
    ensures Inv(h', r, {}, 0) && Carried(h, h', BookOf(s0), BookOf(r), restore)
  {
    hide Inv, BookOf, Loaded, Pruned, Saved, Crowded, Rehoused, Stays, InRows, Differing;
    HasShape(h, s0, {}, 0);
    SavedSized(h, s0, order, asmap);
    SavedDiffers(h, s0, order, asmap);
    LoadRehouses(h', Saved(s0, order, asmap), restore, r);
    HasShape(h', r, {}, 0);
    var book, after := BookOf(s0), BookOf(r);
    forall a | a in after.stats ensures Stays(h, h', book, after, restore, a) {
      StaysAsItWas(h, h', s0, order, asmap, restore, after, a);
    }
    forall a | a in book.stats && a !in after.stats ensures Crowded(h, h', book, after, a) {
      LostIfCrowded(h, h', s0, order, asmap, restore, after, a);
    }
  }

  lemma SavedUnder(s0: State, order: seq<int>, asmap: nat)
    requires Shaped(s0) && Lists(order, s0.info)
    ensures Saved(s0, order, asmap).asmap == asmap
  {
  }

  /** Fine times stay fine. */
  lemma CarriedTimes(h: Hashes, h': Hashes, book: Book, after: Book, restore: bool, r: State)
    requires Carried(h, h', book, after, restore) && TimesOk(book) && Inv(h', r, {}, 0) && after == BookOf(r)
    ensures TimesOk(after)
  {
    hide Inv, BookOf, Crowded;
    EveryAddressPlaced(h', r);
    forall l | l in after.tried && after.tried[l] in after.stats ensures after.stats[after.tried[l]].nLastSuccess != 0 {
      var a := after.tried[l];
      assert IsTried(h', after, a) && IsTried(h, book, a);
    }
  }
}
