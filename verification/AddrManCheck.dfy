/**
 * The address manager's own consistency check: it passes exactly when the redundant structures
 * agree, and the invariant is enough for that.
 */
module AddrManCheck {
  import opened AddrManTables
  import opened AddrManBook
  import opened AddrManSteps

  // ---- What the check looks for ----------------------------------------------------------------------

  predicate EntryFine(info: Infos, ma: map<Service, int>, vr: seq<int>, id: int)
    requires id in info
  {
    var e := info[id];
    && (if e.fInTried then e.nLastSuccess != 0 && e.nRefCount == 0 else 0 < e.nRefCount <= NEW_BUCKETS_PER_ADDRESS)
    && e.addr in ma && ma[e.addr] == id
    && 0 <= e.nRandomPos < |vr| && vr[e.nRandomPos] == id
    && e.nLastTry >= 0 && e.nLastSuccess >= 0
  }

  predicate TriedSlotFine(h: Hashes, info: Infos, x: int, b: nat, i: nat) {
    x == -1 || (x in info && info[x].fInTried && h.Tried(info[x].addr) == b && h.TriedPos(info[x].addr) == i)
  }

  predicate NewSlotFine(h: Hashes, info: Infos, x: int, b: nat, i: nat) {
    x == -1 || (x in info && !info[x].fInTried && h.NewPos(info[x].addr, b) == i)
  }

  ghost predicate Consistent(h: Hashes, s: State, keyIsNull: bool)
    requires Shaped(s)
  {
    && |s.vr| == s.nTried + s.nNew && s.nTried == |TriedIds(s.info)| && s.nNew == |NewIds(s.info)|
    && -1 !in s.info && (forall id :: id in s.info ==> EntryFine(s.info, s.ma, s.vr, id))
    && TriedOk(h, s.info, s.vt) && NewOk(h, s.info, s.vn) && RefsOk(h, s.info, s.vn) && !keyIsNull
  }

  // ---- First pass: the entries ---------------------------------------------------------------------------

  method CheckEntry(info: Infos, ma: map<Service, int>, vr: seq<int>, n: int) returns (err: int)
    requires n in info
    ensures err == 0 <==> EntryFine(info, ma, vr, n)
  {
    var e := info[n];
    if e.fInTried {
      if e.nLastSuccess == 0 { return -1; }
      if e.nRefCount != 0 { return -2; }
    } else {
      if e.nRefCount < 0 || e.nRefCount > NEW_BUCKETS_PER_ADDRESS { return -3; }
      if e.nRefCount == 0 { return -4; }
    }
    if e.addr !in ma || ma[e.addr] != n { return -5; }
    if e.nRandomPos < 0 || e.nRandomPos >= |vr| || vr[e.nRandomPos] != n { return -14; }
    if e.nLastTry < 0 { return -6; }
    if e.nLastSuccess < 0 { return -8; }
    return 0;
  }

  method CheckEntries(info: Infos, ma: map<Service, int>, vr: seq<int>)
      returns (err: int, setTried: set<int>, mapNew: map<int, int>)
    ensures err == 0 <==> forall id :: id in info ==> EntryFine(info, ma, vr, id)
    ensures err == 0 ==> setTried == TriedIds(info) && mapNew.Keys == NewIds(info)
    ensures err == 0 ==> forall id :: id in mapNew ==> mapNew[id] == info[id].nRefCount
  {
    hide EntryFine;
    setTried, mapNew := {}, map[];
    var rest := info.Keys;
    while rest != {}
      invariant rest <= info.Keys
      invariant forall id :: id in info && id !in rest ==> EntryFine(info, ma, vr, id)
      invariant forall id :: id in setTried <==> id in info && id !in rest && info[id].fInTried
      invariant forall id :: id in mapNew <==> id in info && id !in rest && !info[id].fInTried
      invariant forall id :: id in mapNew ==> mapNew[id] == info[id].nRefCount
      decreases rest
    {
      ghost var some := Element(rest);
      var n :| n in rest;
      err := CheckEntry(info, ma, vr, n);
      if err != 0 { return; }
      rest := rest - {n};
      if info[n].fInTried { setTried := setTried + {n}; } else { mapNew := mapNew[n := info[n].nRefCount]; }
    }
    err := 0;
    assert forall id :: id in setTried <==> id in TriedIds(info);
    assert forall id :: id in mapNew.Keys <==> id in NewIds(info);
  }

  // ---- Second pass: the tried table ------------------------------------------------------------------------

  predicate Before(b: nat, p: nat, n: nat, i: nat) { b < n || (b == n && p < i) }

  /** A tried entry whose own slot comes before (n, i) and holds it. */
  ghost predicate Met(h: Hashes, info: Infos, vt: Table, id: int, n: nat, i: nat)
    requires IsTable(vt, TRIED_BUCKET_COUNT) && id in info
  {
    var b, p := h.Tried(info[id].addr), h.TriedPos(info[id].addr);
    id != -1 && Before(b, p, n, i) && At(vt, b, p) == id
  }

  ghost predicate TriedSoFar(h: Hashes, info: Infos, vt: Table, setTried: set<int>, n: nat, i: nat)
    requires IsTable(vt, TRIED_BUCKET_COUNT)
  {
    && (forall b, p {:trigger At(vt, b, p)} ::
          0 <= b < TRIED_BUCKET_COUNT && 0 <= p < BUCKET_SIZE && Before(b, p, n, i) ==>
          TriedSlotFine(h, info, At(vt, b, p), b, p))
    && (forall id :: id in setTried <==> id in info && info[id].fInTried && !Met(h, info, vt, id, n, i))
  }

  method CheckTried(h: Hashes, info: Infos, vt: Table, setTried: set<int>) returns (err: int, left: set<int>)
    requires IsTable(vt, TRIED_BUCKET_COUNT) && setTried == TriedIds(info)
    ensures err == 0 <==> AllTriedFine(h, info, vt)
    ensures err == 0 ==> forall id :: id in left <==>
              id in info && info[id].fInTried && !Met(h, info, vt, id, TRIED_BUCKET_COUNT, 0)
  {
    left := setTried;
    for n := 0 to TRIED_BUCKET_COUNT
      invariant TriedSoFar(h, info, vt, left, n, 0)
    {
      for i := 0 to BUCKET_SIZE
        invariant TriedSoFar(h, info, vt, left, n, i)
      {
        err, left := CheckTriedSlot(h, info, vt, left, n, i);
        if err != 0 { return; }
      }
      TriedRow(h, info, vt, left, n);
    }
    err := 0;
  }

  lemma TriedRow(h: Hashes, info: Infos, vt: Table, setTried: set<int>, n: nat)
    requires IsTable(vt, TRIED_BUCKET_COUNT) && TriedSoFar(h, info, vt, setTried, n, BUCKET_SIZE)
    ensures TriedSoFar(h, info, vt, setTried, n + 1, 0)
  {
    forall id | id in info ensures Met(h, info, vt, id, n, BUCKET_SIZE) <==> Met(h, info, vt, id, n + 1, 0) {}
  }

  method CheckTriedSlot(h: Hashes, info: Infos, vt: Table, setTried: set<int>, n: nat, i: nat)
      returns (err: int, left: set<int>)
    requires IsTable(vt, TRIED_BUCKET_COUNT) && n < TRIED_BUCKET_COUNT && i < BUCKET_SIZE &&
               TriedSoFar(h, info, vt, setTried, n, i)
    ensures err == 0 <==> TriedSlotFine(h, info, At(vt, n, i), n, i)
    ensures err == 0 ==> TriedSoFar(h, info, vt, left, n, i + 1)
  {
    left := setTried;
    var x := At(vt, n, i);
    if x != -1 {
      if x !in left { return -11, left; }
      if x !in info || h.Tried(info[x].addr) != n { return -17, left; }
      if h.TriedPos(info[x].addr) != i { return -18, left; }
      left := left - {x};
    }
    forall id | id in info ensures Met(h, info, vt, id, n, i + 1) <==>
        Met(h, info, vt, id, n, i) || (id == x && x != -1 && TriedSlotFine(h, info, x, n, i)) {}
    err := 0;
  }

  // ---- Third pass: the new table ----------------------------------------------------------------------------

  /** How many references the scan has still to meet before (n, i). */
  ghost function Owed(h: Hashes, info: Infos, vn: Table, id: int, n: nat, i: nat): int
    requires IsTable(vn, NEW_BUCKET_COUNT) && id in info && n <= NEW_BUCKET_COUNT
  {
    if id == -1 then info[id].nRefCount
    else
      var a := info[id].addr;
      info[id].nRefCount - Refs(h, vn, a, id, n) - if n < NEW_BUCKET_COUNT && h.NewPos(a, n) < i &&
          At(vn, n, h.NewPos(a, n)) == id then 1 else 0
  }

  ghost predicate NewSoFar(h: Hashes, info: Infos, vn: Table, mapNew: map<int, int>, n: nat, i: nat)
    requires IsTable(vn, NEW_BUCKET_COUNT) && n <= NEW_BUCKET_COUNT
  {
    && (forall b, p {:trigger At(vn, b, p)} ::
          0 <= b < NEW_BUCKET_COUNT && 0 <= p < BUCKET_SIZE && Before(b, p, n, i) ==>
          NewSlotFine(h, info, At(vn, b, p), b, p))
    && (forall id :: id in info && !info[id].fInTried ==> Owed(h, info, vn, id, n, i) >= 0)
    && (forall id :: id in mapNew <==> id in info && !info[id].fInTried && Owed(h, info, vn, id, n, i) > 0)
    && (forall id :: id in mapNew ==> mapNew[id] == Owed(h, info, vn, id, n, i))
  }

  method CheckNew(h: Hashes, info: Infos, vn: Table, mapNew: map<int, int>) returns (err: int, left: map<int, int>)
    requires IsTable(vn, NEW_BUCKET_COUNT) && NewSoFar(h, info, vn, mapNew, 0, 0)
    ensures err == 0 ==> NewSoFar(h, info, vn, left, NEW_BUCKET_COUNT, 0)
    ensures err != 0 ==> !(NewOk(h, info, vn) && RefsOk(h, info, vn))
  {
    hide NewSoFar, NewOk, RefsOk;
    left := mapNew;
    for n := 0 to NEW_BUCKET_COUNT
      invariant NewSoFar(h, info, vn, left, n, 0)
    {
      for i := 0 to BUCKET_SIZE
        invariant NewSoFar(h, info, vn, left, n, i)
      {
        err, left := CheckNewSlot(h, info, vn, left, n, i);
        if err != 0 { return; }
      }
      NewRow(h, info, vn, left, n);
    }
    err := 0;
  }

  lemma NewRow(h: Hashes, info: Infos, vn: Table, mapNew: map<int, int>, n: nat)
    requires IsTable(vn, NEW_BUCKET_COUNT) && n < NEW_BUCKET_COUNT && NewSoFar(h, info, vn, mapNew, n, BUCKET_SIZE)
    ensures NewSoFar(h, info, vn, mapNew, n + 1, 0)
  {
    forall id | id in info ensures Owed(h, info, vn, id, n, BUCKET_SIZE) == Owed(h, info, vn, id, n + 1, 0) {}
  }

  method CheckNewSlot(h: Hashes, info: Infos, vn: Table, mapNew: map<int, int>, n: nat, i: nat)
      returns (err: int, left: map<int, int>)
    requires IsTable(vn, NEW_BUCKET_COUNT) && n < NEW_BUCKET_COUNT && i < BUCKET_SIZE &&
               NewSoFar(h, info, vn, mapNew, n, i)
    ensures err == 0 ==> NewSoFar(h, info, vn, left, n, i + 1)
    ensures err != 0 ==> !(NewOk(h, info, vn) && RefsOk(h, info, vn))
  {
    left := mapNew;
    var x := At(vn, n, i);
    if x != -1 {
      if x !in left {
        TooMany(h, info, vn, mapNew, n, i);
        return -12, left;
      }
      if x !in info || h.NewPos(info[x].addr, n) != i { return -19, left; }
      left := left[x := left[x] - 1];
      if left[x] == 0 { left := left - {x}; }
    }
    err := 0;
    NewStep(h, info, vn, mapNew, left, n, i);
  }

  lemma NewStep(h: Hashes, info: Infos, vn: Table, mapNew: map<int, int>, left: map<int, int>, n: nat, i: nat)
    requires IsTable(vn, NEW_BUCKET_COUNT) && n < NEW_BUCKET_COUNT && i < BUCKET_SIZE &&
               NewSoFar(h, info, vn, mapNew, n, i)
    requires var x := At(vn, n, i);
             if x == -1 then left == mapNew
             else
               && x in mapNew && NewSlotFine(h, info, x, n, i)
               && left == if mapNew[x] == 1 then mapNew - {x} else mapNew[x := mapNew[x] - 1]
    ensures NewSoFar(h, info, vn, left, n, i + 1)
  {
    var x := At(vn, n, i);
    forall id | id in info ensures Owed(h, info, vn, id, n, i + 1) == Owed(h, info, vn, id, n, i) - if id == x &&
        x != -1 && NewSlotFine(h, info, x, n, i) then 1 else 0 {}
  }

  lemma {:induction false} RefsGrow(h: Hashes, vn: Table, a: Service, id: int, n: nat, m: nat)
    requires IsTable(vn, NEW_BUCKET_COUNT) && n <= m <= NEW_BUCKET_COUNT
    ensures Refs(h, vn, a, id, n) <= Refs(h, vn, a, id, m)
  {
    if n < m { RefsGrow(h, vn, a, id, n, m - 1); }
  }

  /** A slot that holds an entry with nothing owed is one reference too many, or in the wrong place. */
  lemma TooMany(h: Hashes, info: Infos, vn: Table, mapNew: map<int, int>, n: nat, i: nat)
    requires IsTable(vn, NEW_BUCKET_COUNT) && n < NEW_BUCKET_COUNT && i < BUCKET_SIZE &&
               NewSoFar(h, info, vn, mapNew, n, i)
    requires At(vn, n, i) != -1 && At(vn, n, i) !in mapNew
    ensures !(NewOk(h, info, vn) && RefsOk(h, info, vn))
  {
    var x := At(vn, n, i);
    if NewOk(h, info, vn) {
      RefsGrow(h, vn, info[x].addr, x, n + 1, NEW_BUCKET_COUNT);
    }
  }

  // ---- The whole check -----------------------------------------------------------------------------------------

  method CheckAddrman(h: Hashes, s: State, keyIsNull: bool) returns (err: int)
    requires Shaped(s)
    ensures err == 0 <==> Consistent(h, s, keyIsNull)
  {
    hide TriedOk, NewOk, RefsOk, EntryFine, NewSoFar, Met, AllTriedFine;
    if |s.vr| != s.nTried + s.nNew { return -7; }
    var setTried, mapNew;
    err, setTried, mapNew := CheckEntries(s.info, s.ma, s.vr);
    if err != 0 { return; }
    if |setTried| != s.nTried { return -9; }
    if |mapNew| != s.nNew { return -10; }
    NewStart(h, s, mapNew);
    if TriedOk(h, s.info, s.vt) { TriedStart(h, s.info, s.vt); }
    err, setTried := CheckTried(h, s.info, s.vt, setTried);
    if err != 0 { return; }
    TriedDone(h, s.info, s.vt, setTried);
    err, mapNew := CheckNew(h, s.info, s.vn, mapNew);
    if err != 0 { return; }
    if |setTried| != 0 { return -13; }
    NewDone(h, s, mapNew);
    if |mapNew| != 0 { return -15; }
    if keyIsNull { return -16; }
    return 0;
  }

  lemma NewStart(h: Hashes, s: State, mapNew: map<int, int>)
    requires Shaped(s) && mapNew.Keys == NewIds(s.info) && forall id :: id in mapNew ==>
               mapNew[id] == s.info[id].nRefCount
    requires forall id :: id in s.info ==> EntryFine(s.info, s.ma, s.vr, id)
    ensures NewSoFar(h, s.info, s.vn, mapNew, 0, 0)
  {
    assert forall id :: id in mapNew.Keys <==> id in NewIds(s.info);
  }

  ghost predicate AllTriedFine(h: Hashes, info: Infos, vt: Table)
    requires IsTable(vt, TRIED_BUCKET_COUNT)
  {
    forall b, i {:trigger At(vt, b, i)} :: 0 <= b < TRIED_BUCKET_COUNT && 0 <= i < BUCKET_SIZE ==>
        TriedSlotFine(h, info, At(vt, b, i), b, i)
  }

  lemma TriedStart(h: Hashes, info: Infos, vt: Table)
    requires IsTable(vt, TRIED_BUCKET_COUNT) && TriedOk(h, info, vt)
    ensures AllTriedFine(h, info, vt)
  {
  }

  lemma TriedDone(h: Hashes, info: Infos, vt: Table, left: set<int>)
    requires IsTable(vt, TRIED_BUCKET_COUNT) && AllTriedFine(h, info, vt)
    requires forall id :: id in left <==>
               id in info && info[id].fInTried && !Met(h, info, vt, id, TRIED_BUCKET_COUNT, 0)
    ensures left == {} <==> TriedOk(h, info, vt) && (-1 in info ==> !info[-1].fInTried)
  {
    if left != {} {
      var id := Element(left);
      assert id in info && !Met(h, info, vt, id, TRIED_BUCKET_COUNT, 0);
    } else {
      assert -1 in info && info[-1].fInTried ==> -1 in left;
      forall id | id in info && info[id].fInTried
          ensures At(vt, h.Tried(info[id].addr), h.TriedPos(info[id].addr)) == id {
        assert id !in left;
      }
    }
  }

  lemma NewDone(h: Hashes, s: State, mapNew: map<int, int>)
    requires Shaped(s) && NewSoFar(h, s.info, s.vn, mapNew, NEW_BUCKET_COUNT, 0)
    requires forall id :: id in s.info ==> EntryFine(s.info, s.ma, s.vr, id)
    requires -1 in s.info ==> !s.info[-1].fInTried
    ensures mapNew.Keys == {} <==> NewOk(h, s.info, s.vn) && RefsOk(h, s.info, s.vn) && -1 !in s.info
  {
    if mapNew.Keys != {} {
      var id := Element(mapNew.Keys);
      assert id in s.info && Owed(h, s.info, s.vn, id, NEW_BUCKET_COUNT, 0) > 0;
    } else {
      assert forall id :: id in s.info && !s.info[id].fInTried ==> id !in mapNew.Keys;
      if -1 !in s.info {
        forall id | id in s.info ensures s.info[id].nRefCount == AllRefs(h, s.vn, s.info[id].addr, id) {
          if s.info[id].fInTried {
            RefsZero(h, s.vn, s.info[id].addr, id, NEW_BUCKET_COUNT);
          } else {
            assert Owed(h, s.info, s.vn, id, NEW_BUCKET_COUNT, 0) == 0;
          }
        }
      }
    }
  }
}
