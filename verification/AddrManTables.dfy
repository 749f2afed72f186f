/**
 * The address manager's redundant structures as values: what each promises about the others,
 * and what a change of one slot or one entry does to them.
 */
module AddrManTables {
  import opened Basics

  const TRIED_BUCKET_COUNT := 256
  const NEW_BUCKET_COUNT := 1024
  const BUCKET_SIZE := 64
  const NEW_BUCKETS_PER_ADDRESS := 8
  const SET_TRIED_COLLISION_SIZE := 10
  const TRIED_BUCKETS_PER_GROUP := 8
  const NEW_BUCKETS_PER_SOURCE_GROUP := 64

  /** Conversion to an unsigned 32-bit integer. */
  function ToU32(x: int): U32 { x % 0x1_0000_0000 }

  type NetAddr = nat
  datatype Service = Service(net: NetAddr, port: nat)
  datatype Announced = Announced(addr: Service, nTime: U32, nServices: bv64)

  /** What is known about an address; nRefCount, fInTried and nRandomPos are bookkeeping. */
  datatype AddrInfo = AddrInfo(
    addr: Service, nTime: U32, nServices: bv64, source: NetAddr,
    nLastTry: int, nLastCountAttempt: int, nLastSuccess: int, nAttempts: int,
    nRefCount: int, fInTried: bool, nRandomPos: int)

  // ---- Salted hashes ------------------------------------------------------------------------

  /**
   * The salted hashes under one secret key, and the groups of addresses under one IP-to-ASN map. An address's group
   * selects the tried buckets among which its own hash chooses; the group of who announced it selects the new
   * buckets among which its group chooses.
   */
  datatype Hashes = Hashes(
    group: NetAddr -> nat, keyHash: Service -> nat, triedHash: (nat, nat) -> nat, groupsHash: (nat, nat) -> nat,
    newHash: (nat, nat) -> nat, positionHash: (bool, nat, Service) -> nat)
  {
    function Tried(a: Service): (b: nat)
      ensures b < TRIED_BUCKET_COUNT
    {
      triedHash(group(a.net), keyHash(a) % TRIED_BUCKETS_PER_GROUP) % TRIED_BUCKET_COUNT
    }

    function New(a: Service, source: NetAddr): (b: nat)
      ensures b < NEW_BUCKET_COUNT
    {
      var which := groupsHash(group(a.net), group(source)) % NEW_BUCKETS_PER_SOURCE_GROUP;
      newHash(group(source), which) % NEW_BUCKET_COUNT
    }

    function TriedPos(a: Service): (p: nat)
      ensures p < BUCKET_SIZE
    {
      positionHash(false, Tried(a), a) % BUCKET_SIZE
    }

    function NewPos(a: Service, b: nat): (p: nat)
      ensures p < BUCKET_SIZE
    {
      positionHash(true, b, a) % BUCKET_SIZE
    }
  }

  // ---- Tables ---------------------------------------------------------------------------------

  type Table = seq<seq<int>>

  predicate IsTable(t: Table, rows: nat) {
    |t| == rows && forall b | 0 <= b < rows :: |t[b]| == BUCKET_SIZE
  }

  function At(t: Table, b: nat, i: nat): int
    requires b < |t| && i < |t[b]|
  {
    t[b][i]
  }

  function EmptyTable(rows: nat): (t: Table)
    ensures IsTable(t, rows)
    ensures forall b, i :: 0 <= b < rows && 0 <= i < BUCKET_SIZE ==> At(t, b, i) == -1
  {
    seq(rows, _ => seq(BUCKET_SIZE, _ => -1))
  }

  function Set(t: Table, rows: nat, b: nat, i: nat, v: int): (u: Table)
    requires IsTable(t, rows) && b < rows && i < BUCKET_SIZE
    ensures IsTable(u, rows) && At(u, b, i) == v
    ensures forall c, j {:trigger At(u, c, j)} :: 0 <= c < rows && 0 <= j < BUCKET_SIZE && (c != b || j != i) ==>
              At(u, c, j) == At(t, c, j)
  {
    t[b := t[b][i := v]]
  }

  type Infos = map<int, AddrInfo>

  // ---- What the structures promise ------------------------------------------------------------------

  /** vRandom lists every id once, at its nRandomPos. */
  ghost predicate RandomOk(info: Infos, vr: seq<int>) {
    && (forall id :: id in info ==> 0 <= info[id].nRandomPos < |vr| && vr[info[id].nRandomPos] == id)
    && (forall j :: 0 <= j < |vr| ==> vr[j] in info && info[vr[j]].nRandomPos == j)
  }

  /** mapAddr finds every id by its address, and nothing else. */
  ghost predicate AddrOk(info: Infos, ma: map<Service, int>) {
    && (forall id :: id in info ==> info[id].addr in ma && ma[info[id].addr] == id)
    && (forall a :: a in ma ==> ma[a] in info && info[ma[a]].addr == a)
  }

  /** A tried entry sits in its own tried slot; a tried slot holds a tried entry. */
  ghost predicate TriedOk(h: Hashes, info: Infos, vt: Table)
    requires IsTable(vt, TRIED_BUCKET_COUNT)
  {
    && (forall b, i :: 0 <= b < TRIED_BUCKET_COUNT && 0 <= i < BUCKET_SIZE && At(vt, b, i) != -1 ==>
          && At(vt, b, i) in info && info[At(vt, b, i)].fInTried
          && h.Tried(info[At(vt, b, i)].addr) == b && h.TriedPos(info[At(vt, b, i)].addr) == i)
    && (forall id :: id in info && info[id].fInTried ==>
        At(vt, h.Tried(info[id].addr), h.TriedPos(info[id].addr)) == id)
  }

  /** A new slot holds an entry that is not tried, at the entry's position in that bucket. */
  ghost predicate NewOk(h: Hashes, info: Infos, vn: Table)
    requires IsTable(vn, NEW_BUCKET_COUNT)
  {
    forall b, i :: 0 <= b < NEW_BUCKET_COUNT && 0 <= i < BUCKET_SIZE && At(vn, b, i) != -1 ==>
      At(vn, b, i) in info && !info[At(vn, b, i)].fInTried && h.NewPos(info[At(vn, b, i)].addr, b) == i
  }

  /** How many of the first `n` new buckets hold `id` where an entry of address `a` belongs. */
  function Refs(h: Hashes, vn: Table, a: Service, id: int, n: nat): nat
    requires IsTable(vn, NEW_BUCKET_COUNT) && n <= NEW_BUCKET_COUNT
  {
    if n == 0 then 0
    else Refs(h, vn, a, id, n - 1) + if At(vn, n - 1, h.NewPos(a, n - 1)) == id then 1 else 0
  }

  function AllRefs(h: Hashes, vn: Table, a: Service, id: int): nat
    requires IsTable(vn, NEW_BUCKET_COUNT)
  {
    Refs(h, vn, a, id, NEW_BUCKET_COUNT)
  }

  ghost predicate RefsOk(h: Hashes, info: Infos, vn: Table)
    requires IsTable(vn, NEW_BUCKET_COUNT)
  {
    forall id :: id in info ==> info[id].nRefCount == AllRefs(h, vn, info[id].addr, id)
  }

  /** Entries outside `limbo` are tried, or new with a reference. */
  predicate EntryOk(e: AddrInfo, inLimbo: bool) {
    && e.nRefCount <= NEW_BUCKETS_PER_ADDRESS
    && (!e.fInTried && !inLimbo ==> e.nRefCount > 0)
  }

  ghost predicate EntriesOk(info: Infos, limbo: set<int>, nIdCount: int) {
    && nIdCount >= 0
    && forall id :: id in info ==> 0 <= id < nIdCount && EntryOk(info[id], id in limbo)
  }

  ghost function TriedIds(info: Infos): set<int> { set id | id in info && info[id].fInTried }
  ghost function NewIds(info: Infos): set<int> { set id | id in info && !info[id].fInTried }

  // ---- Counting references -------------------------------------------------------------------------

  lemma {:induction false} RefsSet(h: Hashes, vn: Table, b: nat, i: nat, v: int, a: Service, id: int, n: nat)
    requires IsTable(vn, NEW_BUCKET_COUNT) && b < NEW_BUCKET_COUNT && i < BUCKET_SIZE && n <= NEW_BUCKET_COUNT
    ensures Refs(h, Set(vn, NEW_BUCKET_COUNT, b, i, v), a, id, n) ==
              Refs(h, vn, a, id, n) +
              if b < n && h.NewPos(a, b) == i
              then (if v == id then 1 else 0) - (if At(vn, b, i) == id then 1 else 0) else 0
  {
    if n > 0 { RefsSet(h, vn, b, i, v, a, id, n - 1); }
  }

  lemma {:induction false} RefsZero(h: Hashes, vn: Table, a: Service, id: int, n: nat)
    requires IsTable(vn, NEW_BUCKET_COUNT) && n <= NEW_BUCKET_COUNT
    ensures Refs(h, vn, a, id, n) == 0 <==> forall b :: 0 <= b < n ==> At(vn, b, h.NewPos(a, b)) != id
  {
    if n > 0 { RefsZero(h, vn, a, id, n - 1); }
  }

  /** No references means no slot holds the id. */
  lemma Unreferenced(h: Hashes, info: Infos, vn: Table, id: int)
    requires IsTable(vn, NEW_BUCKET_COUNT) && NewOk(h, info, vn) && RefsOk(h, info, vn)
    requires id in info && id >= 0 && info[id].nRefCount == 0
    ensures forall b, i :: 0 <= b < NEW_BUCKET_COUNT && 0 <= i < BUCKET_SIZE ==> At(vn, b, i) != id
  {
    RefsZero(h, vn, info[id].addr, id, NEW_BUCKET_COUNT);
    forall b, i | 0 <= b < NEW_BUCKET_COUNT && 0 <= i < BUCKET_SIZE ensures At(vn, b, i) != id {
      assert At(vn, b, h.NewPos(info[id].addr, b)) != id;
    }
  }

  lemma TriedUnreferenced(h: Hashes, info: Infos, vn: Table, id: int)
    requires IsTable(vn, NEW_BUCKET_COUNT) && NewOk(h, info, vn) && RefsOk(h, info, vn)
    requires id in info && id >= 0 && info[id].fInTried
    ensures info[id].nRefCount == 0
  {
    RefsZero(h, vn, info[id].addr, id, NEW_BUCKET_COUNT);
  }

  lemma Element<T>(s: set<T>) returns (x: T)
    requires s != {}
    ensures x in s
  {
    x :| x in s;
  }

  lemma {:induction false} Least(s: set<int>) returns (least: int)
    requires s != {}
    ensures least in s && forall y :: y in s ==> least <= y
  {
    var x := Element(s);
    least := x;
    var rest := s - {x};
    if rest != {} {
      var z := Least(rest);
      least := if x < z then x else z;
    }
    assert forall y :: y in s ==> y == x || y in rest;
  }
}
