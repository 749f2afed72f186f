/**
 * The inventory request tracker as its header promises it: a map from (peer, invid) to an
 * announcement that is a candidate, requested or completed. Every operation is a function
 * on that map; the index-based tracker is proved to refine these functions.
 */
module InvRequestSpec {

  type InvId = nat
  type NodeId = int
  type Time = int

  datatype Key = Key(peer: NodeId, invid: InvId)

  datatype Status =
    | Candidate(reqtime: Time)
    | Requested(expiry: Time)
    | Completed

  datatype Tracked = Tracked(status: Status, sequence: nat, preferred: bool)

  type Model = map<Key, Tracked>

  datatype Tracker = Tracker(model: Model, next: nat)

  datatype Op =
    | ReceivedInv(peer: NodeId, invid: InvId, preferred: bool, reqtime: Time)
    | DisconnectedPeer(peer: NodeId)
    | ForgetInvId(invid: InvId)
    | GetRequestable(peer: NodeId, now: Time)
    | RequestedData(peer: NodeId, invid: InvId, expiry: Time)
    | ReceivedResponse(peer: NodeId, invid: InvId)

  /** Some announcement of the inventory has not failed yet. */
  ghost predicate Alive(m: Model, invid: InvId) {
    exists k :: k in m && k.invid == invid && !m[k].status.Completed?
  }

  /** Drops every inventory of which only completed announcements remain. */
  ghost function Prune(m: Model): Model {
    map k | k in m && Alive(m, k.invid) :: m[k]
  }

  ghost function Announce(m: Model, k: Key, t: Tracked): Model {
    if k in m then m else m[k := t]
  }

  ghost function DropPeer(m: Model, peer: NodeId): Model {
    map k | k in m && k.peer != peer :: m[k]
  }

  ghost function Disconnect(m: Model, peer: NodeId): Model {
    Prune(DropPeer(m, peer))
  }

  ghost function Forget(m: Model, invid: InvId): Model {
    map k | k in m && k.invid != invid :: m[k]
  }

  predicate Expired(t: Tracked, now: Time) {
    t.status.Requested? && t.status.expiry <= now
  }

  function Finish(t: Tracked): Tracked {
    t.(status := Completed)
  }

  ghost function Timeout(m: Model, now: Time): Model {
    map k | k in m :: if Expired(m[k], now) then Finish(m[k]) else m[k]
  }

  ghost function Expire(m: Model, now: Time): Model {
    Prune(Timeout(m, now))
  }

  ghost function Respond(m: Model, k: Key): Model {
    if k in m then Prune(m[k := Finish(m[k])]) else m
  }

  /** Any earlier request for the inventory is given up; the announcement becomes requested. */
  ghost function Request(m: Model, k: Key, expiry: Time): Model {
    if k !in m || !m[k].status.Candidate? then m
    else
      map j | j in m ::
        if j == k then m[j].(status := Requested(expiry))
        else if j.invid == k.invid && m[j].status.Requested? then Finish(m[j])
        else m[j]
  }

  /** The requests for an inventory are given up. */
  ghost function GiveUp(m: Model, invid: InvId): Model {
    map j | j in m :: if j.invid == invid && m[j].status.Requested? then Finish(m[j]) else m[j]
  }

  lemma RequestAfterGivingUp(m: Model, k: Key, expiry: Time)
    requires k in m && m[k].status.Candidate?
    ensures Request(m, k, expiry) == GiveUp(m, k.invid)[k := m[k].(status := Requested(expiry))]
  {
  }

  lemma NothingToGiveUp(m: Model, invid: InvId)
    requires forall j :: j in m && j.invid == invid ==> !m[j].status.Requested?
    ensures GiveUp(m, invid) == m
  {
  }

  lemma GiveUpOne(m: Model, j: Key)
    requires OneRequest(m) && j in m && m[j].status.Requested?
    ensures GiveUp(m, j.invid) == m[j := Finish(m[j])]
  {
  }

  ghost function Step(t: Tracker, op: Op): Tracker {
    match op
    case ReceivedInv(peer, invid, preferred, reqtime) =>
      var k := Key(peer, invid);
      if k in t.model then t
      else Tracker(Announce(t.model, k, Tracked(Candidate(reqtime), t.next, preferred)), t.next + 1)
    case DisconnectedPeer(peer) => t.(model := Disconnect(t.model, peer))
    case ForgetInvId(invid) => t.(model := Forget(t.model, invid))
    case GetRequestable(_, now) => t.(model := Expire(t.model, now))
    case RequestedData(peer, invid, expiry) => t.(model := Request(t.model, Key(peer, invid), expiry))
    case ReceivedResponse(peer, invid) => t.(model := Respond(t.model, Key(peer, invid)))
  }

  // ---- What each operation does, announcement by announcement ------------------------------

  /** A new announcement is a candidate for its time, with the next sequence number; a known one changes nothing. */
  lemma ReceivedInvDoes(t: Tracker, peer: NodeId, invid: InvId, preferred: bool, reqtime: Time)
    ensures var k, u := Key(peer, invid), Step(t, ReceivedInv(peer, invid, preferred, reqtime));
            if k in t.model then u == t
            else
              && u.next == t.next + 1 && k in u.model && u.model[k].status == Candidate(reqtime)
              && u.model[k].preferred == preferred && u.model[k].sequence == t.next
              && forall j :: j != k ==> (j in u.model <==> j in t.model) && (j in t.model ==> u.model[j] == t.model[j])
  {
  }

  /** Asking a candidate makes it requested until the expiry, and gives up every other request for the inventory. */
  lemma RequestedDataDoes(t: Tracker, peer: NodeId, invid: InvId, expiry: Time, j: Key)
    ensures var m, m' := t.model, Step(t, RequestedData(peer, invid, expiry)).model;
            && (j in m' <==> j in m) && Step(t, RequestedData(peer, invid, expiry)).next == t.next
            && (j in m ==>
                  && m'[j].sequence == m[j].sequence && m'[j].preferred == m[j].preferred
                  && m'[j].status == (
                       if Key(peer, invid) !in m || !m[Key(peer, invid)].status.Candidate? then m[j].status
                       else if j == Key(peer, invid) then Requested(expiry)
                       else if j.invid == invid && m[j].status.Requested? then Completed
                       else m[j].status))
  {
  }

  /** Some announcement that is not yet completed, and not left out by the test, is for the inventory. */
  ghost predicate Hope(m: Model, invid: InvId, counts: Key -> bool) {
    exists w :: w in m && w.invid == invid && !m[w].status.Completed? && counts(w)
  }

  /** A response completes the announcement; inventories without hope are dropped, and nothing else changes. */
  lemma ReceivedResponseDoes(t: Tracker, peer: NodeId, invid: InvId, j: Key)
    requires AllAlive(t.model)
    ensures var k, m, m' := Key(peer, invid), t.model, Step(t, ReceivedResponse(peer, invid)).model;
            && (j in m' <==> j in m && (j.invid == invid && k in m ==> Hope(m, invid, (w: Key) => w != k)))
            && (j in m' ==> m'[j] == m[j].(status := if j == k then Completed else m[j].status))
  {
    var k, m := Key(peer, invid), t.model;
    if k in m {
      var n := m[k := Finish(m[k])];
      if j in m && j.invid == invid && Hope(m, invid, (w: Key) => w != k) {
        var w :| w in m && w.invid == invid && !m[w].status.Completed? && w != k;
        assert n[w] == m[w];
      }
      if j in m && j.invid != invid { AliveCarries(m, n, j.invid); }
    }
  }

  /** A disconnected peer's announcements are gone; inventories without hope are dropped, and nothing else changes. */
  lemma DisconnectedPeerDoes(t: Tracker, peer: NodeId, j: Key)
    ensures var m, m' := t.model, Step(t, DisconnectedPeer(peer)).model;
            && (j in m' <==> j in m && j.peer != peer && Hope(m, j.invid, (w: Key) => w.peer != peer))
            && (j in m' ==> m'[j] == m[j])
  {
    var m := t.model;
    var n := DropPeer(m, peer);
    if j in n && Hope(m, j.invid, (w: Key) => w.peer != peer) {
      var w :| w in m && w.invid == j.invid && !m[w].status.Completed? && w.peer != peer;
      assert n[w] == m[w];
    }
  }

  /** Expired requests are completed; inventories without hope are dropped, and nothing else changes. */
  lemma GetRequestableDoes(t: Tracker, peer: NodeId, now: Time, j: Key)
    ensures var m, m' := t.model, Step(t, GetRequestable(peer, now)).model;
            && (j in m' <==> j in m && Hope(m, j.invid, w => w in m && (m[w].status.Requested? ==>
                  m[w].status.expiry > now)))
            && (j in m' ==> m'[j] == m[j].(status :=
                  if m[j].status.Requested? && m[j].status.expiry <= now then Completed else m[j].status))
  {
    var m := t.model;
    var n := Timeout(m, now);
    var counts := w => w in m && (m[w].status.Requested? ==> m[w].status.expiry > now);
    if j in m && Hope(m, j.invid, counts) {
      var w :| w in m && w.invid == j.invid && !m[w].status.Completed? && counts(w);
      assert n[w] == m[w];
    }
    if j in m && Alive(n, j.invid) {
      var w :| w in n && w.invid == j.invid && !n[w].status.Completed?;
      assert w in m && counts(w);
    }
  }

  /** A forgotten inventory is gone, and nothing else changes. */
  lemma ForgetInvIdDoes(t: Tracker, invid: InvId, j: Key)
    ensures var m, m' := t.model, Step(t, ForgetInvId(invid)).model;
            (j in m' <==> j in m && j.invid != invid) && (j in m' ==> m'[j] == m[j])
  {
  }

  // ---- What every reachable tracker satisfies -------------------------------------------

  ghost predicate AllAlive(m: Model) {
    forall k :: k in m ==> Alive(m, k.invid)
  }

  ghost predicate OneRequest(m: Model) {
    forall j, k :: j in m && k in m && j.invid == k.invid && m[j].status.Requested? && m[k].status.Requested?
                   ==> j == k
  }

  ghost predicate Sequenced(t: Tracker) {
    && (forall k :: k in t.model ==> t.model[k].sequence < t.next)
    && (forall j, k :: j in t.model && k in t.model && t.model[j].sequence == t.model[k].sequence ==> j == k)
  }

  ghost predicate WellFormed(t: Tracker) {
    AllAlive(t.model) && OneRequest(t.model) && Sequenced(t)
  }

  lemma PruneIsAlive(m: Model)
    ensures AllAlive(Prune(m))
  {
    var p := Prune(m);
    forall k | k in p ensures Alive(p, k.invid) {
      var j :| j in m && j.invid == k.invid && !m[j].status.Completed?;
      assert j in p && p[j] == m[j];
    }
  }

  /** A live witness that an operation keeps keeps its inventory alive. */
  lemma AliveCarries(m: Model, m': Model, invid: InvId)
    requires Alive(m, invid)
    requires forall w :: w in m && w.invid == invid && !m[w].status.Completed? ==> w in m' && m'[w] == m[w]
    ensures Alive(m', invid)
  {
    var w :| w in m && w.invid == invid && !m[w].status.Completed?;
    assert w in m' && m'[w] == m[w];
  }

  lemma AnnounceAlive(m: Model, k: Key, x: Tracked)
    requires AllAlive(m) && x.status.Candidate?
    ensures AllAlive(Announce(m, k, x))
  {
    if k !in m {
      var m' := Announce(m, k, x);
      forall j | j in m' ensures Alive(m', j.invid) {
        if j.invid == k.invid {
          assert k in m' && !m'[k].status.Completed?;
        } else {
          AliveCarries(m, m', j.invid);
        }
      }
    }
  }

  lemma RequestAlive(m: Model, k: Key, expiry: Time)
    requires AllAlive(m)
    ensures AllAlive(Request(m, k, expiry))
  {
    if k in m && m[k].status.Candidate? {
      var m' := Request(m, k, expiry);
      forall j | j in m' ensures Alive(m', j.invid) {
        if j.invid == k.invid {
          assert k in m' && m'[k].status.Requested?;
        } else {
          AliveCarries(m, m', j.invid);
        }
      }
    }
  }

  lemma ForgetAlive(m: Model, invid: InvId)
    requires AllAlive(m)
    ensures AllAlive(Forget(m, invid))
  {
    var m' := Forget(m, invid);
    forall j | j in m' ensures Alive(m', j.invid) {
      AliveCarries(m, m', j.invid);
    }
  }

  lemma StepAlive(t: Tracker, op: Op)
    requires AllAlive(t.model)
    ensures AllAlive(Step(t, op).model)
  {
    var m := t.model;
    match op
    case ReceivedInv(peer, invid, preferred, reqtime) =>
      AnnounceAlive(m, Key(peer, invid), Tracked(Candidate(reqtime), t.next, preferred));
    case DisconnectedPeer(peer) => PruneIsAlive(DropPeer(m, peer));
    case ForgetInvId(invid) => ForgetAlive(m, invid);
    case GetRequestable(_, now) => PruneIsAlive(Timeout(m, now));
    case RequestedData(peer, invid, expiry) => RequestAlive(m, Key(peer, invid), expiry);
    case ReceivedResponse(peer, invid) =>
      var k := Key(peer, invid);
      if k in m { PruneIsAlive(m[k := Finish(m[k])]); }
  }

  lemma StepOneRequest(t: Tracker, op: Op)
    requires OneRequest(t.model)
    ensures OneRequest(Step(t, op).model)
  {
    var m, m' := t.model, Step(t, op).model;
    if !op.RequestedData? {
      assert forall k :: k in m' && m'[k].status.Requested? ==> k in m && m[k] == m'[k];
    }
  }

  lemma StepSequenced(t: Tracker, op: Op)
    requires Sequenced(t)
    ensures Sequenced(Step(t, op))
  {
    var m, m' := t.model, Step(t, op).model;
    if !op.ReceivedInv? {
      assert forall k :: k in m' ==> k in m && m[k].sequence == m'[k].sequence;
    }
  }

  lemma StepWellFormed(t: Tracker, op: Op)
    requires WellFormed(t)
    ensures WellFormed(Step(t, op))
  {
    StepAlive(t, op);
    StepOneRequest(t, op);
    StepSequenced(t, op);
  }

  // ---- Whole runs -------------------------------------------------------------------------

  ghost function Run(ops: seq<Op>): Tracker {
    if ops == [] then Tracker(map[], 0) else Step(Run(ops[..|ops| - 1]), ops[|ops| - 1])
  }

  lemma {:induction false} RunWellFormed(ops: seq<Op>)
    ensures WellFormed(Run(ops))
  {
    if ops != [] {
      RunWellFormed(ops[..|ops| - 1]);
      StepWellFormed(Run(ops[..|ops| - 1]), ops[|ops| - 1]);
    }
  }

  function Rank(s: Status): nat {
    match s case Candidate(_) => 0 case Requested(_) => 1 case Completed => 2
  }

  /** One operation never moves an announcement back, and never reuses its sequence number. */
  lemma StepMonotone(t: Tracker, op: Op, k: Key)
    requires WellFormed(t)
    ensures t.next <= Step(t, op).next
    ensures k in Step(t, op).model && Step(t, op).model[k].sequence < t.next ==>
              && k in t.model
              && Step(t, op).model[k].sequence == t.model[k].sequence
              && Step(t, op).model[k].preferred == t.model[k].preferred
              && Rank(t.model[k].status) <= Rank(Step(t, op).model[k].status)
              && (t.model[k].status.Candidate? && Step(t, op).model[k].status.Candidate? ==>
                    Step(t, op).model[k].status == t.model[k].status)
  {
  }

  /** `StepMonotone` over any stretch of a run. */
  lemma {:induction false} RunMonotone(ops: seq<Op>, i: nat, k: Key)
    requires i <= |ops|
    ensures Run(ops[..i]).next <= Run(ops).next
    ensures k in Run(ops).model && Run(ops).model[k].sequence < Run(ops[..i]).next ==>
              && k in Run(ops[..i]).model
              && Run(ops[..i]).model[k].sequence == Run(ops).model[k].sequence
              && Rank(Run(ops[..i]).model[k].status) <= Rank(Run(ops).model[k].status)
    decreases |ops| - i
  {
    if i == |ops| {
      assert ops[..i] == ops;
    } else {
      var p := ops[..|ops| - 1];
      assert p[..i] == ops[..i];
      RunMonotone(p, i, k);
      RunWellFormed(p);
      StepMonotone(Run(p), ops[|ops| - 1], k);
    }
  }

  /** Operation `i` of the run turns announcement number `q` of `k` from candidate to requested. */
  ghost predicate Asks(ops: seq<Op>, i: nat, k: Key, q: nat) {
    && i < |ops|
    && var before, after := Run(ops[..i]).model, Run(ops[..i + 1]).model;
    && k in before && before[k].status.Candidate? && before[k].sequence == q
    && k in after && after[k].status.Requested? && after[k].sequence == q
  }

  /** An announcement enters the requested state at most once in its life. */
  lemma RequestedAtMostOnce(ops: seq<Op>, i: nat, j: nat, k: Key, q: nat)
    requires Asks(ops, i, k, q) && Asks(ops, j, k, q)
    ensures i == j
  {
    if i < j {
      AskedStaysAsked(ops, i, j, k, q);
    } else if j < i {
      AskedStaysAsked(ops, j, i, k, q);
    }
  }

  /** Once asked, an announcement is never a candidate again while it is remembered. */
  lemma AskedStaysAsked(ops: seq<Op>, i: nat, j: nat, k: Key, q: nat)
    requires Asks(ops, i, k, q) && i < j <= |ops|
    ensures k in Run(ops[..j]).model && Run(ops[..j]).model[k].sequence == q
            ==> !Run(ops[..j]).model[k].status.Candidate?
  {
    RunWellFormed(ops[..i + 1]);
    assert ops[..j][..i + 1] == ops[..i + 1];
    RunMonotone(ops[..j], i + 1, k);
  }

  /** A peer is asked twice for an inventory only if it was forgotten in between and announced anew. */
  lemma AskedTwiceMeansForgotten(ops: seq<Op>, i: nat, j: nat, k: Key, q: nat, r: nat)
    requires Asks(ops, i, k, q) && Asks(ops, j, k, r) && i < j
    ensures q < r
    ensures exists l :: i < l <= j && k !in Run(ops[..l]).model
  {
    RunWellFormed(ops[..i + 1]);
    assert ops[..j][..i + 1] == ops[..i + 1];
    RunMonotone(ops[..j], i + 1, k);
    if forall l :: i < l <= j ==> k in Run(ops[..l]).model {
      RememberedKeepsSequence(ops, i + 1, j, k);
      assert false;
    }
  }

  lemma {:induction false} RememberedKeepsSequence(ops: seq<Op>, i: nat, j: nat, k: Key)
    requires i <= j <= |ops|
    requires forall l :: i <= l <= j ==> k in Run(ops[..l]).model
    ensures Run(ops[..j]).model[k].sequence == Run(ops[..i]).model[k].sequence
    decreases j - i
  {
    if i < j {
      RememberedKeepsSequence(ops, i, j - 1, k);
      assert ops[..j][..j - 1] == ops[..j - 1] && ops[..j][j - 1] == ops[j - 1];
      RunWellFormed(ops[..j - 1]);
      StepKeepsSequence(Run(ops[..j - 1]), ops[j - 1], k);
    }
  }

  lemma StepKeepsSequence(t: Tracker, op: Op, k: Key)
    requires k in t.model && k in Step(t, op).model
    ensures Step(t, op).model[k].sequence == t.model[k].sequence
  {
  }

  // ---- One announcement at a time ---------------------------------------------------------

  lemma RespondLast(m: Model, k: Key)
    requires AllAlive(m) && k in m
    requires forall j :: j in m && j.invid == k.invid && j != k ==> m[j].status.Completed?
    ensures Respond(m, k) == Forget(m, k.invid)
  {
    var n := m[k := Finish(m[k])];
    forall j | j in m && j.invid != k.invid ensures Alive(n, j.invid) {
      AliveCarries(m, n, j.invid);
    }
  }

  lemma RespondAmongOthers(m: Model, k: Key, w: Key)
    requires AllAlive(m) && k in m
    requires w in m && w.invid == k.invid && w != k && !m[w].status.Completed?
    ensures Respond(m, k) == m[k := Finish(m[k])]
  {
    var n := m[k := Finish(m[k])];
    forall j | j in n ensures Alive(n, j.invid) {
      if j.invid == k.invid {
        assert w in n && !n[w].status.Completed?;
      } else {
        AliveCarries(m, n, j.invid);
      }
    }
  }

  lemma RespondCompleted(m: Model, k: Key)
    requires AllAlive(m) && k in m && m[k].status.Completed?
    ensures Respond(m, k) == m
  {
    assert m[k := Finish(m[k])] == m;
  }

  /** Pruning depends only on the inventories that are alive and their announcements. */
  lemma PruneAgrees(a: Model, b: Model)
    requires forall j :: j in a && Alive(a, j.invid) ==> j in b && b[j] == a[j]
    requires forall j :: j in b && Alive(b, j.invid) ==> j in a && a[j] == b[j]
    ensures Prune(a) == Prune(b)
  {
    forall j | j in a && Alive(a, j.invid) ensures Alive(b, j.invid) {
      var w :| w in a && w.invid == j.invid && !a[w].status.Completed?;
      assert w in b && !b[w].status.Completed?;
    }
    forall j | j in b && Alive(b, j.invid) ensures Alive(a, j.invid) {
      var w :| w in b && w.invid == j.invid && !b[w].status.Completed?;
      assert w in a && !a[w].status.Completed?;
    }
  }

  /** What is alive later is alive before: announcements only ever complete. */
  lemma AliveBefore(m: Model, n: Model, invid: InvId)
    requires Alive(n, invid)
    requires forall k :: k in n ==> k in m && (n[k] == m[k] || n[k].status.Completed?)
    ensures Alive(m, invid)
  {
    var w :| w in n && w.invid == invid && !n[w].status.Completed?;
    assert w in m && !m[w].status.Completed?;
  }

  /** Completing one expired request first does not change what expires. */
  lemma ExpireStep(m: Model, k: Key, now: Time)
    requires AllAlive(m) && k in m && Expired(m[k], now)
    ensures Expire(Respond(m, k), now) == Expire(m, now)
  {
    var n := m[k := Finish(m[k])];
    var a, b := Timeout(m, now), Timeout(Prune(n), now);
    forall j | j in a && Alive(a, j.invid) ensures j in b && b[j] == a[j] {
      AliveBefore(n, a, j.invid);
    }
    PruneAgrees(a, b);
  }

  lemma ExpireDone(m: Model, now: Time)
    requires AllAlive(m) && forall k :: k in m ==> !Expired(m[k], now)
    ensures Expire(m, now) == m
  {
    assert Timeout(m, now) == m;
  }

  /** Dropping one announcement of the peer first does not change what disconnecting drops. */
  lemma DisconnectStep(m: Model, k: Key)
    requires AllAlive(m) && k in m
    ensures Disconnect(Respond(m, k) - {k}, k.peer) == Disconnect(m, k.peer)
  {
    var n := m[k := Finish(m[k])];
    var a, b := DropPeer(m, k.peer), DropPeer(Prune(n) - {k}, k.peer);
    forall j | j in a && Alive(a, j.invid) ensures j in b && b[j] == a[j] {
      AliveBefore(n, a, j.invid);
    }
    PruneAgrees(a, b);
  }

  lemma DisconnectDone(m: Model, peer: NodeId)
    requires AllAlive(m) && forall k :: k in m ==> k.peer != peer
    ensures Disconnect(m, peer) == m
  {
    assert DropPeer(m, peer) == m;
  }

  lemma SequencedShrinks(t: Tracker, u: Tracker)
    requires Sequenced(t) && t.next <= u.next
    requires forall k :: k in u.model ==> k in t.model && t.model[k].sequence == u.model[k].sequence
    ensures Sequenced(u)
  {
  }

  // ---- Whom to ask ----------------------------------------------------------------------------

  /** The low 63 bits of the salted hash of an inventory and a peer. */
  type LowBits = n: nat | n < 0x8000_0000_0000_0000
  type Salt = (InvId, NodeId) -> LowBits

  function ComputePriority(salt: Salt, invid: InvId, peer: NodeId, preferred: bool): (p: nat)
    ensures p < 0x1_0000_0000_0000_0000
    ensures preferred <==> p >= 0x8000_0000_0000_0000
  {
    salt(invid, peer) + if preferred then 0x8000_0000_0000_0000 else 0
  }

  /** The top bit is the preferred flag, and the others are the salted hash. */
  lemma PriorityBits(salt: Salt, invid: InvId, peer: NodeId, preferred: bool)
    ensures var p := ComputePriority(salt, invid, peer, preferred);
            && p / 0x8000_0000_0000_0000 == (if preferred then 1 else 0)
            && p % 0x8000_0000_0000_0000 == salt(invid, peer)
  {
  }

  function PriorityOf(salt: Salt, m: Model, k: Key): nat
    requires k in m
  {
    ComputePriority(salt, k.invid, k.peer, m[k].preferred)
  }

  /** A candidate whose time has come, for an inventory nobody is being asked for. */
  ghost predicate Requestable(m: Model, k: Key, now: Time) {
    && k in m && m[k].status.Candidate? && m[k].status.reqtime <= now
    && forall j :: j in m && j.invid == k.invid ==> !m[j].status.Requested?
  }

  /** No requestable announcement of the inventory has a higher priority. */
  ghost predicate BestChoice(salt: Salt, m: Model, k: Key, now: Time) {
    && Requestable(m, k, now)
    && forall j: Key :: j.invid == k.invid && Requestable(m, j, now) ==>
        PriorityOf(salt, m, j) <= PriorityOf(salt, m, k)
  }

  /** Non-preferred peers are not chosen while a preferred one is requestable. */
  lemma PreferredFirst(salt: Salt, m: Model, k: Key, j: Key, now: Time)
    requires BestChoice(salt, m, k, now)
    requires Requestable(m, j, now) && j.invid == k.invid && m[j].preferred
    ensures m[k].preferred
  {
    assert PriorityOf(salt, m, j) <= PriorityOf(salt, m, k);
  }

  /** Within an inventory: preferred before others, and otherwise by the salted hash alone. */
  predicate Outranks(salt: Salt, m: Model, k: Key, j: Key)
    requires k in m && j in m
  {
    if m[k].preferred == m[j].preferred then salt(j.invid, j.peer) <= salt(k.invid, k.peer) else m[k].preferred
  }

  /** A priority is no lower than another exactly if its announcement outranks the other's. */
  lemma PriorityRanks(salt: Salt, m: Model, k: Key, j: Key)
    requires k in m && j in m
    ensures PriorityOf(salt, m, j) <= PriorityOf(salt, m, k) <==> Outranks(salt, m, k, j)
  {
  }

  /** A best choice is a requestable announcement that outranks all others of its inventory that are requestable. */
  lemma BestChoiceOutranks(salt: Salt, m: Model, k: Key, now: Time)
    ensures BestChoice(salt, m, k, now) <==>
              && Requestable(m, k, now)
              && forall j: Key :: j.invid == k.invid && Requestable(m, j, now) ==> Outranks(salt, m, k, j)
  {
    hide ComputePriority;
    if Requestable(m, k, now) {
      forall j: Key | j.invid == k.invid && Requestable(m, j, now)
        ensures PriorityOf(salt, m, j) <= PriorityOf(salt, m, k) <==> Outranks(salt, m, k, j)
      {
        PriorityRanks(salt, m, k, j);
      }
    }
  }

  /** Whoever was announced or ready first: among equally preferred peers the highest hash is chosen. */
  lemma HighestHashWins(salt: Salt, m: Model, k: Key, j: Key, now: Time)
    requires BestChoice(salt, m, k, now)
    requires Requestable(m, j, now) && j.invid == k.invid && m[j].preferred == m[k].preferred
    ensures salt(j.invid, j.peer) <= salt(k.invid, k.peer)
  {
    BestChoiceOutranks(salt, m, k, now);
  }

  /** An announcement that was asked before is not requestable in any later state that remembers it. */
  lemma NeverChosenAgain(ops: seq<Op>, i: nat, j: nat, k: Key, q: nat, now: Time)
    requires Asks(ops, i, k, q) && i < j <= |ops|
    requires k in Run(ops[..j]).model && Run(ops[..j]).model[k].sequence == q
    ensures !Requestable(Run(ops[..j]).model, k, now)
  {
    AskedStaysAsked(ops, i, j, k, q);
  }

  // ---- Reporting expired requests -----------------------------------------------------------

  /** `out` reports requests of `m0` that expired by `now` and are over in `m`; the others still stand. */
  ghost predicate Reported(m0: Model, m: Model, now: Time, out: seq<Key>) {
    && (forall k :: k in m ==> k in m0 && (m[k] == m0[k] || m[k] == Finish(m0[k])))
    && (forall k :: k in out ==> k in m0 && Expired(m0[k], now) && (k in m ==> m[k].status.Completed?))
    && (forall k :: k in m0 && Expired(m0[k], now) && k !in out ==> k in m && m[k] == m0[k])
    && (forall x, y :: 0 <= x < y < |out| ==> out[x] != out[y])
    && (forall x, y :: 0 <= x < y < |out| && out[x] in m0 && out[y] in m0
                       && m0[out[x]].status.Requested? && m0[out[y]].status.Requested?
                       ==> m0[out[x]].status.expiry <= m0[out[y]].status.expiry)
  }

  lemma ReportedStep(m0: Model, m: Model, now: Time, out: seq<Key>, k: Key)
    requires Reported(m0, m, now, out) && k in m && Expired(m[k], now)
    requires forall j :: j in out && j in m0 && m0[j].status.Requested? ==> m0[j].status.expiry <= m[k].status.expiry
    ensures Reported(m0, Respond(m, k), now, out + [k])
  {
    var n := m[k := Finish(m[k])];
    var p := Respond(m, k);
    forall j | j in m0 && Expired(m0[j], now) && j !in out + [k] ensures j in p && p[j] == m0[j] {
      assert j !in out;
      assert k in out + [k] && j != k;
      assert j in n && !n[j].status.Completed?;
    }
    forall j | j in out + [k] ensures j in m0 && Expired(m0[j], now) && (j in p ==> p[j].status.Completed?) {
      assert j in out || j == k;
    }
  }

  lemma ReportedAll(m0: Model, m: Model, now: Time, out: seq<Key>)
    requires Reported(m0, m, now, out) && forall k :: k in m ==> !Expired(m[k], now)
    ensures forall k :: k in out <==> k in m0 && Expired(m0[k], now)
  {
  }
}
