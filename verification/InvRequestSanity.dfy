/** SanityCheck as the tracker computes it, and whole runs of the index-based tracker. */
module InvRequestSanity {
  import opened SeqCounting
  import opened InvRequestSpec
  import opened InvRequestIndex
  import opened InvRequestTracker

  // ---- The recomputed statistics ---------------------------------------------------------------

  function Note(info: PeerInfo, a: Announcement): PeerInfo {
    PeerInfo(info.total + 1,
             info.completed + (if a.state.StateCompleted? then 1 else 0),
             info.requested + (if a.state.StateRequested? then 1 else 0))
  }

  function RecomputePeerInfo(s: seq<Announcement>): map<NodeId, PeerInfo> {
    if s == [] then map[]
    else
      var ret, a := RecomputePeerInfo(s[..|s| - 1]), s[|s| - 1];
      ret[a.peer := Note(if a.peer in ret then ret[a.peer] else PeerInfo(0, 0, 0), a)]
  }

  function OfInvIdIn(v: InvId, st: State): Announcement -> bool {
    (a: Announcement) => a.invid == v && a.state == st
  }

  datatype InvIdInfo = InvIdInfo(delayed: nat, ready: nat, best: nat, requested: nat,
                                 priorityBest: nat, priorityReady: nat, peers: seq<NodeId>)

  function ComputeInvIdInfo(salt: Salt, s: seq<Announcement>, v: InvId): InvIdInfo {
    if s == [] then InvIdInfo(0, 0, 0, 0, 0xFFFF_FFFF_FFFF_FFFF, 0, [])
    else
      var info, a := ComputeInvIdInfo(salt, s[..|s| - 1], v), s[|s| - 1];
      if a.invid != v then info
      else
        InvIdInfo(
          info.delayed + (if a.state.CandidateDelayed? then 1 else 0),
          info.ready + (if a.state.CandidateReady? then 1 else 0),
          info.best + (if a.state.CandidateBest? then 1 else 0),
          info.requested + (if a.state.StateRequested? then 1 else 0),
          if a.state.CandidateBest? then Priority(salt, a) else info.priorityBest,
          if a.state.CandidateReady? && info.priorityReady < Priority(salt, a) then Priority(salt, a)
              else info.priorityReady,
          info.peers + [a.peer])
  }

  ghost predicate NoDuplicates(s: seq<NodeId>) {
    forall i, j :: 0 <= i < j < |s| ==> s[i] != s[j]
  }

  ghost predicate InvIdInfoSane(info: InvIdInfo) {
    && info.delayed + info.ready + info.best + info.requested > 0
    && info.best + info.requested <= 1
    && (info.ready > 0 ==> info.best + info.requested == 1)
    && (info.ready > 0 && info.best > 0 ==> info.priorityBest >= info.priorityReady)
    && NoDuplicates(info.peers)
  }

  ghost predicate SanityCheck(salt: Salt, s: seq<Announcement>, peerinfo: map<NodeId, PeerInfo>) {
    && peerinfo == RecomputePeerInfo(s)
    && forall a :: a in s ==> InvIdInfoSane(ComputeInvIdInfo(salt, s, a.invid))
  }

  // ---- It always passes ---------------------------------------------------------------------------

  lemma {:induction false} RecomputedIsTally(s: seq<Announcement>, p: NodeId)
    ensures PeerMatches(s, RecomputePeerInfo(s), p)
  {
    if s != [] {
      var r, a := s[..|s| - 1], s[|s| - 1];
      RecomputedIsTally(r, p);
      RecomputedIsTally(r, a.peer);
      assert s == InsertAt(r, |r|, a);
      TallyInserted(r, |r|, a, p);
      if Tally(r, p).total == 0 { NoAnnouncements(r, p); }
    }
  }

  lemma PeerInfoRecomputes(s: seq<Announcement>, peerinfo: map<NodeId, PeerInfo>)
    requires PeersMatch(s, peerinfo)
    ensures peerinfo == RecomputePeerInfo(s)
  {
    forall p ensures p in peerinfo <==> p in RecomputePeerInfo(s) {
      RecomputedIsTally(s, p);
      assert PeerMatches(s, peerinfo, p);
    }
    forall p | p in peerinfo ensures peerinfo[p] == RecomputePeerInfo(s)[p] {
      RecomputedIsTally(s, p);
      assert PeerMatches(s, peerinfo, p);
    }
  }

  /** What the per-inventory statistics count. */
  lemma {:induction false} InvIdInfoCounts(salt: Salt, s: seq<Announcement>, v: InvId)
    ensures var info := ComputeInvIdInfo(salt, s, v);
            && info.delayed == CountIf(s, OfInvIdIn(v, CandidateDelayed))
            && info.ready == CountIf(s, OfInvIdIn(v, CandidateReady))
            && info.best == CountIf(s, OfInvIdIn(v, CandidateBest))
            && info.requested == CountIf(s, OfInvIdIn(v, StateRequested))
  {
    if s != [] {
      var r, a := s[..|s| - 1], s[|s| - 1];
      InvIdInfoCounts(salt, r, v);
      assert s == InsertAt(r, |r|, a);
      CountInsertAt(r, |r|, a, OfInvIdIn(v, CandidateDelayed));
      CountInsertAt(r, |r|, a, OfInvIdIn(v, CandidateReady));
      CountInsertAt(r, |r|, a, OfInvIdIn(v, CandidateBest));
      CountInsertAt(r, |r|, a, OfInvIdIn(v, StateRequested));
    }
  }

  lemma {:induction false} PrioritiesAttained(salt: Salt, s: seq<Announcement>, v: InvId)
    ensures var info := ComputeInvIdInfo(salt, s, v);
            && (info.best > 0 ==>
                  exists a :: a in s && a.invid == v && a.state.CandidateBest? &&
                      Priority(salt, a) == info.priorityBest)
            && (info.priorityReady > 0 ==>
                  exists a :: a in s && a.invid == v && a.state.CandidateReady? &&
                      Priority(salt, a) == info.priorityReady)
  {
    if s != [] {
      var r, a := s[..|s| - 1], s[|s| - 1];
      assert s == r + [a];
      PrioritiesAttained(salt, r, v);
      var was, info := ComputeInvIdInfo(salt, r, v), ComputeInvIdInfo(salt, s, v);
      if info.priorityReady == was.priorityReady > 0 {
        var w :| w in r && w.invid == v && w.state.CandidateReady? && Priority(salt, w) == was.priorityReady;
        assert w in s;
      }
    }
  }

  lemma {:induction false} PeersOnce(salt: Salt, s: seq<Announcement>, v: InvId)
    requires Unique(s)
    ensures NoDuplicates(ComputeInvIdInfo(salt, s, v).peers)
    ensures forall p :: p in ComputeInvIdInfo(salt, s, v).peers ==> exists a :: a in s && a.Id() == Key(p, v)
  {
    if s != [] {
      var r, a := s[..|s| - 1], s[|s| - 1];
      assert s == r + [a];
      assert Unique(r) by {
        forall i, j | 0 <= i < j < |r| ensures r[i].Id() != r[j].Id() { assert s[i].Id() != s[j].Id(); }
      }
      PeersOnce(salt, r, v);
      var was, info := ComputeInvIdInfo(salt, r, v), ComputeInvIdInfo(salt, s, v);
      forall p | p in was.peers ensures exists x :: x in s && x.Id() == Key(p, v) {
        var x :| x in r && x.Id() == Key(p, v);
        assert x in s;
      }
      if a.invid == v {
        assert a in s && a.Id() == Key(a.peer, v);
        forall x | x in r ensures x.Id() != a.Id() {
          var i :| 0 <= i < |r| && r[i] == x;
          assert s[i].Id() != s[|s| - 1].Id();
        }
        assert a.peer !in was.peers;
      }
    }
  }

  lemma SelectedAtMostOnce(salt: Salt, s: seq<Announcement>, v: InvId)
    requires Ordered(salt, s) && SaneFor(salt, s, v)
    ensures CountIf(s, OfInvIdIn(v, CandidateBest)) + CountIf(s, OfInvIdIn(v, StateRequested)) <= 1
  {
    var f := (a: Announcement) => a.invid == v && a.IsSelected();
    forall i, j | 0 <= i < j < |s| ensures !(f(s[i]) && f(s[j])) {
      assert s[i].Id() != s[j].Id();
      assert s[i] in s && s[j] in s;
    }
    CountAtMostOne(s, f);
    CountSplits(s, v, f);
  }

  lemma {:induction false} CountSplits(s: seq<Announcement>, v: InvId, f: Announcement -> bool)
    requires forall a :: f(a) <==> a.invid == v && a.IsSelected()
    ensures CountIf(s, f) == CountIf(s, OfInvIdIn(v, CandidateBest)) + CountIf(s, OfInvIdIn(v, StateRequested))
  {
    if s != [] { CountSplits(s[1..], v, f); }
  }

  lemma InventoryPasses(salt: Salt, s: seq<Announcement>, v: InvId)
    requires Ordered(salt, s) && SaneFor(salt, s, v) && exists a :: a in s && a.invid == v
    ensures InvIdInfoSane(ComputeInvIdInfo(salt, s, v))
  {
    InvIdInfoCounts(salt, s, v);
    PrioritiesAttained(salt, s, v);
    PeersOnce(salt, s, v);
    SelectedAtMostOnce(salt, s, v);
    CountIsZero(s, OfInvIdIn(v, CandidateDelayed));
    CountIsZero(s, OfInvIdIn(v, CandidateReady));
    CountIsZero(s, OfInvIdIn(v, CandidateBest));
    CountIsZero(s, OfInvIdIn(v, StateRequested));
    var a :| a in s && a.invid == v;
    var b :| b in s && b.invid == v && !b.state.StateCompleted?;
    assert OfInvIdIn(v, b.state)(b);
    var info := ComputeInvIdInfo(salt, s, v);
    if info.ready > 0 {
      var c :| c in s && OfInvIdIn(v, CandidateReady)(c);
      assert c.state.CandidateReady?;
      var d :| d in s && d.invid == v && d.IsSelected();
      assert OfInvIdIn(v, d.state)(d);
    }
  }

  lemma SanityCheckPasses(t: InvRequestTracker)
    requires t.Valid()
    ensures SanityCheck(t.salt, t.index, t.peerinfo)
  {
    PeerInfoRecomputes(t.index, t.peerinfo);
    forall a | a in t.index ensures InvIdInfoSane(ComputeInvIdInfo(t.salt, t.index, a.invid)) {
      assert SaneFor(t.salt, t.index, a.invid);
      InventoryPasses(t.salt, t.index, a.invid);
    }
  }

  // ---- Whole runs -----------------------------------------------------------------------------------

  /** Any sequence of operations, with any times, keeps the tracker sane and follows the specification. */
  method Execute(salt: Salt, ops: seq<Op>) returns (t: InvRequestTracker)
    ensures t.Valid() && t.Abstract() == Run(ops)
    ensures SanityCheck(t.salt, t.index, t.peerinfo)
  {
    t := new InvRequestTracker(salt);
    for i := 0 to |ops|
      invariant fresh(t) && t.Valid() && t.Abstract() == Run(ops[..i])
    {
      assert ops[..i + 1][..i] == ops[..i] && ops[..i + 1][i] == ops[i];
      match ops[i] {
        case ReceivedInv(peer, invid, preferred, reqtime) => t.ReceivedInv(peer, invid, preferred, reqtime);
        case DisconnectedPeer(peer) => t.DisconnectedPeer(peer);
        case ForgetInvId(invid) => t.ForgetInvId(invid);
        case GetRequestable(peer, now) => var _, _ := t.GetRequestable(peer, now);
        case RequestedData(peer, invid, expiry) => t.RequestedData(peer, invid, expiry);
        case ReceivedResponse(peer, invid) => t.ReceivedResponse(peer, invid);
      }
    }
    assert ops[..|ops|] == ops;
    SanityCheckPasses(t);
  }
}
