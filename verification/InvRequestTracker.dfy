/** The index-based tracker: each operation refines its function in InvRequestSpec. */
module InvRequestTracker {
  import opened Basics
  import opened SeqCounting
  import opened InvRequestSpec
  import opened InvRequestIndex

  // ---- Per-peer statistics ------------------------------------------------------------------

  datatype PeerInfo = PeerInfo(total: nat, completed: nat, requested: nat)

  function OfPeer(p: NodeId): Announcement -> bool { (a: Announcement) => a.peer == p }
  function OfPeerIn(p: NodeId, st: State): Announcement -> bool { (a: Announcement) => a.peer == p && a.state == st }

  function CandidateOfPeer(p: NodeId): Announcement -> bool {
    (a: Announcement) => a.peer == p && !a.state.StateRequested? && !a.state.StateCompleted?
  }

  function Tally(s: seq<Announcement>, p: NodeId): PeerInfo {
    PeerInfo(CountIf(s, OfPeer(p)), CountIf(s, OfPeerIn(p, StateCompleted)), CountIf(s, OfPeerIn(p, StateRequested)))
  }

  ghost predicate PeerMatches(s: seq<Announcement>, info: map<NodeId, PeerInfo>, p: NodeId) {
    && (p in info <==> Tally(s, p).total > 0)
    && (p in info ==> info[p] == Tally(s, p))
  }

  ghost predicate PeersMatch(s: seq<Announcement>, info: map<NodeId, PeerInfo>) {
    forall p :: PeerMatches(s, info, p)
  }

  lemma {:induction false} CandidatesAreTheRest(s: seq<Announcement>, p: NodeId)
    ensures Tally(s, p).total == Tally(s, p).requested + Tally(s, p).completed + CountIf(s, CandidateOfPeer(p))
  {
    if s != [] { CandidatesAreTheRest(s[1..], p); }
  }

  lemma TallyRemoved(s: seq<Announcement>, i: nat, p: NodeId)
    requires i < |s|
    ensures var t, u, a := Tally(s, p), Tally(RemoveAt(s, i), p), s[i];
            if a.peer == p then
              && t.total == u.total + 1
              && t.completed == u.completed + (if a.state.StateCompleted? then 1 else 0)
              && t.requested == u.requested + (if a.state.StateRequested? then 1 else 0)
            else t == u
  {
    CountRemoveAt(s, i, OfPeer(p));
    CountRemoveAt(s, i, OfPeerIn(p, StateCompleted));
    CountRemoveAt(s, i, OfPeerIn(p, StateRequested));
  }

  lemma TallyInserted(s: seq<Announcement>, j: nat, a: Announcement, p: NodeId)
    requires j <= |s|
    ensures var t, u := Tally(s, p), Tally(InsertAt(s, j, a), p);
            if a.peer == p then
              && u.total == t.total + 1
              && u.completed == t.completed + (if a.state.StateCompleted? then 1 else 0)
              && u.requested == t.requested + (if a.state.StateRequested? then 1 else 0)
            else t == u
  {
    CountInsertAt(s, j, a, OfPeer(p));
    CountInsertAt(s, j, a, OfPeerIn(p, StateCompleted));
    CountInsertAt(s, j, a, OfPeerIn(p, StateRequested));
  }

  // ---- The ByTime order ------------------------------------------------------------------------

  function WaitState(a: Announcement): nat {
    if a.IsWaiting() then 0 else if a.IsSelectable() then 2 else 1
  }

  predicate TimeLe(a: Announcement, b: Announcement) {
    WaitState(a) < WaitState(b) || (WaitState(a) == WaitState(b) && a.time <= b.time)
  }

  lemma {:induction false} SomethingFirst(s: seq<Announcement>)
    requires s != []
    ensures exists i :: 0 <= i < |s| && FirstInTime(s, i)
  {
    if |s| == 1 {
      assert FirstInTime(s, 0);
    } else {
      var p := s[..|s| - 1];
      SomethingFirst(p);
      var i :| 0 <= i < |p| && FirstInTime(p, i);
      assert FirstInTime(s, if TimeLe(s[i], s[|s| - 1]) then i else |s| - 1);
    }
  }

  lemma {:induction false} SomethingLast(s: seq<Announcement>)
    requires s != []
    ensures exists i :: 0 <= i < |s| && LastInTime(s, i)
  {
    if |s| == 1 {
      assert LastInTime(s, 0);
    } else {
      var p := s[..|s| - 1];
      SomethingLast(p);
      var i :| 0 <= i < |p| && LastInTime(p, i);
      assert LastInTime(s, if TimeLe(s[|s| - 1], s[i]) then i else |s| - 1);
    }
  }

  predicate FirstInTime(s: seq<Announcement>, i: nat) {
    i < |s| && forall j | 0 <= j < |s| :: TimeLe(s[i], s[j])
  }

  predicate LastInTime(s: seq<Announcement>, i: nat) {
    i < |s| && forall j | 0 <= j < |s| :: TimeLe(s[j], s[i])
  }

  // ---- The ByPeer order ------------------------------------------------------------------------

  datatype PeerView = PeerView(peer: NodeId, best: bool, invid: InvId)

  function ViewOf(a: Announcement): PeerView { PeerView(a.peer, a.state.CandidateBest?, a.invid) }

  predicate PeerLt(v: PeerView, w: PeerView) {
    || v.peer < w.peer
    || (v.peer == w.peer && ((!v.best && w.best) || (v.best == w.best && v.invid < w.invid)))
  }

  function In(a: Announcement, st: State): Announcement { a.(state := st) }

  /** `b` replaces `a`. */
  ghost predicate Replaced(s: seq<Announcement>, r: seq<Announcement>, a: Announcement, b: Announcement) {
    forall x :: x in r <==> x == b || (x in s && x != a)
  }

  /** Whatever waits in `r` waited in `s`. */
  ghost predicate WaitingWithin(s: seq<Announcement>, r: seq<Announcement>) {
    forall a :: a in r && a.IsWaiting() ==> a in s
  }

  /** Whatever can be selected in `r` could be selected in `s`, at the same time. */
  ghost predicate SelectableWithin(s: seq<Announcement>, r: seq<Announcement>) {
    forall a :: a in r && a.IsSelectable() ==> In(a, CandidateReady) in s || In(a, CandidateBest) in s
  }

  /** What replacing one announcement leaves alone. */
  lemma ReplacedFrame(s: seq<Announcement>, r: seq<Announcement>, a: Announcement, b: Announcement)
    requires Replaced(s, r, a, b) && a.invid == b.invid && a in s
    ensures SameElsewhere(s, r, a.invid)
    ensures !b.IsWaiting() ==> WaitingWithin(s, r)
    ensures !b.IsSelectable() || (a.IsSelectable() && b == In(a, b.state)) ==> SelectableWithin(s, r)
  {
    forall x | x in r && x.IsSelectable() && x in s ensures In(x, CandidateReady) in s || In(x, CandidateBest) in s {
      assert x == In(x, x.state);
    }
    assert a == In(a, a.state);
  }

  lemma FrameTransitive(s: seq<Announcement>, r: seq<Announcement>, q: seq<Announcement>, invid: InvId)
    requires SameElsewhere(s, r, invid) && SameElsewhere(r, q, invid)
    ensures SameElsewhere(s, q, invid)
    ensures WaitingWithin(s, r) && WaitingWithin(r, q) ==> WaitingWithin(s, q)
    ensures SelectableWithin(s, r) && SelectableWithin(r, q) ==> SelectableWithin(s, q)
  {
    if SelectableWithin(s, r) && SelectableWithin(r, q) {
      forall a | a in q && a.IsSelectable() ensures In(a, CandidateReady) in s || In(a, CandidateBest) in s {
        var b := if In(a, CandidateReady) in r then In(a, CandidateReady) else In(a, CandidateBest);
        assert b in r && b.IsSelectable() && In(b, CandidateReady) == In(a, CandidateReady) &&
            In(b, CandidateBest) == In(a, CandidateBest);
      }
    }
  }

  lemma IndexModified(salt: Salt, s: seq<Announcement>, i: nat, j: nat, b: Announcement)
    requires Ordered(salt, s) && i < |s| && j < |s| && FitsAt(salt, RemoveAt(s, i), j, b) && b.Id() == s[i].Id()
    ensures Ordered(salt, InsertAt(RemoveAt(s, i), j, b))
    ensures Replaced(s, InsertAt(RemoveAt(s, i), j, b), s[i], b)
  {
    RemoveKeepsOrder(salt, s, i);
    InsertKeepsOrder(salt, RemoveAt(s, i), j, b);
  }

  lemma ModelModified(salt: Salt, s: seq<Announcement>, i: nat, j: nat, b: Announcement)
    requires Ordered(salt, s) && i < |s| && j < |s| && FitsAt(salt, RemoveAt(s, i), j, b) && b.Id() == s[i].Id()
    requires Unique(InsertAt(RemoveAt(s, i), j, b))
    ensures ModelOf(InsertAt(RemoveAt(s, i), j, b)) == ModelOf(s)[b.Id() := b.Track()]
    ensures b.Track() == s[i].Track() ==> ModelOf(InsertAt(RemoveAt(s, i), j, b)) == ModelOf(s)
  {
    var rest := RemoveAt(s, i);
    RemoveKeepsOrder(salt, s, i);
    ModelRemoved(salt, s, i);
    ModelInserted(salt, rest, j, b);
    ModelEntry(s, s[i]);
    MapReplaced(ModelOf(s), b.Id(), b.Track());
  }

  lemma MapReplaced(m: Model, k: Key, t: Tracked)
    ensures (m - {k})[k := t] == m[k := t]
    ensures k in m && m[k] == t ==> m[k := t] == m
  {
  }

  lemma PeersModified(s: seq<Announcement>, i: nat, j: nat, b: Announcement, info: map<NodeId, PeerInfo>, x: PeerInfo)
    requires i < |s| && j < |s| && b.peer == s[i].peer && PeersMatch(s, info)
    requires b.peer in info
    requires var y := info[b.peer];
             && x.total == y.total
             && x.completed + (if s[i].state.StateCompleted? then 1
                 else 0) == y.completed + (if b.state.StateCompleted? then 1 else 0)
             && x.requested + (if s[i].state.StateRequested? then 1
                 else 0) == y.requested + (if b.state.StateRequested? then 1 else 0)
    ensures PeersMatch(InsertAt(RemoveAt(s, i), j, b), info[b.peer := x])
  {
    var r, info' := InsertAt(RemoveAt(s, i), j, b), info[b.peer := x];
    forall p ensures PeerMatches(r, info', p) {
      TallyRemoved(s, i, p);
      TallyInserted(RemoveAt(s, i), j, b, p);
      assert PeerMatches(s, info, p);
    }
  }

  // ---- How one inventory stays sane ---------------------------------------------------------

  /** A promoted announcement with nothing selected behind it becomes the best. */
  lemma PromotedAlone(salt: Salt, s: seq<Announcement>, s1: seq<Announcement>, s2: seq<Announcement>, i: nat,
      a: Announcement)
    requires i < |s1| && s1[i] == In(a, CandidateReady)
    requires Sorted(salt, s1) && Replaced(s, s1, a, s1[i])
    requires i + 1 == |s1| || s1[i + 1].invid != a.invid || s1[i + 1].state.StateCompleted?
    requires Replaced(s1, s2, s1[i], In(a, CandidateBest))
    ensures SaneFor(salt, s2, a.invid)
  {
    var b := In(a, CandidateBest);
    assert b in s2;
    forall x | x in s2 && x.invid == a.invid && x != b
      ensures !x.IsSelected() && (x.state.CandidateReady? ==> Priority(salt, x) <= Priority(salt, b))
    {
      NothingSelectedAfter(salt, s1, i, x);
    }
  }

  /** `a` is best and `o` only ready now. */
  ghost predicate Overtaken(s: seq<Announcement>, r: seq<Announcement>, a: Announcement, o: Announcement) {
    forall x :: x in r <==> x == In(a, CandidateBest) || x == In(o, CandidateReady) || (x in s && x != a && x != o)
  }

  /** A promoted announcement that beats the best one takes its place. */
  lemma PromotedOver(salt: Salt, s: seq<Announcement>, s1: seq<Announcement>, s3: seq<Announcement>,
                     i: nat, a: Announcement, o: Announcement)
    requires SaneFor(salt, s, a.invid) && Unique(s1)
    requires i + 1 < |s1| && s1[i] == In(a, CandidateReady) && s1[i + 1] == o
    requires Sorted(salt, s1) && Replaced(s, s1, a, s1[i])
    requires o.invid == a.invid && o.state.CandidateBest? && Priority(salt, a) > Priority(salt, o)
    requires Overtaken(s1, s3, s1[i], o)
    ensures SaneFor(salt, s3, a.invid)
  {
    var b, r := In(a, CandidateBest), s1[i];
    assert b in s3 && o in s1 && o in s;
    forall x | x in s3 && x.invid == a.invid && x != b
      ensures !x.IsSelected() && (x.state.CandidateReady? ==> Priority(salt, x) <= Priority(salt, b))
    {
      if x != In(o, CandidateReady) {
        assert x in s1 && x != o && x != r;
        assert x in s;
        if x.state.CandidateReady? { ReadyBeforeSelected(salt, s1, i, x); }
      }
    }
  }

  /** A promoted announcement that does not beat what is selected stays ready. */
  lemma PromotedBehind(salt: Salt, s: seq<Announcement>, s1: seq<Announcement>, i: nat, a: Announcement)
    requires SaneFor(salt, s, a.invid) && a.state.CandidateDelayed?
    requires i + 1 < |s1| && s1[i] == In(a, CandidateReady)
    requires Sorted(salt, s1) && Unique(s1) && Replaced(s, s1, a, s1[i])
    requires s1[i + 1].invid == a.invid && !s1[i + 1].state.StateCompleted?
    requires s1[i + 1].state.CandidateBest? ==> Priority(salt, a) <= Priority(salt, s1[i + 1])
    ensures SaneFor(salt, s1, a.invid)
  {
    var n, r := s1[i + 1], s1[i];
    assert Le(salt, r, n) && r.Id() != n.Id();
    assert n in s1 && n in s && r in s1;
    var sel :| sel in s && sel.invid == a.invid && sel.IsSelected();
    assert sel in s1;
    forall x, y | x in s1 && y in s1 && x.invid == y.invid == a.invid && x.state.CandidateBest? &&
        y.state.CandidateReady?
      ensures Priority(salt, x) >= Priority(salt, y)
    {
      assert x in s && x == sel;
      if y == r {
        if n.state.CandidateReady? { assert Priority(salt, x) >= Priority(salt, n); }
      }
    }
  }

  /** The ready announcement directly before a selected one succeeds it. */
  lemma Reselected(salt: Salt, s: seq<Announcement>, s1: seq<Announcement>, s2: seq<Announcement>, i: nat, st: State)
    requires Ordered(salt, s) && 0 < i < |s| && SaneFor(salt, s, s[i].invid) && s[i].IsSelected()
    requires s[i - 1].invid == s[i].invid && s[i - 1].state.CandidateReady?
    requires st.StateCompleted? || st.CandidateDelayed?
    requires Replaced(s, s1, s[i - 1], In(s[i - 1], CandidateBest))
    requires Replaced(s1, s2, s[i], In(s[i], st))
    ensures SaneFor(salt, s2, s[i].invid)
  {
    var a, p := s[i], s[i - 1];
    var b := In(p, CandidateBest);
    assert s[i - 1].Id() != s[i].Id();
    assert b in s1 && b in s2;
    forall x | x in s2 && x.invid == a.invid && x != b
      ensures !x.IsSelected() && (x.state.CandidateReady? ==> Priority(salt, x) <= Priority(salt, b))
    {
      if x != In(a, st) {
        assert x in s && x != a && x != p && a in s;
        if x.state.CandidateReady? { PrevIsBestReady(salt, s, i, x); }
      }
    }
  }

  /** A selected announcement without a ready neighbour leaves nothing to select. */
  lemma NothingToReselect(salt: Salt, s: seq<Announcement>, s2: seq<Announcement>, i: nat, st: State)
    requires Ordered(salt, s) && i < |s| && SaneFor(salt, s, s[i].invid)
    requires !s[i].IsSelected() || i == 0 || s[i - 1].invid != s[i].invid || !s[i - 1].state.CandidateReady?
    requires st.StateCompleted? || st.CandidateDelayed?
    requires st.StateCompleted? ==> exists x :: x in s && x.invid == s[i].invid && x != s[i] && !x.state.StateCompleted?
    requires Replaced(s, s2, s[i], In(s[i], st))
    ensures SaneFor(salt, s2, s[i].invid)
  {
    var a := s[i];
    assert a in s && In(a, st) in s2;
    if a.IsSelected() {
      forall x | x in s && x.invid == a.invid && x != a ensures !x.IsSelected() && !x.state.CandidateReady? {
        if x.state.CandidateReady? {
          SelectedNotFirst(salt, s, i, x);
          PrevIsBestReady(salt, s, i, x);
        }
      }
    } else {
      forall x | x in s2 && x.invid == a.invid && x.state.CandidateReady?
        ensures exists y :: y in s2 && y.invid == a.invid && y.IsSelected()
      {
        assert x in s;
        var y :| y in s && y.invid == a.invid && y.IsSelected();
        assert y in s2;
      }
    }
    if st.StateCompleted? {
      var x :| x in s && x.invid == s[i].invid && x != s[i] && !x.state.StateCompleted?;
      assert x in s2;
    }
  }

  // ---- Announcement order -------------------------------------------------------------------

  ghost predicate InSequence(s: seq<Announcement>) {
    forall i, j :: 0 <= i < j < |s| ==> s[i].sequence <= s[j].sequence
  }

  function InsertInSequence(a: Announcement, s: seq<Announcement>): seq<Announcement> {
    if s == [] || a.sequence <= s[0].sequence then [a] + s else [s[0]] + InsertInSequence(a, s[1..])
  }

  /** std::sort by sequence number. */
  function SortBySequence(s: seq<Announcement>): seq<Announcement> {
    if s == [] then [] else InsertInSequence(s[0], SortBySequence(s[1..]))
  }

  lemma {:induction false} InsertIsSorted(a: Announcement, s: seq<Announcement>)
    requires InSequence(s)
    ensures InSequence(InsertInSequence(a, s))
    ensures multiset(InsertInSequence(a, s)) == multiset(s) + multiset{a}
  {
    if !(s == [] || a.sequence <= s[0].sequence) {
      var r := InsertInSequence(a, s[1..]);
      InsertIsSorted(a, s[1..]);
      assert s == [s[0]] + s[1..];
      HeadIsLeast(a, s, r);
      PrependSorted(s[0], r);
    }
  }

  lemma HeadIsLeast(a: Announcement, s: seq<Announcement>, r: seq<Announcement>)
    requires InSequence(s) && s != [] && a.sequence >= s[0].sequence && multiset(r) == multiset(s[1..]) + multiset{a}
    ensures forall x :: x in r ==> s[0].sequence <= x.sequence
  {
    forall x | x in r ensures s[0].sequence <= x.sequence {
      assert x in multiset(r);
      assert x == a || x in s[1..];
    }
  }

  lemma PrependSorted(a: Announcement, r: seq<Announcement>)
    requires InSequence(r) && forall x :: x in r ==> a.sequence <= x.sequence
    ensures InSequence([a] + r)
  {
  }

  lemma {:induction false} SortIsSorted(s: seq<Announcement>)
    ensures InSequence(SortBySequence(s)) && multiset(SortBySequence(s)) == multiset(s)
  {
    if s != [] {
      SortIsSorted(s[1..]);
      InsertIsSorted(s[0], SortBySequence(s[1..]));
      assert s == [s[0]] + s[1..];
    }
  }

  ghost predicate Distinct(s: seq<Announcement>) {
    forall i, j :: 0 <= i < j < |s| ==> s[i] != s[j]
  }

  lemma {:induction false} DistinctCount(s: seq<Announcement>)
    ensures Distinct(s) <==> forall a :: a in s ==> multiset(s)[a] == 1
  {
    if s != [] {
      var t := s[1..];
      DistinctCount(t);
      assert s == [s[0]] + t;
      assert forall a :: multiset(s)[a] == multiset(t)[a] + if a == s[0] then 1 else 0;
      if Distinct(s) {
        assert Distinct(t) && s[0] !in t;
      } else if Distinct(t) {
        assert s[0] in t;
        assert multiset(s)[s[0]] == 2;
      } else {
        var a :| a in t && multiset(t)[a] != 1;
        assert a in multiset(t) && multiset(t)[a] >= 2;
        assert a in s;
      }
    }
  }

  lemma SortKeepsContents(s: seq<Announcement>)
    ensures forall a :: a in SortBySequence(s) <==> a in s
    ensures Distinct(s) ==> Distinct(SortBySequence(s))
  {
    SortIsSorted(s);
    DistinctCount(s);
    DistinctCount(SortBySequence(s));
    forall a ensures a in SortBySequence(s) <==> a in s {
      assert a in multiset(SortBySequence(s)) <==> a in multiset(s);
    }
  }

  // ---- From the index to the model ----------------------------------------------------------

  lemma SaneModel(salt: Salt, s: seq<Announcement>)
    requires Ordered(salt, s) && Sane(salt, s)
    ensures AllAlive(ModelOf(s)) && OneRequest(ModelOf(s))
  {
    var m := ModelOf(s);
    forall k | k in m ensures Alive(m, k.invid) {
      var a := Lookup(s, k);
      assert SaneFor(salt, s, a.invid);
      var b :| b in s && b.invid == a.invid && !b.state.StateCompleted?;
      ModelEntry(s, b);
      assert b.Id() in m && !m[b.Id()].status.Completed?;
    }
    forall j, k | j in m && k in m && j.invid == k.invid && m[j].status.Requested? && m[k].status.Requested?
        ensures j == k {
      assert SaneFor(salt, s, j.invid);
      assert Lookup(s, j) == Lookup(s, k);
    }
  }

  lemma SaneWithoutCompleted(salt: Salt, s: seq<Announcement>, r: seq<Announcement>, a: Announcement)
    requires Sane(salt, s) && a in s && a.state.StateCompleted?
    requires forall x :: x in r <==> x in s && x != a
    ensures Sane(salt, r)
  {
    assert SaneFor(salt, s, a.invid);
    assert SaneFor(salt, r, a.invid) by {
      var b :| b in s && b.invid == a.invid && !b.state.StateCompleted?;
      assert b in r;
    }
    SaneElsewhere(salt, s, r, a.invid);
  }

  lemma SaneWithout(salt: Salt, s: seq<Announcement>, r: seq<Announcement>, invid: InvId)
    requires Sane(salt, s) && SameElsewhere(s, r, invid) && forall a :: a in r ==> a.invid != invid
    ensures Sane(salt, r)
  {
    SaneElsewhere(salt, s, r, invid);
  }

  lemma ForgottenModel(s: seq<Announcement>, r: seq<Announcement>, invid: InvId)
    requires Unique(s) && Unique(r) && SameElsewhere(s, r, invid) && forall a :: a in r ==> a.invid != invid
    ensures ModelOf(r) == Forget(ModelOf(s), invid)
  {
    var m, n := ModelOf(s), ModelOf(r);
    forall k | k in n ensures k.invid != invid && k in m && m[k] == n[k] {
      var a := Lookup(r, k);
      ModelEntry(s, a);
    }
    forall k | k in m && k.invid != invid ensures k in n {
      ModelEntry(r, Lookup(s, k));
    }
  }

  lemma OthersCompleted(s: seq<Announcement>, a: Announcement)
    requires Unique(s) && a in s
    requires forall x :: x in s && x.invid == a.invid && x != a ==> x.state.StateCompleted?
    ensures forall j :: j in ModelOf(s) && j.invid == a.invid && j != a.Id() ==> ModelOf(s)[j].status.Completed?
  {
    forall j | j in ModelOf(s) && j.invid == a.invid && j != a.Id() ensures ModelOf(s)[j].status.Completed? {
      assert Lookup(s, j).Id() != a.Id();
    }
  }

  lemma StillAlive(s: seq<Announcement>, a: Announcement)
    requires Unique(s) && a in s && AllAlive(ModelOf(s)) && !a.state.StateCompleted?
    requires !forall x :: x in s && x.invid == a.invid && x != a ==> x.state.StateCompleted?
    ensures Respond(ModelOf(s), a.Id()) == ModelOf(s)[a.Id() := In(a, StateCompleted).Track()]
  {
    var w :| w in s && w.invid == a.invid && w != a && !w.state.StateCompleted?;
    ModelEntry(s, a);
    ModelEntry(s, w);
    assert w.Id() != a.Id() by { if w.Id() == a.Id() { UniqueMeansSame(s, a, w); } }
    RespondAmongOthers(ModelOf(s), a.Id(), w.Id());
  }

  ghost function WaitingSet(s: seq<Announcement>): set<Announcement> {
    set a | a in s && a.IsWaiting()
  }

  /** Everything reported so far expired no later than what still waits. */
  ghost predicate ReportedBefore(m0: Model, out: seq<Key>, s: seq<Announcement>) {
    forall k, a :: k in out && k in m0 && m0[k].status.Requested? && a in s && a.IsWaiting() ==>
        m0[k].status.expiry <= a.time
  }

  /** If the first announcement in time order is not waiting, none is; else it has waited longest. */
  lemma FirstWaits(s: seq<Announcement>, i: nat)
    requires FirstInTime(s, i)
    ensures forall a :: a in s && a.IsWaiting() ==> s[i].IsWaiting() && s[i].time <= a.time
  {
  }

  /** Completing the first expired request reports it in order. */
  lemma ReportedNext(m0: Model, s: seq<Announcement>, now: Time, out: seq<Key>, i: nat)
    requires Unique(s) && AllAlive(ModelOf(s)) && FirstInTime(s, i) && s[i].state.StateRequested? && s[i].time <= now
    requires Reported(m0, ModelOf(s), now, out) && ReportedBefore(m0, out, s)
    ensures Reported(m0, Respond(ModelOf(s), s[i].Id()), now, out + [s[i].Id()])
    ensures Expire(Respond(ModelOf(s), s[i].Id()), now) == Expire(ModelOf(s), now)
    ensures ReportedBefore(m0, out + [s[i].Id()], s)
  {
    var a, k, m := s[i], s[i].Id(), ModelOf(s);
    ModelEntry(s, a);
    assert a in s && m[k].status == Requested(a.time);
    ReportedStep(m0, m, now, out, k);
    ExpireStep(m, k, now);
    FirstWaits(s, i);
    forall j, b | j in out + [k] && j in m0 && m0[j].status.Requested? && b in s && b.IsWaiting()
      ensures m0[j].status.expiry <= b.time
    {
      assert j in out || j == k;
    }
  }

  lemma NothingReported(m: Model, now: Time, s: seq<Announcement>)
    ensures Reported(m, m, now, []) && ReportedBefore(m, [], s)
  {
  }

  lemma ReportedBeforeLess(m0: Model, out: seq<Key>, s: seq<Announcement>, r: seq<Announcement>)
    requires ReportedBefore(m0, out, s) && WaitingWithin(s, r)
    ensures ReportedBefore(m0, out, r)
  {
  }

  lemma LastSelectable(s: seq<Announcement>, i: nat)
    requires LastInTime(s, i)
    ensures forall a :: a in s && a.IsSelectable() ==> s[i].IsSelectable() && a.time <= s[i].time
  {
  }

  lemma NoneExpired(s: seq<Announcement>, now: Time)
    requires Unique(s) && forall a :: a in s && a.IsWaiting() ==> a.time > now
    ensures forall k :: k in ModelOf(s) ==> !Expired(ModelOf(s)[k], now)
  {
    forall k | k in ModelOf(s) ensures !Expired(ModelOf(s)[k], now) {
      assert Lookup(s, k) in s;
    }
  }

  ghost function SelectableKeys(s: seq<Announcement>): set<Key> {
    set a | a in s && a.IsSelectable() :: a.Id()
  }

  lemma FewerSelectable(s: seq<Announcement>, r: seq<Announcement>, a: Announcement)
    requires Unique(r) && SelectableWithin(s, r) && a in s && a.IsSelectable() && In(a, CandidateDelayed) in r
    ensures SelectableKeys(r) < SelectableKeys(s)
  {
    forall k | k in SelectableKeys(r) ensures k in SelectableKeys(s) && k != a.Id() {
      var b :| b in r && b.IsSelectable() && b.Id() == k;
      assert In(b, CandidateReady).Id() == k && In(b, CandidateBest).Id() == k;
      if k == a.Id() { UniqueMeansSame(r, b, In(a, CandidateDelayed)); }
    }
    assert a.Id() in SelectableKeys(s);
  }

  lemma SaneWithDelayed(salt: Salt, s: seq<Announcement>, r: seq<Announcement>, a: Announcement)
    requires Sane(salt, s) && a.state.CandidateDelayed? && forall x :: x in r <==> x in s || x == a
    ensures Sane(salt, r)
  {
    assert SaneFor(salt, s, a.invid);
    assert SaneFor(salt, r, a.invid) by {
      assert a in r && !a.state.StateCompleted?;
      forall x | x in r && x.invid == a.invid && x.state.CandidateReady?
        ensures exists y :: y in r && y.invid == a.invid && y.IsSelected()
      {
        assert x in s;
        var y :| y in s && y.invid == a.invid && y.IsSelected();
        assert y in r;
      }
    }
    SaneElsewhere(salt, s, r, a.invid);
  }

  lemma PeersInserted(s: seq<Announcement>, j: nat, a: Announcement, info: map<NodeId, PeerInfo>)
    requires j <= |s| && a.state.CandidateDelayed? && PeersMatch(s, info)
    ensures var x := if a.peer in info then info[a.peer] else PeerInfo(0, 0, 0);
            PeersMatch(InsertAt(s, j, a), info[a.peer := x.(total := x.total + 1)])
  {
    var x := if a.peer in info then info[a.peer] else PeerInfo(0, 0, 0);
    var r, info' := InsertAt(s, j, a), info[a.peer := x.(total := x.total + 1)];
    forall p ensures PeerMatches(r, info', p) {
      TallyInserted(s, j, a, p);
      assert PeerMatches(s, info, p);
      if Tally(s, p).total == 0 { NoAnnouncements(s, p); }
    }
  }

  lemma NoAnnouncements(s: seq<Announcement>, p: NodeId)
    requires Tally(s, p).total == 0
    ensures Tally(s, p) == PeerInfo(0, 0, 0)
  {
    CountIsZero(s, OfPeer(p));
    CountIsZero(s, OfPeerIn(p, StateCompleted));
    CountIsZero(s, OfPeerIn(p, StateRequested));
  }

  ghost function OfPeerSet(s: seq<Announcement>, peer: NodeId): set<Announcement> {
    set a | a in s && a.peer == peer
  }

  /** Completing and erasing `a` leaves the peer's other announcements as they are. */
  lemma OneLessOfPeer(s: seq<Announcement>, r: seq<Announcement>, a: Announcement)
    requires Unique(s) && a in s && SameElsewhere(s, r, a.invid) && Unique(r)
    requires forall x :: x in r ==> x.Id() != a.Id()
    ensures OfPeerSet(r, a.peer) == OfPeerSet(s, a.peer) - {a}
  {
    forall x | x in OfPeerSet(s, a.peer) && x != a ensures x in r {
      if x.invid == a.invid { UniqueMeansSame(s, x, a); }
    }
    forall x | x in OfPeerSet(r, a.peer) ensures x in s && x != a {
      assert x.Id() != a.Id();
    }
  }

  lemma NoneOfPeer(s: seq<Announcement>, peer: NodeId)
    requires Unique(s) && forall a :: a in s ==> a.peer != peer
    ensures forall k :: k in ModelOf(s) ==> k.peer != peer
  {
  }

  lemma NotInModel(s: seq<Announcement>, k: Key)
    requires Unique(s)
    ensures k !in ModelOf(s) <==> forall x :: x in s ==> x.Id() != k
  {
  }

  ghost predicate NoneSelected(s: seq<Announcement>, invid: InvId) {
    forall x :: x in s && x.invid == invid ==> !x.IsSelected()
  }

  ghost predicate SaneOthers(salt: Salt, s: seq<Announcement>, invid: InvId) {
    forall v: InvId :: v != invid ==> SaneFor(salt, s, v)
  }

  lemma SaneOthersTransfers(salt: Salt, s: seq<Announcement>, r: seq<Announcement>, invid: InvId)
    requires SaneOthers(salt, s, invid) && SameElsewhere(s, r, invid)
    ensures SaneOthers(salt, r, invid)
  {
    forall v: InvId | v != invid ensures SaneFor(salt, r, v) {
      assert SaneFor(salt, s, v);
      SaneTransfers(salt, s, r, v);
    }
  }

  /** A requested announcement makes its inventory sane if nothing else is selected. */
  lemma SaneRequested(salt: Salt, s: seq<Announcement>, r: seq<Announcement>, a: Announcement, b: Announcement)
    requires SaneOthers(salt, s, a.invid) && Replaced(s, r, a, b) && b.state.StateRequested? && a.invid == b.invid &&
               a in s
    requires forall x :: x in s && x.invid == a.invid && x != a ==> !x.IsSelected()
    ensures Sane(salt, r)
  {
    ReplacedFrame(s, r, a, b);
    SaneOthersTransfers(salt, s, r, a.invid);
    assert b in r;
    assert SaneFor(salt, r, a.invid);
  }

  lemma OnlySelected(salt: Salt, s: seq<Announcement>, a: Announcement)
    requires Ordered(salt, s) && Sane(salt, s) && a in s && a.state.CandidateBest?
    ensures forall x :: x in s && x.invid == a.invid && x != a ==> !x.IsSelected()
    ensures GiveUp(ModelOf(s), a.invid) == ModelOf(s)
  {
    assert SaneFor(salt, s, a.invid);
    forall j | j in ModelOf(s) && j.invid == a.invid ensures !ModelOf(s)[j].status.Requested? {
      assert Lookup(s, j).IsSelected() ==> Lookup(s, j) == a;
    }
    NothingToGiveUp(ModelOf(s), a.invid);
  }

  lemma GivesUp(salt: Salt, s: seq<Announcement>, o: Announcement, st: State)
    requires Ordered(salt, s) && Sane(salt, s) && o in s && o.IsSelected()
    requires if o.state.CandidateBest? then st.CandidateReady? else st.StateCompleted?
    ensures ModelOf(s)[o.Id() := In(o, st).Track()] == GiveUp(ModelOf(s), o.invid)
  {
    ModelEntry(s, o);
    if o.state.CandidateBest? {
      OnlySelected(salt, s, o);
    } else {
      SaneModel(salt, s);
      GiveUpOne(ModelOf(s), o.Id());
    }
  }

  lemma NothingRequested(s: seq<Announcement>, invid: InvId)
    requires Unique(s) && NoneRequested(s, invid)
    ensures GiveUp(ModelOf(s), invid) == ModelOf(s)
  {
    forall j | j in ModelOf(s) && j.invid == invid ensures !ModelOf(s)[j].status.Requested? {
      assert Lookup(s, j) in s;
    }
    NothingToGiveUp(ModelOf(s), invid);
  }

  ghost predicate NoneRequested(s: seq<Announcement>, invid: InvId) {
    forall x :: x in s && x.invid == invid ==> !x.state.StateRequested?
  }

  /** The first announcement at or after (invid, CandidateBest) tells whether one is selected. */
  lemma SelectedIsLowerBound(salt: Salt, s: seq<Announcement>, i: nat, invid: InvId)
    requires Sorted(salt, s) && i <= |s|
    requires forall x :: 0 <= x < i ==> s[x].invid < invid || (s[x].invid == invid && s[x].state.Rank() < 2)
    requires i == |s| || s[i].invid > invid || (s[i].invid == invid && s[i].state.StateCompleted?)
    ensures NoneSelected(s, invid)
  {
    forall a | a in s && a.invid == invid ensures !a.IsSelected() {
      var x :| 0 <= x < |s| && s[x] == a;
      assert x > i ==> Le(salt, s[i], s[x]);
    }
  }

  lemma NoneSelectedAfter(salt: Salt, s: seq<Announcement>, r: seq<Announcement>, o: Announcement, b: Announcement)
    requires SaneFor(salt, s, o.invid) && o in s && o.IsSelected() && Replaced(s, r, o, b) && !b.IsSelected()
    ensures NoneSelected(r, o.invid)
  {
  }

  /** `it` is the peer's first announcement in ByPeer order, if it has any. */
  ghost predicate FirstOfPeer(s: seq<Announcement>, peer: NodeId, it: Option<Announcement>) {
    && (it.Some? && it.value.peer == peer ==> it.value in s)
    && forall a :: a in s && a.peer == peer ==>
        it.Some? && it.value.peer == peer && !PeerLt(ViewOf(a), ViewOf(it.value))
  }

  /** `o` is the first announcement in ByPeer order after `v`. */
  ghost predicate FirstAfter(s: seq<Announcement>, v: PeerView, o: Option<Announcement>) {
    && (o.Some? ==> o.value in s && PeerLt(v, ViewOf(o.value)))
    && forall a :: a in s && PeerLt(v, ViewOf(a)) ==> o.Some? && !PeerLt(ViewOf(a), ViewOf(o.value))
  }

  lemma IteratorAdvances(s: seq<Announcement>, r: seq<Announcement>, a: Announcement, next: Option<Announcement>)
    requires Unique(s) && a in s && FirstOfPeer(s, a.peer, Some(a)) && FirstAfter(s, ViewOf(a), next)
    requires OfPeerSet(r, a.peer) == OfPeerSet(s, a.peer) - {a}
    ensures FirstOfPeer(r, a.peer, if next.None? || next.value.peer != a.peer then None else next)
  {
    forall b | b in r && b.peer == a.peer
      ensures next.Some? && next.value.peer == a.peer && !PeerLt(ViewOf(b), ViewOf(next.value))
    {
      assert b in OfPeerSet(r, a.peer);
      assert b in s && b != a;
      if b.Id() == a.Id() { UniqueMeansSame(s, a, b); }
      assert PeerLt(ViewOf(a), ViewOf(b));
    }
    if next.Some? && next.value.peer == a.peer {
      assert next.value in OfPeerSet(s, a.peer) && next.value != a;
      assert next.value in OfPeerSet(r, a.peer);
    }
  }

  predicate BestOfPeer(a: Announcement, peer: NodeId) {
    a.peer == peer && a.state.CandidateBest?
  }

  ghost function BestLeft(s: seq<Announcement>, peer: NodeId, taken: seq<Announcement>): set<Announcement> {
    set a | a in s && BestOfPeer(a, peer) && a !in taken
  }

  /** The peer announced one inventory before the other. */
  ghost predicate Earlier(s: seq<Announcement>, peer: NodeId, v: InvId, w: InvId)
    requires Unique(s)
  {
    && Key(peer, v) in ModelOf(s) && Key(peer, w) in ModelOf(s)
    && ModelOf(s)[Key(peer, v)].sequence < ModelOf(s)[Key(peer, w)].sequence
  }

  ghost predicate AllBest(s: seq<Announcement>, peer: NodeId, out: seq<InvId>) {
    forall v :: v in out <==> exists a :: a in s && BestOfPeer(a, peer) && a.invid == v
  }

  /** `out` lists the peer's best choices, in announcement order. */
  ghost predicate ListsBest(s: seq<Announcement>, peer: NodeId, out: seq<InvId>)
    requires Unique(s)
  {
    AllBest(s, peer, out) && forall i, j :: 0 <= i < j < |out| ==> Earlier(s, peer, out[i], out[j])
  }

  function InvIds(s: seq<Announcement>): seq<InvId> {
    seq(|s|, i requires 0 <= i < |s| => s[i].invid)
  }

  lemma SortedContents(s: seq<Announcement>, peer: NodeId, selected: seq<Announcement>)
    requires Distinct(selected) && forall a :: a in selected <==> a in s && BestOfPeer(a, peer)
    ensures AllBest(s, peer, InvIds(SortBySequence(selected)))
  {
    hide SortBySequence;
    var t := SortBySequence(selected);
    var out := InvIds(t);
    SortKeepsContents(selected);
    forall v | v in out ensures exists a :: a in s && BestOfPeer(a, peer) && a.invid == v {
      var i :| 0 <= i < |out| && out[i] == v;
      assert t[i] in selected && t[i].invid == v;
    }
    forall a | a in s && BestOfPeer(a, peer) ensures a.invid in out {
      var i :| 0 <= i < |t| && t[i] == a;
      assert out[i] == a.invid;
    }
  }

  lemma SortedOrder(s: seq<Announcement>, next: nat, peer: NodeId, selected: seq<Announcement>, i: nat, j: nat)
    requires Unique(s) && Sequenced(Tracker(ModelOf(s), next)) && Distinct(selected)
    requires forall a :: a in selected <==> a in s && BestOfPeer(a, peer)
    requires i < j < |InvIds(SortBySequence(selected))|
    ensures Earlier(s, peer, InvIds(SortBySequence(selected))[i], InvIds(SortBySequence(selected))[j])
  {
    hide SortBySequence, ModelOf;
    var t := SortBySequence(selected);
    SortIsSorted(selected);
    SortKeepsContents(selected);
    ModelEntry(s, t[i]);
    ModelEntry(s, t[j]);
    assert t[i].Id() != t[j].Id() by {
      if t[i].Id() == t[j].Id() { UniqueMeansSame(s, t[i], t[j]); }
    }
  }

  lemma SortedListsBest(s: seq<Announcement>, next: nat, peer: NodeId, selected: seq<Announcement>)
    requires Unique(s) && Sequenced(Tracker(ModelOf(s), next)) && Distinct(selected)
    requires forall a :: a in selected <==> a in s && BestOfPeer(a, peer)
    ensures ListsBest(s, peer, InvIds(SortBySequence(selected)))
  {
    hide SortBySequence, InvIds, Earlier, AllBest;
    SortedContents(s, peer, selected);
    var out := InvIds(SortBySequence(selected));
    forall i, j | 0 <= i < j < |out| ensures Earlier(s, peer, out[i], out[j]) {
      SortedOrder(s, next, peer, selected, i, j);
    }
  }

  /** PostGetRequestableSanityCheck. */
  ghost predicate AtTime(s: seq<Announcement>, now: Time) {
    forall a :: a in s ==> (a.IsWaiting() ==> a.time > now) && (a.IsSelectable() ==> a.time <= now)
  }

  /** At a point in time, CandidateBest is what the specification calls the best choice ... */
  lemma BestIsBestChoice(salt: Salt, s: seq<Announcement>, now: Time, a: Announcement)
    requires Ordered(salt, s) && Sane(salt, s) && AtTime(s, now) && a in s && a.state.CandidateBest?
    ensures BestChoice(salt, ModelOf(s), a.Id(), now)
  {
    var m := ModelOf(s);
    ModelEntry(s, a);
    assert SaneFor(salt, s, a.invid);
    forall j | j in m && j.invid == a.invid ensures !m[j].status.Requested? {
      assert Lookup(s, j).IsSelected() ==> Lookup(s, j) == a;
    }
    forall j: Key | j.invid == a.invid && Requestable(m, j, now)
      ensures PriorityOf(salt, m, j) <= PriorityOf(salt, m, a.Id())
    {
      var b := Lookup(s, j);
      assert b.state.CandidateReady? || b == a;
    }
  }

  /** ... and every requestable inventory has one. */
  lemma RequestableHasBest(salt: Salt, s: seq<Announcement>, now: Time, k: Key)
    requires Ordered(salt, s) && Sane(salt, s) && AtTime(s, now) && Requestable(ModelOf(s), k, now)
    ensures exists a :: a in s && a.invid == k.invid && a.state.CandidateBest?
  {
    var a := Lookup(s, k);
    assert SaneFor(salt, s, k.invid);
    assert a.IsSelectable();
    if a.state.CandidateReady? {
      var b :| b in s && b.invid == k.invid && b.IsSelected();
      ModelEntry(s, b);
      assert !ModelOf(s)[b.Id()].status.Requested?;
      assert b.state.CandidateBest?;
    }
  }

  class InvRequestTracker {
    const salt: Salt
    var index: seq<Announcement>
    var peerinfo: map<NodeId, PeerInfo>
    var currentSequence: nat

    /** What Erase and Modify keep, also while an operation is under way. */
    ghost predicate Consistent()
      reads this
    {
      Ordered(salt, index) && PeersMatch(index, peerinfo)
    }

    ghost function Abstract(): Tracker
      requires Consistent()
      reads this
    {
      Tracker(ModelOf(index), currentSequence)
    }

    ghost predicate Valid()
      reads this
    {
      Consistent() && Sane(salt, index) && Sequenced(Abstract())
    }

    constructor (salt: Salt)
      ensures Valid() && this.salt == salt
      ensures Abstract() == Run([])
    {
      this.salt := salt;
      index, peerinfo, currentSequence := [], map[], 0;
    }

    // ---- Wrappers around the container ------------------------------------------------------

    method Erase(i: nat)
      requires Consistent() && i < |index|
      modifies this
      ensures Consistent() && index == RemoveAt(old(index), i) && currentSequence == old(currentSequence)
      ensures ModelOf(index) == ModelOf(old(index)) - {old(index[i]).Id()}
      ensures forall a :: a in index <==> a in old(index) && a != old(index[i])
    {
      hide Tally, ModelOf, RemoveAt;
      var a := index[i];
      TallyRemoved(index, i, a.peer);
      assert PeerMatches(index, peerinfo, a.peer);
      var info := peerinfo[a.peer];
      info := info.(completed := info.completed - if a.state.StateCompleted? then 1 else 0);
      info := info.(requested := info.requested - if a.state.StateRequested? then 1 else 0);
      info := info.(total := info.total - 1);
      if info.total == 0 {
        peerinfo := peerinfo - {a.peer};
      } else {
        peerinfo := peerinfo[a.peer := info];
      }
      index := RemoveAt(index, i);
      RemoveKeepsOrder(salt, old(index), i);
      ModelRemoved(salt, old(index), i);
      forall p ensures PeerMatches(index, peerinfo, p) {
        TallyRemoved(old(index), i, p);
        assert PeerMatches(old(index), old(peerinfo), p);
      }
    }

    /** Boost's modify may relink the announcement at any place its new key fits. */
    method Modify(i: nat, state: State, time: Time) returns (j: nat)
      requires Consistent() && i < |index|
      modifies this
      ensures Consistent() && currentSequence == old(currentSequence)
      ensures j < |index| == |old(index)| && index[j] == old(index[i]).(state := state, time := time)
      ensures index == InsertAt(RemoveAt(old(index), i), j, index[j])
      ensures Replaced(old(index), index, old(index[i]), index[j])
      ensures ModelOf(index) == ModelOf(old(index))[index[j].Id() := index[j].Track()]
      ensures index[j].Track() == old(index[i]).Track() ==> ModelOf(index) == ModelOf(old(index))
    {
      var a := index[i];
      var b := a.(state := state, time := time);
      TallyRemoved(index, i, a.peer);
      assert PeerMatches(index, peerinfo, a.peer);
      var info := peerinfo[a.peer];
      info := info.(completed := info.completed - if a.state.StateCompleted? then 1 else 0);
      info := info.(requested := info.requested - if a.state.StateRequested? then 1 else 0);
      RemoveKeepsOrder(salt, index, i);
      SomewhereFits(salt, RemoveAt(index, i), b);
      j :| 0 <= j < |index| && FitsAt(salt, RemoveAt(index, i), j, b);
      info := info.(completed := info.completed + if state.StateCompleted? then 1 else 0);
      info := info.(requested := info.requested + if state.StateRequested? then 1 else 0);
      IndexModified(salt, index, i, j, b);
      ModelModified(salt, index, i, j, b);
      PeersModified(index, i, j, b, peerinfo, info);
      index := InsertAt(RemoveAt(index, i), j, b);
      peerinfo := peerinfo[a.peer := info];
    }

    /** The place in the ByInvId index of an announcement found through another index. */
    method Project(a: Announcement) returns (i: nat)
      requires a in index
      ensures i < |index| && index[i] == a
    {
      i := 0;
      while index[i] != a
        invariant i < |index| && a !in index[..i]
        decreases |index| - i
      {
        i := i + 1;
      }
    }

    /** The first announcement of the ByPeer index at (or, when strict, after) `v`. */
    method FirstByPeer(v: PeerView, strict: bool) returns (o: Option<Announcement>)
      ensures o.Some? ==>
                && o.value in index
                && if strict then PeerLt(v, ViewOf(o.value)) else !PeerLt(ViewOf(o.value), v)
      ensures forall a :: a in index && (if strict then PeerLt(v, ViewOf(a)) else !PeerLt(ViewOf(a), v)) ==>
                            o.Some? && !PeerLt(ViewOf(a), ViewOf(o.value))
    {
      o := None;
      for i := 0 to |index|
        invariant o.Some? ==>
                    && o.value in index
                    && if strict then PeerLt(v, ViewOf(o.value)) else !PeerLt(ViewOf(o.value), v)
        invariant forall a :: a in index[..i] && (if strict then PeerLt(v, ViewOf(a)) else !PeerLt(ViewOf(a), v)) ==>
                                o.Some? && !PeerLt(ViewOf(a), ViewOf(o.value))
      {
        var a := index[i];
        assert index[..i + 1] == index[..i] + [a];
        if (if strict then PeerLt(v, ViewOf(a)) else !PeerLt(ViewOf(a), v)) && (o.None? ||
            PeerLt(ViewOf(a), ViewOf(o.value))) {
          o := Some(a);
        }
      }
      assert index[..|index|] == index;
    }

    method FindByPeer(v: PeerView) returns (o: Option<Announcement>)
      requires Consistent()
      ensures o.Some? ==> o.value in index && ViewOf(o.value) == v
      ensures o.None? ==> forall a :: a in index ==> ViewOf(a) != v
    {
      o := FirstByPeer(v, false);
      if o.Some? && ViewOf(o.value) != v {
        o := None;
      }
    }

    /** The first place of the ByInvId index not below (invid, state, 0). */
    method LowerBound(invid: InvId, state: State) returns (i: nat)
      requires Consistent()
      ensures i <= |index|
      ensures forall x :: 0 <= x < i ==>
                index[x].invid < invid || (index[x].invid == invid && index[x].state.Rank() < state.Rank())
      ensures forall x :: i <= x < |index| ==>
                index[x].invid > invid || (index[x].invid == invid && index[x].state.Rank() >= state.Rank())
    {
      i := 0;
      while i < |index| && (index[i].invid < invid || (index[i].invid == invid && index[i].state.Rank() < state.Rank()))
        invariant i <= |index|
        invariant forall x :: 0 <= x < i ==>
                index[x].invid < invid || (index[x].invid == invid && index[x].state.Rank() < state.Rank())
      {
        i := i + 1;
      }
      assert forall x :: i < x < |index| ==> Le(salt, index[i], index[x]);
    }

    // ---- State changes ------------------------------------------------------------------------

    method PromoteCandidateReady(i: nat)
      requires Valid() && i < |index| && index[i].state.CandidateDelayed?
      modifies this
      ensures Valid() && Abstract() == old(Abstract())
      ensures WaitingWithin(old(index), index) && old(index[i]) !in index
    {
      ghost var s := index;
      var a := index[i];
      var it := Modify(i, CandidateReady, a.time);
      ghost var s1 := index;
      ReplacedFrame(s, s1, a, s1[it]);
      assert SaneFor(salt, s, a.invid);
      if it + 1 == |index| || index[it + 1].invid != index[it].invid || index[it + 1].state.StateCompleted? {
        var j := Modify(it, CandidateBest, a.time);
        ReplacedFrame(s1, index, s1[it], index[j]);
        FrameTransitive(s, s1, index, a.invid);
        PromotedAlone(salt, s, s1, index, it, a);
      } else if index[it + 1].state.CandidateBest? {
        var o := index[it + 1];
        var priorityOld := Priority(salt, o);
        var priorityNew := Priority(salt, index[it]);
        if priorityNew > priorityOld {
          Overtake(it);
          FrameTransitive(s, s1, index, a.invid);
          PromotedOver(salt, s, s1, index, it, a, o);
        } else {
          PromotedBehind(salt, s, s1, it, a);
        }
      } else {
        PromotedBehind(salt, s, s1, it, a);
      }
      SaneElsewhere(salt, s, index, a.invid);
    }

    /** The CandidateReady at `it` and the CandidateBest after it exchange their states. */
    method Overtake(it: nat)
      requires Consistent() && it + 1 < |index|
      requires index[it].state.CandidateReady? && index[it + 1].state.CandidateBest? &&
                 index[it].invid == index[it + 1].invid
      modifies this
      ensures Consistent() && currentSequence == old(currentSequence) && ModelOf(index) == ModelOf(old(index))
      ensures Overtaken(old(index), index, old(index[it]), old(index[it + 1]))
      ensures SameElsewhere(old(index), index, old(index[it]).invid) && WaitingWithin(old(index), index)
    {
      ghost var s1 := index;
      var a, o := index[it], index[it + 1];
      assert a.Id() != o.Id();
      var j := Modify(it + 1, CandidateReady, o.time);
      ghost var s2 := index;
      ReplacedFrame(s1, s2, o, s2[j]);
      assert a in s2;
      var k := Project(a);
      var l := Modify(k, CandidateBest, a.time);
      ReplacedFrame(s2, index, a, index[l]);
      FrameTransitive(s1, s2, index, a.invid);
    }

    method ChangeAndReselect(i: nat, state: State)
      requires Valid() && i < |index|
      requires state.StateCompleted? || state.CandidateDelayed?
      requires state.CandidateDelayed? ==> index[i].IsSelectable()
      requires state.StateCompleted? ==> !index[i].state.StateCompleted?
      requires state.StateCompleted? ==>
                 exists x :: x in index && x.invid == index[i].invid && x != index[i] && !x.state.StateCompleted?
      modifies this
      ensures Consistent() && Sane(salt, index) && currentSequence == old(currentSequence)
      ensures ModelOf(index) == ModelOf(old(index))[old(index[i]).Id() := In(old(index[i]), state).Track()]
      ensures state.CandidateDelayed? ==> ModelOf(index) == ModelOf(old(index))
      ensures In(old(index[i]), state) in index
      ensures SameElsewhere(old(index), index, old(index[i]).invid)
      ensures forall x :: x in index && x.IsWaiting() ==> x in old(index) || x == In(old(index[i]), state)
      ensures old(index[i]) !in index && SelectableWithin(old(index), index)
    {
      ghost var s := index;
      var a := index[i];
      assert SaneFor(salt, s, a.invid);
      assert a in s;
      if a.IsSelected() && i > 0 && index[i - 1].invid == a.invid && index[i - 1].state.CandidateReady? {
        SelectPrevious(i);
        ghost var s1 := index;
        var k := Project(a);
        var l := Modify(k, state, a.time);
        ReplacedFrame(s1, index, a, index[l]);
        FrameTransitive(s, s1, index, a.invid);
        Reselected(salt, s, s1, index, i, state);
      } else {
        var l := Modify(i, state, a.time);
        ReplacedFrame(s, index, a, index[l]);
        NothingToReselect(salt, s, index, i, state);
      }
      SaneElsewhere(salt, s, index, a.invid);
    }

    /** The CandidateReady before `i` becomes CandidateBest. */
    method SelectPrevious(i: nat)
      requires Consistent() && 0 < i < |index| && index[i - 1].state.CandidateReady? &&
                 index[i - 1].invid == index[i].invid
      modifies this
      ensures Consistent() && currentSequence == old(currentSequence) && ModelOf(index) == ModelOf(old(index))
      ensures Replaced(old(index), index, old(index[i - 1]), In(old(index[i - 1]), CandidateBest))
      ensures old(index[i]) in index && WaitingWithin(old(index), index)
      ensures SameElsewhere(old(index), index, old(index[i]).invid)
      ensures SelectableWithin(old(index), index)
    {
      ghost var s := index;
      var p := index[i - 1];
      assert p.Id() != index[i].Id() && index[i] in s;
      var j := Modify(i - 1, CandidateBest, p.time);
      ReplacedFrame(s, index, p, index[j]);
    }

    method IsOnlyNonCompleted(i: nat) returns (only: bool)
      requires Consistent() && i < |index| && !index[i].state.StateCompleted?
      ensures only <==> forall a :: a in index && a.invid == index[i].invid && a != index[i] ==> a.state.StateCompleted?
    {
      OnlyNonCompleted(salt, index, i);
      if i != 0 && index[i - 1].invid == index[i].invid {
        return false;
      }
      if i + 1 != |index| && index[i + 1].invid == index[i].invid && !index[i + 1].state.StateCompleted? {
        return false;
      }
      return true;
    }

    /** Erases the announcements of an inventory, which stand together from `i` on. */
    method EraseFrom(i: nat, invid: InvId)
      requires Consistent() && i <= |index|
      requires forall x :: 0 <= x < i ==> index[x].invid < invid
      requires forall x :: i <= x < |index| ==> index[x].invid >= invid
      modifies this
      ensures Consistent() && currentSequence == old(currentSequence)
      ensures forall a :: a in index ==> a.invid != invid
      ensures SameElsewhere(old(index), index, invid)
      ensures ModelOf(index) == Forget(ModelOf(old(index)), invid)
    {
      while i < |index| && index[i].invid == invid
        invariant Consistent() && currentSequence == old(currentSequence) && i <= |index|
        invariant forall x :: 0 <= x < i ==> index[x].invid < invid
        invariant forall x :: i <= x < |index| ==> index[x].invid >= invid
        invariant SameElsewhere(old(index), index, invid)
        decreases |index|
      {
        Erase(i);
      }
      assert forall x :: i < x < |index| ==> Le(salt, index[i], index[x]);
      ForgottenModel(old(index), index, invid);
    }

    method MakeCompleted(i: nat) returns (exists': bool)
      requires Valid() && i < |index|
      modifies this
      ensures Valid() && Abstract() == old(Abstract()).(model := Respond(old(Abstract()).model, old(index[i]).Id()))
      ensures exists' ==> In(old(index[i]), StateCompleted) in index
      ensures !exists' ==> forall x :: x in index ==> x.invid != old(index[i]).invid
      ensures SameElsewhere(old(index), index, old(index[i]).invid) && WaitingWithin(old(index), index)
      ensures old(index[i]) !in index || old(index[i]).state.StateCompleted?
    {
      if index[i].state.StateCompleted? {
        SaneModel(salt, index);
        ModelEntry(index, index[i]);
        RespondCompleted(ModelOf(index), index[i].Id());
        assert In(index[i], StateCompleted) == index[i];
        return true;
      }
      var only := IsOnlyNonCompleted(i);
      if only {
        DeleteLast(i);
        return false;
      }
      CompleteAmongOthers(i);
      return true;
    }

    /** MakeCompleted's branch for the last announcement that is not completed. */
    method DeleteLast(i: nat)
      requires Valid() && i < |index| && !index[i].state.StateCompleted?
      requires forall x :: x in index && x.invid == index[i].invid && x != index[i] ==> x.state.StateCompleted?
      modifies this
      ensures Valid() && Abstract() == old(Abstract()).(model := Respond(old(Abstract()).model, old(index[i]).Id()))
      ensures forall x :: x in index ==> x.invid != old(index[i]).invid
      ensures SameElsewhere(old(index), index, old(index[i]).invid) && WaitingWithin(old(index), index)
    {
      ghost var s, m := index, ModelOf(index);
      var a := index[i];
      SaneModel(salt, s);
      ModelEntry(s, a);
      OthersCompleted(s, a);
      RespondLast(m, a.Id());
      FirstOfInventory(i);
      EraseFrom(i, a.invid);
      SaneWithout(salt, s, index, a.invid);
      SequencedShrinks(Tracker(m, currentSequence), Abstract());
    }

    /** MakeCompleted's branch for an announcement that leaves others to try. */
    method CompleteAmongOthers(i: nat)
      requires Valid() && i < |index| && !index[i].state.StateCompleted?
      requires !forall x :: x in index && x.invid == index[i].invid && x != index[i] ==> x.state.StateCompleted?
      modifies this
      ensures Valid() && Abstract() == old(Abstract()).(model := Respond(old(Abstract()).model, old(index[i]).Id()))
      ensures In(old(index[i]), StateCompleted) in index && old(index[i]) !in index
      ensures SameElsewhere(old(index), index, old(index[i]).invid) && WaitingWithin(old(index), index)
    {
      ghost var s, m := index, ModelOf(index);
      var a := index[i];
      SaneModel(salt, s);
      ModelEntry(s, a);
      StillAlive(s, a);
      ChangeAndReselect(i, StateCompleted);
      SequencedShrinks(Tracker(m, currentSequence), Abstract());
    }

    lemma FirstOfInventory(i: nat)
      requires Consistent() && i < |index| && !index[i].state.StateCompleted?
      requires forall a :: a in index && a.invid == index[i].invid && a != index[i] ==> a.state.StateCompleted?
      ensures forall x :: 0 <= x < i ==> index[x].invid < index[i].invid
      ensures forall x :: i <= x < |index| ==> index[x].invid >= index[i].invid
    {
      forall x | 0 <= x < i ensures index[x].invid < index[i].invid {
        assert index[x] in index && index[x].Id() != index[i].Id() && Le(salt, index[x], index[i]);
      }
      forall x | i <= x < |index| ensures index[x].invid >= index[i].invid {
        assert x > i ==> Le(salt, index[i], index[x]);
      }
    }

    // ---- Moving time ------------------------------------------------------------------------------

    /** SetTimePoint's first loop: what the past has expired or made ready. */
    method CatchUp(now: Time) returns (expired: seq<Key>)
      requires Valid()
      modifies this
      ensures Valid() && Abstract() == old(Abstract()).(model := Expire(old(Abstract()).model, now))
      ensures forall a :: a in index && a.IsWaiting() ==> a.time > now
      ensures Reported(old(Abstract()).model, Abstract().model, now, expired)
    {
      hide Expire, Reported, ReportedBefore, Respond, AllAlive;
      ghost var m0 := ModelOf(index);
      expired := [];
      SaneModel(salt, index);
      NothingReported(m0, now, index);
      while index != []
        invariant Valid() && currentSequence == old(currentSequence)
        invariant AllAlive(ModelOf(index)) && Expire(ModelOf(index), now) == Expire(m0, now)
        invariant Reported(m0, ModelOf(index), now, expired)
        invariant ReportedBefore(m0, expired, index)
        decreases WaitingSet(index)
      {
        SomethingFirst(index);
        var it :| 0 <= it < |index| && FirstInTime(index, it);
        var a := index[it];
        ghost var s := index;
        if a.state.CandidateDelayed? && a.time <= now {
          PromoteCandidateReady(it);
        } else if a.state.StateRequested? && a.time <= now {
          ReportedNext(m0, s, now, expired, it);
          expired := expired + [a.Id()];
          var _ := MakeCompleted(it);
          SaneModel(salt, index);
        } else {
          FirstWaits(s, it);
          break;
        }
        ReportedBeforeLess(m0, expired, s, index);
        assert a in WaitingSet(s) && a !in WaitingSet(index);
      }
      NoneExpired(index, now);
      ExpireDone(ModelOf(index), now);
    }

    /** SetTimePoint's second loop: what a clock that went back makes wait again. */
    method WindBack(now: Time)
      requires Valid() && forall a :: a in index && a.IsWaiting() ==> a.time > now
      modifies this
      ensures Valid() && Abstract() == old(Abstract()) && AtTime(index, now)
    {
      while index != []
        invariant Valid() && Abstract() == old(Abstract())
        invariant forall a :: a in index && a.IsWaiting() ==> a.time > now
        decreases SelectableKeys(index)
      {
        SomethingLast(index);
        var it :| 0 <= it < |index| && LastInTime(index, it);
        var a := index[it];
        LastSelectable(index, it);
        if a.IsSelectable() && a.time > now {
          ghost var s := index;
          ChangeAndReselect(it, CandidateDelayed);
          FewerSelectable(s, index, a);
        } else {
          break;
        }
      }
    }

    /** Returns the requests that expired, oldest first. */
    method SetTimePoint(now: Time) returns (expired: seq<Key>)
      requires Valid()
      modifies this
      ensures Valid() && Abstract() == old(Abstract()).(model := Expire(old(Abstract()).model, now))
      ensures AtTime(index, now)
      ensures Reported(old(Abstract()).model, Abstract().model, now, expired)
      ensures forall k :: k in expired <==> k in old(Abstract()).model && Expired(old(Abstract()).model[k], now)
    {
      ghost var m0 := ModelOf(index);
      expired := CatchUp(now);
      NoneExpired(index, now);
      ReportedAll(m0, ModelOf(index), now, expired);
      WindBack(now);
    }

    // ---- Public operations --------------------------------------------------------------------------

    method ReceivedInv(peer: NodeId, invid: InvId, preferred: bool, reqtime: Time)
      requires Valid()
      modifies this
      ensures Valid() && Abstract() == Step(old(Abstract()), Op.ReceivedInv(peer, invid, preferred, reqtime))
    {
      var best := FindByPeer(PeerView(peer, true, invid));
      if best.Some? {
        ModelEntry(index, best.value);
        return;
      }
      // Emplacing fails when a non-best announcement of the same peer and inventory exists.
      var other := FindByPeer(PeerView(peer, false, invid));
      if other.Some? {
        ModelEntry(index, other.value);
        return;
      }
      var a := Announcement(invid, reqtime, peer, currentSequence, preferred, CandidateDelayed);
      assert forall b :: b in index ==> b.Id() != a.Id() by {
        forall b | b in index ensures b.Id() != a.Id() { assert ViewOf(b) != ViewOf(a); }
      }
      Emplace(a);
    }

    method Emplace(a: Announcement)
      requires Valid() && a.state.CandidateDelayed? && a.sequence == currentSequence
      requires forall b :: b in index ==> b.Id() != a.Id()
      modifies this
      ensures Valid() && Abstract() == Step(old(Abstract()), Op.ReceivedInv(a.peer, a.invid, a.preferred, a.time))
    {
      SomewhereFits(salt, index, a);
      var j :| 0 <= j <= |index| && FitsAt(salt, index, j, a);
      ghost var s := index;
      InsertKeepsOrder(salt, index, j, a);
      ModelInserted(salt, index, j, a);
      StepSequenced(Abstract(), Op.ReceivedInv(a.peer, a.invid, a.preferred, a.time));
      SaneWithDelayed(salt, index, InsertAt(index, j, a), a);
      PeersInserted(index, j, a, peerinfo);
      index := InsertAt(index, j, a);
      var info := if a.peer in peerinfo then peerinfo[a.peer] else PeerInfo(0, 0, 0);
      peerinfo := peerinfo[a.peer := info.(total := info.total + 1)];
      currentSequence := currentSequence + 1;
    }

    method ForgetInvId(invid: InvId)
      requires Valid()
      modifies this
      ensures Valid() && Abstract() == Step(old(Abstract()), Op.ForgetInvId(invid))
    {
      ghost var s, t := index, Abstract();
      var it := LowerBound(invid, CandidateDelayed);
      EraseFrom(it, invid);
      SaneWithout(salt, s, index, invid);
      SequencedShrinks(t, Abstract());
    }

    method ReceivedResponse(peer: NodeId, invid: InvId)
      requires Valid()
      modifies this
      ensures Valid() && Abstract() == Step(old(Abstract()), Op.ReceivedResponse(peer, invid))
    {
      ghost var k := Key(peer, invid);
      var it := FindByPeer(PeerView(peer, false, invid));
      if it.None? {
        it := FindByPeer(PeerView(peer, true, invid));
      }
      if it.Some? {
        ModelEntry(index, it.value);
        var i := Project(it.value);
        var _ := MakeCompleted(i);
      } else {
        assert forall b :: b in index ==> b.Id() != k by {
          forall b | b in index ensures b.Id() != k { assert ViewOf(b) ==
              PeerView(b.peer, b.state.CandidateBest?, b.invid); }
        }
        assert k !in ModelOf(index);
      }
    }

    method DisconnectedPeer(peer: NodeId)
      requires Valid()
      modifies this
      ensures Valid() && Abstract() == Step(old(Abstract()), Op.DisconnectedPeer(peer))
    {
      ghost var m0 := ModelOf(index);
      SaneModel(salt, index);
      var it := FirstByPeer(PeerView(peer, false, 0), false);
      while it.Some? && it.value.peer == peer
        invariant Valid() && currentSequence == old(currentSequence)
        invariant AllAlive(ModelOf(index)) && Disconnect(ModelOf(index), peer) == Disconnect(m0, peer)
        invariant FirstOfPeer(index, peer, it)
        decreases OfPeerSet(index, peer)
      {
        var a := it.value;
        ghost var s := index;
        var next := FirstByPeer(ViewOf(a), true);
        var itNext := if next.None? || next.value.peer != peer then None else next;
        DropAnnouncement(a);
        OneLessOfPeer(s, index, a);
        IteratorAdvances(s, index, a, next);
        DisconnectStep(ModelOf(s), a.Id());
        SaneModel(salt, index);
        assert a in OfPeerSet(s, peer);
        it := itNext;
      }
      NoneOfPeer(index, peer);
      DisconnectDone(ModelOf(index), peer);
    }

    /** One round of DisconnectedPeer: complete the announcement, then erase it if it is still there. */
    method DropAnnouncement(a: Announcement)
      requires Valid() && a in index
      modifies this
      ensures Valid() && Abstract() == old(Abstract()).(model := Respond(old(Abstract()).model, a.Id()) - {a.Id()})
      ensures SameElsewhere(old(index), index, a.invid) && forall x :: x in index ==> x.Id() != a.Id()
    {
      ghost var s, m := index, ModelOf(index);
      var i := Project(a);
      var still := MakeCompleted(i);
      ghost var s1, m1 := index, ModelOf(index);
      if still {
        var j := Project(In(a, StateCompleted));
        Erase(j);
        SaneWithoutCompleted(salt, s1, index, s1[j]);
        SequencedShrinks(Tracker(m1, currentSequence), Abstract());
      }
      NotInModel(index, a.Id());
    }

    method RequestedData(peer: NodeId, invid: InvId, expiry: Time)
      requires Valid()
      modifies this
      ensures Valid() && Abstract() == Step(old(Abstract()), Op.RequestedData(peer, invid, expiry))
    {
      ghost var k := Key(peer, invid);
      var it := FindByPeer(PeerView(peer, true, invid));
      if it.None? {
        it := FindByPeer(PeerView(peer, false, invid));
        if it.None? || !(it.value.state.CandidateDelayed? || it.value.state.CandidateReady?) {
          if it.Some? {
            ModelEntry(index, it.value);
          } else {
            assert forall b :: b in index ==> b.Id() != k by {
              forall b | b in index ensures b.Id() != k { assert ViewOf(b) ==
                  PeerView(b.peer, b.state.CandidateBest?, b.invid); }
            }
            assert k !in ModelOf(index);
          }
          return;
        }
        RequestOther(it.value, expiry);
      } else {
        RequestBest(it.value, expiry);
      }
    }

    method RequestBest(a: Announcement, expiry: Time)
      requires Valid() && a in index && a.state.CandidateBest?
      modifies this
      ensures Valid() && Abstract() == Step(old(Abstract()), Op.RequestedData(a.peer, a.invid, expiry))
    {
      ModelEntry(index, a);
      OnlySelected(salt, index, a);
      RequestAfterGivingUp(Abstract().model, a.Id(), expiry);
      StepSequenced(Abstract(), Op.RequestedData(a.peer, a.invid, expiry));
      ghost var t := Step(Abstract(), Op.RequestedData(a.peer, a.invid, expiry));
      MarkRequested(a, expiry);
      assert Abstract() == t;
    }

    method RequestOther(a: Announcement, expiry: Time)
      requires Valid() && a in index && (a.state.CandidateDelayed? || a.state.CandidateReady?)
      modifies this
      ensures Valid() && Abstract() == Step(old(Abstract()), Op.RequestedData(a.peer, a.invid, expiry))
    {
      ModelEntry(index, a);
      RequestAfterGivingUp(Abstract().model, a.Id(), expiry);
      StepSequenced(Abstract(), Op.RequestedData(a.peer, a.invid, expiry));
      ghost var t := Step(Abstract(), Op.RequestedData(a.peer, a.invid, expiry));
      Unselect(a);
      MarkRequested(a, expiry);
      assert Abstract() == t;
    }

    /** RequestedData's clean-up: a selected announcement of the inventory of `a` gives way. */
    method Unselect(a: Announcement)
      requires Valid() && a in index && (a.state.CandidateDelayed? || a.state.CandidateReady?)
      modifies this
      ensures Consistent() && currentSequence == old(currentSequence) && a in index
      ensures SaneOthers(salt, index, a.invid) && NoneSelected(index, a.invid)
      ensures ModelOf(index) == GiveUp(old(Abstract()).model, a.invid)
    {
      var it := LowerBound(a.invid, CandidateBest);
      if it != |index| && index[it].invid == a.invid && index[it].state.CandidateBest? {
        GiveWay(it, CandidateReady);
      } else if it != |index| && index[it].invid == a.invid && index[it].state.StateRequested? {
        GiveWay(it, StateCompleted);
      } else {
        SelectedIsLowerBound(salt, index, it, a.invid);
        NothingRequested(index, a.invid);
      }
    }

    method GiveWay(i: nat, state: State)
      requires Valid() && i < |index| && index[i].IsSelected()
      requires if index[i].state.CandidateBest? then state.CandidateReady? else state.StateCompleted?
      modifies this
      ensures Consistent() && currentSequence == old(currentSequence)
      ensures SaneOthers(salt, index, old(index[i]).invid) && NoneSelected(index, old(index[i]).invid)
      ensures forall x :: x in old(index) && !x.IsSelected() ==> x in index
      ensures ModelOf(index) == GiveUp(ModelOf(old(index)), old(index[i]).invid)
    {
      ghost var s := index;
      var o := index[i];
      assert SaneFor(salt, s, o.invid);
      GivesUp(salt, s, o, state);
      var j := Modify(i, state, o.time);
      ReplacedFrame(s, index, o, index[j]);
      NoneSelectedAfter(salt, s, index, o, index[j]);
      SaneOthersTransfers(salt, s, index, o.invid);
    }

    method MarkRequested(a: Announcement, expiry: Time)
      requires Consistent() && a in index && a.Track().status.Candidate? && SaneOthers(salt, index, a.invid)
      requires forall x :: x in index && x.invid == a.invid && x != a ==> !x.IsSelected()
      modifies this
      ensures Consistent() && Sane(salt, index) && currentSequence == old(currentSequence)
      ensures ModelOf(index) == ModelOf(old(index))[a.Id() := a.Track().(status := Requested(expiry))]
    {
      ghost var s := index;
      var i := Project(a);
      var j := Modify(i, StateRequested, expiry);
      SaneRequested(salt, s, index, a, index[j]);
    }

    /** GetRequestable's walk over the peer's CandidateBest announcements in the ByPeer index. */
    method CollectBest(peer: NodeId) returns (selected: seq<Announcement>)
      requires Valid()
      ensures Distinct(selected) && forall a :: a in selected <==> a in index && BestOfPeer(a, peer)
    {
      selected := [];
      var it := FirstByPeer(PeerView(peer, true, 0), false);
      while it.Some? && BestOfPeer(it.value, peer)
        invariant it.Some? ==> it.value in index
        invariant Distinct(selected) && forall a :: a in selected ==> a in index && BestOfPeer(a, peer)
        invariant forall a :: a in selected && it.Some? ==> PeerLt(ViewOf(a), ViewOf(it.value))
        invariant forall a :: a in BestLeft(index, peer, selected) ==>
                    it.Some? && BestOfPeer(it.value, peer) && !PeerLt(ViewOf(a), ViewOf(it.value))
        decreases BestLeft(index, peer, selected)
      {
        var a := it.value;
        ghost var left := BestLeft(index, peer, selected);
        assert a in left;
        selected := selected + [a];
        it := FirstByPeer(ViewOf(a), true);
        forall b | b in BestLeft(index, peer, selected)
          ensures it.Some? && BestOfPeer(it.value, peer) && !PeerLt(ViewOf(b), ViewOf(it.value))
        {
          assert b in left && b != a by { assert a in selected; }
          if b.Id() == a.Id() { UniqueMeansSame(index, a, b); }
          assert PeerLt(ViewOf(a), ViewOf(b));
        }
        assert BestLeft(index, peer, selected) < left;
      }
      assert BestLeft(index, peer, selected) == {};
    }

    method GetRequestable(peer: NodeId, now: Time) returns (result: seq<InvId>, expired: seq<Key>)
      requires Valid()
      modifies this
      ensures Valid() && Abstract() == Step(old(Abstract()), Op.GetRequestable(peer, now))
      ensures AtTime(index, now)
      ensures forall k :: k in expired <==> k in old(Abstract()).model && Expired(old(Abstract()).model[k], now)
      ensures Reported(old(Abstract()).model, Abstract().model, now, expired)
      ensures ListsBest(index, peer, result)
      ensures forall v :: v in result ==> BestChoice(salt, Abstract().model, Key(peer, v), now)
      ensures forall v, j: Key :: v in result && j.invid == v && Requestable(Abstract().model, j, now) ==>
                && Key(peer, v) in Abstract().model
                && Outranks(salt, Abstract().model, Key(peer, v), j)
      ensures forall k :: Requestable(Abstract().model, k, now) ==>
                exists a :: a in index && a.invid == k.invid && a.state.CandidateBest?
    {
      expired := SetTimePoint(now);
      var selected := CollectBest(peer);
      result := InvIds(SortBySequence(selected));
      SortedListsBest(index, currentSequence, peer, selected);
      forall v | v in result ensures BestChoice(salt, ModelOf(index), Key(peer, v), now) {
        var a :| a in index && BestOfPeer(a, peer) && a.invid == v;
        BestIsBestChoice(salt, index, now, a);
      }
      forall v | v in result { BestChoiceOutranks(salt, ModelOf(index), Key(peer, v), now); }
      forall k | Requestable(ModelOf(index), k, now)
        ensures exists a :: a in index && a.invid == k.invid && a.state.CandidateBest?
      {
        RequestableHasBest(salt, index, now, k);
      }
    }

    // ---- Statistics -----------------------------------------------------------------------------------

    method CountInFlight(peer: NodeId) returns (n: nat)
      requires Valid()
      ensures n == CountIf(index, OfPeerIn(peer, StateRequested))
    {
      assert PeerMatches(index, peerinfo, peer);
      if peer in peerinfo {
        return peerinfo[peer].requested;
      }
      NoAnnouncements(index, peer);
      return 0;
    }

    method CountCandidates(peer: NodeId) returns (n: nat)
      requires Valid()
      ensures n == CountIf(index, CandidateOfPeer(peer))
    {
      assert PeerMatches(index, peerinfo, peer);
      CandidatesAreTheRest(index, peer);
      if peer in peerinfo {
        return peerinfo[peer].total - peerinfo[peer].requested - peerinfo[peer].completed;
      }
      NoAnnouncements(index, peer);
      return 0;
    }

    method Count(peer: NodeId) returns (n: nat)
      requires Valid()
      ensures n == CountIf(index, OfPeer(peer))
    {
      assert PeerMatches(index, peerinfo, peer);
      if peer in peerinfo {
        return peerinfo[peer].total;
      }
      return 0;
    }
  }
}
