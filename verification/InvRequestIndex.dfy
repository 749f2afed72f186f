/**
 * Announcements, the order of the ByInvId index, and what the order says about neighbours.
 * The index is a sorted sequence; announcements with equal keys may stand in any order.
 */
module InvRequestIndex {
  import opened SeqCounting
  import opened InvRequestSpec

  datatype State = CandidateDelayed | CandidateReady | CandidateBest | StateRequested | StateCompleted
  {
    function Rank(): nat {
      match this
      case CandidateDelayed => 0
      case CandidateReady => 1
      case CandidateBest => 2
      case StateRequested => 3
      case StateCompleted => 4
    }
  }

  datatype Announcement = Announcement(invid: InvId, time: Time, peer: NodeId, sequence: nat,
                                       preferred: bool, state: State)
  {
    predicate IsSelected() { state.CandidateBest? || state.StateRequested? }
    predicate IsWaiting() { state.StateRequested? || state.CandidateDelayed? }
    predicate IsSelectable() { state.CandidateReady? || state.CandidateBest? }

    function Id(): Key { Key(peer, invid) }

    /** The announcement as the header's specification sees it. */
    function Track(): Tracked {
      Tracked(
        match state
        case StateRequested => Requested(time)
        case StateCompleted => Completed
        case _ => Candidate(time),
        sequence, preferred)
    }
  }

  // ---- Priorities -------------------------------------------------------------------------

  function Priority(salt: Salt, a: Announcement): nat {
    ComputePriority(salt, a.invid, a.peer, a.preferred)
  }

  // ---- The ByInvId order --------------------------------------------------------------------

  /** The third component of the ByInvId key: zero unless the announcement is CandidateReady. */
  function ViewPriority(salt: Salt, a: Announcement): nat {
    if a.state.CandidateReady? then Priority(salt, a) else 0
  }

  /** (invid, state, priority) of `a` is at most that of `b`. */
  predicate Le(salt: Salt, a: Announcement, b: Announcement) {
    || a.invid < b.invid
    || (a.invid == b.invid &&
        (|| a.state.Rank() < b.state.Rank()
         || (a.state == b.state && ViewPriority(salt, a) <= ViewPriority(salt, b))))
  }

  ghost predicate Sorted(salt: Salt, s: seq<Announcement>) {
    forall i, j {:trigger Le(salt, s[i], s[j])} :: 0 <= i < j < |s| ==> Le(salt, s[i], s[j])
  }

  /** No inventory is announced twice by one peer. */
  ghost predicate Unique(s: seq<Announcement>) {
    forall i, j {:trigger s[i].Id(), s[j].Id()} :: 0 <= i < j < |s| ==> s[i].Id() != s[j].Id()
  }

  ghost predicate Ordered(salt: Salt, s: seq<Announcement>) {
    Sorted(salt, s) && Unique(s)
  }

  /** A place where `a` may be linked without breaking the order. */
  predicate FitsAt(salt: Salt, s: seq<Announcement>, j: nat, a: Announcement) {
    && j <= |s|
    && (forall x | 0 <= x < j :: Le(salt, s[x], a))
    && (forall x | j <= x < |s| :: Le(salt, a, s[x]))
  }

  lemma {:induction false} SomewhereFits(salt: Salt, s: seq<Announcement>, a: Announcement)
    requires Sorted(salt, s)
    ensures exists j :: 0 <= j <= |s| && FitsAt(salt, s, j, a)
  {
    if s == [] {
      assert FitsAt(salt, s, 0, a);
    } else if Le(salt, s[|s| - 1], a) {
      assert forall x :: 0 <= x < |s| - 1 ==> Le(salt, s[x], s[|s| - 1]);
      assert FitsAt(salt, s, |s|, a);
    } else {
      var p := s[..|s| - 1];
      SomewhereFits(salt, p, a);
      var j :| 0 <= j <= |p| && FitsAt(salt, p, j, a);
      assert FitsAt(salt, s, j, a);
    }
  }

  lemma UniqueMeansSame(s: seq<Announcement>, a: Announcement, b: Announcement)
    requires Unique(s) && a in s && b in s && a.Id() == b.Id()
    ensures a == b
  {
  }

  lemma RemoveKeepsOrder(salt: Salt, s: seq<Announcement>, i: nat)
    requires Ordered(salt, s) && i < |s|
    ensures Ordered(salt, RemoveAt(s, i))
    ensures forall a :: a in RemoveAt(s, i) <==> a in s && a != s[i]
    ensures forall a :: a in RemoveAt(s, i) ==> a.Id() != s[i].Id()
  {
    var r := RemoveAt(s, i);
    forall x | 0 <= x < |r| ensures r[x] == s[if x < i then x else x + 1] && r[x].Id() != s[i].Id() {
      assert s[if x < i then x else x + 1].Id() != s[i].Id();
    }
    forall a | a in s && a != s[i] ensures a in r {
      var x :| 0 <= x < |s| && s[x] == a;
      assert r[if x < i then x else x - 1] == a;
    }
  }

  lemma InsertKeepsOrder(salt: Salt, s: seq<Announcement>, j: nat, a: Announcement)
    requires Ordered(salt, s) && FitsAt(salt, s, j, a)
    requires forall b :: b in s ==> b.Id() != a.Id()
    ensures Ordered(salt, InsertAt(s, j, a))
    ensures forall b :: b in InsertAt(s, j, a) <==> b in s || b == a
  {
    var r := InsertAt(s, j, a);
    forall x | 0 <= x < |r| ensures r[x] == if x < j then s[x] else if x == j then a else s[x - 1] {}
    forall b | b in s ensures b in r {
      var x :| 0 <= x < |s| && s[x] == b;
      assert r[if x < j then x else x + 1] == b;
    }
    assert r[j] == a;
  }

  // ---- The map behind the index --------------------------------------------------------------

  ghost function Keys(s: seq<Announcement>): set<Key> {
    set a | a in s :: a.Id()
  }

  ghost function Lookup(s: seq<Announcement>, k: Key): (a: Announcement)
    requires k in Keys(s)
    ensures a in s && a.Id() == k
  {
    var a :| a in s && a.Id() == k; a
  }

  ghost function ModelOf(s: seq<Announcement>): Model
    requires Unique(s)
  {
    map k | k in Keys(s) :: Lookup(s, k).Track()
  }

  lemma ModelEntry(s: seq<Announcement>, a: Announcement)
    requires Unique(s) && a in s
    ensures a.Id() in ModelOf(s) && ModelOf(s)[a.Id()] == a.Track()
  {
    assert a.Id() in Keys(s);
    UniqueMeansSame(s, a, Lookup(s, a.Id()));
  }

  lemma ModelRemoved(salt: Salt, s: seq<Announcement>, i: nat)
    requires Ordered(salt, s) && i < |s|
    requires Unique(RemoveAt(s, i))
    ensures ModelOf(RemoveAt(s, i)) == ModelOf(s) - {s[i].Id()}
  {
    RemoveKeepsOrder(salt, s, i);
    var r := RemoveAt(s, i);
    var m, m' := ModelOf(s), ModelOf(r) ;
    forall k | k in m' ensures k in m && k != s[i].Id() && m[k] == m'[k] {
      var a :| a in r && a.Id() == k;
      assert a in s;
      ModelEntry(s, a);
      ModelEntry(r, a);
    }
    forall k | k in m && k != s[i].Id() ensures k in m' {
      var a :| a in s && a.Id() == k;
      ModelEntry(r, a);
    }
  }

  lemma ModelInserted(salt: Salt, s: seq<Announcement>, j: nat, a: Announcement)
    requires Ordered(salt, s) && FitsAt(salt, s, j, a)
    requires forall b :: b in s ==> b.Id() != a.Id()
    requires Unique(InsertAt(s, j, a))
    ensures a.Id() !in ModelOf(s)
    ensures ModelOf(InsertAt(s, j, a)) == ModelOf(s)[a.Id() := a.Track()]
  {
    InsertKeepsOrder(salt, s, j, a);
    var r := InsertAt(s, j, a);
    var m, m' := ModelOf(s), ModelOf(r);
    ModelEntry(r, a);
    forall k | k in m ensures k in m' && m'[k] == m[k] {
      var b :| b in s && b.Id() == k;
      ModelEntry(s, b);
      ModelEntry(r, b);
    }
  }

  // ---- SanityCheck, announcement by announcement ----------------------------------------------

  /** The invariants SanityCheck asserts of one inventory. */
  ghost predicate SaneFor(salt: Salt, s: seq<Announcement>, invid: InvId) {
    && (forall a, b :: a in s && b in s && a.invid == b.invid == invid && a.IsSelected() && b.IsSelected() ==> a == b)
    && (forall a :: a in s && a.invid == invid && a.state.CandidateReady? ==>
          exists b :: b in s && b.invid == invid && b.IsSelected())
    && (forall a, b ::
          a in s && b in s && a.invid == b.invid == invid && a.state.CandidateBest? && b.state.CandidateReady? ==>
            Priority(salt, a) >= Priority(salt, b))
    && (forall a :: a in s && a.invid == invid ==>
          exists b :: b in s && b.invid == invid && !b.state.StateCompleted?)
  }

  ghost predicate Sane(salt: Salt, s: seq<Announcement>) {
    forall invid: InvId :: SaneFor(salt, s, invid)
  }

  /** The two indexes hold the same announcements of the inventory. */
  ghost predicate SameFor(s: seq<Announcement>, r: seq<Announcement>, invid: InvId) {
    forall a: Announcement :: a.invid == invid ==> (a in s <==> a in r)
  }

  ghost predicate SameElsewhere(s: seq<Announcement>, r: seq<Announcement>, invid: InvId) {
    forall a: Announcement :: a.invid != invid ==> (a in s <==> a in r)
  }

  lemma SaneElsewhere(salt: Salt, s: seq<Announcement>, r: seq<Announcement>, invid: InvId)
    requires Sane(salt, s) && SameElsewhere(s, r, invid) && SaneFor(salt, r, invid)
    ensures Sane(salt, r)
  {
    forall v: InvId | v != invid ensures SaneFor(salt, r, v) {
      assert SaneFor(salt, s, v);
      SaneTransfers(salt, s, r, v);
    }
  }

  lemma SaneTransfers(salt: Salt, s: seq<Announcement>, r: seq<Announcement>, invid: InvId)
    requires SaneFor(salt, s, invid) && SameFor(s, r, invid)
    ensures SaneFor(salt, r, invid)
  {
    forall a | a in r && a.invid == invid && a.state.CandidateReady?
      ensures exists b :: b in r && b.invid == invid && b.IsSelected()
    {
      assert a in s;
      var b :| b in s && b.invid == invid && b.IsSelected();
      assert b in r;
    }
    forall a | a in r && a.invid == invid
      ensures exists b :: b in r && b.invid == invid && !b.state.StateCompleted?
    {
      assert a in s;
      var b :| b in s && b.invid == invid && !b.state.StateCompleted?;
      assert b in r;
    }
  }

  // ---- Neighbours --------------------------------------------------------------------------------

  /**
   * If what follows a CandidateReady is of another inventory or completed, the inventory has no
   * selected announcement and no better CandidateReady.
   */
  lemma NothingSelectedAfter(salt: Salt, s: seq<Announcement>, i: nat, a: Announcement)
    requires Sorted(salt, s) && i < |s| && s[i].state.CandidateReady?
    requires i + 1 == |s| || s[i + 1].invid != s[i].invid || s[i + 1].state.StateCompleted?
    requires a in s && a.invid == s[i].invid
    ensures !a.IsSelected()
    ensures a.state.CandidateReady? ==> Priority(salt, a) <= Priority(salt, s[i])
  {
    var x :| 0 <= x < |s| && s[x] == a;
    if x > i + 1 {
      assert Le(salt, s[i], s[i + 1]) && Le(salt, s[i + 1], s[x]);
    } else if x == i + 1 {
      assert Le(salt, s[i], s[x]);
    } else if x < i {
      assert Le(salt, s[x], s[i]);
    }
  }

  /** A CandidateReady stands before the selected announcement of its inventory. */
  lemma SelectedNotFirst(salt: Salt, s: seq<Announcement>, i: nat, a: Announcement)
    requires Sorted(salt, s) && i < |s| && s[i].IsSelected()
    requires a in s && a.invid == s[i].invid && a.state.CandidateReady?
    ensures 0 < i
  {
    var x :| 0 <= x < |s| && s[x] == a;
    assert i < x ==> Le(salt, s[i], s[x]);
    assert x < i;
  }

  /** The best CandidateReady of an inventory stands directly before its selected announcement. */
  lemma PrevIsBestReady(salt: Salt, s: seq<Announcement>, i: nat, a: Announcement)
    requires Ordered(salt, s) && 0 < i < |s| && s[i].IsSelected()
    requires SaneFor(salt, s, s[i].invid)
    requires a in s && a.invid == s[i].invid && a.state.CandidateReady?
    ensures s[i - 1].invid == s[i].invid && s[i - 1].state.CandidateReady?
    ensures Priority(salt, a) <= Priority(salt, s[i - 1])
  {
    var x :| 0 <= x < |s| && s[x] == a;
    var p := s[i - 1];
    assert p in s && s[i - 1].Id() != s[i].Id();
    assert Le(salt, s[i - 1], s[i]);
    assert i < x ==> Le(salt, s[i], s[x]);
    assert x <= i;
    assert x < i - 1 ==> Le(salt, s[x], s[i - 1]);
  }

  /** A CandidateReady that is followed by a selected announcement is the best one. */
  lemma ReadyBeforeSelected(salt: Salt, s: seq<Announcement>, i: nat, a: Announcement)
    requires Sorted(salt, s) && i + 1 < |s| && s[i].state.CandidateReady?
    requires s[i + 1].invid == s[i].invid && s[i + 1].IsSelected()
    requires a in s && a.invid == s[i].invid && a.state.CandidateReady?
    ensures Priority(salt, a) <= Priority(salt, s[i])
  {
    var x :| 0 <= x < |s| && s[x] == a;
    assert i + 1 < x ==> Le(salt, s[i + 1], s[x]);
    assert x < i ==> Le(salt, s[x], s[i]);
  }

  /** What IsOnlyNonCompleted's two neighbour tests decide about the whole inventory. */
  lemma OnlyNonCompleted(salt: Salt, s: seq<Announcement>, i: nat)
    requires Ordered(salt, s) && i < |s| && !s[i].state.StateCompleted?
    ensures (&& !(i > 0 && s[i - 1].invid == s[i].invid)
             && !(i + 1 < |s| && s[i + 1].invid == s[i].invid && !s[i + 1].state.StateCompleted?))
            <==> forall a :: a in s && a.invid == s[i].invid && a != s[i] ==> a.state.StateCompleted?
  {
    if i > 0 && s[i - 1].invid == s[i].invid {
      assert s[i - 1] in s && s[i - 1].Id() != s[i].Id() && Le(salt, s[i - 1], s[i]);
    } else if i + 1 < |s| && s[i + 1].invid == s[i].invid && !s[i + 1].state.StateCompleted? {
      assert s[i + 1] in s && s[i + 1].Id() != s[i].Id();
    } else {
      forall x | 0 <= x < i ensures s[x].invid != s[i].invid {
        assert Le(salt, s[i - 1], s[i]);
        assert x < i - 1 ==> Le(salt, s[x], s[i - 1]);
      }
      forall x | i < x < |s| && s[x].invid == s[i].invid ensures s[x].state.StateCompleted? {
        assert Le(salt, s[i], s[i + 1]);
        assert i + 1 < x ==> Le(salt, s[i + 1], s[x]);
      }
      forall a | a in s && a.invid == s[i].invid && a != s[i] ensures a.state.StateCompleted? {
        var x :| 0 <= x < |s| && s[x] == a;
      }
    }
  }
}
