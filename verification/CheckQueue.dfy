/**
 * The parallel check queue: one master and any number of workers share a stack of checks under a
 * mutex and two condition variables. A step is one critical section, one check executed outside
 * the lock, or a wake-up; any interleaving of steps is a run.
 */
module CheckQueue {
  import opened Basics
  import Arithmetic
  import Radix

  type Check = int

  /** Where a thread is between two critical sections. */
  datatype Pc =
    | Outside
    | Entering
    | Waiting(woken: bool)
    | Working(batch: seq<Check>, done: nat, ok: bool)

  /** Thread 0 is the master. `first`, `next` and `ran` are history: this round's checks are first..next. */
  datatype State = State(
    queue: seq<Check>, nTodo: int, nIdle: int, nTotal: int, fAllOk: bool, pc: seq<Pc>,
    first: Check, next: Check, ran: set<Check>)

  datatype Config = Config(nBatchSize: nat, result: Check -> bool)

  datatype Step =
    | Add(n: nat, wake: set<nat>)
    | CallWait
    | Lock(t: nat)
    | Execute(t: nat)
    | Spurious(t: nat)

  // ---- Steps -----------------------------------------------------------------------------------------

  function Initial(workers: nat): State {
    State([], 0, 0, 0, true, [Outside] + seq(workers, _ => Entering), 0, 0, {})
  }

  predicate Asleep(s: State, t: nat) { 0 < t < |s.pc| && s.pc[t] == Waiting(false) }

  predicate CanLock(s: State, t: nat) {
    && t < |s.pc|
    && match s.pc[t] {
         case Outside => false
         case Entering => true
         case Waiting(woken) => woken
         case Working(batch, done, _) => done >= |batch|
       }
  }

  /** notify_one wakes one sleeping worker if there is one, notify_all every one. */
  ghost predicate Wakes(s: State, n: nat, wake: set<nat>) {
    && (forall t :: t in wake ==> Asleep(s, t))
    && (n == 0 ==> wake == {})
    && (n == 1 ==> |wake| <= 1 && (wake == {} ==> forall t :: !Asleep(s, t)))
    && (n > 1 ==> forall t :: Asleep(s, t) ==> t in wake)
  }

  ghost predicate Enabled(s: State, step: Step) {
    && |s.pc| > 0
    && match step {
         case Add(n, wake) => s.pc[0] == Outside && Wakes(s, n, wake)
         case CallWait => s.pc[0] == Outside
         case Lock(t) => CanLock(s, t)
         case Execute(t) => t < |s.pc| && s.pc[t].Working? && s.pc[t].done < |s.pc[t].batch|
         case Spurious(t) => t < |s.pc| && s.pc[t] == Waiting(false)
       }
  }

  function Fresh(first: Check, n: nat): (q: seq<Check>)
    ensures |q| == n && forall i :: 0 <= i < n ==> q[i] == first + i
  {
    seq(n, i requires 0 <= i => first + i)
  }

  function Woken(pc: seq<Pc>, wake: set<nat>): (r: seq<Pc>)
    ensures |r| == |pc| && forall i :: 0 <= i < |pc| ==> r[i] == if i in wake then Waiting(true) else pc[i]
  {
    seq(|pc|, i requires 0 <= i < |pc| => if i in wake then Waiting(true) else pc[i])
  }

  /** The start of the critical section: account for the finished batch, or for joining, or for waking. */
  function CleanUp(s: State, t: nat): State
    requires CanLock(s, t)
  {
    match s.pc[t]
    case Working(batch, _, ok) =>
      var nTodo := s.nTodo - |batch|;
      var pc := if nTodo == 0 && t != 0 && |s.pc| > 0 && s.pc[0].Waiting? then s.pc[0 := Waiting(true)] else s.pc;
      s.(fAllOk := s.fAllOk && ok, nTodo := nTodo, pc := pc[t := Entering])
    case Entering => s.(nTotal := s.nTotal + 1)
    case _ => s.(nIdle := s.nIdle - 1, pc := s.pc[t := Entering])
  }

  function BatchSize(cfg: Config, s: State): int {
    Max(1, Min(cfg.nBatchSize, if s.nTotal + s.nIdle + 1 == 0 then 0 else |s.queue| / (s.nTotal + s.nIdle + 1)))
  }

  function Reversed(q: seq<Check>): (r: seq<Check>)
    ensures |r| == |q| && multiset(r) == multiset(q)
  {
    if q == [] then [] else
      assert q == [q[0]] + q[1..];
      Reversed(q[1..]) + [q[0]]
  }

  /** The rest of the critical section: leave, wait, or take a batch off the back of the queue. */
  function Proceed(cfg: Config, s: State, t: nat): State
    requires t < |s.pc|
  {
    if s.queue == [] then
      if t == 0 && s.nTodo == 0 then s.(nTotal := s.nTotal - 1, fAllOk := true, pc := s.pc[t := Outside], first :=
          s.next)
      else s.(nIdle := s.nIdle + 1, pc := s.pc[t := Waiting(false)])
    else
      var k := Max(0, |s.queue| - BatchSize(cfg, s));
      s.(queue := s.queue[..k], pc := s.pc[t := Working(Reversed(s.queue[k..]), 0, s.fAllOk)])
  }

  function Run(cfg: Config, s: State, t: nat): State
    requires t < |s.pc| && s.pc[t].Working? && s.pc[t].done < |s.pc[t].batch|
  {
    var w := s.pc[t];
    var c := w.batch[w.done];
    s.(pc := s.pc[t := Working(w.batch, w.done + 1, w.ok && cfg.result(c))], ran := if w.ok then s.ran + {c} else s.ran)
  }

  ghost function Apply(cfg: Config, s: State, step: Step): State
    requires Enabled(s, step)
  {
    match step
    case Add(n, wake) => s.(queue := s.queue + Fresh(s.next, n), nTodo := s.nTodo + n, next := s.next + n, pc :=
        Woken(s.pc, wake))
    case CallWait => s.(pc := s.pc[0 := Entering])
    case Lock(t) => Proceed(cfg, CleanUp(s, t), t)
    case Execute(t) => Run(cfg, s, t)
    case Spurious(t) => s.(pc := s.pc[t := Waiting(true)])
  }

  /** Whether a critical section of thread t makes the master return from Wait, and with which result. */
  predicate Returns(s: State, t: nat)
    requires CanLock(s, t)
  {
    t == 0 && CleanUp(s, t).queue == [] && CleanUp(s, t).nTodo == 0
  }

  function Result(s: State): bool
    requires CanLock(s, 0)
  {
    CleanUp(s, 0).fAllOk
  }

  // ---- Sums over threads --------------------------------------------------------------------------------

  function Sum(pc: seq<Pc>, w: Pc -> int): int {
    if pc == [] then 0 else Sum(pc[..|pc| - 1], w) + w(pc[|pc| - 1])
  }

  lemma {:induction false} SumSet(pc: seq<Pc>, w: Pc -> int, t: nat, x: Pc)
    requires t < |pc|
    ensures Sum(pc[t := x], w) == Sum(pc, w) - w(pc[t]) + w(x)
  {
    var n := |pc| - 1;
    if t < n {
      assert pc[t := x][..n] == pc[..n][t := x];
      SumSet(pc[..n], w, t, x);
    } else {
      assert pc[t := x][..n] == pc[..n];
    }
  }

  lemma {:induction false} SumSame(pc: seq<Pc>, pc': seq<Pc>, w: Pc -> int)
    requires |pc| == |pc'| && forall i :: 0 <= i < |pc| ==> w(pc[i]) == w(pc'[i])
    ensures Sum(pc, w) == Sum(pc', w)
  {
    if pc != [] { SumSame(pc[..|pc| - 1], pc'[..|pc| - 1], w); }
  }

  function Held(p: Pc): int { if p.Working? then |p.batch| else 0 }
  function Idle(p: Pc): int { if p.Waiting? then 1 else 0 }
  function Joined(p: Pc): int { if p.Waiting? || p.Working? then 1 else 0 }

  lemma {:induction false} SumBounds(pc: seq<Pc>, w: Pc -> int, t: nat)
    requires t < |pc| && forall p :: w(p) >= 0
    ensures Sum(pc, w) >= w(pc[t]) >= 0
  {
    if t < |pc| - 1 { SumBounds(pc[..|pc| - 1], w, t); } else { SumNonNegative(pc[..|pc| - 1], w); }
  }

  lemma {:induction false} SumNonNegative(pc: seq<Pc>, w: Pc -> int)
    requires forall p :: w(p) >= 0
    ensures Sum(pc, w) >= 0
  {
    if pc != [] { SumNonNegative(pc[..|pc| - 1], w); }
  }

  // ---- The invariant ----------------------------------------------------------------------------------------

  function HoldsOf(c: Check): Pc -> int { (p: Pc) => if p.Working? then multiset(p.batch)[c] else 0 }
  function OwesOf(c: Check): Pc -> int {
    (p: Pc) => if p.Working? && p.done <= |p.batch| then multiset(p.batch[p.done..])[c] else 0
  }

  /** In how many places a check is, and in how many of them it is still to be executed. */
  function Copies(s: State, c: Check): int { multiset(s.queue)[c] + Sum(s.pc, HoldsOf(c)) }
  function Owed(s: State, c: Check): int { multiset(s.queue)[c] + Sum(s.pc, OwesOf(c)) }

  /** `inside` is 1 while a thread is in its critical section: it has joined, but is neither idle nor working. */
  ghost predicate Counted(s: State, inside: int) {
    && s.nTodo == |s.queue| + Sum(s.pc, Held)
    && s.nIdle == Sum(s.pc, Idle)
    && s.nTotal == Sum(s.pc, Joined) + inside
  }

  ghost predicate Shaped(s: State) {
    && |s.pc| > 0 && s.first <= s.next
    && (forall t :: 0 < t < |s.pc| ==> s.pc[t] != Outside)
    && (forall t :: 0 <= t < |s.pc| && s.pc[t].Working? ==> 0 < |s.pc[t].batch| && s.pc[t].done <= |s.pc[t].batch|)
    && (s.pc[0].Waiting? ==> s.queue == [])
    && (s.pc[0] == Waiting(false) ==> s.nTodo > 0)
  }

  ghost predicate Unique(s: State) {
    && (forall c {:trigger Copies(s, c)} :: Copies(s, c) <= 1 && (Copies(s, c) > 0 ==> s.first <= c < s.next))
    && (forall c {:trigger Owed(s, c)} :: c in s.ran ==> Owed(s, c) == 0 && c < s.next)
  }

  ghost predicate Failed(cfg: Config, s: State) {
    exists c :: s.first <= c < s.next && c in s.ran && !cfg.result(c)
  }

  /** Every check of the round is still held, or succeeded, or some check failed. */
  ghost predicate Settled(cfg: Config, s: State) {
    && (!s.fAllOk ==> Failed(cfg, s))
    && (forall t :: 0 <= t < |s.pc| && s.pc[t].Working? && !s.pc[t].ok ==> Failed(cfg, s))
    && (forall t, i :: 0 <= t < |s.pc| && s.pc[t].Working? && s.pc[t].ok && 0 <= i < s.pc[t].done <= |s.pc[t].batch| ==>
          s.pc[t].batch[i] in s.ran && cfg.result(s.pc[t].batch[i]))
    && (s.fAllOk ==> forall c {:trigger Copies(s, c)} :: s.first <= c < s.next ==>
        Copies(s, c) > 0 || (c in s.ran && cfg.result(c)))
  }

  ghost predicate Inv(cfg: Config, s: State) {
    Counted(s, 0) && Shaped(s) && Unique(s) && Settled(cfg, s)
  }

  /** The same while thread t is in its critical section. */
  ghost predicate Within(cfg: Config, s: State, t: nat) {
    Counted(s, 1) && Shaped(s) && Unique(s) && Settled(cfg, s) && t < |s.pc| && s.pc[t] == Entering
  }

  lemma {:induction false} NoneWorking(pc: seq<Pc>, w: Pc -> int)
    requires forall i :: 0 <= i < |pc| ==> w(pc[i]) == 0
    ensures Sum(pc, w) == 0
  {
    if pc != [] { NoneWorking(pc[..|pc| - 1], w); }
  }

  lemma InitialInv(cfg: Config, workers: nat)
    ensures Inv(cfg, Initial(workers))
  {
    hide Sum;
    var s := Initial(workers);
    NoneWorking(s.pc, Held);
    NoneWorking(s.pc, Idle);
    NoneWorking(s.pc, Joined);
    forall c ensures Copies(s, c) == 0 && Owed(s, c) == 0 {
      NoneWorking(s.pc, HoldsOf(c));
      NoneWorking(s.pc, OwesOf(c));
    }
  }

  // ---- What the parts of the invariant depend on --------------------------------------------------------------

  /** The same checks are in the same number of places. */
  ghost predicate SameHoldings(s: State, s': State) {
    && (forall c {:trigger Copies(s', c)} :: Copies(s', c) == Copies(s, c))
    && (forall c {:trigger Owed(s', c)} :: Owed(s', c) == Owed(s, c))
    && s'.first == s.first && s'.next == s.next && s'.ran == s.ran
  }

  lemma UniqueSame(s: State, s': State)
    requires Unique(s) && SameHoldings(s, s')
    ensures Unique(s')
  {
    hide Copies, Owed;
    forall c ensures Copies(s', c) <= 1 && (Copies(s', c) > 0 ==> s'.first <= c < s'.next) { assert Copies(s, c) <= 1; }
    forall c | c in s.ran ensures Owed(s', c) == 0 && c < s'.next { assert Owed(s, c) == 0; }
  }

  /** Threads that held no batch before and hold none after do not matter to what is settled. */
  lemma SettledSame(cfg: Config, s: State, s': State)
    requires Settled(cfg, s) && SameHoldings(s, s') && s'.fAllOk == s.fAllOk && |s'.pc| == |s.pc|
    requires forall t :: 0 <= t < |s.pc| && s'.pc[t].Working? ==> s'.pc[t] == s.pc[t]
    ensures Settled(cfg, s')
  {
    hide Copies, Owed;
    assert Failed(cfg, s) <==> Failed(cfg, s');
    if s.fAllOk {
      forall c {:trigger Copies(s', c)} | s.first <= c < s.next
          ensures Copies(s', c) > 0 || (c in s.ran && cfg.result(c)) {
        assert Copies(s', c) == Copies(s, c);
      }
    }
  }

  // ---- Steps outside a critical section ---------------------------------------------------------------------

  /** A thread that holds nothing before and after. */
  predicate Wakened(p: Pc, q: Pc) { p == q || (p.Waiting? && q == Waiting(true)) || (p == Outside && q == Entering) }

  lemma SamePlace(s: State, pc: seq<Pc>)
    requires |pc| == |s.pc| && forall i :: 0 <= i < |pc| ==> Wakened(s.pc[i], pc[i])
    ensures Sum(pc, Held) == Sum(s.pc, Held) && Sum(pc, Idle) == Sum(s.pc, Idle) && Sum(pc, Joined) == Sum(s.pc, Joined)
    ensures SameHoldings(s, s.(pc := pc))
  {
    hide Sum;
    SumSame(s.pc, pc, Held);
    SumSame(s.pc, pc, Idle);
    SumSame(s.pc, pc, Joined);
    forall c ensures Copies(s.(pc := pc), c) == Copies(s, c) && Owed(s.(pc := pc), c) == Owed(s, c) {
      SumSame(s.pc, pc, HoldsOf(c));
      SumSame(s.pc, pc, OwesOf(c));
    }
  }

  lemma WakeInv(cfg: Config, s: State, pc: seq<Pc>)
    requires Inv(cfg, s) && |pc| == |s.pc| && forall i :: 0 <= i < |pc| ==> Wakened(s.pc[i], pc[i])
    ensures Inv(cfg, s.(pc := pc))
  {
    hide Sum, Unique, Settled, SameHoldings;
    SamePlace(s, pc);
    UniqueSame(s, s.(pc := pc));
    SettledSame(cfg, s, s.(pc := pc));
  }

  lemma {:induction false} FreshOnce(first: Check, n: nat, c: Check)
    ensures multiset(Fresh(first, n))[c] == if first <= c < first + n then 1 else 0
  {
    if n > 0 {
      FreshOnce(first, n - 1, c);
      assert Fresh(first, n) == Fresh(first, n - 1) + [first + n - 1];
    }
  }

  lemma AddInv(cfg: Config, s: State, n: nat)
    requires Inv(cfg, s) && |s.pc| > 0 && s.pc[0] == Outside
    ensures Inv(cfg, s.(queue := s.queue + Fresh(s.next, n), nTodo := s.nTodo + n, next := s.next + n))
  {
    hide Sum, Fresh;
    var s' := s.(queue := s.queue + Fresh(s.next, n), nTodo := s.nTodo + n, next := s.next + n);
    forall c ensures Copies(s', c) == Copies(s, c) + (if s.next <= c < s.next + n then 1 else 0)
             ensures Owed(s', c) == Owed(s, c) + (if s.next <= c < s.next + n then 1 else 0)
    {
      FreshOnce(s.next, n, c);
    }
    forall c ensures Copies(s, c) >= 0 { SumNonNegative(s.pc, HoldsOf(c)); }
    AddedUnique(s, s', n);
    AddedSettled(cfg, s, s', n);
  }

  lemma AddedUnique(s: State, s': State, n: nat)
    requires Unique(s) && s'.first == s.first <= s.next && s'.next == s.next + n && s'.ran == s.ran
    requires forall c {:trigger Copies(s', c)} ::
               Copies(s', c) == Copies(s, c) + if s.next <= c < s.next + n then 1 else 0
    requires forall c {:trigger Owed(s', c)} :: Owed(s', c) == Owed(s, c) + if s.next <= c < s.next + n then 1 else 0
    ensures Unique(s')
  {
    hide Copies, Owed;
    forall c ensures Copies(s', c) <= 1 && (Copies(s', c) > 0 ==> s'.first <= c < s'.next) { assert Copies(s, c) <= 1; }
    forall c | c in s.ran ensures Owed(s', c) == 0 && c < s'.next { assert Owed(s, c) == 0; }
  }

  lemma AddedSettled(cfg: Config, s: State, s': State, n: nat)
    requires Settled(cfg, s) && s'.first == s.first && s'.next == s.next + n && s'.ran == s.ran && s'.pc == s.pc &&
               s'.fAllOk == s.fAllOk
    requires forall c {:trigger Copies(s', c)} ::
               Copies(s', c) == Copies(s, c) + if s.next <= c < s.next + n then 1 else 0
    requires forall c :: Copies(s, c) >= 0
    ensures Settled(cfg, s')
  {
    hide Copies, Owed;
    assert Failed(cfg, s) ==> Failed(cfg, s');
    if s.fAllOk {
      forall c {:trigger Copies(s', c)} | s'.first <= c < s'.next
          ensures Copies(s', c) > 0 || (c in s.ran && cfg.result(c)) {
        assert Copies(s, c) >= 0;
      }
    }
  }

  // ---- Executing a check -------------------------------------------------------------------------------------

  lemma {:induction false} SumLe(pc: seq<Pc>, v: Pc -> int, w: Pc -> int)
    requires forall i :: 0 <= i < |pc| ==> v(pc[i]) <= w(pc[i])
    ensures Sum(pc, v) <= Sum(pc, w)
  {
    if pc != [] { SumLe(pc[..|pc| - 1], v, w); }
  }

  lemma OwedLeCopies(s: State, c: Check)
    ensures 0 <= Owed(s, c) <= Copies(s, c)
  {
    hide Sum;
    forall i | 0 <= i < |s.pc| ensures OwesOf(c)(s.pc[i]) <= HoldsOf(c)(s.pc[i]) {
      var p := s.pc[i];
      if p.Working? && p.done <= |p.batch| { assert p.batch == p.batch[..p.done] + p.batch[p.done..]; }
    }
    SumLe(s.pc, OwesOf(c), HoldsOf(c));
    SumNonNegative(s.pc, OwesOf(c));
  }

  lemma HeldIsCopied(s: State, t: nat, i: nat)
    requires t < |s.pc| && s.pc[t].Working? && i < |s.pc[t].batch|
    ensures Copies(s, s.pc[t].batch[i]) > 0
  {
    var c := s.pc[t].batch[i];
    assert c in multiset(s.pc[t].batch);
    SumBounds(s.pc, HoldsOf(c), t);
  }

  lemma OneLessOwed(batch: seq<Check>, done: nat, c: Check)
    requires done < |batch|
    ensures multiset(batch[done..])[c] == multiset(batch[done + 1..])[c] + if c == batch[done] then 1 else 0
  {
    assert batch[done..] == [batch[done]] + batch[done + 1..];
  }

  /** A check is executed at most once: it had not run, and it is owed nowhere afterwards. */
  lemma RunUnique(cfg: Config, s: State, t: nat)
    requires Shaped(s) && Unique(s) && t < |s.pc| && s.pc[t].Working? && s.pc[t].done < |s.pc[t].batch|
    ensures Unique(Run(cfg, s, t)) && s.pc[t].batch[s.pc[t].done] !in s.ran
    ensures forall c {:trigger Copies(Run(cfg, s, t), c)} :: Copies(Run(cfg, s, t), c) == Copies(s, c)
  {
    hide Sum;
    var w := s.pc[t];
    var x := w.batch[w.done];
    var s' := Run(cfg, s, t);
    forall c ensures Copies(s', c) == Copies(s, c) && Owed(s', c) == Owed(s, c) - (if c == x then 1 else 0) {
      SumSet(s.pc, HoldsOf(c), t, s'.pc[t]);
      SumSet(s.pc, OwesOf(c), t, s'.pc[t]);
      OneLessOwed(w.batch, w.done, c);
    }
    OwedLeCopies(s, x);
    OwedLeCopies(s', x);
    HeldIsCopied(s, t, w.done);
    assert Copies(s, x) <= 1 && Owed(s, x) >= 1;
    forall c | c in s'.ran ensures Owed(s', c) == 0 && c < s'.next { assert c != x ==> Owed(s, c) == 0; }
    forall c ensures Copies(s', c) <= 1 && (Copies(s', c) > 0 ==> s'.first <= c < s'.next) { assert Copies(s, c) <= 1; }
  }

  lemma RunSettled(cfg: Config, s: State, t: nat)
    requires Shaped(s) && Unique(s) && Settled(cfg, s) && t < |s.pc| && s.pc[t].Working? &&
               s.pc[t].done < |s.pc[t].batch|
    requires forall c {:trigger Copies(Run(cfg, s, t), c)} :: Copies(Run(cfg, s, t), c) == Copies(s, c)
    ensures Settled(cfg, Run(cfg, s, t))
  {
    HeldIsCopied(s, t, s.pc[t].done);
    hide Copies, Owed;
    var s' := Run(cfg, s, t);
    var x := s.pc[t].batch[s.pc[t].done];
    assert Copies(s, x) > 0 && s.first <= x < s.next;
    assert Failed(cfg, s) ==> Failed(cfg, s');
    if s.pc[t].ok && !cfg.result(x) { assert x in s'.ran; }
    if s.fAllOk {
      forall c {:trigger Copies(s', c)} | s.first <= c < s.next
          ensures Copies(s', c) > 0 || (c in s'.ran && cfg.result(c)) {
        assert Copies(s', c) == Copies(s, c);
      }
    }
  }

  lemma RunInv(cfg: Config, s: State, t: nat)
    requires Inv(cfg, s) && t < |s.pc| && s.pc[t].Working? && s.pc[t].done < |s.pc[t].batch|
    ensures Inv(cfg, Run(cfg, s, t))
  {
    hide Sum, Unique, Settled;
    RunUnique(cfg, s, t);
    RunSettled(cfg, s, t);
    var x := Run(cfg, s, t).pc[t];
    SumSet(s.pc, Held, t, x);
    SumSet(s.pc, Idle, t, x);
    SumSet(s.pc, Joined, t, x);
  }

  // ---- The critical section: cleaning up -----------------------------------------------------------------------

  /** A worker's batch leaves the books; what it held is settled. */
  lemma FinishInv(cfg: Config, s: State, t: nat)
    requires Inv(cfg, s) && t < |s.pc| && s.pc[t].Working? && s.pc[t].done == |s.pc[t].batch|
    requires s.nTodo == |s.pc[t].batch| ==> s.pc[0] != Waiting(false)
    ensures Within(cfg, s.(fAllOk := s.fAllOk &&
              s.pc[t].ok, nTodo := s.nTodo - |s.pc[t].batch|, pc := s.pc[t := Entering]), t)
  {
    hide Sum, Unique, Settled;
    var s' := s.(fAllOk := s.fAllOk && s.pc[t].ok, nTodo := s.nTodo - |s.pc[t].batch|, pc := s.pc[t := Entering]);
    SumSet(s.pc, Held, t, Entering);
    SumSet(s.pc, Idle, t, Entering);
    SumSet(s.pc, Joined, t, Entering);
    SumNonNegative(s'.pc, Held);
    FinishUnique(s, s', t);
    FinishSettled(cfg, s, s', t);
  }

  lemma FinishUnique(s: State, s': State, t: nat)
    requires Unique(s) && t < |s.pc| && s.pc[t].Working? && s.pc[t].done == |s.pc[t].batch|
    requires s'.pc == s.pc[t := Entering] && s'.queue == s.queue && s'.first == s.first && s'.next == s.next &&
               s'.ran == s.ran
    ensures Unique(s')
    ensures forall c {:trigger Copies(s', c)} :: Copies(s', c) == Copies(s, c) - multiset(s.pc[t].batch)[c]
  {
    hide Sum;
    forall c ensures Copies(s', c) == Copies(s, c) - multiset(s.pc[t].batch)[c] && Owed(s', c) == Owed(s, c) {
      SumSet(s.pc, HoldsOf(c), t, Entering);
      SumSet(s.pc, OwesOf(c), t, Entering);
    }
    forall c ensures Copies(s', c) <= 1 && (Copies(s', c) > 0 ==> s'.first <= c < s'.next) { assert Copies(s, c) <= 1; }
    forall c | c in s.ran ensures Owed(s', c) == 0 && c < s'.next { assert Owed(s, c) == 0; }
  }

  lemma FinishSettled(cfg: Config, s: State, s': State, t: nat)
    requires Settled(cfg, s) && t < |s.pc| && s.pc[t].Working? && s.pc[t].done == |s.pc[t].batch|
    requires s'.pc == s.pc[t := Entering] && s'.fAllOk == (s.fAllOk && s.pc[t].ok) && s'.first == s.first &&
               s'.next == s.next && s'.ran == s.ran
    requires forall c {:trigger Copies(s', c)} :: Copies(s', c) == Copies(s, c) - multiset(s.pc[t].batch)[c]
    ensures Settled(cfg, s')
  {
    hide Copies, Owed;
    assert Failed(cfg, s) <==> Failed(cfg, s');
    var batch := s.pc[t].batch;
    if s'.fAllOk {
      forall c {:trigger Copies(s', c)} | s.first <= c < s.next
          ensures Copies(s', c) > 0 || (c in s.ran && cfg.result(c)) {
        assert Copies(s, c) > 0 || (c in s.ran && cfg.result(c));
        if c in multiset(batch) {
          assert c in batch;
          var i :| 0 <= i < |batch| && batch[i] == c;
          assert s.pc[t].batch[i] in s.ran;
        }
      }
    }
  }

  lemma CleanUpInv(cfg: Config, s: State, t: nat)
    requires Inv(cfg, s) && CanLock(s, t)
    ensures Within(cfg, CleanUp(s, t), t)
  {
    hide Sum, Unique, Settled, SameHoldings;
    match s.pc[t]
    case Entering =>
      Same(s, s.(nTotal := s.nTotal + 1));
      UniqueSame(s, s.(nTotal := s.nTotal + 1));
      SettledSame(cfg, s, s.(nTotal := s.nTotal + 1));
    case Waiting(_) =>
      var s' := s.(nIdle := s.nIdle - 1, pc := s.pc[t := Entering]);
      SumSet(s.pc, Held, t, Entering);
      SumSet(s.pc, Idle, t, Entering);
      SumSet(s.pc, Joined, t, Entering);
      EmptyHanded(s, s', t);
      UniqueSame(s, s');
      SettledSame(cfg, s, s');
    case Working(batch, _, _) =>
      if s.nTodo == |batch| && t != 0 && s.pc[0].Waiting? {
        WakeInv(cfg, s, s.pc[0 := Waiting(true)]);
        FinishInv(cfg, s.(pc := s.pc[0 := Waiting(true)]), t);
      } else {
        FinishInv(cfg, s, t);
      }
  }

  lemma Same(s: State, s': State)
    requires s'.queue == s.queue && s'.pc == s.pc && s'.first == s.first && s'.next == s.next && s'.ran == s.ran
    ensures SameHoldings(s, s')
  {
  }

  /** A thread that holds nothing before and after. */
  lemma EmptyHanded(s: State, s': State, t: nat)
    requires t < |s.pc| && !s.pc[t].Working? && |s'.pc| == |s.pc| && !s'.pc[t].Working? && s'.pc == s.pc[t := s'.pc[t]]
    requires s'.queue == s.queue && s'.first == s.first && s'.next == s.next && s'.ran == s.ran
    ensures SameHoldings(s, s')
  {
    hide Sum;
    forall c ensures Copies(s', c) == Copies(s, c) && Owed(s', c) == Owed(s, c) {
      SumSet(s.pc, HoldsOf(c), t, s'.pc[t]);
      SumSet(s.pc, OwesOf(c), t, s'.pc[t]);
    }
  }

  // ---- The critical section: going on ----------------------------------------------------------------------------

  /** nTodo zero means that no thread holds a batch and no check is anywhere. */
  lemma AllDone(cfg: Config, s: State, t: nat)
    requires Within(cfg, s, t) && s.nTodo == 0
    ensures s.queue == [] && forall i :: 0 <= i < |s.pc| ==> !s.pc[i].Working?
    ensures forall c :: Copies(s, c) == 0 && Owed(s, c) == 0
  {
    SumNonNegative(s.pc, Held);
    forall i | 0 <= i < |s.pc| ensures !s.pc[i].Working? { SumBounds(s.pc, Held, i); }
    forall c ensures Copies(s, c) == 0 && Owed(s, c) == 0 {
      NoneWorking(s.pc, HoldsOf(c));
      NoneWorking(s.pc, OwesOf(c));
    }
  }

  lemma LeaveInv(cfg: Config, s: State)
    requires Within(cfg, s, 0) && s.queue == [] && s.nTodo == 0
    ensures Inv(cfg, s.(nTotal := s.nTotal - 1, fAllOk := true, pc := s.pc[0 := Outside], first := s.next))
  {
    hide Sum;
    var s' := s.(nTotal := s.nTotal - 1, fAllOk := true, pc := s.pc[0 := Outside], first := s.next);
    AllDone(cfg, s, 0);
    SumSet(s.pc, Held, 0, Outside);
    SumSet(s.pc, Idle, 0, Outside);
    SumSet(s.pc, Joined, 0, Outside);
    forall c ensures Copies(s', c) == 0 && Owed(s', c) == 0 {
      SumSet(s.pc, HoldsOf(c), 0, Outside);
      SumSet(s.pc, OwesOf(c), 0, Outside);
      assert Copies(s, c) == 0 && Owed(s, c) == 0;
    }
    forall c | c in s.ran ensures c < s.next { assert Owed(s, c) == 0; }
  }

  lemma SleepInv(cfg: Config, s: State, t: nat)
    requires Within(cfg, s, t) && s.queue == [] && !(t == 0 && s.nTodo == 0)
    ensures Inv(cfg, s.(nIdle := s.nIdle + 1, pc := s.pc[t := Waiting(false)]))
  {
    hide Sum, Unique, Settled, SameHoldings;
    var s' := s.(nIdle := s.nIdle + 1, pc := s.pc[t := Waiting(false)]);
    SumNonNegative(s.pc, Held);
    SumSet(s.pc, Held, t, Waiting(false));
    SumSet(s.pc, Idle, t, Waiting(false));
    SumSet(s.pc, Joined, t, Waiting(false));
    EmptyHanded(s, s', t);
    UniqueSame(s, s');
    SettledSame(cfg, s, s');
  }

  /** The batch is never empty and never more than what is queued. */
  lemma BatchFits(cfg: Config, s: State, t: nat)
    requires Within(cfg, s, t) && s.queue != []
    ensures 1 <= BatchSize(cfg, s) <= |s.queue| && BatchSize(cfg, s) <= Max(1, cfg.nBatchSize)
    ensures BatchSize(cfg, s) > 1 ==> BatchSize(cfg, s) * (s.nTotal + s.nIdle + 1) <= |s.queue|
    ensures BatchSize(cfg, s) < cfg.nBatchSize ==> (BatchSize(cfg, s) + 1) * (s.nTotal + s.nIdle + 1) > |s.queue|
  {
    SumNonNegative(s.pc, Joined);
    SumNonNegative(s.pc, Idle);
    var d := s.nTotal + s.nIdle + 1;
    Radix.DivBounds(|s.queue|, d);
    Arithmetic.MulAtLeast(d, |s.queue| / d);
  }

  lemma TakeInv(cfg: Config, s: State, t: nat)
    requires Within(cfg, s, t) && s.queue != []
    ensures Inv(cfg, Proceed(cfg, s, t))
  {
    hide Sum, Unique, Settled, SameHoldings, BatchSize, Reversed;
    BatchFits(cfg, s, t);
    var s' := Proceed(cfg, s, t);
    SumSet(s.pc, Held, t, s'.pc[t]);
    SumSet(s.pc, Idle, t, s'.pc[t]);
    SumSet(s.pc, Joined, t, s'.pc[t]);
    TakeHoldings(cfg, s, t);
    UniqueSame(s, s');
    TakeSettled(cfg, s, s', t);
  }

  lemma TakeHoldings(cfg: Config, s: State, t: nat)
    requires t < |s.pc| && s.pc[t] == Entering && 1 <= BatchSize(cfg, s) <= |s.queue|
    ensures SameHoldings(s, Proceed(cfg, s, t))
  {
    hide Sum, BatchSize, Reversed;
    var s' := Proceed(cfg, s, t);
    var k := |s'.queue|;
    var batch := s'.pc[t].batch;
    assert s.queue == s.queue[..k] + s.queue[k..];
    assert batch[0..] == batch;
    forall c ensures Copies(s', c) == Copies(s, c) && Owed(s', c) == Owed(s, c) {
      SumSet(s.pc, HoldsOf(c), t, s'.pc[t]);
      SumSet(s.pc, OwesOf(c), t, s'.pc[t]);
    }
  }

  lemma TakeSettled(cfg: Config, s: State, s': State, t: nat)
    requires Settled(cfg, s) && SameHoldings(s, s') && s'.fAllOk == s.fAllOk && t < |s.pc| && |s'.pc| == |s.pc|
    requires s'.pc[t].Working? && s'.pc[t].done == 0 && s'.pc[t].ok == s.fAllOk
    requires forall i :: 0 <= i < |s.pc| && i != t ==> s'.pc[i] == s.pc[i]
    ensures Settled(cfg, s')
  {
    hide Copies, Owed;
    assert Failed(cfg, s) <==> Failed(cfg, s');
    if s.fAllOk {
      forall c {:trigger Copies(s', c)} | s.first <= c < s.next
          ensures Copies(s', c) > 0 || (c in s.ran && cfg.result(c)) {
        assert Copies(s', c) == Copies(s, c);
      }
    }
  }

  lemma LockInv(cfg: Config, s: State, t: nat)
    requires Inv(cfg, s) && CanLock(s, t)
    ensures Inv(cfg, Proceed(cfg, CleanUp(s, t), t))
  {
    hide Inv, Within, CleanUp, BatchSize, Reversed;
    CleanUpInv(cfg, s, t);
    var m := CleanUp(s, t);
    InThere(cfg, m, t);
    if m.queue != [] {
      TakeInv(cfg, m, t);
    } else if t == 0 && m.nTodo == 0 {
      LeaveInv(cfg, m);
    } else {
      SleepInv(cfg, m, t);
    }
  }

  lemma InThere(cfg: Config, s: State, t: nat)
    requires Within(cfg, s, t)
    ensures t < |s.pc|
  {
  }

  /** Every step keeps the invariant. */
  lemma StepInv(cfg: Config, s: State, step: Step)
    requires Inv(cfg, s) && Enabled(s, step)
    ensures Inv(cfg, Apply(cfg, s, step))
  {
    hide Inv;
    match step
    case Add(n, wake) =>
      AddInv(cfg, s, n);
      WakeInv(cfg, s.(queue := s.queue + Fresh(s.next, n), nTodo := s.nTodo + n, next :=
          s.next + n), Woken(s.pc, wake));
    case CallWait => WakeInv(cfg, s, s.pc[0 := Entering]);
    case Lock(t) => LockInv(cfg, s, t);
    case Execute(t) => RunInv(cfg, s, t);
    case Spurious(t) => WakeInv(cfg, s, s.pc[t := Waiting(true)]);
  }

  // ---- Runs ------------------------------------------------------------------------------------------------------

  ghost predicate IsRun(cfg: Config, states: seq<State>, steps: seq<Step>) {
    && |states| == |steps| + 1
    && forall i :: 0 <= i < |steps| ==> Enabled(states[i], steps[i]) && states[i + 1] == Apply(cfg, states[i], steps[i])
  }

  /** In every interleaving: nTodo is what is queued and in flight, and nIdle and nTotal count threads. */
  lemma {:induction false} RunInvariant(cfg: Config, states: seq<State>, steps: seq<Step>, workers: nat, i: nat)
    requires IsRun(cfg, states, steps) && states[0] == Initial(workers) && i < |states|
    ensures Inv(cfg, states[i])
  {
    if i == 0 {
      InitialInv(cfg, workers);
    } else {
      RunInvariant(cfg, states, steps, workers, i - 1);
      assert states[i - 1 + 1] == Apply(cfg, states[i - 1], steps[i - 1]);
      StepInv(cfg, states[i - 1], steps[i - 1]);
    }
  }

  /**
   * When the master returns from Wait, the result is true exactly when every check of the round has
   * run and succeeded, it is false only because one ran and failed, no thread still holds a check of
   * this round, and the next round starts with a clean slate.
   */
  lemma WaitIsCorrect(cfg: Config, s: State)
    requires Inv(cfg, s) && CanLock(s, 0) && Returns(s, 0)
    ensures Result(s) <==> forall c :: s.first <= c < s.next ==> c in s.ran && cfg.result(c)
    ensures !Result(s) ==> exists c :: s.first <= c < s.next && c in s.ran && !cfg.result(c)
    ensures var s' := Apply(cfg, s, Lock(0));
            && s'.pc[0] == Outside && s'.fAllOk && s'.first == s'.next == s.next && s'.queue == []
            && forall t :: 0 <= t < |s'.pc| ==> !s'.pc[t].Working?
  {
    hide Sum;
    CleanUpInv(cfg, s, 0);
    var m := CleanUp(s, 0);
    AllDone(cfg, m, 0);
    assert m.first == s.first && m.next == s.next && m.ran == s.ran;
    if m.fAllOk {
      forall c | s.first <= c < s.next ensures c in s.ran && cfg.result(c) { assert Copies(m, c) == 0; }
    }
  }

  /** A check that a thread is about to execute has never been executed. */
  lemma RunsOnce(cfg: Config, s: State, t: nat)
    requires Inv(cfg, s) && Enabled(s, Execute(t))
    ensures s.pc[t].batch[s.pc[t].done] !in s.ran
  {
    RunUnique(cfg, s, t);
  }

  /** The master never sleeps through the end of the work. */
  lemma NoLostWakeup(cfg: Config, s: State)
    requires Inv(cfg, s) && s.nTodo == 0
    ensures s.pc[0] != Waiting(false)
  {
  }

  lemma {:induction false} SomeoneHolds(pc: seq<Pc>) returns (t: nat)
    requires Sum(pc, Held) > 0
    ensures t < |pc| && pc[t].Working?
  {
    var n := |pc| - 1;
    if pc[n].Working? { t := n; } else { t := SomeoneHolds(pc[..n]); }
  }

  /** While the master is in Wait, some thread can go on without a spurious wake-up. */
  lemma NoDeadlock(cfg: Config, s: State) returns (step: Step)
    requires Inv(cfg, s) && s.pc[0] != Outside
    ensures Enabled(s, step) && (step.Lock? || step.Execute?)
  {
    if s.pc[0].Working? {
      step := if s.pc[0].done < |s.pc[0].batch| then Execute(0) else Lock(0);
    } else if s.pc[0] == Waiting(false) {
      var t := SomeoneHolds(s.pc);
      step := if s.pc[t].done < |s.pc[t].batch| then Execute(t) else Lock(t);
    } else {
      step := Lock(0);
    }
  }

  // ---- Progress --------------------------------------------------------------------------------------------------

  /** How many steps a thread can still take before it sleeps. */
  function Effort(p: Pc): int {
    match p
    case Outside => 0
    case Entering => 1
    case Waiting(woken) => if woken then 1 else 0
    case Working(batch, done, _) => 2 + Max(0, |batch| - done)
  }

  function Measure(s: State): int { 3 * |s.queue| + Sum(s.pc, Effort) }

  lemma CleanUpEffort(cfg: Config, s: State, t: nat)
    requires Inv(cfg, s) && CanLock(s, t)
    ensures CleanUp(s, t).queue == s.queue && t < |CleanUp(s, t).pc| && CleanUp(s, t).pc[t] == Entering
    ensures Sum(CleanUp(s, t).pc, Effort) <= Sum(s.pc, Effort)
  {
    hide Sum;
    var m := CleanUp(s, t);
    if s.pc[t].Working? && s.nTodo == |s.pc[t].batch| && t != 0 && s.pc[0].Waiting? {
      SumSet(s.pc, Effort, 0, Waiting(true));
      SumSet(s.pc[0 := Waiting(true)], Effort, t, Entering);
    } else {
      SumSet(s.pc, Effort, t, Entering);
      assert m.pc == s.pc[t := Entering];
    }
  }

  /** Every critical section and every executed check uses up effort, so Wait returns. */
  lemma Progress(cfg: Config, s: State, step: Step)
    requires Inv(cfg, s) && Enabled(s, step) && (step.Lock? || step.Execute?)
    ensures Measure(Apply(cfg, s, step)) < Measure(s)
  {
    hide Sum, Inv, Within, BatchSize, Reversed;
    if step.Execute? {
      var t := step.t;
      SumSet(s.pc, Effort, t, Run(cfg, s, t).pc[t]);
    } else {
      var t := step.t;
      CleanUpInv(cfg, s, t);
      CleanUpEffort(cfg, s, t);
      var m := CleanUp(s, t);
      if m.queue != [] { BatchFits(cfg, m, t); }
      SumSet(m.pc, Effort, t, Proceed(cfg, m, t).pc[t]);
    }
  }

  lemma SpuriousEffort(cfg: Config, s: State, t: nat)
    requires Enabled(s, Spurious(t))
    ensures Measure(Apply(cfg, s, Spurious(t))) == Measure(s) + 1
  {
    SumSet(s.pc, Effort, t, Waiting(true));
  }

  function Surprises(steps: seq<Step>): nat {
    if steps == [] then 0 else Surprises(steps[..|steps| - 1]) + if steps[|steps| - 1].Spurious? then 1 else 0
  }

  /**
   * From the moment the master calls Wait, and until it calls Add or Wait again, a run has at most
   * as many steps as the effort there was at the start, plus two for each spurious wake-up.
   */
  lemma {:induction false} WaitTerminates(cfg: Config, states: seq<State>, steps: seq<Step>)
    requires IsRun(cfg, states, steps) && Inv(cfg, states[0])
    requires forall i :: 0 <= i < |steps| ==> !steps[i].Add? && !steps[i].CallWait?
    ensures Inv(cfg, states[|steps|]) && Measure(states[|steps|]) + |steps| <= Measure(states[0]) + 2 * Surprises(steps)
    ensures |steps| <= Measure(states[0]) + 2 * Surprises(steps)
  {
    SumNonNegative(states[|steps|].pc, Effort);
    var n := |steps| - 1;
    if n >= 0 {
      assert IsRun(cfg, states[..n + 1], steps[..n]);
      WaitTerminates(cfg, states[..n + 1], steps[..n]);
      var s, step := states[n], steps[n];
      StepInv(cfg, s, step);
      if step.Spurious? { SpuriousEffort(cfg, s, step.t); } else { Progress(cfg, s, step); }
    }
  }

  /**
   * A run without new work that no thread can extend has left the master outside: Wait has returned. And
   * no run goes on for longer than its effort and its spurious wake-ups allow.
   */
  lemma WaitReturns(cfg: Config, states: seq<State>, steps: seq<Step>)
    requires IsRun(cfg, states, steps) && Inv(cfg, states[0])
    requires forall i :: 0 <= i < |steps| ==> !steps[i].Add? && !steps[i].CallWait?
    requires forall t :: !Enabled(states[|steps|], Lock(t)) && !Enabled(states[|steps|], Execute(t))
    ensures |steps| <= Measure(states[0]) + 2 * Surprises(steps)
    ensures |states[|steps|].pc| > 0 && states[|steps|].pc[0] == Outside
  {
    hide Inv, Measure;
    WaitTerminates(cfg, states, steps);
    var last := states[|steps|];
    HasMaster(cfg, last);
    if last.pc[0] != Outside {
      var step := NoDeadlock(cfg, last);
      assert false;
    }
  }

  lemma HasMaster(cfg: Config, s: State)
    requires Inv(cfg, s)
    ensures |s.pc| > 0
  {
  }

  /** From every reachable state some run of critical sections and checks alone makes Wait return. */
  lemma {:induction false} WaitCanReturn(cfg: Config, s: State) returns (states: seq<State>, steps: seq<Step>)
    requires Inv(cfg, s)
    ensures IsRun(cfg, states, steps) && states[0] == s && |steps| <= Measure(s)
    ensures forall i :: 0 <= i < |steps| ==> steps[i].Lock? || steps[i].Execute?
    ensures |states[|steps|].pc| > 0 && states[|steps|].pc[0] == Outside
    decreases Measure(s)
  {
    hide Inv, Measure, Enabled, Apply;
    HasMaster(cfg, s);
    MeasureNonNegative(s);
    if s.pc[0] == Outside {
      states, steps := [s], [];
    } else {
      var step := NoDeadlock(cfg, s);
      var next := Apply(cfg, s, step);
      StepInv(cfg, s, step);
      Progress(cfg, s, step);
      MeasureNonNegative(next);
      var rest, more := WaitCanReturn(cfg, next);
      states, steps := [s] + rest, [step] + more;
    }
  }

  lemma MeasureNonNegative(s: State)
    ensures Measure(s) >= 0
  {
    SumNonNegative(s.pc, Effort);
  }
}
