/** In what state the calls of the synchronisation primitives return, in every interleaving. */
module SynchCalls {
  import opened Prelude
  import opened Synch

  // ---------------------------------------------------------------------
  // Where a thread can be.

  /** The thread whose step it is; Up and TryDown may come from an interrupt handler. */
  ghost predicate StepOf(a: Action, t: Tid) {
    !a.Up? && !a.TryDown? && a.t == t
  }

  /** Other threads move a thread at most from blocked to unblocked. */
  lemma OthersStep(st: State, a: Action, t: Tid)
    requires SemasOk(st) && Enabled(st, a) && !StepOf(a, t)
    ensures Step(st, a).P(t) == st.P(t) || Step(st, a).P(t) == st.P(t).Unblocked()
    ensures forall l :: (l, t) in Step(st, a).inside <==> (l, t) in st.inside
  {
  }

  /** Nothing but a semaphore holds a thread up: sema_up and sema_try_down may always run, a thread
      outside may make any call its locks allow, and one inside a call that is not blocked has a
      next step. */
  lemma MayRun(st: State, t: Tid, n: nat, l: nat, c: Cond)
    ensures Enabled(st, Up(n)) && Enabled(st, TryDown(n))
    ensures st.P(t) == Outside ==>
      && Enabled(st, CallDown(t, n))
      && ((l, t) !in st.inside ==> Enabled(st, CallAcquire(t, l)) && Enabled(st, TryAcquire(t, l)))
      && ((l, t) in st.inside ==> Enabled(st, CallRelease(t, l)))
      && ((c.lock, t) in st.inside ==> Enabled(st, CallWait(t, c)) && Enabled(st, Signal(t, c)))
    ensures st.P(t) != Outside && !st.P(t).Asleep? ==> exists a :: StepOf(a, t) && Enabled(st, a)
  {
    var p := st.P(t);
    var a := match p
      case Taken(_) => SetHolder(t)
      case Queued(_) => WaitRelease(t)
      case Freed(_, _) => FinishRelease(t)
      case Signalling(_, _) => FinishSignal(t)
      case _ => Test(t);
    assert p != Outside && !p.Asleep? ==> StepOf(a, t) && Enabled(st, a);
  }

  ghost predicate InDownOn(p: Pc, x: SemaId, k: Then) {
    p.InDown() && p.s == x && p.k == k
  }

  /** Inside lock_acquire on l. */
  ghost predicate Acquiring(p: Pc, l: nat) {
    InDownOn(p, OfLock(l), TakeHolder(l)) || p == Taken(l)
  }

  /** Inside cond_wait on c, after its lock_release. */
  ghost predicate Waiting(p: Pc, t: Tid, c: Cond) {
    p == Freed(c.lock, Some(c)) || InDownOn(p, OfWaiter(t), Reacquire(c)) || Acquiring(p, c.lock)
  }

  ghost predicate Has(st: State, t: Tid, l: nat) {
    (l, t) in st.inside && st.Holds(l, t)
  }

  lemma AcquireStep(st: State, a: Action, t: Tid, l: nat)
    requires SemasOk(st) && Enabled(st, a) && Acquiring(st.P(t), l)
    ensures Acquiring(Step(st, a).P(t), l) || (a == SetHolder(t) && Step(st, a).P(t) == Outside && Has(Step(st, a), t, l))
    ensures Acquiring(Step(st, a).P(t), l) ==> ((l, t) in Step(st, a).inside <==> (l, t) in st.inside)
  {
    if !StepOf(a, t) {
      OthersStep(st, a, t);
    }
  }

  lemma WaitingStep(st: State, a: Action, t: Tid, c: Cond)
    requires SemasOk(st) && Enabled(st, a) && Waiting(st.P(t), t, c) && (c.lock, t) !in st.inside
    ensures var st' := Step(st, a);
      || (Waiting(st'.P(t), t, c) && (c.lock, t) !in st'.inside)
      || (st'.P(t) == Outside && Has(st', t, c.lock))
  {
    if Acquiring(st.P(t), c.lock) {
      AcquireStep(st, a, t, c.lock);
    } else if !StepOf(a, t) {
      OthersStep(st, a, t);
    }
  }

  // ---------------------------------------------------------------------
  // lock_acquire and cond_wait return inside the lock.

  /** t is inside a call from the step after i up to, but not including, j. */
  ghost predicate Within(states: seq<State>, i: nat, j: nat, t: Tid)
    requires j < |states|
  {
    forall m :: i < m < j ==> states[m].P(t) != Outside
  }

  lemma {:induction false} AcquireRuns(states: seq<State>, actions: seq<Action>, i: nat, j: nat, t: Tid, l: nat)
    requires Run(states, actions) && i < j < |states| && Acquiring(states[i + 1].P(t), l) && Within(states, i, j, t)
    ensures Acquiring(states[j].P(t), l) || (states[j].P(t) == Outside && Has(states[j], t, l))
    decreases j
  {
    if j - 1 > i {
      AcquireRuns(states, actions, i, j - 1, t, l);
      RunsKeepInv(states, actions, j - 1);
      assert StepAt(states, actions, j - 1);
      AcquireStep(states[j - 1], actions[j - 1], t, l);
    }
  }

  /** When lock_acquire returns, the caller is inside the lock and is its holder. */
  lemma AcquireReturns(states: seq<State>, actions: seq<Action>, i: nat, j: nat, t: Tid, l: nat)
    requires Run(states, actions) && i < j < |states| && actions[i] == CallAcquire(t, l) && Within(states, i, j, t)
    requires states[j].P(t) == Outside
    ensures (l, t) in states[j].inside && states[j].Holds(l, t)
  {
    assert StepAt(states, actions, i);
    AcquireRuns(states, actions, i, j, t, l);
  }

  /** lock_try_acquire does nothing where somebody owns the lock, and returns inside it otherwise. */
  lemma TryAcquireReturns(states: seq<State>, actions: seq<Action>, i: nat, j: nat, t: Tid, l: nat)
    requires Run(states, actions) && i < j < |states| && actions[i] == TryAcquire(t, l) && Within(states, i, j, t)
    requires states[j].P(t) == Outside
    ensures if exists u :: Owns(states[i], u, l) then states[i + 1] == states[i]
            else (l, t) in states[j].inside && states[j].Holds(l, t)
  {
    RunsKeepInv(states, actions, i);
    assert StepAt(states, actions, i) && LockOk(states[i], l);
    if forall u :: !Owns(states[i], u, l) {
      AcquireRuns(states, actions, i, j, t, l);
    }
  }

  /** lock_release leaves the lock at once, and when it returns it has raised the lock's semaphore. */
  lemma ReleaseReturns(states: seq<State>, actions: seq<Action>, i: nat, j: nat, t: Tid, l: nat)
    requires Run(states, actions) && i < j < |states| && actions[i] == CallRelease(t, l) && Within(states, i, j, t)
    ensures (l, t) !in states[j].inside && !states[j].Holds(l, t)
    ensures states[j].P(t) == Outside ==>
      actions[j - 1] == FinishRelease(t) && states[j - 1].S(OfLock(l)).value == 0 && states[j].S(OfLock(l)).value == 1
  {
    ReleaseRuns(states, actions, i, j, t, l);
    RunsKeepInv(states, actions, j);
    assert InsideOk(states[j]);
  }

  lemma {:induction false} ReleaseRuns(states: seq<State>, actions: seq<Action>, i: nat, j: nat, t: Tid, l: nat)
    requires Run(states, actions) && i < j < |states| && actions[i] == CallRelease(t, l) && Within(states, i, j, t)
    ensures (l, t) !in states[j].inside
    ensures || states[j].P(t) == Freed(l, None)
            || (states[j].P(t) == Outside && actions[j - 1] == FinishRelease(t) &&
                states[j - 1].S(OfLock(l)).value == 0 && states[j].S(OfLock(l)).value == 1)
    decreases j
  {
    RunsKeepInv(states, actions, j - 1);
    assert StepAt(states, actions, j - 1);
    if j - 1 > i {
      ReleaseRuns(states, actions, i, j - 1, t, l);
      if StepOf(actions[j - 1], t) {
        assert LockOk(states[j - 1], l) && Hands(states[j - 1], t, l) && Owns(states[j - 1], t, l);
      } else {
        OthersStep(states[j - 1], actions[j - 1], t);
      }
    }
  }

  lemma {:induction false} WaitRuns(states: seq<State>, actions: seq<Action>, i: nat, j: nat, t: Tid, c: Cond)
    requires Run(states, actions) && i < j < |states| && actions[i] == CallWait(t, c) && Within(states, i, j, t)
    ensures || (states[j].P(t) == Queued(c) && (c.lock, t) in states[j].inside)
            || (Waiting(states[j].P(t), t, c) && (c.lock, t) !in states[j].inside)
            || (states[j].P(t) == Outside && Has(states[j], t, c.lock))
    decreases j
  {
    RunsKeepInv(states, actions, j - 1);
    assert StepAt(states, actions, j - 1);
    if j - 1 > i {
      WaitRuns(states, actions, i, j - 1, t, c);
      if states[j - 1].P(t) != Queued(c) {
        WaitingStep(states[j - 1], actions[j - 1], t, c);
      } else if !StepOf(actions[j - 1], t) {
        OthersStep(states[j - 1], actions[j - 1], t);
      }
    }
  }

  /** cond_wait has the lock until it is queued, is outside it while it waits, and returns inside it
      as its holder. */
  lemma WaitReturns(states: seq<State>, actions: seq<Action>, i: nat, j: nat, t: Tid, c: Cond)
    requires Run(states, actions) && i < j < |states| && actions[i] == CallWait(t, c) && Within(states, i, j, t)
    ensures states[j].P(t) == Outside ==> (c.lock, t) in states[j].inside && states[j].Holds(c.lock, t)
    ensures states[j].P(t) != Outside ==> ((c.lock, t) in states[j].inside <==> states[j].P(t) == Queued(c))
  {
    WaitRuns(states, actions, i, j, t, c);
  }

  // ---------------------------------------------------------------------
  // cond_wait returns only after a signal meant for it.

  lemma QueueStep(st: State, a: Action, c: Cond)
    requires Enabled(st, a)
    ensures st.WaitCount(c) <= Step(st, a).WaitCount(c) && st.SignalCount(c) <= Step(st, a).SignalCount(c)
  {
  }

  /** The signals so far have reached the q-th thread ever queued on c. */
  ghost predicate Reached(st: State, c: Cond, q: nat) {
    q < st.SignalCount(c)
  }

  lemma QueuedUntilReached(st: State, t: Tid, c: Cond, q: nat)
    requires FifoOk(st, c) && q < |st.WaitCount(c)| && st.WaitCount(c)[q] == t
    ensures t in st.C(c) || Reached(st, c, q)
  {
    if st.SignalCount(c) <= q {
      assert st.C(c)[q - st.SignalCount(c)] == t;
    }
  }

  lemma {:induction false} WaitTicket(states: seq<State>, actions: seq<Action>, i: nat, j: nat, t: Tid, c: Cond)
    requires Run(states, actions) && i < j < |states| && actions[i] == CallWait(t, c) && Within(states, i, j, t)
    ensures states[i].WaitCount(c) + [t] <= states[j].WaitCount(c)
    ensures || states[j].P(t) == Queued(c) || states[j].P(t) == Freed(c.lock, Some(c))
            || InDownOn(states[j].P(t), OfWaiter(t), Reacquire(c)) || Reached(states[j], c, |states[i].WaitCount(c)|)
    decreases j
  {
    var st, a, q := states[j - 1], actions[j - 1], |states[i].WaitCount(c)|;
    RunsKeepInv(states, actions, j - 1);
    assert StepAt(states, actions, j - 1);
    if j - 1 > i {
      WaitTicket(states, actions, i, j - 1, t, c);
      QueueStep(st, a, c);
      if !StepOf(a, t) {
        OthersStep(st, a, t);
      } else if a.Test? && st.S(st.P(t).s).value > 0 && st.P(t).s == OfWaiter(t) {
        assert CondOk(st, c) && FifoOk(st, c) && st.WaitCount(c)[q] == t;
        QueuedUntilReached(st, t, c, q);
      }
    }
  }

  /** No wait ends by itself: when cond_wait returns, the signals on the condition have reached the
      caller's place among all that ever waited on it. */
  lemma WaitWasSignalled(states: seq<State>, actions: seq<Action>, i: nat, j: nat, t: Tid, c: Cond)
    requires Run(states, actions) && i < j < |states| && actions[i] == CallWait(t, c) && Within(states, i, j, t)
    requires states[j].P(t) == Outside
    ensures |states[i].WaitCount(c)| < states[j].SignalCount(c)
    ensures states[i].WaitCount(c) + [t] <= states[j].WaitCount(c)
  {
    WaitTicket(states, actions, i, j, t, c);
  }

  // ---------------------------------------------------------------------
  // sema_down returns with a unit, and units are conserved.

  lemma {:induction false} DownRuns(states: seq<State>, actions: seq<Action>, i: nat, j: nat, t: Tid, n: nat)
    requires Run(states, actions) && i < j < |states| && actions[i] == CallDown(t, n) && Within(states, i, j, t)
    ensures || InDownOn(states[j].P(t), Plain(n), Return)
            || (states[j].P(t) == Outside && actions[j - 1] == Test(t) && InDownOn(states[j - 1].P(t), Plain(n), Return) &&
                states[j].S(Plain(n)).value == states[j - 1].S(Plain(n)).value - 1)
    decreases j
  {
    RunsKeepInv(states, actions, j - 1);
    assert StepAt(states, actions, j - 1);
    if j - 1 > i {
      DownRuns(states, actions, i, j - 1, t, n);
      if !StepOf(actions[j - 1], t) {
        OthersStep(states[j - 1], actions[j - 1], t);
      }
    }
  }

  /** When sema_down returns, its last step has taken a unit. */
  lemma DownReturns(states: seq<State>, actions: seq<Action>, i: nat, j: nat, t: Tid, n: nat)
    requires Run(states, actions) && i < j < |states| && actions[i] == CallDown(t, n) && Within(states, i, j, t)
    requires states[j].P(t) == Outside
    ensures i < j - 1 && actions[j - 1] == Test(t) && states[j - 1].S(Plain(n)).value > 0
    ensures states[j].S(Plain(n)).value == states[j - 1].S(Plain(n)).value - 1
  {
    DownRuns(states, actions, i, j, t, n);
    assert StepAt(states, actions, i);
  }

  /** A test that finds no unit blocks the thread, behind all that are blocked there; a signal that
      finds nobody queued does nothing. */
  lemma TestBlocks(states: seq<State>, actions: seq<Action>, i: nat, t: Tid)
    requires Run(states, actions) && i < |actions| && actions[i] == Test(t)
    ensures states[i].P(t).InDown()
    ensures var x := states[i].P(t).s; states[i].S(x).value == 0 ==>
      states[i + 1].P(t).AsleepOn(x) && states[i + 1].S(x).waiters == states[i].S(x).waiters + [t]
  {
    assert StepAt(states, actions, i);
  }

  lemma SignalOnNobody(states: seq<State>, actions: seq<Action>, i: nat, t: Tid, c: Cond)
    requires Run(states, actions) && i < |actions| && actions[i] == Signal(t, c) && states[i].C(c) == []
    ensures states[i + 1] == states[i]
  {
    assert StepAt(states, actions, i);
  }

  /** A step that raises x by one, and one that takes a unit from x. */
  ghost predicate Raises(st: State, a: Action, x: SemaId)
    requires Enabled(st, a)
  {
    || (a.Up? && x == Plain(a.n))
    || (a.FinishRelease? && x == OfLock(st.P(a.t).l))
    || (a.FinishSignal? && x == OfWaiter(st.P(a.t).w))
  }

  ghost predicate Takes(st: State, a: Action, x: SemaId)
    requires Enabled(st, a)
  {
    && st.S(x).value > 0
    && ((a.TryDown? && x == Plain(a.n)) || (a.TryAcquire? && x == OfLock(a.l)) || (a.Test? && x == st.P(a.t).s))
  }

  lemma RaiseValue(st: State, x: SemaId, y: SemaId)
    ensures st.Raise(x).S(y).value == st.S(y).value + if x == y then 1 else 0
  {
  }

  lemma TestValue(st: State, t: Tid, y: SemaId)
    requires st.P(t).InDown()
    ensures st.Tested(t).S(y).value == st.S(y).value - if y == st.P(t).s && st.S(y).value > 0 then 1 else 0
  {
  }

  lemma TryValue(st: State, x: SemaId, y: SemaId)
    ensures st.TryTake(x).S(y).value == st.S(y).value - if x == y && st.S(y).value > 0 then 1 else 0
  {
  }

  lemma ValueStep(st: State, a: Action, x: SemaId)
    requires Enabled(st, a) && !(a.CallWait? && x == OfWaiter(a.t))
    ensures Step(st, a).S(x).value ==
      st.S(x).value + (if Raises(st, a, x) then 1 else 0) - (if Takes(st, a, x) then 1 else 0)
  {
    if a.Up? {
      RaiseValue(st, Plain(a.n), x);
    } else if a.FinishRelease? {
      RaiseValue(st, OfLock(st.P(a.t).l), x);
    } else if a.FinishSignal? {
      RaiseValue(st, OfWaiter(st.P(a.t).w), x);
    } else if a.Test? {
      TestValue(st, a.t, x);
    } else if a.TryDown? {
      TryValue(st, Plain(a.n), x);
    } else if a.TryAcquire? {
      TryValue(st, OfLock(a.l), x);
    } else {
      SameSemas(st, a, x);
    }
  }

  /** The other steps touch no semaphore but a waiter's own. */
  lemma SameSemas(st: State, a: Action, x: SemaId)
    requires Enabled(st, a) && !(a.CallWait? && x == OfWaiter(a.t))
    requires !a.Up? && !a.FinishRelease? && !a.FinishSignal? && !a.Test? && !a.TryDown? && !a.TryAcquire?
    ensures Step(st, a).S(x) == st.S(x)
  {
  }

  ghost function RaiseCount(states: seq<State>, actions: seq<Action>, x: SemaId, i: nat): nat
    requires Run(states, actions) && i < |states|
    decreases i
  {
    if i == 0 then 0
    else
      assert StepAt(states, actions, i - 1);
      RaiseCount(states, actions, x, i - 1) + if Raises(states[i - 1], actions[i - 1], x) then 1 else 0
  }

  ghost function TakeCount(states: seq<State>, actions: seq<Action>, x: SemaId, i: nat): nat
    requires Run(states, actions) && i < |states|
    decreases i
  {
    if i == 0 then 0
    else
      assert StepAt(states, actions, i - 1);
      TakeCount(states, actions, x, i - 1) + if Takes(states[i - 1], actions[i - 1], x) then 1 else 0
  }

  /** The value of a semaphore that is not a waiter's own is its first value, and one more for
      every sema_up and one less for every unit taken in the run so far. */
  lemma {:induction false} UnitsOverRuns(states: seq<State>, actions: seq<Action>, x: SemaId, i: nat)
    requires Run(states, actions) && i < |states| && !x.OfWaiter?
    ensures states[i].S(x).value == states[0].S(x).value + RaiseCount(states, actions, x, i) - TakeCount(states, actions, x, i)
    decreases i
  {
    if i > 0 {
      UnitsOverRuns(states, actions, x, i - 1);
      assert StepAt(states, actions, i - 1);
      ValueStep(states[i - 1], actions[i - 1], x);
    }
  }

  // ---------------------------------------------------------------------
  // First blocked, first unblocked.

  /** t stands before u in the queue. */
  ghost predicate Before(w: seq<Tid>, t: Tid, u: Tid) {
    exists m, n :: 0 <= m < n < |w| && w[m] == t && w[n] == u
  }

  lemma RaiseWaiters(st: State, x: SemaId, y: SemaId)
    ensures var w := st.S(y).waiters; st.Raise(x).S(y).waiters == if x == y && w != [] then w[1..] else w
  {
  }

  lemma TestWaiters(st: State, t: Tid, y: SemaId)
    requires st.P(t).InDown()
    ensures var w := st.S(y).waiters; st.Tested(t).S(y).waiters == if y == st.P(t).s && st.S(y).value == 0 then w + [t] else w
  {
  }

  lemma TryWaiters(st: State, x: SemaId, y: SemaId)
    ensures st.TryTake(x).S(y).waiters == st.S(y).waiters
  {
  }

  lemma EmptyOrMember(w: seq<Tid>) returns (v: Tid)
    ensures w == [] || v in w
  {
    v := if w == [] then 0 else w[0];
  }

  /** A thread that calls cond_wait has nobody waiting on its own semaphore. */
  lemma NobodyWaits(st: State, t: Tid)
    requires SemaOk(st, OfWaiter(t)) && (forall v :: PcOk(st, v)) && st.P(t) == Outside
    ensures st.S(OfWaiter(t)).waiters == []
  {
    forall v ensures !st.P(v).AsleepOn(OfWaiter(t)) {
      assert PcOk(st, v);
    }
    var _ := EmptyOrMember(st.S(OfWaiter(t)).waiters);
  }

  /** A step leaves the queue of x, takes its first thread off or puts one at its end. */
  lemma WaitersStep(st: State, a: Action, x: SemaId)
    requires SemaOk(st, x) && (forall v :: PcOk(st, v)) && Enabled(st, a)
    ensures var w, w' := st.S(x).waiters, Step(st, a).S(x).waiters;
      || w' == w || (w != [] && w' == w[1..]) || (a.Test? && w' == w + [a.t] && a.t !in w)
  {
    if a.Up? {
      RaiseWaiters(st, Plain(a.n), x);
    } else if a.FinishRelease? {
      RaiseWaiters(st, OfLock(st.P(a.t).l), x);
    } else if a.FinishSignal? {
      RaiseWaiters(st, OfWaiter(st.P(a.t).w), x);
    } else if a.Test? {
      TestWaiters(st, a.t, x);
    } else if a.TryDown? {
      TryWaiters(st, Plain(a.n), x);
    } else if a.TryAcquire? {
      TryWaiters(st, OfLock(a.l), x);
    } else if a.CallWait? && x == OfWaiter(a.t) {
      NobodyWaits(st, a.t);
    } else {
      SameSemas(st, a, x);
    }
  }

  lemma TailKeepsOrder(w: seq<Tid>, t: Tid, u: Tid)
    requires Distinct(w) && w != [] && t in w[1..] && Before(w, t, u)
    ensures Before(w[1..], t, u)
  {
    var m, n :| 0 <= m < n < |w| && w[m] == t && w[n] == u;
    var k :| 0 <= k < |w[1..]| && w[1..][k] == t;
    assert w[k + 1] == t && m == k + 1;
    assert w[1..][m - 1] == t && w[1..][n - 1] == u;
  }

  lemma EndKeepsOrder(w: seq<Tid>, t: Tid, u: Tid, v: Tid)
    requires t in w && (Before(w, t, u) || u == v)
    ensures Before(w + [v], t, u)
  {
    if Before(w, t, u) {
      var m, n :| 0 <= m < n < |w| && w[m] == t && w[n] == u;
      assert (w + [v])[m] == t && (w + [v])[n] == u;
    } else {
      var m :| 0 <= m < |w| && w[m] == t;
      assert (w + [v])[m] == t && (w + [v])[|w|] == u;
    }
  }

  lemma BeforeMembers(w: seq<Tid>, t: Tid, u: Tid)
    requires Before(w, t, u)
    ensures t in w && u in w
  {
  }

  lemma QueueKeepsOrder(st: State, a: Action, t: Tid, u: Tid, x: SemaId)
    requires SemasOk(st) && (forall v :: PcOk(st, v)) && Enabled(st, a)
    requires st.P(t).AsleepOn(x) && Step(st, a).P(t).AsleepOn(x)
    requires st.P(u).AsleepOn(x) ==> Before(st.S(x).waiters, t, u)
    ensures Step(st, a).P(u).AsleepOn(x) ==> Before(Step(st, a).S(x).waiters, t, u)
    ensures st.P(u).AsleepOn(x) ==> Step(st, a).P(u).AsleepOn(x)
  {
    var st' := Step(st, a);
    var w, w' := st.S(x).waiters, st'.S(x).waiters;
    StepKeepsSemas(st, a);
    assert SemaOk(st, x) && SemaOk(st', x);
    WaitersStep(st, a, x);
    assert t in w && t in w' && (u in w <==> st.P(u).AsleepOn(x)) && (u in w' <==> st'.P(u).AsleepOn(x));
    if w' != w && w != [] && w' == w[1..] {
      if u in w {
        TailKeepsOrder(w, t, u);
        BeforeMembers(w', t, u);
      }
    } else if w' != w {
      if u in w' {
        EndKeepsOrder(w, t, u, a.t);
      }
    }
  }

  lemma {:induction false} OrderOverRuns(states: seq<State>, actions: seq<Action>, i: nat, j: nat, t: Tid, u: Tid, x: SemaId)
    requires Run(states, actions) && i <= j < |states|
    requires forall k :: i <= k <= j ==> states[k].P(t).AsleepOn(x)
    requires states[i].P(u).AsleepOn(x) ==> Before(states[i].S(x).waiters, t, u)
    ensures states[j].P(u).AsleepOn(x) ==> Before(states[j].S(x).waiters, t, u)
    ensures states[i].P(u).AsleepOn(x) ==> states[j].P(u).AsleepOn(x)
    decreases j
  {
    if i < j {
      OrderOverRuns(states, actions, i, j - 1, t, u, x);
      RunsKeepInv(states, actions, j - 1);
      assert StepAt(states, actions, j - 1);
      QueueKeepsOrder(states[j - 1], actions[j - 1], t, u, x);
    }
  }

  /** While a thread stays blocked on a semaphore, no thread that blocks on it later is unblocked. */
  lemma FirstBlockedFirstUnblocked(states: seq<State>, actions: seq<Action>, i: nat, m: nat, j: nat, t: Tid, u: Tid, x: SemaId)
    requires Run(states, actions) && i <= m <= j < |states|
    requires forall k :: i <= k <= j ==> states[k].P(t).AsleepOn(x)
    requires !states[i].P(u).AsleepOn(x) && states[m].P(u).AsleepOn(x)
    ensures states[j].P(u).AsleepOn(x)
  {
    OrderOverRuns(states, actions, i, m, t, u, x);
    OrderOverRuns(states, actions, m, j, t, u, x);
  }
}
