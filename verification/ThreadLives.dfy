/** What becomes of a thread in a run: what runs next, and how a thread that was created, yielded,
    blocked, slept or exited goes on. */
module ThreadLives {
  import opened Prelude
  import opened Threads

  // ---------------------------------------------------------------------
  // What one step leaves alone.

  lemma {:induction false} UnblockedElsewhere(s: Sched, ts: seq<Tid>)
    ensures var s' := s.AllUnblocked(ts);
      && s'.idle == s.idle && s'.nascent == s.nascent && (forall q :: q != ReadyList ==> s'.Q(q) == s.Q(q))
      && forall t, v :: Has(s', t, v) <==> if t in ts then v == Ready else Has(s, t, v)
    decreases |ts|
  {
    if ts != [] {
      UnblockedElsewhere(s.Unblocked(ts[0]), ts[1..]);
      assert ts == [ts[0]] + ts[1..];
    }
  }

  /** A tick counts, and readies none but sleepers. */
  lemma TickElsewhere(s: Sched)
    ensures var s' := s.Ticked();
      && s'.current == s.current && s'.idle == s.idle && s'.ticks == s.ticks + 1 && s'.nascent == s.nascent
      && (forall q :: q != ReadyList && q != SleepList ==> s'.Q(q) == s.Q(q))
      && (forall t, v :: t !in s.Q(SleepList) ==> (Has(s', t, v) <==> Has(s, t, v)))
      && (forall t :: Has(s', t, Dying) ==> Has(s, t, Dying))
  {
    var now, w := s.ticks + 1, s.wakeupTick;
    var later, due := Later(s.Q(SleepList), w, now), Due(s.Q(SleepList), w, now);
    var s1 := s.(ticks := now).SetQ(SleepList, later).(nextTick := Earliest(later, w));
    AllUnblockedElsewhere(s1, due);
    UnblockedElsewhere(s1, due);
    forall t ensures t in due ==> t in s.Q(SleepList) {
      FilterMembers(s.Q(SleepList), w, now, t);
    }
  }

  /** Who runs after a step: a thread that yields goes behind all ready ones first. */
  lemma NextRuns(states: seq<Sched>, actions: seq<Action>, i: nat)
    requires Run(states, actions) && i < |actions|
    ensures var s, s' := states[i], states[i + 1];
      if Schedules(actions[i])
      then Dispatched(s.Q(ReadyList) + (if actions[i].Yield? && s.current != s.idle then [s.current] else []),
                      s.idle, s'.current, s'.Q(ReadyList))
      else s'.current == s.current
    ensures states[i + 1].idle == states[i].idle
  {
    assert StepAt(states, actions, i);
    if actions[i].Tick? {
      TickElsewhere(states[i]);
    }
  }

  lemma ListedIsNotIdle(s: Sched, t: Tid, q: Queue)
    requires PlacedBut(s, s.nascent) && t in s.Q(q)
    ensures t != s.idle
  {
    if q == ReadyList {
      assert t in s.Q(ReadyList);
      assert Has(s, t, Ready) && t != s.idle;
    } else {
      assert Has(s, t, Blocked) && t != s.idle && t !in s.nascent;
    }
  }

  lemma IdleNowhere(s: Sched)
    requires Inv(s)
    ensures Nowhere(s, s.idle)
  {
    forall q, t | t in s.Q(q) ensures t != s.idle {
      ListedIsNotIdle(s, t, q);
    }
  }

  /** The idle thread is on no list; once it has blocked, and whenever another runs, it is blocked,
      unless it was preempted. */
  lemma IdleStays(states: seq<Sched>, actions: seq<Action>, i: nat)
    requires Run(states, actions) && i < |actions|
    ensures var s, s' := states[i], states[i + 1];
      && Nowhere(s, s.idle)
      && (s.current == s.idle && s'.current != s.idle ==>
            Has(s', s.idle, if actions[i].IdleBlock? then Blocked else Ready))
      && (s.current != s.idle && s'.current != s.idle ==> forall v :: Has(s', s.idle, v) <==> Has(s, s.idle, v))
  {
    var s := states[i];
    RunsKeepInv(states, actions, i);
    assert StepAt(states, actions, i);
    IdleNowhere(s);
    if actions[i].Tick? {
      TickElsewhere(s);
    } else {
      assert actions[i].Launch? ==> actions[i].t in s.nascent;
      assert actions[i].Unblock? && s.Q(WaitList(actions[i].n)) != [] ==> s.Q(WaitList(actions[i].n))[0] != s.idle;
    }
  }

  // ---------------------------------------------------------------------
  // Exiting.

  ghost predicate Exits(states: seq<Sched>, actions: seq<Action>, i: int, t: Tid) {
    0 <= i < |actions| && i < |states| && actions[i].Exit? && states[i].current == t
  }

  ghost predicate Exited(states: seq<Sched>, actions: seq<Action>, j: nat, t: Tid) {
    exists i :: i < j && Exits(states, actions, i, t)
  }

  lemma DyingStep(s: Sched, a: Action, t: Tid)
    requires Inv(s) && Enabled(s, a)
    ensures Has(Step(s, a), t, Dying) <==> Has(s, t, Dying) || (a.Exit? && t == s.current)
  {
    if a.Tick? {
      TickElsewhere(s);
      assert t in s.Q(SleepList) ==> Has(s, t, Blocked);
    } else {
      assert s.Q(ReadyList) != [] ==> Has(s, s.Q(ReadyList)[0], Ready);
      assert a.Unblock? && s.Q(WaitList(a.n)) != [] ==> Has(s, s.Q(WaitList(a.n))[0], Blocked);
      assert Has(s, s.current, Running);
    }
  }

  /** A thread is dying exactly when it has exited. */
  lemma {:induction false} DyingExactlyAfterExit(states: seq<Sched>, actions: seq<Action>, j: nat, t: Tid)
    requires Run(states, actions) && j < |states|
    ensures Has(states[j], t, Dying) <==> Exited(states, actions, j, t)
    decreases j
  {
    if j > 0 {
      DyingExactlyAfterExit(states, actions, j - 1, t);
      RunsKeepInv(states, actions, j - 1);
      assert StepAt(states, actions, j - 1);
      DyingStep(states[j - 1], actions[j - 1], t);
      if i :| i < j - 1 && Exits(states, actions, i, t) {
        assert i < j && Exits(states, actions, i, t);
      }
      assert actions[j - 1].Exit? && t == states[j - 1].current ==> Exits(states, actions, j - 1, t);
    }
  }

  /** A thread that has exited is on no list and never runs again. */
  lemma ExitedNeverRuns(states: seq<Sched>, actions: seq<Action>, i: nat, j: nat, t: Tid)
    requires Run(states, actions) && i < j < |states| && actions[i] == Exit && t == states[i].current
    ensures Has(states[j], t, Dying) && Nowhere(states[j], t) && states[j].current != t
  {
    assert Exits(states, actions, i, t);
    DyingExactlyAfterExit(states, actions, j, t);
    RunsKeepInv(states, actions, j);
    assert Has(states[j], states[j].current, Running);
    forall q ensures t !in states[j].Q(q) {
      assert !Has(states[j], t, Ready) && !Has(states[j], t, Blocked);
    }
  }

  // ---------------------------------------------------------------------
  // Waiting in line.

  /** How many threads were unblocked from list n in the steps from i to j. */
  ghost function Unblocks(actions: seq<Action>, i: nat, j: nat, n: nat): nat
    requires i <= j <= |actions|
    decreases j
  {
    if i == j then 0 else Unblocks(actions, i, j - 1, n) + if actions[j - 1] == Unblock(n) then 1 else 0
  }

  lemma WaitStep(s: Sched, a: Action, n: nat, k: nat)
    requires Inv(s) && Enabled(s, a) && k < |s.Q(WaitList(n))|
    ensures var s', t, w := Step(s, a), s.Q(WaitList(n))[k], Step(s, a).Q(WaitList(n));
      if a != Unblock(n) then k < |w| && w[k] == t
      else if k > 0 then k <= |w| && w[k - 1] == t
      else s'.Q(ReadyList) == s.Q(ReadyList) + [t] && Has(s', t, Ready)
  {
    if a.Tick? {
      TickElsewhere(s);
    }
  }

  /** A thread that blocks on a list is blocked on it, behind those that were there before it, until
      these and then itself have been unblocked: first come, first unblocked. */
  lemma {:induction false} WaitsInLine(states: seq<Sched>, actions: seq<Action>, i: nat, j: nat, n: nat)
    requires Run(states, actions) && i < j < |states| && actions[i] == Block(n)
    requires Unblocks(actions, i + 1, j, n) <= |states[i].Q(WaitList(n))|
    ensures var k, t := |states[i].Q(WaitList(n))| - Unblocks(actions, i + 1, j, n), states[i].current;
      k < |states[j].Q(WaitList(n))| && states[j].Q(WaitList(n))[k] == t && Has(states[j], t, Blocked)
    decreases j
  {
    RunsKeepInv(states, actions, j);
    RunsKeepInv(states, actions, j - 1);
    assert StepAt(states, actions, j - 1);
    if j - 1 > i {
      WaitsInLine(states, actions, i, j - 1, n);
      WaitStep(states[j - 1], actions[j - 1], n, |states[i].Q(WaitList(n))| - Unblocks(actions, i + 1, j - 1, n));
    }
    assert states[i].current in states[j].Q(WaitList(n));
  }

  /** The unblocking that reaches it makes it the last ready thread. */
  lemma UnblockedInTurn(states: seq<Sched>, actions: seq<Action>, i: nat, j: nat, n: nat)
    requires Run(states, actions) && i < j < |actions| && actions[i] == Block(n) && actions[j] == Unblock(n)
    requires Unblocks(actions, i + 1, j, n) == |states[i].Q(WaitList(n))|
    ensures states[j + 1].Q(ReadyList) == states[j].Q(ReadyList) + [states[i].current]
    ensures Has(states[j + 1], states[i].current, Ready)
  {
    WaitsInLine(states, actions, i, j, n);
    RunsKeepInv(states, actions, j);
    assert StepAt(states, actions, j);
    WaitStep(states[j], actions[j], n, 0);
  }

  /** Unblocking from an empty list does nothing. */
  lemma UnblockNobody(states: seq<Sched>, actions: seq<Action>, i: nat, n: nat)
    requires Run(states, actions) && i < |actions| && actions[i] == Unblock(n) && states[i].Q(WaitList(n)) == []
    ensures states[i + 1] == states[i]
  {
    assert StepAt(states, actions, i);
  }

  // ---------------------------------------------------------------------
  // Sleeping.

  /** How many timer interrupts came in the steps from i to j. */
  ghost function Ticks(actions: seq<Action>, i: nat, j: nat): nat
    requires i <= j <= |actions|
    decreases j
  {
    if i == j then 0 else Ticks(actions, i, j - 1) + if actions[j - 1].Tick? then 1 else 0
  }

  lemma {:induction false} TicksCount(states: seq<Sched>, actions: seq<Action>, i: nat, j: nat)
    requires Run(states, actions) && i <= j < |states|
    ensures states[j].ticks == states[i].ticks + Ticks(actions, i, j)
    decreases j
  {
    if i < j {
      TicksCount(states, actions, i, j - 1);
      assert StepAt(states, actions, j - 1);
      if actions[j - 1].Tick? {
        TickElsewhere(states[j - 1]);
      }
    }
  }

  lemma {:induction false} TicksGrow(actions: seq<Action>, i: nat, j: nat, k: nat)
    requires i <= j <= k <= |actions|
    ensures Ticks(actions, i, j) <= Ticks(actions, i, k)
    decreases k
  {
    if j < k {
      TicksGrow(actions, i, j, k - 1);
    }
  }

  /** A thread that goes to sleep until a tick is blocked until the tick has come. */
  lemma SleepsUntilTick(states: seq<Sched>, actions: seq<Action>, i: nat, j: nat, tick: int)
    requires Run(states, actions) && i < j < |states| && actions[i] == Sleep(tick)
    requires states[i].ticks + Ticks(actions, i, j) < tick || Ticks(actions, i, j) == 0
    ensures states[i].current in states[j].Q(SleepList) && Has(states[j], states[i].current, Blocked)
    ensures states[j].current != states[i].current
  {
    var t := states[i].current;
    assert StepAt(states, actions, i);
    SleepStarts(states[i], tick);
    forall m | i + 1 <= m < j && actions[m].Tick? ensures states[m + 1].ticks < states[i + 1].Wakeup(t) {
      TicksCount(states, actions, i, m + 1);
      TicksGrow(actions, i, m + 1, j);
    }
    SleepsUntilDue(states, actions, i + 1, j, t);
    RunsKeepInv(states, actions, j);
    assert Has(states[j], states[j].current, Running);
  }

  lemma SleepStarts(s: Sched, tick: int)
    ensures var s' := s.Slept(tick); s.current in s'.Q(SleepList) && s'.Wakeup(s.current) == tick
  {
  }

  /** The timer interrupt that brings the tick, or the first one after a tick already past, makes
      it ready. */
  lemma WakesOnTick(states: seq<Sched>, actions: seq<Action>, i: nat, j: nat, tick: int)
    requires Run(states, actions) && i < j < |actions| && actions[i] == Sleep(tick) && actions[j].Tick?
    requires states[i].ticks + Ticks(actions, i, j) < tick || Ticks(actions, i, j) == 0
    requires tick <= states[i].ticks + Ticks(actions, i, j) + 1
    ensures states[i].current in states[j + 1].Q(ReadyList) && Has(states[j + 1], states[i].current, Ready)
  {
    SleepsUntilTick(states, actions, i, j, tick);
    var t := states[i].current;
    assert StepAt(states, actions, i);
    SleepStarts(states[i], tick);
    forall m | i + 1 <= m < j && actions[m].Tick? ensures states[m + 1].ticks < states[i + 1].Wakeup(t) {
      TicksCount(states, actions, i, m + 1);
      TicksGrow(actions, i, m + 1, j);
    }
    TicksCount(states, actions, i, j + 1);
    WakesWhenDue(states, actions, i + 1, j, t);
  }

  // ---------------------------------------------------------------------
  // Beginning.

  lemma NascentStep(s: Sched, a: Action, t: Tid)
    requires Enabled(s, a)
    ensures t in Step(s, a).nascent <==> if a == Create(t) then true else if a == Launch(t) then false else t in s.nascent
  {
    if a.Tick? {
      TickElsewhere(s);
    }
  }

  /** A thread being created is blocked on no list until it is launched. */
  lemma {:induction false} NascentUntilLaunched(states: seq<Sched>, actions: seq<Action>, i: nat, j: nat, t: Tid)
    requires Run(states, actions) && i < j < |states| && actions[i] == Create(t)
    requires forall m :: i < m < j ==> actions[m] != Launch(t)
    ensures t in states[j].nascent && Has(states[j], t, Blocked) && Nowhere(states[j], t)
    decreases j
  {
    if j - 1 > i {
      NascentUntilLaunched(states, actions, i, j - 1, t);
    }
    assert StepAt(states, actions, j - 1);
    NascentStep(states[j - 1], actions[j - 1], t);
    RunsKeepInv(states, actions, j);
    assert Inv(states[j]) && Has(states[j], t, Blocked);
    forall q ensures t !in states[j].Q(q) {
      assert t in states[j].Q(ReadyList) ==> Has(states[j], t, Ready);
    }
  }

  /** Launching makes it the last ready thread. */
  lemma LaunchedIsReady(states: seq<Sched>, actions: seq<Action>, j: nat, t: Tid)
    requires Run(states, actions) && j < |actions| && actions[j] == Launch(t)
    ensures states[j + 1].Q(ReadyList) == states[j].Q(ReadyList) + [t] && Has(states[j + 1], t, Ready)
  {
    assert StepAt(states, actions, j);
  }
}
