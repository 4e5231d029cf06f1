/** The functions of the scheduler that change its lists, each keeping the invariants of the
    thread machine and taking exactly one of its steps. */
module Scheduler {
  import opened Prelude
  import opened Threads

  /** Equal states, whether an empty list has an entry in the map or none. */
  ghost predicate SameView(s: Sched, s': Sched) {
    && s'.status == s.status && s'.current == s.current && s'.idle == s.idle && s'.wakeupTick == s.wakeupTick
    && s'.nextTick == s.nextTick && s'.ticks == s.ticks && s'.schedules == s.schedules && s'.nascent == s.nascent
    && forall q :: s'.Q(q) == s.Q(q)
  }

  /** The loop of thread_wakeup from the e-th element of the sleep list on:
      remove and unblock, or keep and note the tick. */
  function ScannedFrom(s: Sched, e: nat, now: int): Sched
    requires e <= |s.Q(SleepList)|
    decreases |s.Q(SleepList)| - e
  {
    var q := s.Q(SleepList);
    if e == |q| then s
    else if now >= s.Wakeup(q[e]) then ScannedFrom(s.SetQ(SleepList, q[..e] + q[e + 1..]).Unblocked(q[e]), e, now)
    else ScannedFrom(s.(nextTick := Min(s.nextTick, s.Wakeup(q[e]))), e + 1, now)
  }

  /** What the loop leaves: the kept part, then those of the rest not yet due. */
  ghost predicate ScanResult(s: Sched, e: nat, now: int, s': Sched)
    requires e <= |s.Q(SleepList)|
  {
    var kept, rest, w := s.Q(SleepList)[..e], s.Q(SleepList)[e..], s.wakeupTick;
    && s'.Q(SleepList) == kept + Later(rest, w, now)
    && s'.Q(ReadyList) == s.Q(ReadyList) + Due(rest, w, now)
    && s'.nextTick == Min(s.nextTick, Earliest(Later(rest, w, now), w))
    && (forall q :: q != SleepList && q != ReadyList ==> s'.Q(q) == s.Q(q))
    && s'.status == ReadyAll(s.status, Due(rest, w, now))
    && s'.current == s.current && s'.idle == s.idle && s'.wakeupTick == w
    && s'.ticks == s.ticks && s'.schedules == s.schedules && s'.nascent == s.nascent
  }

  function ReadyAll(status: map<Tid, Status>, ts: seq<Tid>): map<Tid, Status>
    decreases |ts|
  {
    if ts == [] then status else ReadyAll(status[ts[0] := Ready], ts[1..])
  }

  lemma ScanRemoves(s: Sched, e: nat, now: int, s': Sched)
    requires e < |s.Q(SleepList)| && now >= s.Wakeup(s.Q(SleepList)[e])
    requires var q := s.Q(SleepList);
      ScanResult(s.SetQ(SleepList, q[..e] + q[e + 1..]).Unblocked(q[e]), e, now, s')
    ensures ScanResult(s, e, now, s')
  {
    var q, w := s.Q(SleepList), s.wakeupTick;
    var rest, s1 := q[e..], s.SetQ(SleepList, q[..e] + q[e + 1..]).Unblocked(q[e]);
    assert s1.Q(SleepList)[..e] == q[..e] && s1.Q(SleepList)[e..] == rest[1..];
    assert Later(rest, w, now) == Later(rest[1..], w, now);
    assert Due(rest, w, now) == [q[e]] + Due(rest[1..], w, now);
  }

  lemma ScanKeeps(s: Sched, e: nat, now: int, s': Sched)
    requires e < |s.Q(SleepList)| && now < s.Wakeup(s.Q(SleepList)[e])
    requires ScanResult(s.(nextTick := Min(s.nextTick, s.Wakeup(s.Q(SleepList)[e]))), e + 1, now, s')
    ensures ScanResult(s, e, now, s')
  {
    var q, w := s.Q(SleepList), s.wakeupTick;
    var rest := q[e..];
    assert q[..e + 1] == q[..e] + [q[e]] && q[e + 1..] == rest[1..];
    assert Due(rest, w, now) == Due(rest[1..], w, now);
    assert Later(rest, w, now) == [q[e]] + Later(rest[1..], w, now);
    assert q[..e] + [q[e]] + Later(rest[1..], w, now) == q[..e] + Later(rest, w, now);
  }

  lemma {:induction false} ScanLoopResult(s: Sched, e: nat, now: int)
    requires e <= |s.Q(SleepList)| && s.nextTick <= Int64Max
    ensures ScanResult(s, e, now, ScannedFrom(s, e, now))
    decreases |s.Q(SleepList)| - e
  {
    var q := s.Q(SleepList);
    if e < |q| {
      if now >= s.Wakeup(q[e]) {
        ScanLoopResult(s.SetQ(SleepList, q[..e] + q[e + 1..]).Unblocked(q[e]), e, now);
        ScanRemoves(s, e, now, ScannedFrom(s, e, now));
      } else {
        ScanLoopResult(s.(nextTick := Min(s.nextTick, s.Wakeup(q[e]))), e + 1, now);
        ScanKeeps(s, e, now, ScannedFrom(s, e, now));
      }
    }
  }

  lemma {:induction false} AllUnblockedResult(s: Sched, ts: seq<Tid>)
    ensures s.AllUnblocked(ts).status == ReadyAll(s.status, ts) && s.AllUnblocked(ts).idle == s.idle
    ensures s.AllUnblocked(ts).nascent == s.nascent
    ensures forall q :: q != ReadyList ==> s.AllUnblocked(ts).Q(q) == s.Q(q)
    decreases |ts|
  {
    if ts != [] {
      AllUnblockedResult(s.Unblocked(ts[0]), ts[1..]);
    }
  }

  lemma {:induction false} EarliestAtMost(s: seq<Tid>, w: map<Tid, int>)
    ensures Earliest(s, w) <= Int64Max
  {
    if s != [] {
      EarliestAtMost(s[1..], w);
    }
  }

  /** The removing loop computes the full scan. */
  lemma ScanLoopIsScan(s: Sched, now: int)
    ensures SameView(s.Scanned(now), ScannedFrom(s.(nextTick := Int64Max), 0, now))
  {
    var s0, q, w := s.(nextTick := Int64Max), s.Q(SleepList), s.wakeupTick;
    ScanLoopResult(s0, 0, now);
    assert q[0..] == q && q[..0] == [];
    var later, due := Later(q, w, now), Due(q, w, now);
    EarliestAtMost(later, w);
    var s1 := s.SetQ(SleepList, later).(nextTick := Earliest(later, w));
    AllUnblockedElsewhere(s1, due);
    AllUnblockedResult(s1, due);
  }

  lemma RemoveToHand(s: Sched, e: nat)
    requires Inv(s) && e < |s.Q(SleepList)|
    ensures var q := s.Q(SleepList);
      InHand(s.SetQ(SleepList, q[..e] + q[e + 1..]), s.nascent + {q[e]}) && q[e] !in s.nascent
  {
    var q := s.Q(SleepList);
    var rest := q[..e] + q[e + 1..];
    assert Distinct(s.Q(SleepList)) && q[e] in q;
    forall t ensures t in rest <==> t in q && t != q[e] {
      assert q == q[..e] + [q[e]] + q[e + 1..];
    }
    TakeInHand(s, s.SetQ(SleepList, rest), SleepList, {q[e]});
  }

  /** The lists after a scan. */
  lemma ScanLists(s: Sched, now: int)
    ensures s.Scanned(now).Q(SleepList) == Later(s.Q(SleepList), s.wakeupTick, now)
    ensures s.Scanned(now).Q(ReadyList) == s.Q(ReadyList) + Due(s.Q(SleepList), s.wakeupTick, now)
    ensures s.Scanned(now).nextTick == Earliest(Later(s.Q(SleepList), s.wakeupTick, now), s.wakeupTick)
    ensures s.Scanned(now).wakeupTick == s.wakeupTick && s.Scanned(now).ticks == s.ticks
  {
    var later := Later(s.Q(SleepList), s.wakeupTick, now);
    AllUnblockedElsewhere(s.SetQ(SleepList, later).(nextTick := Earliest(later, s.wakeupTick)),
                          Due(s.Q(SleepList), s.wakeupTick, now));
  }

  /** After the loop the cached tick is the least of the ticks still waited for. */
  lemma ScanTimer(s: Sched, now: int, s': Sched)
    requires s' == ScannedFrom(s.(nextTick := Int64Max), 0, now) && SleepList in s'.queues
    ensures SameView(s.Scanned(now), s') && TimerOk(s') && TimerLeast(s')
    ensures s'.Q(SleepList) == Later(s.Q(SleepList), s.wakeupTick, now)
    ensures s'.Q(ReadyList) == s.Q(ReadyList) + Due(s.Q(SleepList), s.wakeupTick, now)
    ensures s'.wakeupTick == s.wakeupTick
  {
    ScanLoopIsScan(s, now);
    ScanLists(s, now);
    EarliestBound(s'.Q(SleepList), s'.wakeupTick);
  }

  /** The lists after the first of a wait list was unblocked: no other list changes. */
  lemma PopLists(s: Sched, n: nat)
    requires s.Q(WaitList(n)) != []
    ensures var w, s' := s.Q(WaitList(n)), s.Popped(n);
      && s'.Q(WaitList(n)) == w[1..] && s'.Q(ReadyList) + w[1..] == s.Q(ReadyList) + w
      && forall q :: q != ReadyList && q != WaitList(n) ==> s'.Q(q) == s.Q(q)
  {
    var w := s.Q(WaitList(n));
    assert w == [w[0]] + w[1..];
  }

  /** A thread that has left the processor without going on a list stays as it is unless it is
      chosen again, which only the idle thread can be. */
  lemma LeaverStays(s: Sched, v: Status)
    requires Inv(s)
    ensures var s' := s.SetStatus(s.current, v).Scheduled();
      && (s.current != s.idle ==> s'.current != s.current)
      && (s'.current != s.current ==> Has(s', s.current, v) && Nowhere(s', s.current))
  {
    CurrentNowhere(s);
    var s' := s.SetStatus(s.current, v).Scheduled();
    var r := s.Q(ReadyList);
    assert r != [] ==> r[0] in r;
    forall q ensures s.current !in s'.Q(q) {
      assert s.current !in s.Q(q);
    }
  }

  /** The scheduler's variables. */
  class Scheduler {
    var status: map<Tid, Status>
    var queues: map<Queue, seq<Tid>>
    var current: Tid
    const idle: Tid
    var wakeupTick: map<Tid, int>
    var nextTick: int
    var ticks: int
    ghost var schedules: nat
    ghost var nascent: set<Tid>

    function Q(q: Queue): seq<Tid>
      reads this
    {
      if q in queues then queues[q] else []
    }

    ghost function Abstract(): Sched
      reads this
    {
      Sched(status, queues, current, idle, wakeupTick, nextTick, ticks, schedules, nascent)
    }

    ghost predicate Valid()
      reads this
    {
      Inv(Abstract()) && TimerOk(Abstract())
    }

    /** The state in which thread_start returns. */
    constructor (main: Tid, idle: Tid)
      requires main != idle
      ensures Valid() && Start(Abstract()) && current == main && this.idle == idle && ticks == 0
    {
      status := map[main := Running, idle := Blocked];
      queues := map[SleepList := []];
      current, this.idle := main, idle;
      wakeupTick, nextTick, ticks, schedules, nascent := map[], Int64Max, 0, 0, {};
      new;
      assert forall q :: Abstract().Q(q) == [];
    }

    /** thread_unblock: of the threads that are blocked on no list, one becomes the last on the
        ready list; the others, and every other list, stay as they are. */
    method ThreadUnblock(t: Tid, ghost hand: set<Tid>)
      requires InHand(Abstract(), hand) && t in hand
      modifies `status, `queues
      ensures InHand(Abstract(), hand - {t}) && Abstract() == old(Abstract()).Unblocked(t)
      ensures Q(ReadyList) == old(Q(ReadyList)) + [t] && forall q :: q != ReadyList ==> Q(q) == old(Q(q))
    {
      UnblockFromHand(Abstract(), hand, t);
      queues := queues[ReadyList := Q(ReadyList) + [t]];
      status := status[t := Ready];
    }

    /** thread_create up to its thread_unblock. */
    method BeginThread(t: Tid)
      requires Valid() && t !in status
      modifies `status, `nascent
      ensures Valid() && Abstract() == old(Abstract()).Begun(t)
      ensures Nowhere(Abstract(), t)
    {
      CreateKeepsInv(Abstract(), t);
      status := status[t := Blocked];
      nascent := nascent + {t};
      HandNowhere(Abstract(), nascent, t);
    }

    /** thread_create from its thread_unblock on. */
    method LaunchThread(t: Tid)
      requires Valid() && t in nascent
      modifies `status, `queues, `nascent
      ensures Valid() && Abstract() == old(Abstract()).Launched(t)
      ensures Q(ReadyList) == old(Q(ReadyList)) + [t] && Has(Abstract(), t, Ready)
    {
      LaunchKeepsInv(Abstract(), t);
      ThreadUnblock(t, nascent);
      nascent := nascent - {t};
    }

    /** next_thread_to_run and schedule, once the running thread has left the processor: one
        thread runs again, the one that was first on the ready list. */
    method Schedule()
      requires Vacated(Abstract())
      modifies `status, `queues, `current, `schedules
      ensures Inv(Abstract()) && Abstract() == old(Abstract()).Scheduled()
      ensures Dispatched(old(Q(ReadyList)), idle, current, Q(ReadyList))
      ensures forall q :: q != ReadyList ==> Q(q) == old(Q(q))
    {
      ScheduleKeepsInv(Abstract());
      var next := idle;
      if Q(ReadyList) != [] {
        next := Q(ReadyList)[0];
        queues := queues[ReadyList := Q(ReadyList)[1..]];
      }
      status := status[next := Running];
      current := next;
      schedules := schedules + 1;
    }

    /** thread_yield: the running thread goes behind all ready ones, the idle thread on no list,
        and the first of them runs. */
    method ThreadYield()
      requires Valid()
      modifies this
      ensures Valid() && Abstract() == old(Abstract()).Yielded()
      ensures Dispatched(old(Q(ReadyList)) + (if old(current) == idle then [] else [old(current)]), idle, current, Q(ReadyList))
    {
      ghost var s := Abstract();
      StepKeepsTimer(s, Yield);
      if current != idle {
        YieldVacates(s);
        queues := queues[ReadyList := Q(ReadyList) + [current]];
      } else {
        LeaveVacates(s, Ready);
      }
      status := status[current := Ready];
      Schedule();
    }

    /** thread_exit: the running thread is dying and on no list, and the first ready thread runs. */
    method ThreadExit()
      requires Valid() && current != idle
      modifies this
      ensures Valid() && Abstract() == old(Abstract()).Exited()
      ensures Has(Abstract(), old(current), Dying) && Nowhere(Abstract(), old(current)) && current != old(current)
      ensures Dispatched(old(Q(ReadyList)), idle, current, Q(ReadyList))
      ensures forall q :: q != ReadyList ==> Q(q) == old(Q(q))
    {
      ghost var s := Abstract();
      LeaverStays(s, Dying);
      StepKeepsTimer(s, Exit);
      LeaveVacates(s, Dying);
      status := status[current := Dying];
      Schedule();
    }

    /** The idle thread's thread_block: it is on no list, and the first ready thread runs. */
    method IdleBlock()
      requires Valid() && current == idle
      modifies this
      ensures Valid() && Abstract() == old(Abstract()).IdleBlocked()
      ensures current != idle ==> Has(Abstract(), idle, Blocked) && Nowhere(Abstract(), idle)
      ensures Dispatched(old(Q(ReadyList)), idle, current, Q(ReadyList))
      ensures forall q :: q != ReadyList ==> Q(q) == old(Q(q))
    {
      ghost var s := Abstract();
      LeaverStays(s, Blocked);
      StepKeepsTimer(s, Threads.IdleBlock);
      LeaveVacates(s, Blocked);
      status := status[current := Blocked];
      Schedule();
    }

    /** Going on a list and thread_block, as in sema_down, block_thread and thread_sleep: the
        running thread is the last on that list and the first ready one runs. */
    method BlockOn(q: Queue)
      requires Inv(Abstract()) && current != idle && q != ReadyList
      modifies `status, `queues, `current, `schedules
      ensures Inv(Abstract()) && Abstract() == old(Abstract()).BlockedOn(q)
      ensures Q(q) == old(Q(q)) + [old(current)] && Dispatched(old(Q(ReadyList)), idle, current, Q(ReadyList))
      ensures forall r :: r != q && r != ReadyList ==> Q(r) == old(Q(r))
    {
      BlockVacates(Abstract(), q);
      queues := queues[q := Q(q) + [current]];
      status := status[current := Blocked];
      Schedule();
    }

    /** thread_sleep: the sleeper is on the sleep list with its tick, the cached tick is still the
        least, and the first ready thread runs. */
    method ThreadSleep(tick: int)
      requires Valid() && current != idle && tick <= Int64Max
      modifies this
      ensures Valid() && TimerLeast(Abstract()) && Abstract() == old(Abstract()).Slept(tick)
      ensures Q(SleepList) == old(Q(SleepList)) + [old(current)] && wakeupTick == old(wakeupTick)[old(current) := tick]
      ensures Dispatched(old(Q(ReadyList)), idle, current, Q(ReadyList))
    {
      ghost var s := Abstract();
      StepKeepsTimer(s, Sleep(tick));
      wakeupTick := wakeupTick[current := tick];
      nextTick := if nextTick > tick then tick else nextTick;
      SameQueuesKeepInv(s, Abstract());
      BlockOn(SleepList);
      EarliestBound(Q(SleepList), wakeupTick);
    }

    /** One removal in thread_wakeup: the thread at position e of the sleep list is made ready. */
    method WakeAt(e: nat)
      requires Inv(Abstract()) && SleepList in queues && e < |Q(SleepList)|
      modifies `status, `queues
      ensures Inv(Abstract()) && SleepList in queues
      ensures Abstract() == old(Abstract().SetQ(SleepList, Q(SleepList)[..e] + Q(SleepList)[e + 1..]).Unblocked(Q(SleepList)[e]))
    {
      var t := Q(SleepList)[e];
      RemoveToHand(Abstract(), e);
      ghost var hand := nascent + {t};
      queues := queues[SleepList := Q(SleepList)[..e] + Q(SleepList)[e + 1..]];
      ThreadUnblock(t, hand);
      assert hand - {t} == nascent;
    }

    /** The loop of thread_wakeup. */
    method ScanSleepers(now: int)
      requires Inv(Abstract()) && SleepList in queues
      modifies `status, `queues, `nextTick
      ensures Inv(Abstract()) && SleepList in queues && Abstract() == ScannedFrom(old(Abstract()).(nextTick := Int64Max), 0, now)
    {
      ghost var s := Abstract();
      nextTick := Int64Max;
      SameQueuesKeepInv(s, Abstract());
      ghost var goal := ScannedFrom(Abstract(), 0, now);
      var e := 0;
      while e < |Q(SleepList)|
        invariant e <= |Q(SleepList)| && SleepList in queues && Inv(Abstract()) && ScannedFrom(Abstract(), e, now) == goal
        decreases |Q(SleepList)| - e
      {
        var t := Q(SleepList)[e];
        if now >= TickOf(t, wakeupTick) {
          WakeAt(e);
        } else {
          ghost var before := Abstract();
          e := e + 1;
          nextTick := Min(nextTick, TickOf(t, wakeupTick));
          SameQueuesKeepInv(before, Abstract());
        }
      }
    }

    /** thread_wakeup: exactly the sleepers whose tick has come are ready, behind those that were,
        in the order of the sleep list; the others sleep on in their order, and the cached tick
        is their least. */
    method ThreadWakeup(now: int)
      requires Inv(Abstract()) && SleepList in queues
      modifies `status, `queues, `nextTick
      ensures Valid() && TimerLeast(Abstract()) && SameView(old(Abstract()).Scanned(now), Abstract())
      ensures Q(SleepList) == Later(old(Q(SleepList)), wakeupTick, now)
      ensures Q(ReadyList) == old(Q(ReadyList)) + Due(old(Q(SleepList)), wakeupTick, now)
    {
      ghost var s := Abstract();
      ScanSleepers(now);
      ScanTimer(s, now, Abstract());
    }

    /** timer_interrupt, without the time slice: whatever the cached tick, the effect is that of a
        full scan. */
    method TimerInterrupt()
      requires Valid()
      modifies this
      ensures Valid() && SameView(old(Abstract()).Ticked(), Abstract()) && ticks == old(ticks) + 1
      ensures Q(SleepList) == Later(old(Q(SleepList)), wakeupTick, ticks)
      ensures Q(ReadyList) == old(Q(ReadyList)) + Due(old(Q(SleepList)), wakeupTick, ticks)
    {
      ghost var s := Abstract();
      ticks := ticks + 1;
      SameQueuesKeepInv(s, Abstract());
      if nextTick <= ticks {
        ThreadWakeup(ticks);
      } else {
        NobodyDue(Q(SleepList), wakeupTick, ticks);
      }
    }

    /** unblock_threads: drains one wait list in order. */
    method UnblockAll(n: nat)
      requires Inv(Abstract())
      modifies `queues, `status
      ensures Inv(Abstract()) && Q(WaitList(n)) == [] && Q(ReadyList) == old(Q(ReadyList) + Q(WaitList(n)))
      ensures forall q :: q != ReadyList && q != WaitList(n) ==> Q(q) == old(Q(q))
    {
      while Q(WaitList(n)) != []
        invariant Inv(Abstract()) && Q(ReadyList) + Q(WaitList(n)) == old(Q(ReadyList) + Q(WaitList(n)))
        invariant forall q :: q != ReadyList && q != WaitList(n) ==> Q(q) == old(Q(q))
        decreases |Q(WaitList(n))|
      {
        PopFront(n);
      }
    }

    /** The first thread of a wait list leaves it and is unblocked, as in sema_up. */
    method PopFront(n: nat)
      requires Inv(Abstract()) && Q(WaitList(n)) != []
      modifies `queues, `status
      ensures Inv(Abstract()) && Abstract() == old(Abstract()).Popped(n)
      ensures Q(WaitList(n)) == old(Q(WaitList(n))[1..])
      ensures Q(ReadyList) + Q(WaitList(n)) == old(Q(ReadyList) + Q(WaitList(n)))
      ensures forall q :: q != ReadyList && q != WaitList(n) ==> Q(q) == old(Q(q))
    {
      ghost var s := Abstract();
      PopToHand(s, n);
      PopLists(s, n);
      var t := Q(WaitList(n))[0];
      queues := queues[WaitList(n) := Q(WaitList(n))[1..]];
      ThreadUnblock(t, nascent + {t});
      assert nascent + {t} - {t} == nascent;
    }
  }
}
