/** A semaphore on top of the scheduler: its waiters are a list of blocked threads, and its
    operations are sections with interrupts off that block and unblock them. */
module Semaphores {
  import opened Prelude
  import opened Threads
  import opened Scheduler
  import Synch

  /** No lost wakeup: while threads wait, every unit of the value is matched by a thread that was
      unblocked here and has yet to test the value again; none of those is waiting. */
  ghost predicate Matched(value: nat, waiters: seq<Tid>, woken: set<Tid>) {
    && (forall t :: t in waiters ==> t !in woken)
    && (waiters != [] ==> value <= |woken|)
  }

  /** It holds of every semaphore in every state of every interleaving of semaphores, locks and
      condition variables, with the threads that sema_up has unblocked and that have not run since. */
  lemma RunsAreMatched(states: seq<Synch.State>, actions: seq<Synch.Action>, i: nat, x: Synch.SemaId)
    requires Synch.Run(states, actions) && i < |states|
    ensures var s := states[i].S(x);
      Matched(s.value, s.waiters, Synch.WokenSet(states[i], x)) && s.value == s.init + s.ups - s.downs
  {
    Synch.RunsKeepInv(states, actions, i);
    assert Synch.SemaOk(states[i], x);
  }

  lemma WakeMatches(value: nat, waiters: seq<Tid>, woken: set<Tid>)
    requires Distinct(waiters) && waiters != [] && Matched(value, waiters, woken)
    ensures Matched(value + 1, waiters[1..], woken + {waiters[0]})
  {
    assert waiters[0] !in woken && waiters == [waiters[0]] + waiters[1..];
  }

  lemma TakeMatches(value: nat, waiters: seq<Tid>, woken: set<Tid>, t: Tid)
    requires value > 0 && Matched(value, waiters, woken)
    ensures Matched(value - 1, waiters, woken - {t})
  {
    if t !in woken {
      assert woken - {t} == woken;
    }
  }

  class Semaphore {
    const sched: Scheduler
    const list: nat
    var value: nat
    ghost var woken: set<Tid>
    ghost var init: nat
    ghost var ups: nat
    ghost var downs: nat

    function Waiters(): seq<Tid>
      reads sched
    {
      sched.Q(WaitList(list))
    }

    ghost predicate Valid()
      reads this, sched
    {
      sched.Valid() && Matched(value, Waiters(), woken) && value == init + ups - downs
    }

    /** sema_init, on a list nobody waits on. */
    constructor (sched: Scheduler, list: nat, n: nat)
      requires sched.Valid() && sched.Q(WaitList(list)) == []
      ensures Valid() && this.sched == sched && this.list == list
      ensures value == init == n && woken == {} && ups == downs == 0
    {
      this.sched, this.list, value, woken, init, ups, downs := sched, list, n, {}, n, 0, 0;
    }

    /** sema_up: the value grows by one, the thread that has waited longest is ready behind all
        ready threads, and the caller goes on running. */
    method Up()
      requires Valid()
      modifies this, sched
      ensures Valid() && value == old(value) + 1 && ups == old(ups) + 1 && init == old(init) && downs == old(downs)
      ensures sched.current == old(sched.current)
      ensures sched.Q(ReadyList) + Waiters() == old(sched.Q(ReadyList) + Waiters())
      ensures |Waiters()| == if old(Waiters()) == [] then 0 else |old(Waiters())| - 1
      ensures woken == if old(Waiters()) == [] then old(woken) else old(woken) + {old(Waiters())[0]}
      ensures forall q :: q != ReadyList && q != WaitList(list) ==> sched.Q(q) == old(sched.Q(q))
    {
      if Waiters() != [] {
        ghost var s := sched.Abstract();
        assert Distinct(s.Q(WaitList(list)));
        WakeMatches(value, Waiters(), woken);
        StepKeepsTimer(s, Unblock(list));
        woken := woken + {Waiters()[0]};
        sched.PopFront(list);
      }
      value := value + 1;
      ups := ups + 1;
    }

    /** sema_try_down: it takes a unit exactly when there is one, and blocks nobody. */
    method TryDown() returns (success: bool)
      requires Valid()
      modifies this
      ensures Valid() && (success <==> old(value) > 0) && woken == old(woken)
      ensures value + downs == old(value + downs) && downs == old(downs) + (if success then 1 else 0)
      ensures init == old(init) && ups == old(ups)
    {
      success := value > 0;
      if success {
        value := value - 1;
        downs := downs + 1;
      }
    }

    /** One turn of the loop in sema_down: either the running thread has taken a unit and goes on,
        or there was none and it waits behind all other waiters while the first ready thread runs. */
    method TestDown() returns (blocked: bool)
      requires Valid() && sched.current != sched.idle
      modifies this, sched
      ensures Valid() && (blocked <==> old(value) == 0) && woken == old(woken) - {old(sched.current)}
      ensures value + downs == old(value + downs) && downs == old(downs) + (if blocked then 0 else 1)
      ensures init == old(init) && ups == old(ups)
      ensures !blocked ==> sched.Abstract() == old(sched.Abstract())
      ensures blocked ==> Waiters() == old(Waiters()) + [old(sched.current)]
      ensures blocked ==> Dispatched(old(sched.Q(ReadyList)), sched.idle, sched.current, sched.Q(ReadyList))
      ensures forall q :: q != ReadyList && q != WaitList(list) ==> sched.Q(q) == old(sched.Q(q))
    {
      blocked := value == 0;
      if blocked {
        woken := woken - {sched.current};
        StepKeepsTimer(sched.Abstract(), Block(list));
        sched.BlockOn(WaitList(list));
      } else {
        TakeMatches(value, Waiters(), woken, sched.current);
        value := value - 1;
        downs := downs + 1;
        woken := woken - {sched.current};
      }
    }
  }
}
