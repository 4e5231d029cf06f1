/** Semaphores, locks and condition variables, as they are run by threads that
    can be interrupted between any two sections with interrupts off. */
module Synch {
  import opened Prelude

  type Tid = nat

  /** A semaphore, with the number of ups and of completed downs so far. */
  datatype Sema = Sema(value: nat, waiters: seq<Tid>, init: nat, ups: nat, downs: nat) {
    /** sema_up: the first waiter leaves the queue and the value grows. */
    function Up(): Sema {
      this.(value := value + 1, waiters := if waiters == [] then [] else waiters[1..], ups := ups + 1)
    }

    function Take(): Sema
      requires value > 0
    {
      this.(value := value - 1, downs := downs + 1)
    }

    function Wait(t: Tid): Sema {
      this.(waiters := waiters + [t])
    }
  }

  function NewSema(n: nat): Sema {
    Sema(n, [], n, 0, 0)
  }

  /** A condition variable belongs to one lock. */
  datatype Cond = Cond(lock: nat, n: nat)

  /** Semaphores in their own right, the one inside a lock, and the one on the
      stack of a thread inside cond_wait. */
  datatype SemaId = Plain(n: nat) | OfLock(l: nat) | OfWaiter(t: Tid)

  /** What a thread does when sema_down returns. */
  datatype Then = Return | TakeHolder(l: nat) | Reacquire(c: Cond)

  /** Where a thread is: outside all of this; in sema_down before its first test
      of the value, blocked, or unblocked and about to test again; in
      lock_acquire before the holder is set; in cond_wait before the lock is
      released; in lock_release before its sema_up; in cond_signal after it has
      taken a thread off the queue and before its sema_up. */
  datatype Pc =
    | Outside
    | Entering(s: SemaId, k: Then)
    | Asleep(s: SemaId, k: Then)
    | Woken(s: SemaId, k: Then)
    | Taken(l: nat)
    | Queued(c: Cond)
    | Freed(l: nat, waitsOn: Option<Cond>)
    | Signalling(c: Cond, w: Tid)
  {
    predicate InDown() {
      Entering? || Asleep? || Woken?
    }

    predicate AsleepOn(x: SemaId) {
      Asleep? && s == x
    }

    predicate WokenOn(x: SemaId) {
      Woken? && s == x
    }

    /** thread_unblock, seen from the thread. */
    function Unblocked(): Pc {
      if Asleep? then Woken(s, k) else this
    }
  }

  function After(k: Then): Pc {
    match k
    case Return => Outside
    case TakeHolder(l) => Taken(l)
    case Reacquire(c) => Entering(OfLock(c.lock), TakeHolder(c.lock))
  }

  datatype State = State(
    pc: map<Tid, Pc>,
    semas: map<SemaId, Sema>,
    holder: map<nat, Tid>,
    inside: set<(nat, Tid)>,       // threads between lock_acquire's return and lock_release's call
    conds: map<Cond, seq<Tid>>,
    queued: map<Cond, seq<Tid>>,   // every thread that ever queued, in order
    signalled: map<Cond, nat>)     // how many of them were signalled
  {
    function P(t: Tid): Pc {
      if t in pc then pc[t] else Outside
    }

    function S(x: SemaId): Sema {
      if x in semas then semas[x] else NewSema(if x.OfLock? then 1 else 0)
    }

    predicate Holds(l: nat, t: Tid) {
      l in holder && holder[l] == t
    }

    function C(c: Cond): seq<Tid> {
      if c in conds then conds[c] else []
    }

    function SetPc(t: Tid, p: Pc): State {
      this.(pc := pc[t := p])
    }

    function SetSema(x: SemaId, v: Sema): State {
      this.(semas := semas[x := v])
    }

    /** sema_up on x. */
    function Raise(x: SemaId): (r: State)
      ensures r.holder == holder && r.inside == inside
      ensures r.conds == conds && r.queued == queued && r.signalled == signalled
    {
      var v := S(x);
      if v.waiters == [] then SetSema(x, v.Up())
      else SetSema(x, v.Up()).SetPc(v.waiters[0], P(v.waiters[0]).Unblocked())
    }

    /** sema_try_down on x. */
    function TryTake(x: SemaId): State {
      if S(x).value > 0 then SetSema(x, S(x).Take()) else this
    }

    /** One test in the loop of sema_down: block, or take and go on. */
    function Tested(t: Tid): (r: State)
      requires P(t).InDown()
      ensures r.holder == holder && r.inside == inside
      ensures r.conds == conds && r.queued == queued && r.signalled == signalled
    {
      var p := P(t);
      if S(p.s).value == 0 then SetSema(p.s, S(p.s).Wait(t)).SetPc(t, Asleep(p.s, p.k))
      else SetSema(p.s, S(p.s).Take()).SetPc(t, After(p.k))
    }

    function TriedAcquire(t: Tid, l: nat): State {
      if S(OfLock(l)).value > 0 then TryTake(OfLock(l)).SetPc(t, Taken(l)) else this
    }

    function HolderSet(t: Tid, l: nat): State {
      this.(holder := holder[l := t], inside := inside + {(l, t)}).SetPc(t, Outside)
    }

    /** lock_release up to, and then from, its sema_up. */
    function HolderCleared(t: Tid, l: nat, waitsOn: Option<Cond>): State {
      this.(holder := holder - {l}, inside := inside - {(l, t)}).SetPc(t, Freed(l, waitsOn))
    }

    function Finished(t: Tid, l: nat, waitsOn: Option<Cond>): State {
      Raise(OfLock(l)).SetPc(t,
        match waitsOn
        case None => Outside
        case Some(c) => Entering(OfWaiter(t), Reacquire(c)))
    }

    /** cond_wait up to its lock_release. */
    function WaitCalled(t: Tid, c: Cond): State {
      SetSema(OfWaiter(t), NewSema(0)).(
        conds := conds[c := C(c) + [t]],
        queued := queued[c := WaitCount(c) + [t]]).SetPc(t, Queued(c))
    }

    function Dequeued(c: Cond): State
      requires C(c) != []
    {
      this.(conds := conds[c := C(c)[1..]], signalled := signalled[c := SignalCount(c) + 1])
    }

    /** cond_signal up to, and then from, its sema_up. */
    function SignalCalled(t: Tid, c: Cond): State {
      if C(c) == [] then this else Dequeued(c).SetPc(t, Signalling(c, C(c)[0]))
    }

    function SignalFinished(t: Tid, w: Tid): State {
      Raise(OfWaiter(w)).SetPc(t, Outside)
    }

    function WaitCount(c: Cond): seq<Tid> {
      if c in queued then queued[c] else []
    }

    function SignalCount(c: Cond): nat {
      if c in signalled then signalled[c] else 0
    }
  }

  datatype Action =
    | CallDown(t: Tid, n: nat) | Test(t: Tid) | TryDown(n: nat) | Up(n: nat)
    | CallAcquire(t: Tid, l: nat) | TryAcquire(t: Tid, l: nat) | SetHolder(t: Tid)
    | CallRelease(t: Tid, l: nat) | FinishRelease(t: Tid)
    | CallWait(t: Tid, c: Cond) | WaitRelease(t: Tid) | Signal(t: Tid, c: Cond) | FinishSignal(t: Tid)

  /** When a section may run. TryDown and Up may also come from an interrupt
      handler. Threads release, wait and signal only inside the lock, and do not
      acquire it there. */
  predicate Enabled(st: State, a: Action) {
    match a
    case CallDown(t, n) => st.P(t) == Outside
    case Test(t) => st.P(t).Entering? || st.P(t).Woken?
    case TryDown(n) => true
    case Up(n) => true
    case CallAcquire(t, l) => st.P(t) == Outside && (l, t) !in st.inside
    case TryAcquire(t, l) => st.P(t) == Outside && (l, t) !in st.inside
    case SetHolder(t) => st.P(t).Taken?
    case CallRelease(t, l) => st.P(t) == Outside && (l, t) in st.inside
    case FinishRelease(t) => st.P(t).Freed?
    case CallWait(t, c) => st.P(t) == Outside && (c.lock, t) in st.inside
    case WaitRelease(t) => st.P(t).Queued?
    case Signal(t, c) => st.P(t) == Outside && (c.lock, t) in st.inside
    case FinishSignal(t) => st.P(t).Signalling?
  }

  function Step(st: State, a: Action): State
    requires Enabled(st, a)
  {
    match a
    case CallDown(t, n) => st.SetPc(t, Entering(Plain(n), Return))
    case Test(t) => st.Tested(t)
    case TryDown(n) => st.TryTake(Plain(n))
    case Up(n) => st.Raise(Plain(n))
    case CallAcquire(t, l) => st.SetPc(t, Entering(OfLock(l), TakeHolder(l)))
    case TryAcquire(t, l) => st.TriedAcquire(t, l)
    case SetHolder(t) => st.HolderSet(t, st.P(t).l)
    case CallRelease(t, l) => st.HolderCleared(t, l, None)
    case FinishRelease(t) => st.Finished(t, st.P(t).l, st.P(t).waitsOn)
    case CallWait(t, c) => st.WaitCalled(t, c)
    case WaitRelease(t) => st.HolderCleared(t, st.P(t).c.lock, Some(st.P(t).c))
    case Signal(t, c) => st.SignalCalled(t, c)
    case FinishSignal(t) => st.SignalFinished(t, st.P(t).w)
  }

  // ---------------------------------------------------------------------
  // Semaphores.

  ghost function WokenSet(st: State, x: SemaId): set<Tid> {
    set t | t in st.pc && st.pc[t].WokenOn(x)
  }

  /** The queue of x holds exactly the threads blocked on x, each once. */
  ghost predicate QueueOk(st: State, x: SemaId) {
    Distinct(st.S(x).waiters) && forall t :: t in st.S(x).waiters <==> st.P(t).AsleepOn(x)
  }

  /** No lost wakeup: while threads are blocked on x, every unit of its value is
      matched by a thread that was unblocked and has yet to test again. */
  ghost predicate NoLostWakeup(st: State, x: SemaId) {
    st.S(x).waiters != [] ==> st.S(x).value <= |WokenSet(st, x)|
  }

  /** The value is accounted for: initial value plus ups minus completed downs. */
  ghost predicate Conserved(st: State, x: SemaId) {
    st.S(x).value == st.S(x).init + st.S(x).ups - st.S(x).downs
  }

  ghost predicate SemaOk(st: State, x: SemaId) {
    QueueOk(st, x) && NoLostWakeup(st, x) && Conserved(st, x)
  }

  ghost predicate SemasOk(st: State) {
    forall x :: SemaOk(st, x)
  }

  lemma TailMembers(s: seq<Tid>)
    requires s != [] && Distinct(s)
    ensures Distinct(s[1..]) && forall t :: t in s[1..] <==> t in s && t != s[0]
  {
    assert s == [s[0]] + s[1..];
  }

  lemma RaiseOther(st: State, x: SemaId, y: SemaId)
    requires SemaOk(st, x) && SemaOk(st, y) && x != y
    ensures SemaOk(st.Raise(x), y)
  {
    var st' := st.Raise(x);
    RaiseOtherPlaces(st, x, y);
    WokenSame(st, st', y);
    assert st'.S(y) == st.S(y);
  }

  lemma WokenSame(st: State, st': State, y: SemaId)
    requires forall t :: st'.P(t).WokenOn(y) <==> st.P(t).WokenOn(y)
    ensures WokenSet(st', y) == WokenSet(st, y)
  {
    forall t ensures t in WokenSet(st', y) <==> t in WokenSet(st, y) {
      assert st'.P(t).WokenOn(y) <==> st.P(t).WokenOn(y);
    }
  }

  lemma RaiseOtherPlaces(st: State, x: SemaId, y: SemaId)
    requires QueueOk(st, x) && x != y
    ensures forall t :: st.Raise(x).P(t).AsleepOn(y) <==> st.P(t).AsleepOn(y)
    ensures forall t :: st.Raise(x).P(t).WokenOn(y) <==> st.P(t).WokenOn(y)
  {
    if st.S(x).waiters != [] {
      assert st.P(st.S(x).waiters[0]).AsleepOn(x);
    }
  }

  lemma RaiseSame(st: State, x: SemaId)
    requires SemaOk(st, x)
    ensures SemaOk(st.Raise(x), x)
  {
    var st' := st.Raise(x);
    if st.S(x).waiters != [] {
      var w := st.S(x).waiters[0];
      TailMembers(st.S(x).waiters);
      assert WokenSet(st', x) == WokenSet(st, x) + {w};
      assert w !in WokenSet(st, x);
    }
  }

  lemma RaiseKeepsSemas(st: State, x: SemaId)
    requires SemasOk(st)
    ensures SemasOk(st.Raise(x))
  {
    forall y ensures SemaOk(st.Raise(x), y) {
      if y == x { RaiseSame(st, x); } else { RaiseOther(st, x, y); }
    }
  }

  /** A thread that moves between places where it is neither blocked nor just
      unblocked disturbs no semaphore. */
  lemma MoveKeepsSemas(st: State, t: Tid, p: Pc)
    requires SemasOk(st) && !st.P(t).Asleep? && !st.P(t).Woken? && !p.Asleep? && !p.Woken?
    ensures SemasOk(st.SetPc(t, p))
  {
    forall y ensures SemaOk(st.SetPc(t, p), y) {
      assert SemaOk(st, y);
      assert WokenSet(st.SetPc(t, p), y) == WokenSet(st, y);
    }
  }

  lemma TakeKeepsSemas(st: State, x: SemaId)
    requires SemasOk(st)
    ensures SemasOk(st.TryTake(x))
  {
    forall y ensures SemaOk(st.TryTake(x), y) {
      TakeKeepsSema(st, x, y);
    }
  }

  lemma TakeKeepsSema(st: State, x: SemaId, y: SemaId)
    requires SemaOk(st, y)
    ensures SemaOk(st.TryTake(x), y)
  {
    var st' := st.TryTake(x);
    assert st'.pc == st.pc;
    assert WokenSet(st', y) == WokenSet(st, y);
  }

  lemma SleepKeepsSemas(st: State, t: Tid)
    requires SemasOk(st) && (st.P(t).Entering? || st.P(t).Woken?) && st.S(st.P(t).s).value == 0
    ensures SemasOk(st.Tested(t))
  {
    var st', x := st.Tested(t), st.P(t).s;
    forall y ensures SemaOk(st', y) {
      assert SemaOk(st, y);
      if y != x {
        assert WokenSet(st', y) == WokenSet(st, y);
      }
    }
  }

  lemma PassKeepsSemas(st: State, t: Tid)
    requires SemasOk(st) && (st.P(t).Entering? || st.P(t).Woken?) && st.S(st.P(t).s).value > 0
    ensures SemasOk(st.Tested(t))
  {
    var st', p := st.Tested(t), st.P(t);
    forall y ensures SemaOk(st', y) {
      assert SemaOk(st, y);
      assert WokenSet(st', y) == WokenSet(st, y) - {t};
      assert t in WokenSet(st, y) <==> p.WokenOn(y);
    }
  }

  lemma ResetKeepsSemas(st: State, t: Tid)
    requires SemasOk(st) && forall u :: !st.P(u).AsleepOn(OfWaiter(t))
    ensures SemasOk(st.SetSema(OfWaiter(t), NewSema(0)))
  {
    var st' := st.SetSema(OfWaiter(t), NewSema(0));
    forall y ensures SemaOk(st', y) {
      assert SemaOk(st, y);
      assert forall u :: st'.P(u) == st.P(u);
      assert WokenSet(st', y) == WokenSet(st, y);
    }
  }

  // ---------------------------------------------------------------------
  // Locks.

  /** A thread in sema_down waits for what its call was made for. */
  ghost predicate PcOk(st: State, t: Tid) {
    var p := st.P(t);
    && (p.InDown() ==>
          match p.s
          case Plain(_) => p.k == Return
          case OfLock(l) => p.k == TakeHolder(l)
          case OfWaiter(u) => u == t && p.k.Reacquire?)
    && (p.Freed? && p.waitsOn.Some? ==> p.waitsOn.value.lock == p.l)
    && (p.Queued? || p.Signalling? ==> st.Holds(p.c.lock, t))
  }

  /** From the return of the lock's sema_down to the call of its sema_up. */
  ghost predicate Owns(st: State, t: Tid, l: nat) {
    st.Holds(l, t) || Hands(st, t, l)
  }

  /** Owning without being recorded as the holder. */
  ghost predicate Hands(st: State, t: Tid, l: nat) {
    st.P(t) == Taken(l) || (st.P(t).Freed? && st.P(t).l == l)
  }

  /** The lock's value is 1 and nobody owns it, or 0 and exactly one thread does. */
  ghost predicate LockOk(st: State, l: nat) {
    && st.S(OfLock(l)).value <= 1
    && (st.S(OfLock(l)).value == 1 ==> forall t :: !Owns(st, t, l))
    && (st.S(OfLock(l)).value == 0 ==> exists t :: Owns(st, t, l))
    && (forall t, u :: Owns(st, t, l) && Owns(st, u, l) ==> t == u)
    && (forall t :: Hands(st, t, l) ==> l !in st.holder)
  }

  /** The holder field tells the truth: the assertions that test it never fail. */
  ghost predicate InsideOk(st: State) {
    forall l: nat, t: Tid :: (l, t) in st.inside <==> st.Holds(l, t)
  }

  // ---------------------------------------------------------------------
  // Condition variables.

  /** p is a place inside cond_wait on c, before the semaphore wait is over. */
  ghost predicate WaitsOn(p: Pc, t: Tid, c: Cond) {
    || p == Queued(c)
    || (p.Freed? && p.waitsOn == Some(c))
    || (p.InDown() && p.s == OfWaiter(t) && p.k == Reacquire(c))
  }

  /** t waits on c and nothing has reached its semaphore. */
  ghost predicate Down(st: State, t: Tid, c: Cond) {
    WaitsOn(st.P(t), t, c) && st.S(OfWaiter(t)).value == 0 && !st.P(t).Woken?
  }

  /** s has taken w off the queue of c and has yet to raise its semaphore. */
  ghost predicate Signals(st: State, s: Tid, w: Tid, c: Cond) {
    st.P(s) == Signalling(c, w)
  }

  ghost predicate BeingSignalled(st: State, w: Tid, c: Cond) {
    exists s :: Signals(st, s, w, c)
  }

  /** The semaphore of a queued thread is down, and so is that of a thread taken off the
      queue while a signal to it is under way; any other waiting thread finds its semaphore
      up and is not blocked. */
  ghost predicate CondOk(st: State, c: Cond) {
    && Distinct(st.C(c))
    && (forall t :: t in st.C(c) ==> Down(st, t, c))
    && (forall s, w :: Signals(st, s, w, c) ==> w !in st.C(c) && Down(st, w, c))
    && (forall t :: WaitsOn(st.P(t), t, c) && t !in st.C(c) && !BeingSignalled(st, t, c) ==>
          st.S(OfWaiter(t)).value == 1 && !st.P(t).Asleep?)
  }

  /** First come, first signalled: the queue is what is left of all the waits
      after as many as there were signals. */
  ghost predicate FifoOk(st: State, c: Cond) {
    st.SignalCount(c) <= |st.WaitCount(c)| && st.C(c) == st.WaitCount(c)[st.SignalCount(c)..]
  }

  ghost predicate Inv(st: State) {
    && SemasOk(st)
    && (forall t :: PcOk(st, t))
    && (forall l :: LockOk(st, l)) && InsideOk(st)
    && (forall c :: CondOk(st, c))
    && (forall c :: FifoOk(st, c))
  }

  lemma SamePartsKeepSemas(st: State, st': State)
    requires SemasOk(st) && st'.pc == st.pc && st'.semas == st.semas
    ensures SemasOk(st')
  {
    forall y ensures SemaOk(st', y) {
      assert SemaOk(st, y);
      assert forall u :: st'.P(u) == st.P(u);
      assert WokenSet(st', y) == WokenSet(st, y);
    }
  }

  lemma HolderKeepsSemas(st: State, st': State, t: Tid, p: Pc)
    requires SemasOk(st) && !st.P(t).Asleep? && !st.P(t).Woken? && !p.Asleep? && !p.Woken?
    requires st'.pc == st.pc[t := p] && st'.semas == st.semas
    ensures SemasOk(st')
  {
    MoveKeepsSemas(st, t, p);
    SamePartsKeepSemas(st.SetPc(t, p), st');
  }

  lemma FinishKeepsSemas(st: State, t: Tid, l: nat, waitsOn: Option<Cond>)
    requires SemasOk(st) && st.P(t).Freed?
    ensures SemasOk(st.Finished(t, l, waitsOn))
  {
    var x := OfLock(l);
    RaiseKeepsSemas(st, x);
    assert SemaOk(st, x);
    MoveKeepsSemas(st.Raise(x), t, st.Finished(t, l, waitsOn).P(t));
  }

  lemma WaitKeepsSemas(st: State, t: Tid, c: Cond)
    requires SemasOk(st) && st.P(t) == Outside && forall u :: PcOk(st, u)
    ensures SemasOk(st.WaitCalled(t, c))
  {
    forall u ensures !st.P(u).AsleepOn(OfWaiter(t)) {
      assert PcOk(st, u);
    }
    ResetKeepsSemas(st, t);
    var st1 := st.SetSema(OfWaiter(t), NewSema(0));
    MoveKeepsSemas(st1, t, Queued(c));
    SamePartsKeepSemas(st1.SetPc(t, Queued(c)), st.WaitCalled(t, c));
  }

  lemma SignalKeepsSemas(st: State, t: Tid, c: Cond)
    requires SemasOk(st) && st.P(t) == Outside
    ensures SemasOk(st.SignalCalled(t, c))
  {
    if st.C(c) != [] {
      HolderKeepsSemas(st, st.SignalCalled(t, c), t, Signalling(c, st.C(c)[0]));
    }
  }

  lemma FinishSignalKeepsSemas(st: State, t: Tid, w: Tid)
    requires SemasOk(st) && st.P(t).Signalling?
    ensures SemasOk(st.SignalFinished(t, w))
  {
    var x := OfWaiter(w);
    RaiseKeepsSemas(st, x);
    assert SemaOk(st, x);
    MoveKeepsSemas(st.Raise(x), t, Outside);
  }

  lemma StepKeepsSemas(st: State, a: Action)
    requires SemasOk(st) && Enabled(st, a) && forall u :: PcOk(st, u)
    ensures SemasOk(Step(st, a))
  {
    match a
    case Test(t) =>
      if st.S(st.P(t).s).value == 0 { SleepKeepsSemas(st, t); } else { PassKeepsSemas(st, t); }
    case TryDown(n) => TakeKeepsSemas(st, Plain(n));
    case Up(n) => RaiseKeepsSemas(st, Plain(n));
    case CallDown(t, n) => MoveKeepsSemas(st, t, Entering(Plain(n), Return));
    case CallAcquire(t, l) => MoveKeepsSemas(st, t, Entering(OfLock(l), TakeHolder(l)));
    case TryAcquire(t, l) =>
      TakeKeepsSemas(st, OfLock(l));
      MoveKeepsSemas(st.TryTake(OfLock(l)), t, Taken(l));
    case SetHolder(t) => HolderKeepsSemas(st, Step(st, a), t, Outside);
    case CallRelease(t, l) => HolderKeepsSemas(st, Step(st, a), t, Freed(l, None));
    case WaitRelease(t) => HolderKeepsSemas(st, Step(st, a), t, Freed(st.P(t).c.lock, Some(st.P(t).c)));
    case FinishRelease(t) => FinishKeepsSemas(st, t, st.P(t).l, st.P(t).waitsOn);
    case CallWait(t, c) => WaitKeepsSemas(st, t, c);
    case Signal(t, c) => SignalKeepsSemas(st, t, c);
    case FinishSignal(t) => FinishSignalKeepsSemas(st, t, st.P(t).w);
  }

  // ---------------------------------------------------------------------
  // Every step keeps the locks in order.

  /** Nothing that concerns l changed. */
  ghost predicate SameLock(st: State, st': State, l: nat) {
    && st'.S(OfLock(l)).value == st.S(OfLock(l)).value
    && (l in st'.holder <==> l in st.holder)
    && (forall t :: st'.Holds(l, t) <==> st.Holds(l, t))
    && (forall t :: Hands(st', t, l) <==> Hands(st, t, l))
  }

  lemma SameLockKept(st: State, st': State, l: nat)
    requires LockOk(st, l) && SameLock(st, st', l)
    ensures LockOk(st', l)
  {
    assert forall t :: Owns(st', t, l) <==> Owns(st, t, l);
    if st.S(OfLock(l)).value == 0 {
      var t :| Owns(st, t, l);
      assert Owns(st', t, l);
    }
  }

  /** A thread moves between places that are not about l. */
  lemma MoveSameLock(st: State, t: Tid, p: Pc, l: nat)
    requires !Hands(st, t, l) && p != Taken(l) && !(p.Freed? && p.l == l)
    ensures SameLock(st, st.SetPc(t, p), l)
  {
  }

  lemma RaiseSameLock(st: State, x: SemaId, l: nat)
    requires SemaOk(st, x) && x != OfLock(l)
    ensures SameLock(st, st.Raise(x), l)
  {
    if st.S(x).waiters != [] {
      var w := st.S(x).waiters[0];
      assert st.P(w).AsleepOn(x);
    }
  }

  /** The free lock goes to t. */
  lemma LockTaken(st: State, st': State, t: Tid, l: nat)
    requires LockOk(st, l) && st.S(OfLock(l)).value == 1 && st'.S(OfLock(l)).value == 0
    requires st'.holder == st.holder && st'.pc == st.pc[t := Taken(l)]
    ensures LockOk(st', l)
  {
    assert Owns(st', t, l);
    forall u ensures u != t ==> !Owns(st', u, l)
      ensures !st.Holds(l, u)
    {
      assert !Owns(st, u, l);
    }
    NobodyHolds(st, l);
  }

  lemma NobodyHolds(st: State, l: nat)
    requires forall t :: !st.Holds(l, t)
    ensures l !in st.holder
  {
    assert l in st.holder ==> st.Holds(l, st.holder[l]);
  }

  lemma TestKeepsLock(st: State, t: Tid, l: nat)
    requires LockOk(st, l) && PcOk(st, t) && st.P(t).InDown()
    ensures LockOk(st.Tested(t), l)
  {
    var p, v := st.P(t), st.S(st.P(t).s);
    if v.value == 0 {
      SemaSameLock(st, p.s, v.Wait(t), l);
      SemaThenMove(st, p.s, v.Wait(t), t, Asleep(p.s, p.k), l);
      assert st.Tested(t) == st.SetSema(p.s, v.Wait(t)).SetPc(t, Asleep(p.s, p.k));
    } else if p.s != OfLock(l) {
      SemaSameLock(st, p.s, v.Take(), l);
      SemaThenMove(st, p.s, v.Take(), t, After(p.k), l);
      assert st.Tested(t) == st.SetSema(p.s, v.Take()).SetPc(t, After(p.k));
    } else {
      TestTakesLock(st, t, l);
    }
  }

  lemma TestTakesLock(st: State, t: Tid, l: nat)
    requires LockOk(st, l) && st.P(t).InDown() && st.P(t).s == OfLock(l) && st.P(t).k == TakeHolder(l)
    requires st.S(OfLock(l)).value > 0
    ensures LockOk(st.Tested(t), l)
  {
    LockTaken(st, st.Tested(t), t, l);
  }

  lemma SemaSameLock(st: State, x: SemaId, v: Sema, l: nat)
    requires x == OfLock(l) ==> v.value == st.S(x).value
    ensures SameLock(st, st.SetSema(x, v), l)
  {
  }

  lemma SemaThenMove(st: State, x: SemaId, v: Sema, t: Tid, p: Pc, l: nat)
    requires LockOk(st, l) && SameLock(st, st.SetSema(x, v), l)
    requires !Hands(st, t, l) && p != Taken(l) && !(p.Freed? && p.l == l)
    ensures LockOk(st.SetSema(x, v).SetPc(t, p), l)
  {
    SameLockKept(st, st.SetSema(x, v), l);
    MoveSameLock(st.SetSema(x, v), t, p, l);
    SameLockKept(st.SetSema(x, v), st.SetSema(x, v).SetPc(t, p), l);
  }

  lemma SetHolderKeepsLock(st: State, t: Tid, k: nat, l: nat)
    requires LockOk(st, l) && st.P(t) == Taken(k)
    ensures LockOk(st.HolderSet(t, k), l)
  {
    var st' := st.HolderSet(t, k);
    if k == l {
      assert Owns(st, t, l) && Owns(st', t, l);
      forall u ensures !Hands(st', u, l) {
        assert Hands(st', u, l) ==> u != t && Owns(st, u, l);
      }
    } else {
      SameLockKept(st, st', l);
    }
  }

  /** t stops being the holder but keeps the lock until its sema_up. */
  lemma HandOver(st: State, t: Tid, k: nat, waitsOn: Option<Cond>, l: nat)
    requires LockOk(st, l) && st.Holds(k, t) && (st.P(t) == Outside || st.P(t).Queued?)
    ensures LockOk(st.HolderCleared(t, k, waitsOn), l)
  {
    var st' := st.HolderCleared(t, k, waitsOn);
    if k == l {
      assert Owns(st, t, l) && Owns(st', t, l);
      assert forall u :: Owns(st', u, l) ==> Owns(st, u, l);
    } else {
      SameLockKept(st, st', l);
    }
  }

  lemma RaiseFreesLock(st: State, t: Tid, l: nat, waitsOn: Option<Cond>)
    requires st.P(t).Freed? && st.P(t).l == l && LockOk(st, l) && SemaOk(st, OfLock(l))
    ensures LockOk(st.Finished(t, l, waitsOn), l)
  {
    var st1, st' := st.Raise(OfLock(l)), st.Finished(t, l, waitsOn);
    RaiseHands(st, OfLock(l), l);
    assert Owns(st, t, l) && Hands(st, t, l) && st.S(OfLock(l)).value == 0;
    forall u ensures !Owns(st', u, l) {
      if u != t {
        assert !Owns(st, u, l);
        assert st'.P(u) == st1.P(u);
      }
    }
    assert st'.S(OfLock(l)).value == 1;
  }

  lemma RaiseHands(st: State, x: SemaId, l: nat)
    requires SemaOk(st, x)
    ensures forall u :: Hands(st.Raise(x), u, l) <==> Hands(st, u, l)
  {
    if st.S(x).waiters != [] {
      var w := st.S(x).waiters[0];
      assert st.P(w).AsleepOn(x);
    }
  }

  lemma FinishKeepsLock(st: State, t: Tid, k: nat, waitsOn: Option<Cond>, l: nat)
    requires st.P(t).Freed? && st.P(t).l == k && LockOk(st, l) && SemaOk(st, OfLock(k))
    ensures LockOk(st.Finished(t, k, waitsOn), l)
  {
    if k == l {
      RaiseFreesLock(st, t, l, waitsOn);
    } else {
      var st' := st.Finished(t, k, waitsOn);
      RaiseSameLock(st, OfLock(k), l);
      SameLockKept(st, st.Raise(OfLock(k)), l);
      MoveSameLock(st.Raise(OfLock(k)), t, st'.P(t), l);
      SameLockKept(st.Raise(OfLock(k)), st', l);
    }
  }

  lemma FinishSignalSameLock(st: State, t: Tid, w: Tid, l: nat)
    requires SemaOk(st, OfWaiter(w)) && st.P(t).Signalling?
    ensures SameLock(st, st.SignalFinished(t, w), l)
  {
    RaiseSameLock(st, OfWaiter(w), l);
    RaiseLeavesAwake(st, OfWaiter(w), t);
    MoveSameLock(st.Raise(OfWaiter(w)), t, Outside, l);
  }

  /** Steps that leave every lock alone. */
  lemma SideStepSameLock(st: State, a: Action, l: nat)
    requires SemasOk(st) && Enabled(st, a)
    requires a.CallDown? || a.TryDown? || a.Up? || a.CallAcquire? || a.CallWait? || a.Signal? || a.FinishSignal?
    ensures SameLock(st, Step(st, a), l)
  {
    match a
    case Up(n) =>
      assert SemaOk(st, Plain(n));
      RaiseSameLock(st, Plain(n), l);
    case FinishSignal(t) =>
      assert SemaOk(st, OfWaiter(st.P(t).w));
      FinishSignalSameLock(st, t, st.P(t).w, l);
    case Signal(t, c) =>
    case TryDown(n) =>
    case CallDown(t, n) =>
    case CallAcquire(t, k) =>
    case CallWait(t, c) =>
  }

  lemma TryKeepsLock(st: State, t: Tid, k: nat, l: nat)
    requires LockOk(st, l) && st.P(t) == Outside
    ensures LockOk(st.TriedAcquire(t, k), l)
  {
    if st.S(OfLock(k)).value > 0 {
      if k == l {
        LockTaken(st, st.TriedAcquire(t, k), t, l);
      } else {
        SemaSameLock(st, OfLock(k), st.S(OfLock(k)).Take(), l);
        SemaThenMove(st, OfLock(k), st.S(OfLock(k)).Take(), t, Taken(k), l);
        assert st.TriedAcquire(t, k) == st.SetSema(OfLock(k), st.S(OfLock(k)).Take()).SetPc(t, Taken(k));
      }
    }
  }

  lemma StepKeepsLock(st: State, a: Action, l: nat)
    requires SemasOk(st) && LockOk(st, l) && InsideOk(st) && Enabled(st, a) && forall t :: PcOk(st, t)
    ensures LockOk(Step(st, a), l)
  {
    if a.Test? {
      TestKeepsLock(st, a.t, l);
    } else if a.TryAcquire? {
      TryKeepsLock(st, a.t, a.l, l);
    } else if a.SetHolder? {
      SetHolderKeepsLock(st, a.t, st.P(a.t).l, l);
    } else if a.CallRelease? || a.WaitRelease? {
      ReleaseKeepsLock(st, a, l);
    } else if a.FinishRelease? {
      assert SemaOk(st, OfLock(st.P(a.t).l));
      FinishKeepsLock(st, a.t, st.P(a.t).l, st.P(a.t).waitsOn, l);
    } else {
      SideStepSameLock(st, a, l);
      SameLockKept(st, Step(st, a), l);
    }
  }

  lemma ReleaseKeepsLock(st: State, a: Action, l: nat)
    requires LockOk(st, l) && InsideOk(st) && Enabled(st, a)
    requires a.CallRelease? || (a.WaitRelease? && PcOk(st, a.t))
    ensures LockOk(Step(st, a), l)
  {
    if a.CallRelease? {
      HandOver(st, a.t, a.l, None, l);
    } else {
      HandOver(st, a.t, st.P(a.t).c.lock, Some(st.P(a.t).c), l);
    }
  }

  // ---------------------------------------------------------------------
  // Every step keeps the threads' places meaningful.

  lemma RaiseKeepsPc(st: State, x: SemaId, t: Tid)
    requires PcOk(st, t)
    ensures PcOk(st.Raise(x), t)
  {
  }

  lemma TestKeepsPc(st: State, u: Tid, t: Tid)
    requires PcOk(st, t) && PcOk(st, u) && st.P(u).InDown()
    ensures PcOk(st.Tested(u), t)
  {
    if t == u {
      assert st.Tested(u).P(u) == if st.S(st.P(u).s).value == 0 then Asleep(st.P(u).s, st.P(u).k) else After(st.P(u).k);
    } else {
      assert st.Tested(u).P(t) == st.P(t);
    }
  }

  lemma FinishKeepsPc(st: State, u: Tid, l: nat, waitsOn: Option<Cond>, t: Tid)
    requires PcOk(st, t)
    ensures PcOk(st.Finished(u, l, waitsOn), t)
  {
    RaiseKeepsPc(st, OfLock(l), t);
    if t != u {
      assert st.Finished(u, l, waitsOn).P(t) == st.Raise(OfLock(l)).P(t);
    }
  }

  lemma FinishSignalKeepsPc(st: State, u: Tid, w: Tid, t: Tid)
    requires PcOk(st, t)
    ensures PcOk(st.SignalFinished(u, w), t)
  {
    RaiseKeepsPc(st, OfWaiter(w), t);
    if t != u {
      assert st.SignalFinished(u, w).P(t) == st.Raise(OfWaiter(w)).P(t);
    }
  }

  lemma SetHolderKeepsPc(st: State, u: Tid, l: nat, t: Tid)
    requires PcOk(st, t) && st.P(u) == Taken(l) && LockOk(st, l)
    ensures PcOk(st.HolderSet(u, l), t)
  {
    assert Hands(st, u, l);
  }

  lemma ClearKeepsPc(st: State, u: Tid, l: nat, waitsOn: Option<Cond>, t: Tid)
    requires PcOk(st, t) && st.Holds(l, u) && (waitsOn.Some? ==> waitsOn.value.lock == l)
    ensures PcOk(st.HolderCleared(u, l, waitsOn), t)
  {
  }

  /** A thread queued on a condition variable, or signalling it, holds its lock until it lets go. */
  lemma StepKeepsPc(st: State, a: Action, t: Tid)
    requires Enabled(st, a) && (forall u :: PcOk(st, u)) && (forall l :: LockOk(st, l)) && InsideOk(st)
    ensures PcOk(Step(st, a), t)
  {
    assert PcOk(st, t);
    if a.Test? {
      TestKeepsPc(st, a.t, t);
    } else if a.Up? {
      RaiseKeepsPc(st, Plain(a.n), t);
    } else if a.FinishRelease? {
      FinishKeepsPc(st, a.t, st.P(a.t).l, st.P(a.t).waitsOn, t);
    } else if a.SetHolder? {
      SetHolderKeepsPc(st, a.t, st.P(a.t).l, t);
    } else if a.CallRelease? {
      ClearKeepsPc(st, a.t, a.l, None, t);
    } else if a.WaitRelease? {
      assert PcOk(st, a.t);
      ClearKeepsPc(st, a.t, st.P(a.t).c.lock, Some(st.P(a.t).c), t);
    } else if a.FinishSignal? {
      FinishSignalKeepsPc(st, a.t, st.P(a.t).w, t);
    }
  }

  // ---------------------------------------------------------------------
  // Every step keeps the condition variables in order.

  /** Nothing that concerns c changed. */
  ghost predicate SameCond(st: State, st': State, c: Cond) {
    && st'.C(c) == st.C(c)
    && (forall t :: WaitsOn(st'.P(t), t, c) <==> WaitsOn(st.P(t), t, c))
    && (forall t :: WaitsOn(st.P(t), t, c) ==>
          && st'.S(OfWaiter(t)).value == st.S(OfWaiter(t)).value
          && (st'.P(t).Woken? <==> st.P(t).Woken?)
          && (st'.P(t).Asleep? <==> st.P(t).Asleep?))
    && (forall s, w :: Signals(st', s, w, c) <==> Signals(st, s, w, c))
  }

  lemma SameCondKept(st: State, st': State, c: Cond)
    requires CondOk(st, c) && SameCond(st, st', c)
    ensures CondOk(st', c)
  {
    forall t ensures Down(st, t, c) ==> Down(st', t, c) {
      assert WaitsOn(st'.P(t), t, c) <==> WaitsOn(st.P(t), t, c);
    }
    forall t | BeingSignalled(st, t, c) ensures BeingSignalled(st', t, c) {
      var s :| Signals(st, s, t, c);
      assert Signals(st', s, t, c);
    }
  }

  lemma MoveSameCond(st: State, u: Tid, p: Pc, c: Cond)
    requires WaitsOn(p, u, c) <==> WaitsOn(st.P(u), u, c)
    requires !p.Asleep? && !p.Woken? && !st.P(u).Asleep? && !st.P(u).Woken?
    requires !p.Signalling? && !st.P(u).Signalling?
    ensures SameCond(st, st.SetPc(u, p), c)
  {
  }

  lemma RaiseSameCond(st: State, x: SemaId, c: Cond)
    requires SemaOk(st, x) && !x.OfWaiter?
    ensures SameCond(st, st.Raise(x), c)
  {
    if st.S(x).waiters != [] {
      assert st.P(st.S(x).waiters[0]).AsleepOn(x);
    }
  }

  /** Only u's place and its own semaphore changed. */
  ghost predicate OnlyThread(st: State, st': State, u: Tid) {
    forall t :: t != u ==> st'.P(t) == st.P(t) && st'.S(OfWaiter(t)).value == st.S(OfWaiter(t)).value
  }

  lemma OneThreadKeepsCond(st: State, st': State, u: Tid, c: Cond)
    requires CondOk(st, c) && st'.C(c) == st.C(c) && OnlyThread(st, st', u)
    requires !st.P(u).Signalling? && !st'.P(u).Signalling?
    requires u in st.C(c) || BeingSignalled(st, u, c) ==> Down(st', u, c)
    requires WaitsOn(st'.P(u), u, c) && u !in st.C(c) && !BeingSignalled(st, u, c) ==>
               st'.S(OfWaiter(u)).value == 1 && !st'.P(u).Asleep?
    ensures CondOk(st', c)
  {
    SameSignals(st, st', u, c);
    forall t | t != u ensures Down(st', t, c) <==> Down(st, t, c) {
    }
    forall t | WaitsOn(st'.P(t), t, c) && t !in st'.C(c) && !BeingSignalled(st', t, c)
      ensures st'.S(OfWaiter(t)).value == 1 && !st'.P(t).Asleep?
    {
      assert t != u ==> WaitsOn(st.P(t), t, c);
    }
  }

  lemma SameSignals(st: State, st': State, u: Tid, c: Cond)
    requires OnlyThread(st, st', u) && !st.P(u).Signalling? && !st'.P(u).Signalling?
    ensures forall s, w :: Signals(st', s, w, c) <==> Signals(st, s, w, c)
    ensures forall w :: BeingSignalled(st', w, c) <==> BeingSignalled(st, w, c)
  {
    forall s, w ensures Signals(st', s, w, c) <==> Signals(st, s, w, c) {
      if s != u {
        assert st'.P(s) == st.P(s);
      }
    }
    forall w ensures BeingSignalled(st', w, c) <==> BeingSignalled(st, w, c) {
      if s :| Signals(st, s, w, c) {
        assert Signals(st', s, w, c);
      }
      if s :| Signals(st', s, w, c) {
        assert Signals(st, s, w, c);
      }
    }
  }

  lemma TestTouchesOne(st: State, u: Tid)
    requires PcOk(st, u) && st.P(u).InDown()
    ensures OnlyThread(st, st.Tested(u), u)
  {
  }

  lemma TestKeepsCond(st: State, u: Tid, c: Cond)
    requires CondOk(st, c) && PcOk(st, u) && (st.P(u).Entering? || st.P(u).Woken?)
    ensures CondOk(st.Tested(u), c)
  {
    TestTouchesOne(st, u);
    OneThreadKeepsCond(st, st.Tested(u), u, c);
  }

  lemma RaiseLeavesAwake(st: State, x: SemaId, u: Tid)
    requires QueueOk(st, x) && !st.P(u).Asleep?
    ensures st.Raise(x).P(u) == st.P(u)
  {
    if st.S(x).waiters != [] {
      assert st.P(st.S(x).waiters[0]).AsleepOn(x);
    }
  }

  lemma FinishKeepsCond(st: State, u: Tid, l: nat, waitsOn: Option<Cond>, c: Cond)
    requires CondOk(st, c) && SemaOk(st, OfLock(l)) && st.P(u) == Freed(l, waitsOn)
    ensures CondOk(st.Finished(u, l, waitsOn), c)
  {
    var st1, st' := st.Raise(OfLock(l)), st.Finished(u, l, waitsOn);
    RaiseSameCond(st, OfLock(l), c);
    SameCondKept(st, st1, c);
    RaiseLeavesAwake(st, OfLock(l), u);
    MoveSameCond(st1, u, st'.P(u), c);
    SameCondKept(st1, st1.SetPc(u, st'.P(u)), c);
    assert st' == st1.SetPc(u, st'.P(u));
  }

  lemma WaitKeepsCond(st: State, u: Tid, c: Cond, d: Cond)
    requires CondOk(st, d) && st.P(u) == Outside
    ensures CondOk(st.WaitCalled(u, c), d)
  {
    var st' := st.WaitCalled(u, c);
    assert u !in st.C(d);
    if c == d {
      assert st'.C(d) == st.C(d) + [u];
    } else {
      assert st'.C(d) == st.C(d);
    }
    forall t | t != u ensures Down(st', t, d) <==> Down(st, t, d) {
      assert st'.P(t) == st.P(t) && st'.S(OfWaiter(t)) == st.S(OfWaiter(t));
    }
    forall s, w | Signals(st', s, w, d) ensures w !in st'.C(d) && Down(st', w, d) {
      assert Signals(st, s, w, d);
    }
    forall t | WaitsOn(st'.P(t), t, d) && t !in st'.C(d) && !BeingSignalled(st', t, d)
      ensures st'.S(OfWaiter(t)).value == 1 && !st'.P(t).Asleep?
    {
      StillSignalled(st, st', u, t, d);
    }
  }

  /** The oldest in the queue leaves it, and t is on its way to its semaphore. */
  lemma SignalKeepsCond(st: State, t: Tid, c: Cond, d: Cond)
    requires CondOk(st, c) && CondOk(st, d) && st.P(t) == Outside
    ensures CondOk(st.SignalCalled(t, c), d)
  {
    if st.C(c) != [] {
      if c == d {
        DequeueKeepsCond(st, t, c);
      } else {
        var st' := st.SignalCalled(t, c);
        assert SameCond(st, st', d);
        SameCondKept(st, st', d);
      }
    }
  }

  lemma DequeueKeepsCond(st: State, t: Tid, c: Cond)
    requires CondOk(st, c) && st.P(t) == Outside && st.C(c) != []
    ensures CondOk(st.SignalCalled(t, c), c)
  {
    var w, st' := st.C(c)[0], st.SignalCalled(t, c);
    TailMembers(st.C(c));
    assert st'.C(c) == st.C(c)[1..];
    assert Signals(st', t, w, c);
    forall u ensures Down(st', u, c) <==> Down(st, u, c) {
    }
    forall s, u | Signals(st', s, u, c) ensures u !in st'.C(c) && Down(st, u, c) {
      assert s != t ==> Signals(st, s, u, c);
    }
    forall u | WaitsOn(st'.P(u), u, c) && u !in st'.C(c) && !BeingSignalled(st', u, c)
      ensures st'.S(OfWaiter(u)).value == 1 && !st'.P(u).Asleep?
    {
      StillSignalled(st, st', t, u, c);
    }
  }

  /** A signal under way stays under way when another thread moves. */
  lemma StillSignalled(st: State, st': State, t: Tid, u: Tid, c: Cond)
    requires !Signals(st, t, u, c) && forall s :: s != t && st.P(s).Signalling? ==> st'.P(s) == st.P(s)
    ensures BeingSignalled(st, u, c) ==> BeingSignalled(st', u, c)
  {
    if BeingSignalled(st, u, c) {
      var s :| Signals(st, s, u, c);
      assert Signals(st', s, u, c);
    }
  }

  /** The signal arrives: the semaphore is up, and its thread unblocked if it was blocked. */
  lemma SignalReaches(st: State, t: Tid, w: Tid, c: Cond)
    requires SemaOk(st, OfWaiter(w)) && CondOk(st, c) && Signals(st, t, w, c) && (forall u :: PcOk(st, u))
    ensures var st' := st.SignalFinished(t, w);
      && (forall u :: u != t && u != w ==> st'.P(u) == st.P(u) && st'.S(OfWaiter(u)) == st.S(OfWaiter(u)))
      && st'.P(t) == Outside && t != w && st'.P(w) == st.P(w).Unblocked() && st'.S(OfWaiter(w)).value == 1
  {
    var x := OfWaiter(w);
    if st.S(x).waiters != [] {
      var v := st.S(x).waiters[0];
      assert st.P(v).AsleepOn(x);
      assert PcOk(st, v);
    } else {
      assert !st.P(w).AsleepOn(x);
      assert PcOk(st, w);
    }
  }

  lemma FinishSignalKeepsCond(st: State, t: Tid, w: Tid, c: Cond, d: Cond)
    requires SemaOk(st, OfWaiter(w)) && CondOk(st, c) && CondOk(st, d) && Signals(st, t, w, c) && (forall u :: PcOk(st, u))
    ensures CondOk(st.SignalFinished(t, w), d)
  {
    var st' := st.SignalFinished(t, w);
    SignalReaches(st, t, w, c);
    assert st'.C(d) == st.C(d) && Down(st, w, c);
    forall s, u | Signals(st', s, u, d) ensures s != t && s != w && u != w && Signals(st, s, u, d) {
      OneSignaller(st, t, w, c, s, u, d);
    }
    forall u | u != w && u != t ensures Down(st', u, d) <==> Down(st, u, d) {
    }
    FinishSettles(st, st', t, w, c, d);
  }

  /** The holder of the lock is the only thread that can be signalling. */
  lemma OneSignaller(st: State, t: Tid, w: Tid, c: Cond, s: Tid, u: Tid, d: Cond)
    requires Signals(st, t, w, c) && CondOk(st, c) && (forall v :: PcOk(st, v))
    requires Signals(st.SignalFinished(t, w), s, u, d)
    requires var st' := st.SignalFinished(t, w);
      (forall v :: v != t && v != w ==> st'.P(v) == st.P(v)) && st'.P(t) == Outside && st'.P(w) == st.P(w).Unblocked()
    requires CondOk(st, d)
    ensures s != t && s != w && Signals(st, s, u, d) && u != w
  {
    assert PcOk(st, t) && Down(st, w, c);
    assert s != t && s != w;
    assert Signals(st, s, u, d) && PcOk(st, s) && Down(st, u, d);
  }

  lemma FinishSettles(st: State, st': State, t: Tid, w: Tid, c: Cond, d: Cond)
    requires CondOk(st, d) && CondOk(st, c) && Signals(st, t, w, c) && st'.C(d) == st.C(d)
    requires forall u :: u != t && u != w ==> st'.P(u) == st.P(u) && st'.S(OfWaiter(u)) == st.S(OfWaiter(u))
    requires st'.P(t) == Outside && t != w && st'.P(w) == st.P(w).Unblocked() && st'.S(OfWaiter(w)).value == 1
    requires forall s, u :: Signals(st', s, u, d) ==> s != t && s != w && u != w && Signals(st, s, u, d)
    ensures CondOk(st', d)
  {
    assert Down(st, w, c);
    forall u | u in st.C(d) ensures Down(st', u, d) {
      assert Down(st, u, d);
    }
    forall s, u | Signals(st', s, u, d) ensures u !in st'.C(d) && Down(st', u, d) {
      assert Signals(st, s, u, d);
    }
    forall u | WaitsOn(st'.P(u), u, d) && u !in st'.C(d) && !BeingSignalled(st', u, d)
      ensures st'.S(OfWaiter(u)).value == 1 && !st'.P(u).Asleep?
    {
      if u != w {
        StillSignalled(st, st', t, u, d);
      }
    }
  }

  lemma StepKeepsCond(st: State, a: Action, c: Cond)
    requires Inv(st) && Enabled(st, a)
    ensures CondOk(Step(st, a), c)
  {
    assert CondOk(st, c);
    if a.Test? {
      assert PcOk(st, a.t);
      TestKeepsCond(st, a.t, c);
    } else if a.FinishRelease? {
      assert SemaOk(st, OfLock(st.P(a.t).l));
      FinishKeepsCond(st, a.t, st.P(a.t).l, st.P(a.t).waitsOn, c);
    } else if a.CallWait? {
      WaitKeepsCond(st, a.t, a.c, c);
    } else if a.Signal? {
      assert CondOk(st, a.c);
      SignalKeepsCond(st, a.t, a.c, c);
    } else if a.FinishSignal? {
      var p := st.P(a.t);
      assert CondOk(st, p.c) && SemaOk(st, OfWaiter(p.w)) && Signals(st, a.t, p.w, p.c);
      FinishSignalKeepsCond(st, a.t, p.w, p.c, c);
    } else {
      SideStepSameCond(st, a, c);
      SameCondKept(st, Step(st, a), c);
    }
  }

  lemma SideStepSameCond(st: State, a: Action, c: Cond)
    requires SemasOk(st) && Enabled(st, a)
    requires !a.Test? && !a.FinishRelease? && !a.CallWait? && !a.Signal? && !a.FinishSignal?
    ensures SameCond(st, Step(st, a), c)
  {
    if a.Up? {
      assert SemaOk(st, Plain(a.n));
      RaiseSameCond(st, Plain(a.n), c);
    } else if a.CallDown? {
      MoveSameCond(st, a.t, Entering(Plain(a.n), Return), c);
    } else if a.CallAcquire? {
      MoveSameCond(st, a.t, Entering(OfLock(a.l), TakeHolder(a.l)), c);
    } else if a.TryDown? {
      assert Step(st, a).pc == st.pc && Step(st, a).conds == st.conds;
    } else {
      HolderStepSameCond(st, a, c);
    }
  }

  lemma MovedSameCond(st: State, st': State, u: Tid, p: Pc, c: Cond)
    requires st'.pc == st.pc[u := p] && st'.conds == st.conds
    requires forall t :: st'.S(OfWaiter(t)).value == st.S(OfWaiter(t)).value
    requires WaitsOn(p, u, c) <==> WaitsOn(st.P(u), u, c)
    requires !p.Asleep? && !p.Woken? && !st.P(u).Asleep? && !st.P(u).Woken?
    requires !p.Signalling? && !st.P(u).Signalling?
    ensures SameCond(st, st', c)
  {
    assert forall t :: st'.P(t) == if t == u then p else st.P(t);
  }

  lemma HolderStepSameCond(st: State, a: Action, c: Cond)
    requires Enabled(st, a) && (a.TryAcquire? || a.SetHolder? || a.CallRelease? || a.WaitRelease?)
    ensures SameCond(st, Step(st, a), c)
  {
    if a.SetHolder? {
      MovedSameCond(st, Step(st, a), a.t, Outside, c);
    } else if a.CallRelease? {
      MovedSameCond(st, Step(st, a), a.t, Freed(a.l, None), c);
    } else if a.WaitRelease? {
      MovedSameCond(st, Step(st, a), a.t, Freed(st.P(a.t).c.lock, Some(st.P(a.t).c)), c);
    } else if st.S(OfLock(a.l)).value > 0 {
      MovedSameCond(st, Step(st, a), a.t, Taken(a.l), c);
    }
  }

  lemma WaitKeepsFifo(st: State, t: Tid, d: Cond, c: Cond)
    requires FifoOk(st, c)
    ensures FifoOk(st.WaitCalled(t, d), c)
  {
    var st' := st.WaitCalled(t, d);
    if c == d {
      assert st'.C(c) == st.C(c) + [t] && st'.WaitCount(c) == st.WaitCount(c) + [t];
    }
  }

  lemma SignalKeepsFifo(st: State, t: Tid, d: Cond, c: Cond)
    requires FifoOk(st, c)
    ensures FifoOk(st.SignalCalled(t, d), c)
  {
    if c == d && st.C(c) != [] {
      assert st.SignalCalled(t, d).C(c) == st.C(c)[1..];
    }
  }

  lemma StepKeepsFifo(st: State, a: Action, c: Cond)
    requires FifoOk(st, c) && Enabled(st, a)
    ensures FifoOk(Step(st, a), c)
  {
    if a.CallWait? {
      WaitKeepsFifo(st, a.t, a.c, c);
    } else if a.Signal? {
      SignalKeepsFifo(st, a.t, a.c, c);
    } else {
      OtherStepsKeepQueues(st, a);
    }
  }

  lemma OtherStepsKeepQueues(st: State, a: Action)
    requires Enabled(st, a) && !a.CallWait? && !a.Signal?
    ensures var st' := Step(st, a); st'.conds == st.conds && st'.queued == st.queued && st'.signalled == st.signalled
  {
  }

  lemma StepKeepsInside(st: State, a: Action)
    requires InsideOk(st) && Enabled(st, a) && (forall u :: PcOk(st, u)) && (forall l :: LockOk(st, l))
    ensures InsideOk(Step(st, a))
  {
    if a.SetHolder? {
      var l := st.P(a.t).l;
      assert LockOk(st, l) && Hands(st, a.t, l);
    } else if a.WaitRelease? {
      assert PcOk(st, a.t);
    } else if !a.CallRelease? {
      assert Step(st, a).holder == st.holder && Step(st, a).inside == st.inside;
    }
  }

  // ---------------------------------------------------------------------
  // Runs.

  /** Plain semaphores start at any value; locks are free, nobody waits. */
  ghost predicate Start(st: State) {
    && st.pc == map[] && st.holder == map[] && st.inside == {} && st.conds == map[] && st.queued == map[] && st.signalled == map[]
    && forall x :: x in st.semas ==> x.Plain? && st.semas[x] == NewSema(st.semas[x].init)
  }

  ghost predicate StepAt(states: seq<State>, actions: seq<Action>, i: int)
    requires 0 <= i < |actions| && i + 1 < |states|
  {
    Enabled(states[i], actions[i]) && states[i + 1] == Step(states[i], actions[i])
  }

  ghost predicate Run(states: seq<State>, actions: seq<Action>) {
    && |states| == |actions| + 1 && Start(states[0])
    && forall i {:trigger StepAt(states, actions, i)} :: 0 <= i < |actions| ==> StepAt(states, actions, i)
  }

  lemma StartOk(st: State)
    requires Start(st)
    ensures Inv(st)
  {
    assert forall x :: WokenSet(st, x) == {};
  }

  lemma StepKeepsInv(st: State, a: Action)
    requires Inv(st) && Enabled(st, a)
    ensures Inv(Step(st, a))
  {
    var st' := Step(st, a);
    StepKeepsSemas(st, a);
    StepKeepsInside(st, a);
    forall t ensures PcOk(st', t) { StepKeepsPc(st, a, t); }
    forall l ensures LockOk(st', l) { assert LockOk(st, l); StepKeepsLock(st, a, l); }
    forall c ensures CondOk(st', c) { StepKeepsCond(st, a, c); }
    forall c ensures FifoOk(st', c) { assert FifoOk(st, c); StepKeepsFifo(st, a, c); }
  }

  /** All of it holds in every state of every interleaving. */
  lemma {:induction false} RunsKeepInv(states: seq<State>, actions: seq<Action>, i: nat)
    requires Run(states, actions) && i < |states|
    ensures Inv(states[i])
    decreases i
  {
    if i == 0 {
      StartOk(states[0]);
    } else {
      RunsKeepInv(states, actions, i - 1);
      assert StepAt(states, actions, i - 1);
      StepKeepsInv(states[i - 1], actions[i - 1]);
    }
  }

  /** No lost wakeup and conservation, for every semaphore in every reachable
      state: while a thread is blocked on a semaphore whose value is positive,
      another has been unblocked and its test is still to come. */
  lemma SemaphoreLaws(states: seq<State>, actions: seq<Action>, i: nat, x: SemaId)
    requires Run(states, actions) && i < |states|
    ensures NoLostWakeup(states[i], x) && Conserved(states[i], x)
    ensures states[i].S(x).waiters != [] && states[i].S(x).value > 0 ==>
      exists t :: states[i].P(t).WokenOn(x) && Enabled(states[i], Test(t))
  {
    RunsKeepInv(states, actions, i);
    var st := states[i];
    assert SemaOk(st, x);
    if st.S(x).waiters != [] && st.S(x).value > 0 {
      assert WokenSet(st, x) != {};
      var t :| t in WokenSet(st, x);
      assert st.P(t).WokenOn(x);
    }
  }

  /** Mutual exclusion in every interleaving; and the one thread inside is the
      recorded holder. */
  lemma MutualExclusion(states: seq<State>, actions: seq<Action>, i: nat, l: nat, t: Tid, u: Tid)
    requires Run(states, actions) && i < |states|
    requires (l, t) in states[i].inside && (l, u) in states[i].inside
    ensures t == u && states[i].Holds(l, t) && states[i].S(OfLock(l)).value == 0
  {
    RunsKeepInv(states, actions, i);
    assert states[i].Holds(l, t) && states[i].Holds(l, u);
    assert LockOk(states[i], l) && Owns(states[i], t, l);
  }

  /** The first half of a signal: exactly the thread that has waited longest leaves the queue,
      and only the signaller's own place changes. */
  lemma SignalTakesOldest(states: seq<State>, actions: seq<Action>, i: nat, t: Tid, c: Cond)
    requires Run(states, actions) && i < |actions| && actions[i] == Signal(t, c) && states[i].C(c) != []
    ensures states[i].SignalCount(c) < |states[i].WaitCount(c)|
    ensures var st, st' := states[i], states[i + 1];
      var w := st.WaitCount(c)[st.SignalCount(c)];
      st.C(c) == [w] + st'.C(c) && Signals(st', t, w, c) && OnlyThread(st, st', t) && st'.semas == st.semas
  {
    RunsKeepInv(states, actions, i);
    assert FifoOk(states[i], c) && StepAt(states, actions, i);
  }

  /** The second half: wherever inside cond_wait the thread is by now, it is not left blocked,
      its semaphore is up, and no third thread is touched. */
  lemma SignalArrives(states: seq<State>, actions: seq<Action>, j: nat, t: Tid, w: Tid, c: Cond)
    requires Run(states, actions) && j < |actions| && actions[j] == FinishSignal(t) && Signals(states[j], t, w, c)
    ensures var st, st' := states[j], states[j + 1];
      && WaitsOn(st.P(w), w, c) && st.S(OfWaiter(w)).value == 0
      && WaitsOn(st'.P(w), w, c) && !st'.P(w).Asleep? && st'.S(OfWaiter(w)).value == 1 && st'.P(t) == Outside
      && forall u :: u != t && u != w ==> st'.P(u) == st.P(u) && st'.S(OfWaiter(u)) == st.S(OfWaiter(u))
  {
    RunsKeepInv(states, actions, j);
    assert CondOk(states[j], c) && SemaOk(states[j], OfWaiter(w)) && StepAt(states, actions, j);
    SignalReaches(states[j], t, w, c);
  }

  /** Nothing but its own second half moves a signaller. */
  lemma SignallerStays(st: State, a: Action, t: Tid)
    requires SemasOk(st) && Enabled(st, a) && st.P(t).Signalling? && a != FinishSignal(t)
    ensures Step(st, a).P(t) == st.P(t)
  {
    if a.Up? {
      assert SemaOk(st, Plain(a.n));
      RaiseLeavesAwake(st, Plain(a.n), t);
    } else if a.FinishRelease? {
      assert SemaOk(st, OfLock(st.P(a.t).l));
      RaiseLeavesAwake(st, OfLock(st.P(a.t).l), t);
    } else if a.FinishSignal? {
      assert SemaOk(st, OfWaiter(st.P(a.t).w));
      RaiseLeavesAwake(st, OfWaiter(st.P(a.t).w), t);
    }
  }

  lemma {:induction false} SignalPending(states: seq<State>, actions: seq<Action>, i: nat, j: nat, t: Tid, w: Tid, c: Cond)
    requires Run(states, actions) && i <= j < |states| && Signals(states[i], t, w, c)
    requires forall m :: i <= m < j ==> actions[m] != FinishSignal(t)
    ensures Signals(states[j], t, w, c)
    decreases j
  {
    if i < j {
      SignalPending(states, actions, i, j - 1, t, w, c);
      RunsKeepInv(states, actions, j - 1);
      assert StepAt(states, actions, j - 1);
      SignallerStays(states[j - 1], actions[j - 1], t);
    }
  }

  /** The whole signal, whatever runs between its halves: it reaches exactly the thread that
      had waited longest when it began. */
  lemma SignalWakesOldest(states: seq<State>, actions: seq<Action>, i: nat, j: nat, t: Tid, c: Cond)
    requires Run(states, actions) && i < j < |actions| && states[i].C(c) != []
    requires actions[i] == Signal(t, c) && actions[j] == FinishSignal(t)
    requires forall m :: i < m < j ==> actions[m] != FinishSignal(t)
    ensures states[i].SignalCount(c) < |states[i].WaitCount(c)|
    ensures var w := states[i].WaitCount(c)[states[i].SignalCount(c)];
      && w == states[i].C(c)[0] && Signals(states[j], t, w, c) && WaitsOn(states[j + 1].P(w), w, c)
      && !states[j + 1].P(w).Asleep? && states[j + 1].S(OfWaiter(w)).value == 1
  {
    SignalTakesOldest(states, actions, i, t, c);
    var w := states[i].WaitCount(c)[states[i].SignalCount(c)];
    SignalPending(states, actions, i + 1, j, t, w, c);
    SignalArrives(states, actions, j, t, w, c);
  }

  /** No lost signal: a thread is blocked inside cond_wait only while it is queued or some
      thread is on its way to its semaphore. */
  lemma BlockedOnlyUnsignalled(states: seq<State>, actions: seq<Action>, i: nat, t: Tid)
    requires Run(states, actions) && i < |states| && states[i].P(t).AsleepOn(OfWaiter(t))
    ensures states[i].P(t).k.Reacquire?
    ensures var c := states[i].P(t).k.c; t in states[i].C(c) || BeingSignalled(states[i], t, c)
  {
    RunsKeepInv(states, actions, i);
    assert PcOk(states[i], t);
    assert CondOk(states[i], states[i].P(t).k.c);
    assert WaitsOn(states[i].P(t), t, states[i].P(t).k.c);
  }

  /** That thread is the one inside the lock, so there is at most one. */
  lemma SignallerHoldsLock(states: seq<State>, actions: seq<Action>, i: nat, s: Tid, w: Tid, c: Cond)
    requires Run(states, actions) && i < |states| && Signals(states[i], s, w, c)
    ensures (c.lock, s) in states[i].inside && w !in states[i].C(c) && Down(states[i], w, c)
    ensures forall u, v :: Signals(states[i], u, v, c) ==> u == s && v == w
  {
    RunsKeepInv(states, actions, i);
    var st := states[i];
    assert PcOk(st, s) && CondOk(st, c);
    forall u, v | Signals(st, u, v, c) ensures u == s && v == w {
      assert PcOk(st, u);
    }
  }

  lemma DrainStep(st: State, a: Action, t: Tid, c: Cond)
    requires InsideOk(st) && Enabled(st, a) && (c.lock, t) in st.inside && !(a.CallWait? && a.t == t)
    ensures var st' := Step(st, a);
            && st'.WaitCount(c) == st.WaitCount(c) && st.SignalCount(c) <= st'.SignalCount(c)
            && (a.Signal? && a.c == c && st.C(c) != [] ==> st'.SignalCount(c) == st.SignalCount(c) + 1)
  {
    assert st.Holds(c.lock, t);
    if a.CallWait? {
      assert st.Holds(a.c.lock, a.t);
    } else if !a.Signal? {
      OtherStepsKeepQueues(st, a);
    }
  }

  lemma RunsKeepFifo(states: seq<State>, actions: seq<Action>, i: nat, c: Cond)
    requires Run(states, actions) && i < |states|
    ensures FifoOk(states[i], c)
  {
    RunsKeepInv(states, actions, i);
  }

  /** While a thread stays inside the lock and does not wait itself, a condition's queue loses
      threads from its front and gains none: each signal takes one, so the loop of a broadcast
      ends and has reached every thread that was queued when it began, oldest first. */
  lemma {:induction false} QueueOnlyDrains(states: seq<State>, actions: seq<Action>, i: nat, j: nat, t: Tid, c: Cond)
    requires Run(states, actions) && i <= j < |states|
    requires forall m :: i <= m < j ==> (c.lock, t) in states[m].inside && !(actions[m].CallWait? && actions[m].t == t)
    ensures states[j].WaitCount(c) == states[i].WaitCount(c)
    ensures 0 <= states[j].SignalCount(c) - states[i].SignalCount(c) <= |states[i].C(c)|
    ensures states[j].C(c) == states[i].C(c)[states[j].SignalCount(c) - states[i].SignalCount(c)..]
    decreases j
  {
    RunsKeepFifo(states, actions, i, c);
    RunsKeepFifo(states, actions, j, c);
    if i < j {
      QueueOnlyDrains(states, actions, i, j - 1, t, c);
      DrainAt(states, actions, j - 1, t, c);
    }
  }

  lemma DrainAt(states: seq<State>, actions: seq<Action>, m: nat, t: Tid, c: Cond)
    requires Run(states, actions) && m < |actions|
    requires (c.lock, t) in states[m].inside && !(actions[m].CallWait? && actions[m].t == t)
    ensures states[m + 1].WaitCount(c) == states[m].WaitCount(c) && states[m].SignalCount(c) <= states[m + 1].SignalCount(c)
  {
    RunsKeepInv(states, actions, m);
    assert StepAt(states, actions, m);
    DrainStep(states[m], actions[m], t, c);
  }

  /** When a thread inside the lock finds the queue empty, nobody is blocked in a wait on the
      condition: the test that ends a broadcast. */
  lemma EmptyQueueNobodyBlocked(states: seq<State>, actions: seq<Action>, i: nat, t: Tid, c: Cond, w: Tid)
    requires Run(states, actions) && i < |states| && states[i].C(c) == []
    requires (c.lock, t) in states[i].inside && states[i].P(t) == Outside
    ensures !(states[i].P(w).AsleepOn(OfWaiter(w)) && states[i].P(w).k == Reacquire(c))
  {
    if states[i].P(w).AsleepOn(OfWaiter(w)) {
      BlockedOnlyUnsignalled(states, actions, i, w);
      if states[i].P(w).k.c == c {
        var s :| Signals(states[i], s, w, c);
        SignallerHoldsLock(states, actions, i, s, w, c);
        MutualExclusion(states, actions, i, c.lock, s, t);
        assert false;
      }
    }
  }

  /** The lock is free and nobody is in its queue. */
  ghost predicate FreeFor(st: State, t: Tid, l: nat) {
    st.P(t) == Outside && (l, t) !in st.inside && st.S(OfLock(l)).value == 1 && st.S(OfLock(l)).waiters == []
  }

  ghost predicate InsideAlone(st: State, t: Tid, l: nat) {
    st.P(t) == Outside && (l, t) in st.inside && st.S(OfLock(l)).value == 0 && st.S(OfLock(l)).waiters == []
  }

  lemma Acquires(states: seq<State>, actions: seq<Action>, t: Tid, l: nat) returns (longer: seq<State>, more: seq<Action>)
    requires Run(states, actions) && FreeFor(states[|actions|], t, l)
    ensures Run(longer, more) && InsideAlone(longer[|more|], t, l)
    ensures longer[|more|].conds == states[|actions|].conds
    ensures longer[|more|].inside == states[|actions|].inside + {(l, t)}
    ensures forall u :: u != t ==> longer[|more|].P(u) == states[|actions|].P(u)
  {
    longer, more := OneMore(states, actions, CallAcquire(t, l));
    longer, more := OneMore(longer, more, Test(t));
    longer, more := OneMore(longer, more, SetHolder(t));
  }

  lemma LetsGo(states: seq<State>, actions: seq<Action>, t: Tid, c: Cond) returns (longer: seq<State>, more: seq<Action>)
    requires Run(states, actions) && InsideAlone(states[|actions|], t, c.lock)
    ensures Run(longer, more) && longer[|more|].C(c) == states[|actions|].C(c) + [t]
    ensures longer[|more|].P(t) == Freed(c.lock, Some(c))
    ensures longer[|more|].inside == states[|actions|].inside - {(c.lock, t)}
    ensures longer[|more|].S(OfLock(c.lock)) == states[|actions|].S(OfLock(c.lock))
    ensures longer[|more|].S(OfWaiter(t)).value == 0
    ensures forall u :: u != t ==> longer[|more|].P(u) == states[|actions|].P(u)
  {
    longer, more := OneMore(states, actions, CallWait(t, c));
    longer, more := OneMore(longer, more, WaitRelease(t));
  }

  lemma FallsAsleep(states: seq<State>, actions: seq<Action>, t: Tid, c: Cond) returns (longer: seq<State>, more: seq<Action>)
    requires Run(states, actions) && InsideAlone(states[|actions|], t, c.lock)
    ensures Run(longer, more) && longer[|more|].C(c) == states[|actions|].C(c) + [t]
    ensures longer[|more|].P(t) == Asleep(OfWaiter(t), Reacquire(c))
    ensures longer[|more|].inside == states[|actions|].inside - {(c.lock, t)}
    ensures longer[|more|].S(OfLock(c.lock)).value == 1 && longer[|more|].S(OfLock(c.lock)).waiters == []
    ensures forall u :: u != t ==> longer[|more|].P(u) == states[|actions|].P(u)
  {
    longer, more := LetsGo(states, actions, t, c);
    longer, more := OneMore(longer, more, FinishRelease(t));
    longer, more := OneMore(longer, more, Test(t));
  }

  /** Without the lock the test says less: between the halves of a signal the queue can be empty
      with the last thread in it still blocked. */
  lemma EmptyQueueOneBlocked(c: Cond) returns (states: seq<State>, actions: seq<Action>)
    ensures Run(states, actions)
    ensures var st := states[|actions|]; st.C(c) == [] && st.P(0).AsleepOn(OfWaiter(0)) && Signals(st, 1, 0, c)
  {
    states, actions := [State(map[], map[], map[], {}, map[], map[], map[])], [];
    states, actions := Acquires(states, actions, 0, c.lock);
    states, actions := FallsAsleep(states, actions, 0, c);
    states, actions := Acquires(states, actions, 1, c.lock);
    states, actions := OneMore(states, actions, Signal(1, c));
  }

  lemma OneMore(states: seq<State>, actions: seq<Action>, a: Action) returns (longer: seq<State>, more: seq<Action>)
    requires Run(states, actions) && Enabled(states[|actions|], a)
    ensures Run(longer, more) && longer == states + [Step(states[|actions|], a)] && more == actions + [a]
  {
    longer, more := states + [Step(states[|actions|], a)], actions + [a];
    forall i | 0 <= i < |more| ensures StepAt(longer, more, i) {
      if i < |actions| {
        assert StepAt(states, actions, i);
      }
    }
  }
}
