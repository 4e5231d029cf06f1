/** The scheduler's queues and the timed sleep: which threads stand in which
    queue, in which order they are dispatched, and when sleepers wake. */
module Threads {
  import opened Prelude

  type Tid = nat

  const Int64Max: int := 0x7FFF_FFFF_FFFF_FFFF

  datatype Status = Running | Ready | Blocked | Dying

  /** The ready list, the sleep list, and the list of a semaphore or of the
      threads blocked by the warehouse. */
  datatype Queue = ReadyList | SleepList | WaitList(n: nat)

  datatype Sched = Sched(
    status: map<Tid, Status>,
    queues: map<Queue, seq<Tid>>,
    current: Tid,
    idle: Tid,
    wakeupTick: map<Tid, int>,
    nextTick: int,
    ticks: int,
    schedules: nat,        // how often schedule was called
    nascent: set<Tid>)     // threads that thread_create has begun and not yet unblocked
  {
    function Q(q: Queue): seq<Tid> {
      if q in queues then queues[q] else []
    }

    function Wakeup(t: Tid): int {
      if t in wakeupTick then wakeupTick[t] else 0
    }

    function SetQ(q: Queue, s: seq<Tid>): Sched {
      this.(queues := queues[q := s])
    }

    function Push(q: Queue, t: Tid): Sched {
      SetQ(q, Q(q) + [t])
    }

    function SetStatus(t: Tid, v: Status): Sched {
      this.(status := status[t := v])
    }

    /** thread_unblock. */
    function Unblocked(t: Tid): Sched {
      Push(ReadyList, t).SetStatus(t, Ready)
    }

    /** schedule: the front of the ready list runs next, the idle thread if
        there is none. */
    function Scheduled(): Sched {
      var r := Q(ReadyList);
      if r == [] then Dispatch(idle) else SetQ(ReadyList, r[1..]).Dispatch(r[0])
    }

    function Dispatch(t: Tid): Sched {
      SetStatus(t, Running).(current := t, schedules := schedules + 1)
    }

    /** The running thread pushes itself on q and blocks. */
    function BlockedOn(q: Queue): Sched {
      Push(q, current).SetStatus(current, Blocked).Scheduled()
    }

    /** The idle thread blocks without being on any list. */
    function IdleBlocked(): Sched {
      SetStatus(current, Blocked).Scheduled()
    }

    function Yielded(): Sched {
      (if current == idle then this else Push(ReadyList, current)).SetStatus(current, Ready).Scheduled()
    }

    /** thread_create up to, and then from, its thread_unblock. */
    function Begun(t: Tid): Sched {
      SetStatus(t, Blocked).(nascent := nascent + {t})
    }

    function Launched(t: Tid): Sched {
      this.(nascent := nascent - {t}).Unblocked(t)
    }

    function Exited(): Sched {
      SetStatus(current, Dying).Scheduled()
    }

    /** The first thread on a wait list is unblocked. */
    function Popped(n: nat): Sched {
      var w := Q(WaitList(n));
      if w == [] then this else SetQ(WaitList(n), w[1..]).Unblocked(w[0])
    }

    function Slept(tick: int): Sched {
      this.(wakeupTick := wakeupTick[current := tick], nextTick := Min(nextTick, tick)).BlockedOn(SleepList)
    }

    /** Unblocks threads one after the other. */
    function AllUnblocked(ts: seq<Tid>): Sched
      decreases |ts|
    {
      if ts == [] then this else Unblocked(ts[0]).AllUnblocked(ts[1..])
    }

    /** thread_wakeup: a full scan of the sleep list. */
    function Scanned(now: int): Sched {
      SetQ(SleepList, Later(Q(SleepList), wakeupTick, now))
        .(nextTick := Earliest(Later(Q(SleepList), wakeupTick, now), wakeupTick))
        .AllUnblocked(Due(Q(SleepList), wakeupTick, now))
    }

    /** The timer interrupt scans only when the cached tick has come. */
    function Ticked(): Sched {
      var s := this.(ticks := ticks + 1);
      if nextTick <= ticks + 1 then s.Scanned(ticks + 1) else s
    }
  }

  function TickOf(t: Tid, wakeupTick: map<Tid, int>): int {
    if t in wakeupTick then wakeupTick[t] else 0
  }

  function Due(s: seq<Tid>, wakeupTick: map<Tid, int>, now: int): seq<Tid> {
    if s == [] then []
    else (if now >= TickOf(s[0], wakeupTick) then [s[0]] else []) + Due(s[1..], wakeupTick, now)
  }

  function Later(s: seq<Tid>, wakeupTick: map<Tid, int>, now: int): seq<Tid> {
    if s == [] then []
    else (if now >= TickOf(s[0], wakeupTick) then [] else [s[0]]) + Later(s[1..], wakeupTick, now)
  }

  /** The least wakeup tick on a list, INT64_MAX if it is empty. */
  function Earliest(s: seq<Tid>, wakeupTick: map<Tid, int>): int {
    if s == [] then Int64Max else Min(Earliest(s[1..], wakeupTick), TickOf(s[0], wakeupTick))
  }

  datatype Action =
    | Block(n: nat) | Unblock(n: nat) | IdleBlock | Yield | Exit | Create(t: Tid) | Launch(t: Tid)
    | Sleep(tick: int) | Tick

  predicate Enabled(s: Sched, a: Action) {
    match a
    case Block(n) => s.current != s.idle
    case Unblock(n) => true
    case IdleBlock => s.current == s.idle
    case Yield => true
    case Exit => s.current != s.idle
    case Create(t) => t !in s.status
    case Launch(t) => t in s.nascent
    case Sleep(tick) => s.current != s.idle && tick <= Int64Max
    case Tick => true
  }

  function Step(s: Sched, a: Action): Sched
    requires Enabled(s, a)
  {
    match a
    case Block(n) => s.BlockedOn(WaitList(n))
    case Unblock(n) => s.Popped(n)
    case IdleBlock => s.IdleBlocked()
    case Yield => s.Yielded()
    case Exit => s.Exited()
    case Create(t) => s.Begun(t)
    case Launch(t) => s.Launched(t)
    case Sleep(tick) => s.Slept(tick)
    case Tick => s.Ticked()
  }

  // ---------------------------------------------------------------------
  // Which thread is where.

  /** A thread's single list element is in at most one list, once. */
  ghost predicate OneQueue(s: Sched) {
    && (forall q :: Distinct(s.Q(q)))
    && (forall t, q, r :: t in s.Q(q) && t in s.Q(r) ==> q == r)
  }

  ghost predicate Has(s: Sched, t: Tid, v: Status) {
    t in s.status && s.status[t] == v
  }

  ghost predicate Waits(s: Sched, t: Tid) {
    exists q :: q != ReadyList && t in s.Q(q)
  }

  /** The ready list holds exactly the ready threads other than the idle one;
      the other lists hold exactly the blocked ones, except that those in hand
      are on no list. */
  ghost predicate PlacedBut(s: Sched, hand: set<Tid>) {
    && (forall t :: t in s.Q(ReadyList) <==> Has(s, t, Ready) && t != s.idle)
    && (forall t, q :: t in s.Q(q) && q != ReadyList ==> Has(s, t, Blocked) && t != s.idle && t !in hand)
    && (forall t :: Has(s, t, Blocked) && t != s.idle && t !in hand ==> Waits(s, t))
    && (forall t :: t in hand ==> Has(s, t, Blocked) && t != s.idle)
  }

  /** Only threads in the middle of thread_create are blocked on no list. */
  ghost predicate Placed(s: Sched) {
    PlacedBut(s, s.nascent)
  }

  /** One thread runs. */
  ghost predicate OneRuns(s: Sched) {
    && s.idle in s.status && s.status[s.idle] != Dying
    && forall t :: Has(s, t, Running) <==> t == s.current
  }

  ghost predicate Inv(s: Sched) {
    OneQueue(s) && Placed(s) && OneRuns(s)
  }

  /** Between a thread's leaving the processor and the choice of the next one. */
  ghost predicate Vacated(s: Sched) {
    && OneQueue(s) && Placed(s)
    && s.idle in s.status && s.status[s.idle] != Dying
    && forall t :: !Has(s, t, Running)
  }

  /** The first of the list runs next, the idle thread where there is none. */
  ghost predicate Dispatched(list: seq<Tid>, idle: Tid, next: Tid, rest: seq<Tid>) {
    if list == [] then next == idle && rest == [] else [next] + rest == list
  }

  lemma TailMembers(s: seq<Tid>)
    requires s != [] && Distinct(s)
    ensures Distinct(s[1..]) && forall t :: t in s[1..] <==> t in s && t != s[0]
  {
    assert s == [s[0]] + s[1..];
  }

  ghost predicate Nowhere(s: Sched, t: Tid) {
    forall q :: t !in s.Q(q)
  }

  /** What changing one status does to the others. */
  ghost predicate StatusSet(s: Sched, s': Sched, t: Tid, v: Status) {
    forall u, w :: Has(s', u, w) <==> if u == t then w == v else Has(s, u, w)
  }

  ghost predicate SameStatus(s: Sched, s': Sched) {
    forall u, w :: Has(s', u, w) <==> Has(s, u, w)
  }

  lemma PushKeepsOneQueue(s: Sched, q: Queue, t: Tid)
    requires OneQueue(s) && Nowhere(s, t)
    ensures OneQueue(s.Push(q, t))
  {
    var s' := s.Push(q, t);
    assert forall r :: s'.Q(r) == if r == q then s.Q(q) + [t] else s.Q(r);
    assert Distinct(s.Q(q) + [t]) by {
      assert Distinct(s.Q(q)) && t !in s.Q(q);
    }
    forall r ensures Distinct(s'.Q(r)) {
      assert Distinct(s.Q(r));
    }
    forall u, r, r' | u in s'.Q(r) && u in s'.Q(r') ensures r == r' {
      assert u != t ==> u in s.Q(r) && u in s.Q(r');
    }
  }

  lemma PopKeepsOneQueue(s: Sched, q: Queue)
    requires OneQueue(s) && s.Q(q) != []
    ensures OneQueue(s.SetQ(q, s.Q(q)[1..])) && Nowhere(s.SetQ(q, s.Q(q)[1..]), s.Q(q)[0])
    ensures forall r, u :: u in s.SetQ(q, s.Q(q)[1..]).Q(r) <==> u in s.Q(r) && u != s.Q(q)[0]
  {
    var s', t := s.SetQ(q, s.Q(q)[1..]), s.Q(q)[0];
    assert Distinct(s.Q(q));
    TailMembers(s.Q(q));
    forall r, u ensures u in s'.Q(r) <==> u in s.Q(r) && u != t {
      assert t in s.Q(q);
      assert s'.Q(r) == if r == q then s.Q(q)[1..] else s.Q(r);
    }
    forall r ensures Distinct(s'.Q(r)) {
      assert Distinct(s.Q(r));
    }
  }

  lemma ScheduleKeepsInv(s: Sched)
    requires Vacated(s)
    ensures Inv(s.Scheduled())
  {
    var r := s.Q(ReadyList);
    if r != [] {
      PopKeepsOneQueue(s, ReadyList);
      var s1 := s.SetQ(ReadyList, r[1..]);
      assert r[0] in r;
      DispatchReady(s, s1, r[0]);
    } else {
      DispatchIdle(s);
    }
  }

  lemma DispatchReady(s: Sched, s1: Sched, t: Tid)
    requires Vacated(s) && OneQueue(s1) && t in s.Q(ReadyList)
    requires s1.status == s.status && s1.idle == s.idle && s1.nascent == s.nascent
    requires forall q, u :: u in s1.Q(q) <==> u in s.Q(q) && u != t
    ensures Inv(s1.Dispatch(t))
  {
    var s' := s1.Dispatch(t);
    assert StatusSet(s, s', t, Running);
    assert forall q :: s'.Q(q) == s1.Q(q);
    forall u | Has(s', u, Blocked) && u != s'.idle && u !in s'.nascent
      ensures Waits(s', u)
    {
      assert Has(s, u, Blocked);
      var q :| q != ReadyList && u in s.Q(q);
      assert u in s1.Q(q);
    }
  }

  lemma DispatchIdle(s: Sched)
    requires Vacated(s) && s.Q(ReadyList) == []
    ensures Inv(s.Dispatch(s.idle))
  {
    var s' := s.Dispatch(s.idle);
    assert StatusSet(s, s', s.idle, Running);
    assert forall q :: s'.Q(q) == s.Q(q);
    forall u | Has(s', u, Blocked) && u != s'.idle && u !in s'.nascent
      ensures Waits(s', u)
    {
      assert Has(s, u, Blocked);
      var q :| q != ReadyList && u in s.Q(q);
      assert u in s'.Q(q);
    }
  }

  lemma CurrentNowhere(s: Sched)
    requires Inv(s)
    ensures Nowhere(s, s.current) && Has(s, s.current, Running)
  {
    assert Has(s, s.current, Running);
    forall q ensures s.current !in s.Q(q) {
      assert !Has(s, s.current, Ready) && !Has(s, s.current, Blocked);
    }
  }

  ghost predicate Pushed(s: Sched, s': Sched, q: Queue, t: Tid) {
    forall r :: s'.Q(r) == if r == q then s.Q(q) + [t] else s.Q(r)
  }

  lemma BlockPlaced(s: Sched, s': Sched, q: Queue, t: Tid)
    requires Placed(s) && Has(s, t, Running) && t != s.idle && q != ReadyList
    requires StatusSet(s, s', t, Blocked) && Pushed(s, s', q, t) && s'.idle == s.idle && s'.nascent == s.nascent
    ensures Placed(s')
  {
    forall u | Has(s', u, Blocked) && u != s'.idle && u !in s'.nascent ensures Waits(s', u) {
      if u == t {
        assert u in s'.Q(q);
      } else {
        assert Has(s, u, Blocked) && Waits(s, u);
        var r :| r != ReadyList && u in s.Q(r);
        assert u in s'.Q(r);
      }
    }
  }

  /** The running thread has gone on a list. */
  lemma BlockVacates(s: Sched, q: Queue)
    requires Inv(s) && s.current != s.idle && q != ReadyList
    ensures Vacated(s.Push(q, s.current).SetStatus(s.current, Blocked))
  {
    CurrentNowhere(s);
    PushKeepsOneQueue(s, q, s.current);
    var s' := s.Push(q, s.current).SetStatus(s.current, Blocked);
    assert StatusSet(s, s', s.current, Blocked) && Pushed(s, s', q, s.current);
    BlockPlaced(s, s', q, s.current);
    assert forall r :: s'.Q(r) == s.Push(q, s.current).Q(r);
  }

  lemma BlockKeepsInv(s: Sched, q: Queue)
    requires Inv(s) && s.current != s.idle && q != ReadyList
    ensures Inv(s.BlockedOn(q))
  {
    BlockVacates(s, q);
    ScheduleKeepsInv(s.Push(q, s.current).SetStatus(s.current, Blocked));
  }

  /** It has left the processor without going on a list. */
  lemma LeaveVacates(s: Sched, v: Status)
    requires Inv(s) && v != Running && (v == Dying ==> s.current != s.idle)
    requires v == Ready || v == Blocked ==> s.current == s.idle
    ensures Vacated(s.SetStatus(s.current, v))
  {
    CurrentNowhere(s);
    var s' := s.SetStatus(s.current, v);
    assert StatusSet(s, s', s.current, v);
    assert forall r :: s'.Q(r) == s.Q(r);
    forall u | Has(s', u, Blocked) && u != s'.idle && u !in s'.nascent ensures Waits(s', u) {
      assert Has(s, u, Blocked);
      var r :| r != ReadyList && u in s.Q(r);
      assert u in s'.Q(r);
    }
  }

  lemma LeaveKeepsInv(s: Sched, v: Status)
    requires Inv(s) && v != Running && (v == Dying ==> s.current != s.idle)
    requires v == Ready || v == Blocked ==> s.current == s.idle
    ensures Inv(s.SetStatus(s.current, v).Scheduled())
  {
    LeaveVacates(s, v);
    ScheduleKeepsInv(s.SetStatus(s.current, v));
  }

  lemma YieldKeepsInv(s: Sched)
    requires Inv(s)
    ensures Inv(s.Yielded())
  {
    if s.current == s.idle {
      LeaveKeepsInv(s, Ready);
    } else {
      YieldVacates(s);
      ScheduleKeepsInv(s.Push(ReadyList, s.current).SetStatus(s.current, Ready));
    }
  }

  lemma YieldVacates(s: Sched)
    requires Inv(s) && s.current != s.idle
    ensures Vacated(s.Push(ReadyList, s.current).SetStatus(s.current, Ready))
  {
    CurrentNowhere(s);
    PushKeepsOneQueue(s, ReadyList, s.current);
    var s' := s.Push(ReadyList, s.current).SetStatus(s.current, Ready);
    assert StatusSet(s, s', s.current, Ready);
    assert forall r :: s'.Q(r) == if r == ReadyList then s.Q(r) + [s.current] else s.Q(r);
    forall u | Has(s', u, Blocked) && u != s'.idle && u !in s'.nascent ensures Waits(s', u) {
      assert Has(s, u, Blocked);
      var r :| r != ReadyList && u in s.Q(r);
      assert u in s'.Q(r);
    }
  }

  // ---------------------------------------------------------------------
  // Unblocking.

  /** Everything is in order except that the threads in hand are on no list. */
  ghost predicate InHand(s: Sched, hand: set<Tid>) {
    OneQueue(s) && PlacedBut(s, hand) && OneRuns(s)
  }

  lemma HandNowhere(s: Sched, hand: set<Tid>, t: Tid)
    requires PlacedBut(s, hand) && t in hand
    ensures Nowhere(s, t) && Has(s, t, Blocked)
  {
    assert Has(s, t, Blocked) && !Has(s, t, Ready);
  }

  lemma UnblockFromHand(s: Sched, hand: set<Tid>, t: Tid)
    requires InHand(s, hand) && t in hand
    ensures InHand(s.Unblocked(t), hand - {t})
  {
    var s' := s.Unblocked(t);
    HandNowhere(s, hand, t);
    assert StatusSet(s, s', t, Ready);
    assert Has(s, s.current, Running) && Has(s, t, Blocked);
    PushKeepsOneQueue(s, ReadyList, t);
    assert forall r :: s'.Q(r) == if r == ReadyList then s.Q(r) + [t] else s.Q(r);
    forall u | Has(s', u, Blocked) && u != s'.idle && u !in hand - {t} ensures Waits(s', u) {
      assert Has(s, u, Blocked);
      var r :| r != ReadyList && u in s.Q(r);
      assert u in s'.Q(r);
    }
  }

  /** Taking the threads of hand off a wait or sleep list. */
  lemma TakeInHand(s: Sched, s': Sched, q: Queue, hand: set<Tid>)
    requires Inv(s) && q != ReadyList && Distinct(s'.Q(q))
    requires s'.status == s.status && s'.current == s.current && s'.idle == s.idle
    requires forall r :: r != q ==> s'.Q(r) == s.Q(r)
    requires forall t :: t in s'.Q(q) <==> t in s.Q(q) && t !in hand
    requires forall t :: t in hand ==> t in s.Q(q)
    ensures InHand(s', s.nascent + hand)
  {
    assert SameStatus(s, s');
    assert forall r, t :: t in s'.Q(r) ==> t in s.Q(r);
    forall r ensures Distinct(s'.Q(r)) {
      assert Distinct(s.Q(r));
    }
    forall t | t in hand ensures Has(s', t, Blocked) && t != s.idle {
      assert t in s.Q(q) && Has(s, t, Blocked);
    }
    forall u | Has(s', u, Blocked) && u != s'.idle && u !in s.nascent + hand ensures Waits(s', u) {
      assert Has(s, u, Blocked);
      var r :| r != ReadyList && u in s.Q(r);
      assert u in s'.Q(r);
    }
  }

  lemma PopToHand(s: Sched, n: nat)
    requires Inv(s) && s.Q(WaitList(n)) != []
    ensures InHand(s.SetQ(WaitList(n), s.Q(WaitList(n))[1..]), s.nascent + {s.Q(WaitList(n))[0]})
    ensures s.Q(WaitList(n))[0] !in s.nascent
  {
    var q := WaitList(n);
    assert Distinct(s.Q(q)) && s.Q(q)[0] in s.Q(q);
    TailMembers(s.Q(q));
    TakeInHand(s, s.SetQ(q, s.Q(q)[1..]), q, {s.Q(q)[0]});
  }

  lemma PopKeepsInv(s: Sched, n: nat)
    requires Inv(s)
    ensures Inv(s.Popped(n))
  {
    var w := s.Q(WaitList(n));
    if w != [] {
      PopToHand(s, n);
      UnblockFromHand(s.SetQ(WaitList(n), w[1..]), s.nascent + {w[0]}, w[0]);
      assert s.nascent + {w[0]} - {w[0]} == s.nascent;
    }
  }

  lemma CreateKeepsInv(s: Sched, t: Tid)
    requires Inv(s) && t !in s.status
    ensures Inv(s.Begun(t))
  {
    var s' := s.Begun(t);
    assert StatusSet(s, s', t, Blocked);
    assert forall r :: s'.Q(r) == s.Q(r);
    forall q ensures t !in s.Q(q) {
      assert !Has(s, t, Ready) && !Has(s, t, Blocked);
    }
    assert Has(s, s.current, Running);
    forall u | Has(s', u, Blocked) && u != s'.idle && u !in s'.nascent ensures Waits(s', u) {
      assert Has(s, u, Blocked);
      var r :| r != ReadyList && u in s.Q(r);
      assert u in s'.Q(r);
    }
  }

  lemma LaunchKeepsInv(s: Sched, t: Tid)
    requires Inv(s) && t in s.nascent
    ensures Inv(s.Launched(t))
  {
    UnblockFromHand(s, s.nascent, t);
    InHandSame(s.Unblocked(t), s.Launched(t), s.nascent - {t});
  }

  lemma InHandSame(s: Sched, s': Sched, hand: set<Tid>)
    requires InHand(s, hand)
    requires s'.status == s.status && s'.queues == s.queues && s'.current == s.current && s'.idle == s.idle
    ensures InHand(s', hand)
  {
    assert SameStatus(s, s') && forall q :: s'.Q(q) == s.Q(q);
    forall t | Has(s', t, Blocked) && t != s'.idle && t !in hand ensures Waits(s', t) {
      assert Has(s, t, Blocked);
      var r :| r != ReadyList && t in s.Q(r);
      assert t in s'.Q(r);
    }
  }

  // ---------------------------------------------------------------------
  // The sleep list.

  lemma {:induction false} FilterMembers(s: seq<Tid>, w: map<Tid, int>, now: int, t: Tid)
    ensures t in Due(s, w, now) <==> t in s && TickOf(t, w) <= now
    ensures t in Later(s, w, now) <==> t in s && TickOf(t, w) > now
  {
    if s != [] {
      FilterMembers(s[1..], w, now, t);
      assert s == [s[0]] + s[1..];
    }
  }

  lemma {:induction false} FilterDistinct(s: seq<Tid>, w: map<Tid, int>, now: int)
    requires Distinct(s)
    ensures Distinct(Due(s, w, now)) && Distinct(Later(s, w, now))
  {
    if s != [] {
      TailMembers(s);
      FilterDistinct(s[1..], w, now);
      FilterMembers(s[1..], w, now, s[0]);
    }
  }

  lemma {:induction false} EarliestBound(s: seq<Tid>, w: map<Tid, int>)
    ensures forall t :: t in s ==> Earliest(s, w) <= TickOf(t, w)
    ensures Earliest(s, w) == Int64Max || exists t :: t in s && Earliest(s, w) == TickOf(t, w)
  {
    if s != [] {
      EarliestBound(s[1..], w);
      assert s == [s[0]] + s[1..];
    }
  }

  /** If nobody is due the scan removes nobody. */
  lemma {:induction false} NobodyDue(s: seq<Tid>, w: map<Tid, int>, now: int)
    requires now < Earliest(s, w)
    ensures Due(s, w, now) == [] && Later(s, w, now) == s
  {
    if s != [] {
      NobodyDue(s[1..], w, now);
    }
  }

  lemma {:induction false} AllUnblockedKeeps(s: Sched, ts: seq<Tid>)
    requires Distinct(ts) && InHand(s, s.nascent + Members(ts)) && s.nascent !! Members(ts)
    ensures Inv(s.AllUnblocked(ts))
    decreases |ts|
  {
    if ts != [] {
      TailMembers(ts);
      UnblockFromHand(s, s.nascent + Members(ts), ts[0]);
      assert s.nascent + Members(ts) - {ts[0]} == s.nascent + Members(ts[1..]);
      AllUnblockedKeeps(s.Unblocked(ts[0]), ts[1..]);
    } else {
      assert s.nascent + Members(ts) == s.nascent;
    }
  }

  ghost function Members(s: seq<Tid>): set<Tid> {
    set t | t in s
  }

  lemma ScanToHand(s: Sched, now: int, next: int)
    requires Inv(s)
    ensures var due := Members(Due(s.Q(SleepList), s.wakeupTick, now));
      s.nascent !! due &&
      InHand(s.SetQ(SleepList, Later(s.Q(SleepList), s.wakeupTick, now)).(nextTick := next), s.nascent + due)
  {
    var q, w := s.Q(SleepList), s.wakeupTick;
    assert Distinct(s.Q(SleepList));
    FilterDistinct(q, w, now);
    forall t ensures (t in Due(q, w, now) <==> t in q && TickOf(t, w) <= now)
      && (t in Later(q, w, now) <==> t in q && TickOf(t, w) > now)
    {
      FilterMembers(q, w, now, t);
    }
    TakeInHand(s, s.SetQ(SleepList, Later(q, w, now)).(nextTick := next), SleepList, Members(Due(q, w, now)));
  }

  lemma ScanKeepsInv(s: Sched, now: int)
    requires Inv(s)
    ensures Inv(s.Scanned(now))
  {
    var q, w := s.Q(SleepList), s.wakeupTick;
    assert Distinct(s.Q(SleepList));
    FilterDistinct(q, w, now);
    ScanToHand(s, now, Earliest(Later(q, w, now), w));
    AllUnblockedKeeps(s.SetQ(SleepList, Later(q, w, now)).(nextTick := Earliest(Later(q, w, now), w)), Due(q, w, now));
  }

  lemma SameQueuesKeepInv(s: Sched, s': Sched)
    requires Inv(s) && s'.status == s.status && s'.queues == s.queues && s'.current == s.current && s'.idle == s.idle
    requires s'.nascent == s.nascent
    ensures Inv(s')
  {
    InHandSame(s, s', s.nascent);
  }

  lemma StepKeepsInv(s: Sched, a: Action)
    requires Inv(s) && Enabled(s, a)
    ensures Inv(Step(s, a))
  {
    match a
    case Block(n) => BlockKeepsInv(s, WaitList(n));
    case Unblock(n) => PopKeepsInv(s, n);
    case IdleBlock => LeaveKeepsInv(s, Blocked);
    case Yield => YieldKeepsInv(s);
    case Exit => LeaveKeepsInv(s, Dying);
    case Create(t) => CreateKeepsInv(s, t);
    case Launch(t) => LaunchKeepsInv(s, t);
    case Sleep(tick) =>
      var s1 := s.(wakeupTick := s.wakeupTick[s.current := tick], nextTick := Min(s.nextTick, tick));
      SameQueuesKeepInv(s, s1);
      BlockKeepsInv(s1, SleepList);
    case Tick =>
      var s1 := s.(ticks := s.ticks + 1);
      SameQueuesKeepInv(s, s1);
      ScanKeepsInv(s1, s.ticks + 1);
  }

  // ---------------------------------------------------------------------
  // The cached tick.

  /** The cached tick is the least wakeup tick of all sleepers. */
  ghost predicate TimerOk(s: Sched) {
    SleepList in s.queues && s.nextTick == Earliest(s.Q(SleepList), s.wakeupTick)
  }

  /** No sleeper's tick is below it, and it is some sleeper's tick or INT64_MAX. */
  ghost predicate TimerLeast(s: Sched) {
    && (forall t :: t in s.Q(SleepList) ==> s.nextTick <= s.Wakeup(t))
    && (s.nextTick == Int64Max || exists t :: t in s.Q(SleepList) && s.nextTick == s.Wakeup(t))
  }

  lemma {:induction false} EarliestAppend(q: seq<Tid>, w: map<Tid, int>, t: Tid, tick: int)
    requires t !in q && tick <= Int64Max
    ensures Earliest(q + [t], w[t := tick]) == Min(Earliest(q, w), tick)
  {
    if q == [] {
      assert q + [t] == [t];
    } else {
      assert (q + [t])[1..] == q[1..] + [t];
      EarliestAppend(q[1..], w, t, tick);
    }
  }

  lemma {:induction false} AllUnblockedElsewhere(s: Sched, ts: seq<Tid>)
    ensures var s' := s.AllUnblocked(ts);
      && s'.nextTick == s.nextTick && s'.wakeupTick == s.wakeupTick && s'.ticks == s.ticks
      && s'.current == s.current && s'.schedules == s.schedules
      && (SleepList in s.queues ==> SleepList in s'.queues) && s'.Q(SleepList) == s.Q(SleepList)
      && s'.Q(ReadyList) == s.Q(ReadyList) + ts
    decreases |ts|
  {
    if ts != [] {
      AllUnblockedElsewhere(s.Unblocked(ts[0]), ts[1..]);
      assert s.Q(ReadyList) + [ts[0]] + ts[1..] == s.Q(ReadyList) + ts;
    }
  }

  /** The guarded handler does on every tick what a full scan would do. */
  lemma TickIsFullScan(s: Sched)
    requires TimerOk(s)
    ensures s.Ticked() == s.(ticks := s.ticks + 1).Scanned(s.ticks + 1)
  {
    if s.nextTick > s.ticks + 1 {
      NobodyDue(s.Q(SleepList), s.wakeupTick, s.ticks + 1);
      assert s.queues[SleepList := s.queues[SleepList]] == s.queues;
    }
  }

  lemma StepKeepsTimer(s: Sched, a: Action)
    requires Inv(s) && TimerOk(s) && Enabled(s, a)
    ensures TimerOk(Step(s, a))
  {
    if a.Sleep? {
      CurrentNowhere(s);
      EarliestAppend(s.Q(SleepList), s.wakeupTick, s.current, a.tick);
    } else if a.Tick? {
      TickIsFullScan(s);
      var s1 := s.(ticks := s.ticks + 1);
      var later := Later(s.Q(SleepList), s.wakeupTick, s.ticks + 1);
      AllUnblockedElsewhere(s1.SetQ(SleepList, later).(nextTick := Earliest(later, s.wakeupTick)),
                            Due(s.Q(SleepList), s.wakeupTick, s.ticks + 1));
    }
  }

  /** A sleeper is unblocked by a timer interrupt exactly when its tick has come;
      nothing else takes it off the sleep list. */
  lemma SleeperStep(s: Sched, a: Action, t: Tid)
    requires Inv(s) && TimerOk(s) && Enabled(s, a) && t in s.Q(SleepList)
    ensures var s' := Step(s, a);
      if a.Tick? && s.Wakeup(t) <= s'.ticks then t in s'.Q(ReadyList) && t !in s'.Q(SleepList)
      else t in s'.Q(SleepList) && s'.Wakeup(t) == s.Wakeup(t)
  {
    if a.Tick? {
      TickIsFullScan(s);
      var now := s.ticks + 1;
      var later, due := Later(s.Q(SleepList), s.wakeupTick, now), Due(s.Q(SleepList), s.wakeupTick, now);
      FilterMembers(s.Q(SleepList), s.wakeupTick, now, t);
      AllUnblockedElsewhere(
        s.(ticks := now).SetQ(SleepList, later).(nextTick := Earliest(later, s.wakeupTick)), due);
    } else if a.Sleep? {
      CurrentNowhere(s);
    }
  }

  // ---------------------------------------------------------------------
  // First ready, first run.

  predicate Schedules(a: Action) {
    a.Block? || a.IdleBlock? || a.Yield? || a.Exit? || a.Sleep?
  }

  /** A step that calls schedule takes the front of the ready list; every other
      step only appends to it. */
  lemma ReadyStep(s: Sched, a: Action, k: nat)
    requires Enabled(s, a) && k < |s.Q(ReadyList)|
    ensures var s', t := Step(s, a), s.Q(ReadyList)[k];
      && s'.schedules == s.schedules + (if Schedules(a) then 1 else 0)
      && (Schedules(a) && k == 0 ==> s'.current == t)
      && (Schedules(a) && k > 0 ==> |s'.Q(ReadyList)| >= k && s'.Q(ReadyList)[k - 1] == t)
      && (!Schedules(a) ==> |s'.Q(ReadyList)| > k && s'.Q(ReadyList)[k] == t)
  {
    if a.Tick? {
      var s1, now := s.(ticks := s.ticks + 1), s.ticks + 1;
      var later := Later(s.Q(SleepList), s.wakeupTick, now);
      AllUnblockedElsewhere(s1.SetQ(SleepList, later).(nextTick := Earliest(later, s.wakeupTick)),
                            Due(s.Q(SleepList), s.wakeupTick, now));
    }
  }

  // ---------------------------------------------------------------------
  // Runs.

  /** thread_start has returned: the main thread runs, and the idle thread is blocked, or ready
      where it was preempted before it blocked. */
  ghost predicate Start(s: Sched) {
    && s.current != s.idle && s.status.Keys == {s.current, s.idle} && s.status[s.current] == Running
    && s.status[s.idle] in {Blocked, Ready} && s.nascent == {}
    && s.queues == map[SleepList := []] && s.nextTick == Int64Max
  }

  ghost predicate StepAt(states: seq<Sched>, actions: seq<Action>, i: int)
    requires 0 <= i < |actions| && i + 1 < |states|
  {
    Enabled(states[i], actions[i]) && states[i + 1] == Step(states[i], actions[i])
  }

  ghost predicate Run(states: seq<Sched>, actions: seq<Action>) {
    && |states| == |actions| + 1 && Start(states[0])
    && forall i {:trigger StepAt(states, actions, i)} :: 0 <= i < |actions| ==> StepAt(states, actions, i)
  }

  /** In every reachable state each thread is on at most one list, the ready list
      is exact, no thread is lost, and the cached tick is the least. */
  lemma {:induction false} RunsKeepInv(states: seq<Sched>, actions: seq<Action>, i: nat)
    requires Run(states, actions) && i < |states|
    ensures Inv(states[i]) && TimerOk(states[i]) && TimerLeast(states[i])
    decreases i
  {
    EarliestBound(states[i].Q(SleepList), states[i].wakeupTick);
    if i == 0 {
      assert forall q :: states[0].Q(q) == [];
    } else {
      RunsKeepInv(states, actions, i - 1);
      assert StepAt(states, actions, i - 1);
      StepKeepsInv(states[i - 1], actions[i - 1]);
      StepKeepsTimer(states[i - 1], actions[i - 1]);
    }
  }

  /** A thread moves up in the ready list by one place with every call of
      schedule, and only then. */
  lemma {:induction false} MovesUp(states: seq<Sched>, actions: seq<Action>, i: nat, j: nat, k: nat)
    requires Run(states, actions) && i <= j < |states| && k < |states[i].Q(ReadyList)|
    requires states[j].schedules <= states[i].schedules + k
    ensures var n := states[j].schedules - states[i].schedules;
      0 <= n <= k < n + |states[j].Q(ReadyList)| && states[j].Q(ReadyList)[k - n] == states[i].Q(ReadyList)[k]
    decreases j
  {
    if j > i {
      assert StepAt(states, actions, j - 1);
      SchedulesStep(states[j - 1], actions[j - 1]);
      MovesUp(states, actions, i, j - 1, k);
      ReadyStep(states[j - 1], actions[j - 1], k - (states[j - 1].schedules - states[i].schedules));
    }
  }

  /** First ready, first run: the thread at position k of the ready list is
      dispatched by the (k+1)-th call of schedule from now. */
  lemma RunsInTurn(states: seq<Sched>, actions: seq<Action>, i: nat, j: nat, k: nat)
    requires Run(states, actions) && i <= j < |actions| && k < |states[i].Q(ReadyList)|
    requires Schedules(actions[j]) && states[j].schedules == states[i].schedules + k
    ensures states[j + 1].schedules == states[i].schedules + k + 1
    ensures states[j + 1].current == states[i].Q(ReadyList)[k]
  {
    MovesUp(states, actions, i, j, k);
    assert StepAt(states, actions, j);
    ReadyStep(states[j], actions[j], 0);
  }

  lemma SchedulesStep(s: Sched, a: Action)
    requires Enabled(s, a)
    ensures Step(s, a).schedules == s.schedules + if Schedules(a) then 1 else 0
  {
    if a.Tick? {
      var s1, now := s.(ticks := s.ticks + 1), s.ticks + 1;
      var later := Later(s.Q(SleepList), s.wakeupTick, now);
      AllUnblockedElsewhere(s1.SetQ(SleepList, later).(nextTick := Earliest(later, s.wakeupTick)),
                            Due(s.Q(SleepList), s.wakeupTick, now));
    }
  }

  lemma SleeperAt(states: seq<Sched>, actions: seq<Action>, m: nat, t: Tid)
    requires Run(states, actions) && m < |actions| && t in states[m].Q(SleepList)
    ensures if actions[m].Tick? && states[m].Wakeup(t) <= states[m + 1].ticks
            then t in states[m + 1].Q(ReadyList)
            else t in states[m + 1].Q(SleepList) && states[m + 1].Wakeup(t) == states[m].Wakeup(t)
  {
    RunsKeepInv(states, actions, m);
    assert StepAt(states, actions, m);
    SleeperStep(states[m], actions[m], t);
  }

  /** A thread asleep at i is still asleep at j unless a timer interrupt between
      them came at or after its wakeup tick. */
  lemma {:induction false} SleepsUntilDue(states: seq<Sched>, actions: seq<Action>, i: nat, j: nat, t: Tid)
    requires Run(states, actions) && i <= j < |states| && t in states[i].Q(SleepList)
    requires forall m :: i <= m < j && actions[m].Tick? ==> states[m + 1].ticks < states[i].Wakeup(t)
    ensures t in states[j].Q(SleepList) && states[j].Wakeup(t) == states[i].Wakeup(t)
    decreases j
  {
    if j > i {
      SleepsUntilDue(states, actions, i, j - 1, t);
      SleeperAt(states, actions, j - 1, t);
    }
  }

  /** The first timer interrupt at or after the wakeup tick makes it ready. */
  lemma WakesWhenDue(states: seq<Sched>, actions: seq<Action>, i: nat, j: nat, t: Tid)
    requires Run(states, actions) && i <= j < |actions| && t in states[i].Q(SleepList)
    requires forall m :: i <= m < j && actions[m].Tick? ==> states[m + 1].ticks < states[i].Wakeup(t)
    requires actions[j].Tick? && states[j + 1].ticks >= states[i].Wakeup(t)
    ensures t in states[j + 1].Q(ReadyList) && Has(states[j + 1], t, Ready)
  {
    SleepsUntilDue(states, actions, i, j, t);
    SleeperAt(states, actions, j, t);
    RunsKeepInv(states, actions, j + 1);
  }
}
