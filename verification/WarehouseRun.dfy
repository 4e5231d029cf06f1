/** What holds over every run: no collision whatever part of a batch is carried
    out in whatever order, and no robot is passed over for ever. */
module WarehouseRun {
  import opened Ranges
  import opened Warehouse
  import opened WarehousePath
  import opened WarehouseRound

  // ---------------------------------------------------------------------
  // A robot's turn.

  /** Picking up at the item cell, unloading at the dock. */
  ghost function Handle(f: Floor, robot: Robot): Robot
    requires f.Valid()
  {
    if robot.currentPayload == 0 && robot.pos == ItemPosition(f, robot.requiredItem) then
      robot.(currentPayload := robot.requiredPayload)
    else if robot.currentPayload > 0 && robot.pos == DestinationPosition(f, robot.destination) then
      robot.(currentPayload := 0, taskCompleted := true)
    else robot
  }

  predicate Moves(f: Floor, robots: seq<Robot>, i: nat, command: int)
    requires f.Rectangular() && i < |robots|
  {
    !robots[i].taskCompleted && command != 0 && !View(f, robots, i).Blocked(Next(robots[i].pos, command))
  }

  ghost function Turn(f: Floor, robots: seq<Robot>, i: nat, command: int): seq<Robot>
    requires f.Valid() && i < |robots|
  {
    if robots[i].taskCompleted then robots
    else
      var p := if Moves(f, robots, i, command) then Next(robots[i].pos, command) else robots[i].pos;
      robots[i := Handle(f, robots[i].(pos := p))]
  }

  /** One turn of a robot, seen from outside: a robot that is done does nothing. Any other keeps its
      task; it is done afterwards exactly when it was loaded and now stands on its dock, and is then
      empty; standing on the cell of its item with nothing loaded, it has its load. */
  ghost predicate TookTurn(f: Floor, before: Robot, after: Robot)
    requires f.Rectangular()
  {
    if before.taskCompleted then after == before
    else
      && after.requiredItem == before.requiredItem && after.destination == before.destination
      && after.requiredPayload == before.requiredPayload
      && (after.taskCompleted <==> Delivers(f, before, after))
      && after.currentPayload == (if Delivers(f, before, after) then 0
                                  else if Fetches(f, before, after) then before.requiredPayload
                                  else before.currentPayload)
  }

  /** Its turn took a loaded robot to its dock, or left it there. */
  ghost predicate Delivers(f: Floor, before: Robot, after: Robot) {
    before.currentPayload > 0 && Dock(f, before.destination, after.pos)
  }

  /** Its turn took an empty robot to the cell of its item, or left it there. */
  ghost predicate Fetches(f: Floor, before: Robot, after: Robot)
    requires f.Rectangular()
  {
    before.currentPayload == 0 && ItemCell(f, before.requiredItem, after.pos)
  }

  /** Commands 1 to 4 lead one cell up, down, left and right. */
  ghost predicate OneCell(from: Pos, command: int, to: Pos) {
    || (command == 1 && to == Pos(from.row - 1, from.col))
    || (command == 2 && to == Pos(from.row + 1, from.col))
    || (command == 3 && to == Pos(from.row, from.col - 1))
    || (command == 4 && to == Pos(from.row, from.col + 1))
  }

  /** What robot_thread does between waking up and posting its next message. */
  method RobotTurn(f: Floor, robots: array<Robot>, i: nat, command: int)
    requires f.Valid() && i < robots.Length
    modifies robots
    ensures robots[..] == Turn(f, old(robots[..]), i, command)
    ensures TookTurn(f, old(robots[i]), robots[i])
    ensures forall j :: 0 <= j < robots.Length && j != i ==> robots[j] == old(robots[j])
    ensures robots[i].pos == old(robots[i].pos) || OneCell(old(robots[i].pos), command, robots[i].pos)
    ensures !old(robots[i].taskCompleted) ==> forall p :: OneCell(old(robots[i].pos), command, p) ==>
              (robots[i].pos == p <==> !View(f, old(robots[..]), i).Blocked(p))
  {
    ItemPositionIsItemCell(f, robots[i].requiredItem);
    var item := GetItemPosition(f, robots[i].requiredItem);
    var dock := DestinationPosition(f, robots[i].destination);
    if robots[i].taskCompleted {
      return;
    }
    if command != 0 {
      var next := Next(robots[i].pos, command);
      var blocked := IsBlockedCell(View(f, robots[..], i), next);
      if !blocked {
        robots[i] := robots[i].(pos := next);
      }
    }
    if robots[i].currentPayload == 0 && robots[i].pos == item {
      robots[i] := robots[i].(currentPayload := robots[i].requiredPayload);
    } else if robots[i].currentPayload > 0 && robots[i].pos == dock {
      robots[i] := robots[i].(currentPayload := 0, taskCompleted := true);
    }
  }

  /** The robots whose numbers are listed take their turns in that order. */
  ghost function Turns(f: Floor, robots: seq<Robot>, commands: seq<int>, order: seq<nat>): (r: seq<Robot>)
    requires f.Valid() && |commands| == |robots|
    requires forall k :: 0 <= k < |order| ==> order[k] < |robots|
    ensures |r| == |robots|
  {
    if order == [] then robots
    else
      var last := |order| - 1;
      Turn(f, Turns(f, robots, commands, order[..last]), order[last], commands[order[last]])
  }

  ghost predicate IsOrder(order: seq<nat>, n: nat) {
    && (forall k :: 0 <= k < |order| ==> order[k] < n)
    && (forall j, k :: 0 <= j < k < |order| ==> order[j] != order[k])
  }

  // ---------------------------------------------------------------------
  // Safety.

  /** Every robot stands on the map, off the walls, on no item cell but its own,
      and alone unless the cell is shared. */
  ghost predicate Safe(f: Floor, robots: seq<Robot>) {
    && OnMap(f, robots)
    && (forall i :: 0 <= i < |robots| ==>
          var c := f.At(robots[i].pos);
          c != 'X' && (IsDigit(c) ==> robots[i].OwnItem(c)))
    && (forall i, j :: 0 <= i < j < |robots| && robots[i].pos == robots[j].pos ==> f.Shared(robots[i].pos))
  }

  lemma TurnKeepsSafe(f: Floor, robots: seq<Robot>, i: nat, command: int)
    requires Safe(f, robots) && i < |robots|
    ensures Safe(f, Turn(f, robots, i, command))
  {
    if Moves(f, robots, i, command) {
      var p := Next(robots[i].pos, command);
      assert Occupied(robots, p) ==> f.Shared(p);
      assert forall j :: 0 <= j < |robots| && robots[j].pos == p ==> Occupied(robots, p);
    }
  }

  /** Commands that never send two robots across a common cell, nor a robot into
      a cell it could not enter when the round was planned. */
  ghost predicate Compatible(f: Floor, robots: seq<Robot>, commands: seq<int>)
    requires OnMap(f, robots)
  {
    && Enterable(f, robots, commands)
    && forall i, j :: 0 <= i < |robots| && 0 <= j < |robots| && i != j && commands[i] != 0 && commands[j] != 0 ==>
         !Conflict(robots, commands, i, j)
  }

  lemma PlansAreCompatible(f: Floor, robots: seq<Robot>, waitSteps: seq<nat>, sacrifice: int, plan: Plan)
    requires OnMap(f, robots) && IsPlan(f, robots, waitSteps, sacrifice, plan)
    ensures |plan.commands| == |robots| && Compatible(f, robots, plan.commands)
  {
    WishesAreEnterable(f, robots, sacrifice, plan.desired);
    if true in plan.batch {
      forall i, j | 0 <= i < |robots| && 0 <= j < |robots| && i != j &&
        plan.commands[i] != 0 && plan.commands[j] != 0
        ensures !Conflict(robots, plan.commands, i, j)
      {
        BatchHasNoConflict(robots, waitSteps, plan.desired, plan.batch, i, j);
      }
    }
  }

  /** Where the robots stand when those in done have taken their turns. */
  ghost predicate Midway(robots: seq<Robot>, commands: seq<int>, done: set<int>, now: seq<Robot>)
    requires |commands| == |robots|
  {
    && |now| == |robots|
    && forall i :: 0 <= i < |robots| ==>
         && (i !in done ==> now[i] == robots[i])
         && now[i].pos == if i in done then Next(robots[i].pos, commands[i]) else robots[i].pos
  }

  /** Nobody else moves to a cell that an accepted move enters. */
  lemma NobodyEnters(f: Floor, robots: seq<Robot>, commands: seq<int>, done: set<int>, now: seq<Robot>, i: nat, j: nat)
    requires OnMap(f, robots) && |commands| == |robots| && Compatible(f, robots, commands)
    requires Midway(robots, commands, done, now) && i < |robots| && i !in done && commands[i] != 0 && j < |robots|
    ensures now[j].pos == Next(robots[i].pos, commands[i]) ==> robots[j].pos == now[j].pos
  {
    if i != j && commands[j] != 0 {
      assert !Conflict(robots, commands, i, j);
    }
  }

  /** However far the others have got, an accepted move is still possible. */
  lemma RecheckPasses(f: Floor, robots: seq<Robot>, commands: seq<int>, done: set<int>, now: seq<Robot>, i: nat)
    requires OnMap(f, robots) && |commands| == |robots| && Compatible(f, robots, commands)
    requires Midway(robots, commands, done, now) && i < |robots| && i !in done && commands[i] != 0
    ensures Moves(f, now, i, commands[i])
  {
    var p := Next(robots[i].pos, commands[i]);
    if Occupied(now, p) {
      var j :| 0 <= j < |now| && now[j].pos == p;
      NobodyEnters(f, robots, commands, done, now, i, j);
      assert Occupied(robots, p);
    }
  }

  /** Any part of a round, in any order: the accepted moves all happen and each
      robot that took its turn stands exactly where it was sent. */
  lemma {:induction false} TurnsGoWhereSent(f: Floor, robots: seq<Robot>, commands: seq<int>, order: seq<nat>)
    requires OnMap(f, robots) && |commands| == |robots| && Compatible(f, robots, commands)
    requires IsOrder(order, |robots|)
    ensures Midway(robots, commands, Elements(order), Turns(f, robots, commands, order))
    decreases |order|
  {
    if order != [] {
      var last := |order| - 1;
      var i := order[last];
      TurnsGoWhereSent(f, robots, commands, order[..last]);
      var now := Turns(f, robots, commands, order[..last]);
      assert Elements(order) == Elements(order[..last]) + {i};
      if commands[i] != 0 {
        RecheckPasses(f, robots, commands, Elements(order[..last]), now, i);
      }
    }
  }

  lemma {:induction false} TurnsKeepSafe(f: Floor, robots: seq<Robot>, commands: seq<int>, order: seq<nat>)
    requires Safe(f, robots) && |commands| == |robots| && IsOrder(order, |robots|)
    ensures Safe(f, Turns(f, robots, commands, order))
    decreases |order|
  {
    if order != [] {
      var last := |order| - 1;
      TurnsKeepSafe(f, robots, commands, order[..last]);
      TurnKeepsSafe(f, Turns(f, robots, commands, order[..last]), order[last], commands[order[last]]);
    }
  }

  /** Two robots never change places, not even on shared cells. */
  lemma NoSwap(f: Floor, robots: seq<Robot>, commands: seq<int>, order: seq<nat>, i: nat, j: nat)
    requires OnMap(f, robots) && |commands| == |robots| && Compatible(f, robots, commands)
    requires IsOrder(order, |robots|) && i < |robots| && j < |robots| && robots[i].pos != robots[j].pos
    ensures var after := Turns(f, robots, commands, order);
      !(after[i].pos == robots[j].pos && after[j].pos == robots[i].pos)
  {
    TurnsGoWhereSent(f, robots, commands, order);
  }

  // ---------------------------------------------------------------------
  // Runs.

  datatype Sim = Sim(robots: seq<Robot>, waitSteps: seq<nat>, sacrifice: int)

  /** All robots start at the waiting place. */
  ghost predicate Start(f: Floor, s: Sim) {
    && f.Valid() && |s.waitSteps| == |s.robots| && s.sacrifice == -1
    && (forall i :: 0 <= i < |s.robots| ==> s.robots[i].pos == f.waiting)
    && (forall i :: 0 <= i < |s.robots| ==> s.waitSteps[i] == 0)
  }

  /** Plan, then any part of the plan in any order. */
  ghost predicate RoundStep(f: Floor, s: Sim, plan: Plan, order: seq<nat>, t: Sim) {
    && OnMap(f, s.robots) && IsPlan(f, s.robots, s.waitSteps, s.sacrifice, plan)
    && |plan.commands| == |s.robots| && IsOrder(order, |s.robots|)
    && t == Sim(Turns(f, s.robots, plan.commands, order), plan.waitSteps, plan.sacrifice)
  }

  datatype Round = Round(plan: Plan, order: seq<nat>)

  ghost predicate StepAt(f: Floor, states: seq<Sim>, rounds: seq<Round>, k: int)
    requires 0 <= k < |rounds| && k + 1 < |states|
  {
    RoundStep(f, states[k], rounds[k].plan, rounds[k].order, states[k + 1])
  }

  ghost predicate Run(f: Floor, states: seq<Sim>, rounds: seq<Round>) {
    && |states| == |rounds| + 1
    && forall k {:trigger StepAt(f, states, rounds, k)} :: 0 <= k < |rounds| ==> StepAt(f, states, rounds, k)
  }

  /** Collision freedom over all runs. */
  lemma {:induction false} RunsAreSafe(f: Floor, states: seq<Sim>, rounds: seq<Round>, k: nat)
    requires Run(f, states, rounds) && k < |states| && Start(f, states[0])
    ensures Safe(f, states[k].robots)
    decreases k
  {
    if k > 0 {
      RunsAreSafe(f, states, rounds, k - 1);
      RoundKeepsSafe(f, states, rounds, k - 1);
    }
  }

  lemma RoundKeepsSafe(f: Floor, states: seq<Sim>, rounds: seq<Round>, k: nat)
    requires Run(f, states, rounds) && k < |rounds| && Safe(f, states[k].robots)
    ensures Safe(f, states[k + 1].robots)
  {
    assert StepAt(f, states, rounds, k);
    TurnsKeepSafe(f, states[k].robots, rounds[k].plan.commands, rounds[k].order);
  }

  /** Collision freedom also while a round is being carried out. */
  lemma RoundsAreSafeInside(f: Floor, states: seq<Sim>, rounds: seq<Round>, k: nat, done: nat)
    requires Run(f, states, rounds) && k < |rounds| && Start(f, states[0]) && done <= |rounds[k].order|
    ensures f.Valid() && |rounds[k].plan.commands| == |states[k].robots|
    ensures IsOrder(rounds[k].order[..done], |states[k].robots|)
    ensures Safe(f, Turns(f, states[k].robots, rounds[k].plan.commands, rounds[k].order[..done]))
  {
    var s, r := states[k], rounds[k];
    assert StepAt(f, states, rounds, k);
    RunsAreSafe(f, states, rounds, k);
    TurnsKeepSafe(f, s.robots, r.plan.commands, r.order[..done]);
  }

  /** In every round of every run the moves carried out are exactly the accepted
      commands of the robots that took their turns. */
  lemma RunsGoWhereSent(f: Floor, states: seq<Sim>, rounds: seq<Round>, k: nat)
    requires Run(f, states, rounds) && k < |rounds|
    ensures |rounds[k].plan.commands| == |states[k].robots|
    ensures Midway(states[k].robots, rounds[k].plan.commands, Elements(rounds[k].order), states[k + 1].robots)
  {
    var s, r := states[k], rounds[k];
    assert StepAt(f, states, rounds, k);
    PlansAreCompatible(f, s.robots, s.waitSteps, s.sacrifice, r.plan);
    TurnsGoWhereSent(f, s.robots, r.plan.commands, r.order);
  }

  /** In no round of any run do two robots change places. */
  lemma RunsNeverSwap(f: Floor, states: seq<Sim>, rounds: seq<Round>, k: nat, i: nat, j: nat)
    requires Run(f, states, rounds) && k < |rounds|
    requires i < |states[k].robots| && j < |states[k].robots| && states[k].robots[i].pos != states[k].robots[j].pos
    ensures |states[k + 1].robots| == |states[k].robots|
    ensures !(states[k + 1].robots[i].pos == states[k].robots[j].pos && states[k + 1].robots[j].pos == states[k].robots[i].pos)
  {
    var s, r := states[k], rounds[k];
    assert StepAt(f, states, rounds, k);
    PlansAreCompatible(f, s.robots, s.waitSteps, s.sacrifice, r.plan);
    NoSwap(f, s.robots, r.plan.commands, r.order, i, j);
  }

  /** The same in cells: on the map, off the walls, on no item cell but the robot's own, and two
      robots in one cell only on A, B, C and W. */
  lemma RunsNeverCollide(f: Floor, states: seq<Sim>, rounds: seq<Round>, k: nat, i: nat, j: nat)
    requires Run(f, states, rounds) && k < |states| && Start(f, states[0])
    requires i < |states[k].robots| && j < |states[k].robots| && i != j
    ensures var p, q := states[k].robots[i].pos, states[k].robots[j].pos;
      && f.Rectangular() && f.InMap(p) && f.At(p) != 'X'
      && ('1' <= f.At(p) <= '9' ==> f.At(p) as int == states[k].robots[i].requiredItem + '0' as int)
      && (p == q ==> f.At(p) in {'A', 'B', 'C', 'W'})
  {
    RunsAreSafe(f, states, rounds, k);
  }

  // ---------------------------------------------------------------------
  // What becomes of the tasks.

  lemma TurnTaken(f: Floor, robots: seq<Robot>, i: nat, command: int)
    requires f.Valid() && i < |robots|
    ensures TookTurn(f, robots[i], Turn(f, robots, i, command)[i])
  {
    ItemPositionIsItemCell(f, robots[i].requiredItem);
  }

  /** In a round a robot takes its one turn or stays as it was, whatever the others do. */
  lemma {:induction false} TurnsTaken(f: Floor, robots: seq<Robot>, commands: seq<int>, order: seq<nat>, i: nat)
    requires f.Valid() && |commands| == |robots| && IsOrder(order, |robots|) && i < |robots|
    ensures var after := Turns(f, robots, commands, order)[i];
      if i in order then TookTurn(f, robots[i], after) else after == robots[i]
    decreases |order|
  {
    if order != [] {
      var last := |order| - 1;
      var mid := Turns(f, robots, commands, order[..last]);
      TurnsTaken(f, robots, commands, order[..last], i);
      assert order == order[..last] + [order[last]];
      if order[last] == i {
        TurnTaken(f, mid, i, commands[i]);
      }
    }
  }

  /** In round m robot i took a turn in which it delivered, or fetched. */
  ghost predicate DeliversIn(f: Floor, states: seq<Sim>, rounds: seq<Round>, i: nat, m: int) {
    && 0 <= m < |rounds| && m + 1 < |states| && i < |states[m].robots| && i < |states[m + 1].robots|
    && i in rounds[m].order && Delivers(f, states[m].robots[i], states[m + 1].robots[i])
  }

  ghost predicate FetchesIn(f: Floor, states: seq<Sim>, rounds: seq<Round>, i: nat, m: int) {
    && 0 <= m < |rounds| && m + 1 < |states| && i < |states[m].robots| && i < |states[m + 1].robots|
    && i in rounds[m].order && f.Rectangular() && Fetches(f, states[m].robots[i], states[m + 1].robots[i])
  }

  ghost predicate Delivered(f: Floor, states: seq<Sim>, rounds: seq<Round>, i: nat, k: nat) {
    exists m :: m < k && DeliversIn(f, states, rounds, i, m)
  }

  ghost predicate Fetched(f: Floor, states: seq<Sim>, rounds: seq<Round>, i: nat, k: nat) {
    exists m :: m < k && FetchesIn(f, states, rounds, i, m)
  }

  /** All robots have their tasks before them. */
  ghost predicate Unstarted(s: Sim) {
    forall i :: 0 <= i < |s.robots| ==> s.robots[i].currentPayload == 0 && !s.robots[i].taskCompleted
  }

  lemma RoundTurns(f: Floor, states: seq<Sim>, rounds: seq<Round>, k: nat, i: nat)
    requires Run(f, states, rounds) && k < |rounds| && i < |states[k].robots|
    ensures f.Valid() && |states[k + 1].robots| == |states[k].robots|
    ensures if i in rounds[k].order then TookTurn(f, states[k].robots[i], states[k + 1].robots[i])
            else states[k + 1].robots[i] == states[k].robots[i]
  {
    assert StepAt(f, states, rounds, k);
    TurnsTaken(f, states[k].robots, rounds[k].plan.commands, rounds[k].order, i);
  }

  lemma HistoryGrows(f: Floor, states: seq<Sim>, rounds: seq<Round>, i: nat, k: nat)
    ensures Delivered(f, states, rounds, i, k + 1) <==>
      Delivered(f, states, rounds, i, k) || DeliversIn(f, states, rounds, i, k)
    ensures Fetched(f, states, rounds, i, k + 1) <==> Fetched(f, states, rounds, i, k) || FetchesIn(f, states, rounds, i, k)
  {
    if m :| m < k && DeliversIn(f, states, rounds, i, m) {
      assert m < k + 1 && DeliversIn(f, states, rounds, i, m);
    }
    if m :| m < k && FetchesIn(f, states, rounds, i, m) {
      assert m < k + 1 && FetchesIn(f, states, rounds, i, m);
    }
  }

  /** Over all runs, a robot is done exactly when some turn before took it loaded to its dock. Until
      then it carries its load exactly when some turn before took it to the cell of its item, and
      nothing otherwise; a robot that is done carries nothing. Its task never changes. */
  lemma {:induction false} TasksOverRuns(f: Floor, states: seq<Sim>, rounds: seq<Round>, k: nat, i: nat)
    requires Run(f, states, rounds) && k < |states| && Unstarted(states[0]) && i < |states[0].robots|
    ensures |states[k].robots| == |states[0].robots|
    ensures var r, r0 := states[k].robots[i], states[0].robots[i];
      && r.requiredItem == r0.requiredItem && r.destination == r0.destination && r.requiredPayload == r0.requiredPayload
      && (r.taskCompleted <==> Delivered(f, states, rounds, i, k))
      && r.currentPayload == (if !r.taskCompleted && Fetched(f, states, rounds, i, k) then r.requiredPayload else 0)
    decreases k
  {
    if k > 0 {
      TasksOverRuns(f, states, rounds, k - 1, i);
      RoundTurns(f, states, rounds, k - 1, i);
      HistoryGrows(f, states, rounds, i, k - 1);
    }
  }

  /** The simulation's end condition holds exactly when every robot has delivered. */
  lemma EndsExactlyWhenDelivered(f: Floor, states: seq<Sim>, rounds: seq<Round>, k: nat)
    requires Run(f, states, rounds) && k < |states| && Unstarted(states[0])
    ensures (forall i :: 0 <= i < |states[k].robots| ==>
               states[k].robots[i].taskCompleted && states[k].robots[i].currentPayload == 0) <==>
            forall i: nat :: i < |states[0].robots| ==> Delivered(f, states, rounds, i, k)
  {
    RobotsStay(f, states, rounds, k);
    forall i: nat | i < |states[0].robots|
      ensures states[k].robots[i].taskCompleted <==> Delivered(f, states, rounds, i, k)
      ensures states[k].robots[i].taskCompleted ==> states[k].robots[i].currentPayload == 0
    {
      TasksOverRuns(f, states, rounds, k, i);
    }
  }

  lemma {:induction false} RobotsStay(f: Floor, states: seq<Sim>, rounds: seq<Round>, k: nat)
    requires Run(f, states, rounds) && k < |states|
    ensures |states[k].robots| == |states[0].robots|
    decreases k
  {
    if k > 0 {
      RobotsStay(f, states, rounds, k - 1);
      CountStays(f, states, rounds, k - 1);
    }
  }

  lemma CountStays(f: Floor, states: seq<Sim>, rounds: seq<Round>, k: nat)
    requires Run(f, states, rounds) && k < |rounds|
    ensures |states[k + 1].robots| == |states[k].robots|
  {
    assert StepAt(f, states, rounds, k);
  }

  // ---------------------------------------------------------------------
  // Bounded waiting.

  /** The longest-waiting robot that wants to move is let through. */
  lemma LongestWaitingIsAccepted(robots: seq<Robot>, waitSteps: seq<nat>, desired: seq<int>, batch: seq<bool>, i: nat)
    requires Batch(robots, waitSteps, desired, batch) && i < |robots| && desired[i] != 0
    requires forall j :: 0 <= j < |robots| && j != i && desired[j] != 0 ==> Ahead(waitSteps, i, j)
    ensures batch[i]
  {
    assert forall j :: 0 <= j < |robots| && batch[j] ==> desired[j] != 0;
  }

  lemma {:induction false} LongestWaiting(waitSteps: seq<nat>, desired: seq<int>, n: nat, r: nat) returns (i: nat)
    requires r < n <= |waitSteps| == |desired| && desired[r] != 0
    ensures i < n && desired[i] != 0
    ensures forall j :: 0 <= j < n && j != i && desired[j] != 0 ==> Ahead(waitSteps, i, j)
    decreases n
  {
    if forall j :: 0 <= j < n - 1 ==> desired[j] == 0 {
      i := n - 1;
    } else {
      var q :| 0 <= q < n - 1 && desired[q] != 0;
      i := LongestWaiting(waitSteps, desired, n - 1, q);
      if desired[n - 1] != 0 && Ahead(waitSteps, n - 1, i) {
        i := n - 1;
      }
    }
  }

  /** The deadlock branch is taken exactly when every robot plans to wait. */
  lemma DeadlockExactlyWhenAllWait(robots: seq<Robot>, waitSteps: seq<nat>, desired: seq<int>, batch: seq<bool>)
    requires Batch(robots, waitSteps, desired, batch)
    ensures true !in batch <==> forall i :: 0 <= i < |desired| ==> desired[i] == 0
  {
    if exists r :: 0 <= r < |desired| && desired[r] != 0 {
      var r :| 0 <= r < |desired| && desired[r] != 0;
      var i := LongestWaiting(waitSteps, desired, |robots|, r);
      LongestWaitingIsAccepted(robots, waitSteps, desired, batch, i);
    }
  }

  // ---------------------------------------------------------------------
  // Progress.

  ghost predicate SomeWish(desired: seq<int>) {
    exists i :: 0 <= i < |desired| && desired[i] != 0
  }

  ghost predicate SomeMayYield(f: Floor, robots: seq<Robot>)
    requires OnMap(f, robots)
  {
    exists i :: MayYield(f, robots, i)
  }

  /** A round tells some robot to move exactly when a robot plans to move or can back away. */
  lemma AcceptsExactlyWhen(f: Floor, robots: seq<Robot>, waitSteps: seq<nat>, sacrifice: int, plan: Plan)
    requires OnMap(f, robots) && IsPlan(f, robots, waitSteps, sacrifice, plan)
    ensures true in plan.accepted <==> SomeWish(plan.desired) || SomeMayYield(f, robots)
  {
    DeadlockExactlyWhenAllWait(robots, waitSteps, plan.desired, plan.batch);
    if true !in plan.batch && SomeMayYield(f, robots) {
      assert plan.accepted[plan.sacrifice];
    }
  }

  /** What a round decides about robot i. A robot that is done, or is backing away, wishes for
      nothing. If any robot wishes to move, the commands are the wishes let through and nobody is
      backing away any more; if none does, the one told to move, if any, is the one that backs away
      from now on. A robot told to move or done starts waiting anew, any other waits one round more. */
  lemma PlanMeans(f: Floor, robots: seq<Robot>, waitSteps: seq<nat>, sacrifice: int, plan: Plan, i: nat)
    requires OnMap(f, robots) && IsPlan(f, robots, waitSteps, sacrifice, plan) && i < |robots|
    ensures |plan.desired| == |plan.batch| == |plan.commands| == |robots|
    ensures robots[i].taskCompleted || i == sacrifice ==> plan.desired[i] == 0
    ensures SomeWish(plan.desired) ==>
      plan.sacrifice == -1 && plan.accepted[i] == plan.batch[i] && plan.commands[i] == if plan.batch[i] then plan.desired[i] else 0
    ensures !SomeWish(plan.desired) ==>
      && (plan.accepted[i] <==> i == plan.sacrifice) && (plan.commands[i] != 0 <==> i == plan.sacrifice)
      && (plan.sacrifice == -1 <==> forall j :: !CanBackAway(f, robots, j))
    ensures plan.waitSteps[i] == if robots[i].taskCompleted || plan.accepted[i] then 0 else waitSteps[i] + 1
  {
    DeadlockExactlyWhenAllWait(robots, waitSteps, plan.desired, plan.batch);
    if true !in plan.batch {
      VictimMeans(f, robots, waitSteps, sacrifice, plan.sacrifice,
                  if 0 <= plan.sacrifice < |robots| then plan.commands[plan.sacrifice] else 0);
    }
  }

  lemma WishIsCommand(f: Floor, robots: seq<Robot>, sacrifice: int, desired: seq<int>, i: nat)
    requires OnMap(f, robots) && Wishes(f, robots, sacrifice, desired) && i < |robots|
    ensures 0 <= desired[i] <= 4
  {
    if !robots[i].taskCompleted && i != sacrifice {
      CommandEntersOpenCell(View(f, robots, i), Target(f, robots[i]), desired[i]);
    }
  }

  lemma BatchLeaves(robots: seq<Robot>, waitSteps: seq<nat>, plan: Plan, i: nat)
    requires Batch(robots, waitSteps, plan.desired, plan.batch) && i < |robots| && 0 <= plan.desired[i] <= 4
    requires Issued(robots, plan.desired, plan.batch, plan.commands)
    ensures plan.batch[i] <==> Next(robots[i].pos, plan.commands[i]) != robots[i].pos
  {
  }

  lemma VictimLeaves(f: Floor, robots: seq<Robot>, waitSteps: seq<nat>, sacrifice: int, victim: int, d: int)
    requires OnMap(f, robots) && |waitSteps| == |robots| && Victim(f, robots, waitSteps, sacrifice, victim, d)
    ensures victim != -1 ==> 1 <= d <= 4
  {
  }

  lemma YieldLeaves(f: Floor, robots: seq<Robot>, waitSteps: seq<nat>, sacrifice: int, plan: Plan, i: nat)
    requires OnMap(f, robots) && |waitSteps| == |robots| && Yields(f, robots, waitSteps, sacrifice, plan) && i < |robots|
    ensures plan.accepted[i] <==> Next(robots[i].pos, plan.commands[i]) != robots[i].pos
  {
    VictimLeaves(f, robots, waitSteps, sacrifice, plan.sacrifice,
                 if 0 <= plan.sacrifice < |robots| then plan.commands[plan.sacrifice] else 0);
  }

  /** Told to move is told to leave the cell. */
  lemma AcceptedLeave(f: Floor, robots: seq<Robot>, waitSteps: seq<nat>, sacrifice: int, plan: Plan, i: nat)
    requires OnMap(f, robots) && IsPlan(f, robots, waitSteps, sacrifice, plan) && i < |robots|
    requires |plan.commands| == |robots|
    ensures plan.accepted[i] <==> Next(robots[i].pos, plan.commands[i]) != robots[i].pos
  {
    if true in plan.batch {
      WishIsCommand(f, robots, sacrifice, plan.desired, i);
      BatchLeaves(robots, waitSteps, plan, i);
    } else {
      YieldLeaves(f, robots, waitSteps, sacrifice, plan, i);
    }
  }

  ghost predicate Moved(robots: seq<Robot>, after: seq<Robot>, i: int) {
    0 <= i < |robots| == |after| && after[i].pos != robots[i].pos
  }

  ghost predicate SomeMoved(robots: seq<Robot>, after: seq<Robot>) {
    exists i :: Moved(robots, after, i)
  }

  /** A robot that takes its turn leaves its cell exactly when it was told to move. */
  lemma TurnMoves(f: Floor, states: seq<Sim>, rounds: seq<Round>, k: nat, i: int)
    requires Run(f, states, rounds) && k < |rounds| && 0 <= i < |states[k].robots| && i in rounds[k].order
    ensures |rounds[k].plan.accepted| == |states[k].robots|
    ensures rounds[k].plan.accepted[i] <==> Moved(states[k].robots, states[k + 1].robots, i)
  {
    var s, r := states[k], rounds[k];
    assert StepAt(f, states, rounds, k);
    RunsGoWhereSent(f, states, rounds, k);
    assert i in Elements(r.order);
    AcceptedLeave(f, s.robots, s.waitSteps, s.sacrifice, r.plan, i);
  }

  /** Progress over all runs: once every robot has taken its turn, some robot stands elsewhere
      exactly when one planned to move or could back away. */
  lemma RunsMoveExactlyWhen(f: Floor, states: seq<Sim>, rounds: seq<Round>, k: nat)
    requires Run(f, states, rounds) && k < |rounds|
    requires forall i :: 0 <= i < |states[k].robots| ==> i in rounds[k].order
    ensures OnMap(f, states[k].robots)
    ensures SomeMoved(states[k].robots, states[k + 1].robots) <==>
            SomeWish(rounds[k].plan.desired) || SomeMayYield(f, states[k].robots)
  {
    var s, accepted, t := states[k], rounds[k].plan.accepted, states[k + 1];
    assert StepAt(f, states, rounds, k);
    AcceptsExactlyWhen(f, s.robots, s.waitSteps, s.sacrifice, rounds[k].plan);
    if true in accepted {
      var i :| 0 <= i < |accepted| && accepted[i];
      TurnMoves(f, states, rounds, k, i);
    }
    if i :| Moved(s.robots, t.robots, i) {
      TurnMoves(f, states, rounds, k, i);
    }
  }

  /** In a round that takes the wait counters from w to v, r is passed over for
      i, which is ahead of r and drops behind it. */
  ghost predicate Overtakes(w: seq<nat>, v: seq<nat>, r: nat, i: int) {
    && |w| == |v| && r < |w| && 0 <= i < |w| && i != r && Ahead(w, i, r)
    && v[i] == 0 && v[r] == w[r] + 1
    && forall j :: 0 <= j < |w| ==> v[j] <= w[j] + 1
  }

  lemma PassedOverFor(f: Floor, s: Sim, plan: Plan, order: seq<nat>, t: Sim, r: nat) returns (i: nat)
    requires RoundStep(f, s, plan, order, t)
    requires r < |s.robots| && plan.desired[r] != 0 && !plan.accepted[r]
    ensures Overtakes(s.waitSteps, t.waitSteps, r, i)
  {
    i := LongestWaiting(s.waitSteps, plan.desired, |s.robots|, r);
    LongestWaitingIsAccepted(s.robots, s.waitSteps, plan.desired, plan.batch, i);
  }

  /** Once behind r, behind r for as long as r is passed over. */
  lemma {:induction false} StaysBehind(waits: seq<seq<nat>>, leaders: seq<int>, r: nat, a: nat, b: nat)
    requires |waits| == |leaders| + 1 && a < b <= |leaders|
    requires forall m :: 0 <= m < |leaders| ==> Overtakes(waits[m], waits[m + 1], r, leaders[m])
    ensures 0 <= leaders[a] < |waits[b]| && r < |waits[b]| && waits[b][leaders[a]] < waits[b][r]
    decreases b
  {
    assert Overtakes(waits[b - 1], waits[b - 1 + 1], r, leaders[b - 1]);
    if b > a + 1 {
      StaysBehind(waits, leaders, r, a, b - 1);
    }
  }

  /** Each round that passes r over uses up another robot. */
  lemma LeadersAreDistinct(waits: seq<seq<nat>>, leaders: seq<int>, r: nat)
    requires |waits| == |leaders| + 1
    requires forall m :: 0 <= m < |leaders| ==> Overtakes(waits[m], waits[m + 1], r, leaders[m])
    ensures forall a, b :: 0 <= a < b < |leaders| ==> leaders[a] != leaders[b]
    ensures forall a :: 0 <= a < |leaders| ==> 0 <= leaders[a] < |waits[0]| && leaders[a] != r
    ensures forall a :: 0 <= a < |waits| ==> |waits[a]| == |waits[0]|
  {
    forall a, b | 0 <= a < b < |leaders| ensures leaders[a] != leaders[b] {
      StaysBehind(waits, leaders, r, a, b);
      assert Overtakes(waits[b], waits[b + 1], r, leaders[b]);
    }
    SameLengths(waits, leaders, r, |leaders|);
    forall a | 0 <= a < |leaders| ensures 0 <= leaders[a] < |waits[0]| && leaders[a] != r {
      assert Overtakes(waits[a], waits[a + 1], r, leaders[a]);
    }
  }

  lemma {:induction false} SameLengths(waits: seq<seq<nat>>, leaders: seq<int>, r: nat, k: nat)
    requires |waits| == |leaders| + 1 && k < |waits|
    requires forall m :: 0 <= m < |leaders| ==> Overtakes(waits[m], waits[m + 1], r, leaders[m])
    ensures forall a :: 0 <= a <= k ==> |waits[a]| == |waits[0]|
    decreases k
  {
    if k > 0 {
      SameLengths(waits, leaders, r, k - 1);
      assert Overtakes(waits[k - 1], waits[k - 1 + 1], r, leaders[k - 1]);
    }
  }

  /** r wants to move in all rounds of the run and is accepted in none. */
  ghost predicate PassedOver(states: seq<Sim>, rounds: seq<Round>, r: nat) {
    && |states| == |rounds| + 1
    && forall m :: 0 <= m < |rounds| ==>
         && r < |rounds[m].plan.desired| && r < |rounds[m].plan.accepted|
         && rounds[m].plan.desired[r] != 0 && !rounds[m].plan.accepted[r]
  }

  lemma LeaderOf(f: Floor, states: seq<Sim>, rounds: seq<Round>, r: nat, m: nat) returns (i: nat)
    requires Run(f, states, rounds) && PassedOver(states, rounds, r) && m < |rounds|
    ensures Overtakes(states[m].waitSteps, states[m + 1].waitSteps, r, i)
  {
    assert StepAt(f, states, rounds, m);
    i := PassedOverFor(f, states[m], rounds[m].plan, rounds[m].order, states[m + 1], r);
  }

  ghost predicate Overtaken(w: seq<nat>, v: seq<nat>, r: nat) {
    exists i :: Overtakes(w, v, r, i)
  }

  lemma {:induction false} CollectLeaders(waits: seq<seq<nat>>, r: nat, k: nat) returns (leaders: seq<int>)
    requires k < |waits| && forall m :: 0 <= m < k ==> Overtaken(waits[m], waits[m + 1], r)
    ensures |leaders| == k
    ensures forall m :: 0 <= m < k ==> Overtakes(waits[m], waits[m + 1], r, leaders[m])
    decreases k
  {
    if k == 0 {
      leaders := [];
    } else {
      leaders := CollectLeaders(waits, r, k - 1);
      assert Overtaken(waits[k - 1], waits[k - 1 + 1], r);
      var i :| Overtakes(waits[k - 1], waits[k - 1 + 1], r, i);
      leaders := leaders + [i];
    }
  }

  /** Among n robots, at most n - 1 rounds in a row pass over one that wants to
      move. */
  lemma PassedOverFewTimes(f: Floor, states: seq<Sim>, rounds: seq<Round>, r: nat)
    requires Run(f, states, rounds) && PassedOver(states, rounds, r) && |rounds| > 0
    ensures |rounds| < |states[0].waitSteps|
  {
    var waits := seq(|states|, m requires 0 <= m < |states| => states[m].waitSteps);
    forall m | 0 <= m < |rounds| ensures Overtaken(waits[m], waits[m + 1], r) {
      var i := LeaderOf(f, states, rounds, r, m);
      assert Overtakes(waits[m], waits[m + 1], r, i);
    }
    var leaders := CollectLeaders(waits, r, |rounds|);
    LeadersAreDistinct(waits, leaders, r);
    assert Overtakes(waits[0], waits[0 + 1], r, leaders[0]);
    DistinctBelow(leaders + [r], |waits[0]|);
  }

  lemma RunPart(f: Floor, states: seq<Sim>, rounds: seq<Round>, from: nat, n: nat)
    requires Run(f, states, rounds) && from + n <= |rounds|
    ensures Run(f, states[from..from + n + 1], rounds[from..from + n])
  {
    var ss, rs := states[from..from + n + 1], rounds[from..from + n];
    forall k | 0 <= k < n ensures StepAt(f, ss, rs, k) {
      assert StepAt(f, states, rounds, from + k);
    }
  }

  lemma PassedOverPart(states: seq<Sim>, rounds: seq<Round>, r: nat, from: nat, n: nat)
    requires |states| == |rounds| + 1 && from + n <= |rounds|
    requires forall m :: from <= m < from + n ==>
      && r < |rounds[m].plan.desired| && r < |rounds[m].plan.accepted|
      && rounds[m].plan.desired[r] != 0 && !rounds[m].plan.accepted[r]
    ensures PassedOver(states[from..from + n + 1], rounds[from..from + n], r)
  {
  }

  /** Bounded waiting: one of n robots, wanting to move in n consecutive rounds
      of any run, is accepted in one of them. */
  lemma BoundedWaiting(f: Floor, states: seq<Sim>, rounds: seq<Round>, r: nat, from: nat)
    requires Run(f, states, rounds) && from < |rounds| && from + |states[from].robots| <= |rounds|
    requires r < |states[from].robots|
    requires forall m :: from <= m < from + |states[from].robots| ==>
      r < |rounds[m].plan.desired| && r < |rounds[m].plan.accepted| && rounds[m].plan.desired[r] != 0
    ensures exists m :: from <= m < from + |states[from].robots| && rounds[m].plan.accepted[r]
  {
    var n := |states[from].robots|;
    assert StepAt(f, states, rounds, from);
    if forall m :: from <= m < from + n ==> !rounds[m].plan.accepted[r] {
      RunPart(f, states, rounds, from, n);
      PassedOverPart(states, rounds, r, from, n);
      PassedOverFewTimes(f, states[from..from + n + 1], rounds[from..from + n], r);
    }
  }
}
