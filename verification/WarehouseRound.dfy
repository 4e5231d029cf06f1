/** One round of the warehouse: central control plans a batch of moves, then the
    robots carry out any part of it in any order; and whole runs of rounds. */
module WarehouseRound {
  import opened Ranges
  import opened Warehouse
  import opened WarehousePath

  // ---------------------------------------------------------------------
  // Backing away from a deadlock.

  /** A move that is possible and does not bring the robot nearer its target. */
  predicate Escape(v: View, target: Pos, d: int)
    requires v.Valid()
  {
    1 <= d <= 4 && !v.Blocked(Next(v.Here(), d)) &&
    Distance(Next(v.Here(), d), target) >= Distance(v.Here(), target)
  }

  function Score(v: View, target: Pos, d: int): int
    requires v.Valid() && Escape(v, target, d)
  {
    var p := Next(v.Here(), d);
    (Distance(p, target) - Distance(v.Here(), target)) * 100 +
    (if v.floor.Shared(p) then 100 else if v.floor.At(p) == 'S' then 20 else if v.floor.At(p) == ' ' then 10 else 0)
  }

  ghost predicate CanEscape(v: View, target: Pos)
    requires v.Valid()
  {
    exists d :: Escape(v, target, d)
  }

  /** The best-scoring escape, the lowest-numbered one among equals; 0 if none. */
  ghost predicate BestEscape(v: View, target: Pos, d: int)
    requires v.Valid()
  {
    if CanEscape(v, target) then
      Escape(v, target, d) &&
      forall e :: Escape(v, target, e) ==>
        Score(v, target, e) < Score(v, target, d) || (Score(v, target, e) == Score(v, target, d) && d <= e)
    else d == 0
  }

  /** A robot backs away to a shared place rather than to the entry, there rather than to a plain
      cell, and there rather than to any other. */
  predicate Preferred(c: char, d: char) {
    || (c in {'A', 'B', 'C', 'W'} && d !in {'A', 'B', 'C', 'W'})
    || (c == 'S' && d !in {'A', 'B', 'C', 'W', 'S'})
    || (c == ' ' && d !in {'A', 'B', 'C', 'W', 'S', ' '})
  }

  /** A move changes the distance to any cell by exactly one. */
  lemma MoveChangesDistance(p: Pos, target: Pos, d: int)
    requires 1 <= d <= 4
    ensures Abs(Distance(Next(p, d), target) - Distance(p, target)) == 1
  {
  }

  /** So the best way out leads one farther from the target, to the most preferred kind of cell
      that can be entered so, and no lower-numbered move leads to one of the same kind. */
  lemma EscapeMeans(v: View, target: Pos, d: int)
    requires v.Valid() && BestEscape(v, target, d)
    ensures d == 0 <==> forall e :: 1 <= e <= 4 && !v.Blocked(Next(v.Here(), e)) ==>
      Distance(Next(v.Here(), e), target) < Distance(v.Here(), target)
    ensures d != 0 ==> 1 <= d <= 4 && !v.Blocked(Next(v.Here(), d)) &&
                       Distance(Next(v.Here(), d), target) == Distance(v.Here(), target) + 1
    ensures d != 0 ==> forall e :: 1 <= e <= 4 && e != d && !v.Blocked(Next(v.Here(), e)) &&
                                   Distance(Next(v.Here(), e), target) == Distance(v.Here(), target) + 1 ==>
      var here, there := v.floor.At(Next(v.Here(), d)), v.floor.At(Next(v.Here(), e));
      Preferred(here, there) || (!Preferred(there, here) && d < e)
  {
    forall e | 1 <= e <= 4 ensures Escape(v, target, e) <==>
      !v.Blocked(Next(v.Here(), e)) && Distance(Next(v.Here(), e), target) == Distance(v.Here(), target) + 1
    {
      MoveChangesDistance(v.Here(), target, e);
    }
  }

  /** get_escape_direction. */
  method GetEscapeDirection(v: View, target: Pos) returns (best: int)
    requires v.Valid()
    ensures BestEscape(v, target, best)
  {
    best := 0;
    var bestScore := -1000000;
    for d := 1 to 5
      invariant best == 0 ==> bestScore == -1000000 && forall e :: 1 <= e < d ==> !Escape(v, target, e)
      invariant best != 0 ==> best < d && Escape(v, target, best) && bestScore == Score(v, target, best)
      invariant best != 0 ==> forall e :: 1 <= e < d && Escape(v, target, e) ==>
        Score(v, target, e) < bestScore || (Score(v, target, e) == bestScore && best <= e)
    {
      var p := Next(v.Here(), d);
      var blocked := IsBlockedCell(v, p);
      if !blocked && Distance(p, target) >= Distance(v.Here(), target) {
        var score := (Distance(p, target) - Distance(v.Here(), target)) * 100;
        if v.floor.Shared(p) {
          score := score + 100;
        } else if v.floor.At(p) == 'S' {
          score := score + 20;
        } else if v.floor.At(p) == ' ' {
          score := score + 10;
        }
        if score > bestScore {
          bestScore := score;
          best := d;
        }
      }
    }
  }

  // ---------------------------------------------------------------------
  // What central control decides in one round.

  ghost predicate OnMap(f: Floor, robots: seq<Robot>) {
    f.Valid() && forall i :: 0 <= i < |robots| ==> f.InMap(robots[i].pos)
  }

  /** i waits longer than j, or as long and has the lower number. */
  predicate Ahead(waitSteps: seq<nat>, i: int, j: int)
    requires 0 <= i < |waitSteps| && 0 <= j < |waitSteps|
  {
    waitSteps[i] > waitSteps[j] || (waitSteps[i] == waitSteps[j] && i < j)
  }

  /** The moves of i and j touch a common cell. */
  predicate Conflict(robots: seq<Robot>, commands: seq<int>, i: int, j: int)
    requires |commands| == |robots| && 0 <= i < |robots| && 0 <= j < |robots|
  {
    var curI, curJ := robots[i].pos, robots[j].pos;
    var nextI, nextJ := Next(curI, commands[i]), Next(curJ, commands[j]);
    curI == curJ || curI == nextJ || nextI == curJ || nextI == nextJ
  }

  /** What each robot would like to do: nothing once its task is done or while
      it is the sacrificed robot, otherwise the planner's command. */
  ghost predicate Wishes(f: Floor, robots: seq<Robot>, sacrifice: int, desired: seq<int>)
    requires OnMap(f, robots)
  {
    |desired| == |robots| &&
    forall i :: 0 <= i < |robots| ==>
      if robots[i].taskCompleted || i == sacrifice then desired[i] == 0
      else NextCommand(View(f, robots, i), Target(f, robots[i]), desired[i])
  }

  /** The batch is settled in order of waiting: a robot that wants to move is
      let through exactly when its move touches no move let through before it. */
  ghost predicate Batch(robots: seq<Robot>, waitSteps: seq<nat>, desired: seq<int>, batch: seq<bool>) {
    && |waitSteps| == |robots| && |desired| == |robots| && |batch| == |robots|
    && forall i :: 0 <= i < |robots| ==>
         (batch[i] <==> desired[i] != 0 && forall j ::
            0 <= j < |robots| && batch[j] && Ahead(waitSteps, j, i) ==> !Conflict(robots, desired, i, j))
  }

  ghost predicate MayYield(f: Floor, robots: seq<Robot>, i: int)
    requires OnMap(f, robots)
  {
    0 <= i < |robots| && !robots[i].taskCompleted &&
    CanEscape(View(f, robots, i), Target(f, robots[i]))
  }

  /** The robot chosen to back away: the one already backing away if it still
      can, otherwise the longest-waiting robot that can; none if no robot can. */
  ghost predicate Victim(f: Floor, robots: seq<Robot>, waitSteps: seq<nat>, sacrifice: int, victim: int, d: int)
    requires OnMap(f, robots) && |waitSteps| == |robots|
  {
    if exists i :: MayYield(f, robots, i) then
      && MayYield(f, robots, victim)
      && BestEscape(View(f, robots, victim), Target(f, robots[victim]), d)
      && (if MayYield(f, robots, sacrifice) then victim == sacrifice
          else forall j :: MayYield(f, robots, j) ==> j == victim || Ahead(waitSteps, victim, j))
    else victim == -1 && d == 0
  }

  /** The outcome of one round of planning: what was wished for, the batch let
      through, the robots finally told to move, their commands, and the wait
      counters and sacrificed robot carried to the next round. */
  datatype Plan = Plan(desired: seq<int>, batch: seq<bool>, accepted: seq<bool>, commands: seq<int>,
                       waitSteps: seq<nat>, sacrifice: int)

  ghost predicate Issued(robots: seq<Robot>, desired: seq<int>, accepted: seq<bool>, commands: seq<int>)
  {
    && |desired| == |accepted| == |commands| == |robots|
    && forall i :: 0 <= i < |robots| ==> commands[i] == if accepted[i] then desired[i] else 0
  }

  /** Only the victim is told to move. */
  ghost predicate Yields(f: Floor, robots: seq<Robot>, waitSteps: seq<nat>, sacrifice: int, plan: Plan)
    requires OnMap(f, robots) && |waitSteps| == |robots|
  {
    && |plan.accepted| == |plan.commands| == |robots|
    && Victim(f, robots, waitSteps, sacrifice, plan.sacrifice,
              if 0 <= plan.sacrifice < |robots| then plan.commands[plan.sacrifice] else 0)
    && forall i :: 0 <= i < |robots| ==>
         && plan.accepted[i] == (i == plan.sacrifice)
         && (i != plan.sacrifice ==> plan.commands[i] == 0)
  }

  ghost predicate IsPlan(f: Floor, robots: seq<Robot>, waitSteps: seq<nat>, sacrifice: int, plan: Plan)
    requires OnMap(f, robots)
  {
    && |waitSteps| == |plan.accepted| == |plan.waitSteps| == |robots|
    && Wishes(f, robots, sacrifice, plan.desired)
    && Batch(robots, waitSteps, plan.desired, plan.batch)
    && (if true in plan.batch then
          Issued(robots, plan.desired, plan.batch, plan.commands) &&
          plan.accepted == plan.batch && plan.sacrifice == -1
        else
          Yields(f, robots, waitSteps, sacrifice, plan))
    && forall i :: 0 <= i < |robots| ==>
         plan.waitSteps[i] == if robots[i].taskCompleted || plan.accepted[i] then 0 else waitSteps[i] + 1
  }

  // ---------------------------------------------------------------------
  // What a plan means, in cells and counters.

  /** The cells a robot's move touches. */
  ghost function Touched(robots: seq<Robot>, desired: seq<int>, i: int): set<Pos>
    requires 0 <= i < |robots| == |desired|
  {
    {robots[i].pos, Next(robots[i].pos, desired[i])}
  }

  /** A robot is let through exactly when it wants to move and its move touches no cell touched by
      a robot let through that has waited longer, or as long and has a lower number. */
  lemma BatchMeans(robots: seq<Robot>, waitSteps: seq<nat>, desired: seq<int>, batch: seq<bool>, i: nat)
    requires Batch(robots, waitSteps, desired, batch) && i < |robots|
    ensures batch[i] <==> desired[i] != 0 && forall j ::
      0 <= j < |robots| && batch[j] && (waitSteps[i] < waitSteps[j] || (waitSteps[i] == waitSteps[j] && j < i)) ==>
        Touched(robots, desired, i) !! Touched(robots, desired, j)
    ensures forall j :: 0 <= j < |robots| && j != i && batch[i] && batch[j] ==>
      Touched(robots, desired, i) !! Touched(robots, desired, j)
  {
    forall j | 0 <= j < |robots| && j != i
      ensures Conflict(robots, desired, i, j) <==> !(Touched(robots, desired, i) !! Touched(robots, desired, j))
    {
      ConflictMeans(robots, desired, i, j);
    }
    forall j | 0 <= j < |robots| && j != i && batch[i] && batch[j] ensures !Conflict(robots, desired, i, j) {
      BatchHasNoConflict(robots, waitSteps, desired, batch, i, j);
    }
  }

  lemma ConflictMeans(robots: seq<Robot>, desired: seq<int>, i: nat, j: nat)
    requires |desired| == |robots| && i < |robots| && j < |robots|
    ensures Conflict(robots, desired, i, j) <==> !(Touched(robots, desired, i) !! Touched(robots, desired, j))
  {
    var a, b := Touched(robots, desired, i), Touched(robots, desired, j);
    if Conflict(robots, desired, i, j) {
      assert robots[i].pos in b || Next(robots[i].pos, desired[i]) in b;
    }
  }

  lemma BatchHasNoConflict(robots: seq<Robot>, waitSteps: seq<nat>, desired: seq<int>, batch: seq<bool>, i: nat, j: nat)
    requires Batch(robots, waitSteps, desired, batch)
    requires i < |robots| && j < |robots| && i != j && batch[i] && batch[j]
    ensures !Conflict(robots, desired, i, j)
  {
    assert Ahead(waitSteps, i, j) || Ahead(waitSteps, j, i);
    assert Conflict(robots, desired, i, j) == Conflict(robots, desired, j, i);
  }

  /** A robot that is not done and has an unblocked neighbour cell one farther from its target. */
  ghost predicate CanBackAway(f: Floor, robots: seq<Robot>, i: int)
    requires OnMap(f, robots)
  {
    0 <= i < |robots| && !robots[i].taskCompleted &&
    exists d :: 1 <= d <= 4 && !View(f, robots, i).Blocked(Next(robots[i].pos, d)) &&
      Distance(Next(robots[i].pos, d), Target(f, robots[i])) == Distance(robots[i].pos, Target(f, robots[i])) + 1
  }

  lemma MayYieldMeans(f: Floor, robots: seq<Robot>, i: int)
    requires OnMap(f, robots)
    ensures MayYield(f, robots, i) <==> CanBackAway(f, robots, i)
  {
    if 0 <= i < |robots| {
      var v, target := View(f, robots, i), Target(f, robots[i]);
      forall d | 1 <= d <= 4
        ensures Escape(v, target, d) <==>
          !v.Blocked(Next(robots[i].pos, d)) && Distance(Next(robots[i].pos, d), target) == Distance(robots[i].pos, target) + 1
      {
        MoveChangesDistance(robots[i].pos, target, d);
      }
      if MayYield(f, robots, i) {
        var d :| Escape(v, target, d);
        assert !v.Blocked(Next(robots[i].pos, d));
      }
    }
  }

  /** The robot that backs away: the one that did last, if it still can, else the one that has
      waited longest of those that can, lowest number first. */
  lemma VictimMeans(f: Floor, robots: seq<Robot>, waitSteps: seq<nat>, sacrifice: int, victim: int, d: int)
    requires OnMap(f, robots) && |waitSteps| == |robots| && Victim(f, robots, waitSteps, sacrifice, victim, d)
    ensures victim == -1 <==> forall i :: !CanBackAway(f, robots, i)
    ensures victim != -1 ==> CanBackAway(f, robots, victim) && d != 0
    ensures CanBackAway(f, robots, sacrifice) ==> victim == sacrifice
    ensures victim != -1 && victim != sacrifice ==> forall j :: CanBackAway(f, robots, j) ==>
      waitSteps[j] < waitSteps[victim] || (waitSteps[j] == waitSteps[victim] && victim <= j)
  {
    forall i ensures MayYield(f, robots, i) <==> CanBackAway(f, robots, i) {
      MayYieldMeans(f, robots, i);
    }
  }

  /** The wish of a robot that is not done and not backing away leads along a shortest walk over
      cells it may enter: to the first cell of its item while it carries nothing, to its dock
      afterwards, wherever these can be reached. */
  lemma WishLeads(f: Floor, robots: seq<Robot>, sacrifice: int, desired: seq<int>, i: nat, g: Pos)
    requires OnMap(f, robots) && Wishes(f, robots, sacrifice, desired) && i < |robots|
    requires !robots[i].taskCompleted && i != sacrifice && Reachable(View(f, robots, i).Open(), robots[i].pos, g)
    requires robots[i].currentPayload == 0 ==> ItemCell(f, robots[i].requiredItem, g)
    requires robots[i].currentPayload != 0 ==> Dock(f, robots[i].destination, g)
    ensures if robots[i].pos == g then desired[i] == 0
            else 1 <= desired[i] <= 4 && exists w :: ShortestWalk(View(f, robots, i).Open(), robots[i].pos, w, g) &&
                                                     |w| > 1 && w[1] == Next(robots[i].pos, desired[i])
  {
    TargetMeans(f, robots[i]);
    ItemPositionIsItemCell(f, robots[i].requiredItem);
    CommandEntersOpenCell(View(f, robots, i), Target(f, robots[i]), desired[i]);
  }

  /** Robots that are done, and the one backing away, wish for nothing. */
  lemma NoWish(f: Floor, robots: seq<Robot>, sacrifice: int, desired: seq<int>, i: nat)
    requires OnMap(f, robots) && Wishes(f, robots, sacrifice, desired) && i < |robots|
    requires robots[i].taskCompleted || i == sacrifice
    ensures desired[i] == 0
  {
  }

  // ---------------------------------------------------------------------
  // The planning loops of central_control_thread.

  /** A cell that a planned move enters holds no waiting robot unless shared. */
  ghost predicate Enterable(f: Floor, robots: seq<Robot>, desired: seq<int>)
    requires OnMap(f, robots)
  {
    |desired| == |robots| &&
    forall i :: 0 <= i < |robots| && desired[i] != 0 ==>
      !robots[i].taskCompleted && !View(f, robots, i).Blocked(Next(robots[i].pos, desired[i]))
  }

  lemma WishesAreEnterable(f: Floor, robots: seq<Robot>, sacrifice: int, desired: seq<int>)
    requires OnMap(f, robots) && Wishes(f, robots, sacrifice, desired)
    ensures Enterable(f, robots, desired)
  {
    forall i | 0 <= i < |robots| && desired[i] != 0
      ensures !View(f, robots, i).Blocked(Next(robots[i].pos, desired[i]))
    {
      CommandEntersOpenCell(View(f, robots, i), Target(f, robots[i]), desired[i]);
    }
  }

  /** can_accept_batch_move. The test against robots not let through never
      fails for a planned move. */
  method CanAcceptBatchMove(f: Floor, robots: seq<Robot>, desired: seq<int>, accepted: array<bool>, i: nat)
    returns (ok: bool)
    requires OnMap(f, robots) && Enterable(f, robots, desired)
    requires accepted.Length == |robots| && i < |robots| && desired[i] != 0
    ensures ok == forall j :: 0 <= j < |robots| && j != i && accepted[j] ==> !Conflict(robots, desired, i, j)
  {
    var curI, nextI := robots[i].pos, Next(robots[i].pos, desired[i]);
    for j := 0 to |robots|
      invariant forall k :: 0 <= k < j && k != i && accepted[k] ==> !Conflict(robots, desired, i, k)
    {
      if j == i {
        continue;
      }
      var curJ, nextJ := robots[j].pos, Next(robots[j].pos, desired[j]);
      if accepted[j] {
        if curI == curJ { return false; }
        if curI == nextJ { return false; }
        if nextI == curJ { return false; }
        if nextI == nextJ { return false; }
      } else {
        if !f.Shared(nextI) && nextI == curJ {
          assert Occupied(robots, nextI);
          return false;
        }
      }
    }
    return true;
  }

  /** The inner scan for the next robot to consider; -1 when none is left. */
  method PickLongest(robots: seq<Robot>, waitSteps: seq<nat>, considered: array<bool>) returns (best: int)
    requires |waitSteps| == |robots| == considered.Length
    ensures -1 <= best < |robots|
    ensures best == -1 ==> forall i :: 0 <= i < |robots| ==> considered[i] || robots[i].taskCompleted
    ensures best != -1 ==> !considered[best] && !robots[best].taskCompleted
    ensures best != -1 ==> forall i ::
      0 <= i < |robots| && !considered[i] && !robots[i].taskCompleted && i != best ==> Ahead(waitSteps, best, i)
    ensures best != -1 ==> forall i :: 0 <= i < |robots| && !considered[i] && !robots[i].taskCompleted ==>
      waitSteps[i] < waitSteps[best] || (waitSteps[i] == waitSteps[best] && best <= i)
  {
    best := -1;
    var bestWait: int := -1;
    for i := 0 to |robots|
      invariant -1 <= best < i
      invariant best == -1 ==> forall k :: 0 <= k < i ==> considered[k] || robots[k].taskCompleted
      invariant best != -1 ==> !considered[best] && !robots[best].taskCompleted && bestWait == waitSteps[best]
      invariant best != -1 ==> forall k ::
        0 <= k < i && !considered[k] && !robots[k].taskCompleted && k != best ==> Ahead(waitSteps, best, k)
    {
      if considered[i] || robots[i].taskCompleted {
        continue;
      }
      if best == -1 || waitSteps[i] > bestWait {
        best := i;
        bestWait := waitSteps[i];
      }
    }
  }

  /** The robots considered so far are the longest-waiting ones, and the choice
      among them is final. */
  ghost predicate SettledSoFar(robots: seq<Robot>, waitSteps: seq<nat>, desired: seq<int>,
                               considered: seq<bool>, accepted: seq<bool>)
  {
    && |waitSteps| == |desired| == |considered| == |accepted| == |robots|
    && (forall i, j :: 0 <= i < |robots| && 0 <= j < |robots| && considered[i] && !considered[j] ==>
          robots[j].taskCompleted || Ahead(waitSteps, i, j))
    && (forall i :: 0 <= i < |robots| && accepted[i] ==> considered[i])
    && (forall i :: 0 <= i < |robots| && considered[i] ==>
          (accepted[i] <==> desired[i] != 0 && forall j ::
             0 <= j < |robots| && accepted[j] && Ahead(waitSteps, j, i) ==> !Conflict(robots, desired, i, j)))
  }

  lemma SettleOne(robots: seq<Robot>, waitSteps: seq<nat>, desired: seq<int>,
                  considered: seq<bool>, accepted: seq<bool>, i: nat, ok: bool)
    requires SettledSoFar(robots, waitSteps, desired, considered, accepted)
    requires i < |robots| && !considered[i] && !robots[i].taskCompleted
    requires forall j :: 0 <= j < |robots| && !considered[j] && !robots[j].taskCompleted && j != i ==>
      Ahead(waitSteps, i, j)
    requires ok == (desired[i] != 0 &&
      forall j :: 0 <= j < |robots| && j != i && accepted[j] ==> !Conflict(robots, desired, i, j))
    ensures SettledSoFar(robots, waitSteps, desired, considered[i := true], if ok then accepted[i := true] else accepted)
  {
    assert forall j :: 0 <= j < |robots| && considered[j] ==> Ahead(waitSteps, j, i);
  }

  /** The next robot in line is let through if its move can be accepted. */
  method ConsiderOne(f: Floor, robots: seq<Robot>, waitSteps: seq<nat>, desired: seq<int>,
                     considered: array<bool>, accepted: array<bool>, i: nat) returns (ok: bool)
    requires OnMap(f, robots) && Enterable(f, robots, desired) && accepted != considered
    requires SettledSoFar(robots, waitSteps, desired, considered[..], accepted[..])
    requires i < |robots| && !considered[i] && !robots[i].taskCompleted
    requires forall j :: 0 <= j < |robots| && !considered[j] && !robots[j].taskCompleted && j != i ==>
      Ahead(waitSteps, i, j)
    modifies considered, accepted
    ensures SettledSoFar(robots, waitSteps, desired, considered[..], accepted[..])
    ensures considered[..] == old(considered[..])[i := true]
    ensures accepted[..] == if ok then old(accepted[..])[i := true] else old(accepted[..])
  {
    ghost var before, was := considered[..], accepted[..];
    considered[i] := true;
    ok := false;
    if desired[i] != 0 {
      ok := CanAcceptBatchMove(f, robots, desired, accepted, i);
    }
    if ok {
      accepted[i] := true;
    }
    SettleOne(robots, waitSteps, desired, before, was, i, ok);
  }

  /** The acceptance loop: longest-waiting robot first. */
  method AcceptBatch(f: Floor, robots: seq<Robot>, waitSteps: seq<nat>, desired: seq<int>)
    returns (accepted: array<bool>, count: nat)
    requires OnMap(f, robots) && Enterable(f, robots, desired) && |waitSteps| == |robots|
    ensures fresh(accepted) && Batch(robots, waitSteps, desired, accepted[..])
    ensures count > 0 <==> true in accepted[..]
  {
    var n := |robots|;
    accepted := new bool[n](_ => false);
    var considered := new bool[n](_ => false);
    count := 0;
    ghost var marked: set<int> := {};
    for checked := 0 to n
      invariant fresh(accepted) && fresh(considered) && accepted != considered
      invariant accepted.Length == considered.Length == n
      invariant SettledSoFar(robots, waitSteps, desired, considered[..], accepted[..])
      invariant |marked| == checked && forall i :: i in marked ==> 0 <= i < n && considered[i]
      invariant count > 0 <==> true in accepted[..]
    {
      var i := PickLongest(robots, waitSteps, considered);
      if i == -1 {
        break;
      }
      var ok := ConsiderOne(f, robots, waitSteps, desired, considered, accepted, i);
      marked := marked + {i};
      if ok {
        assert accepted[..][i];
        count := count + 1;
      }
    }
    if |marked| == n {
      FullSubset(marked, n);
    }
  }

  /** The first planning loop: every robot's wish. */
  method ComputeWishes(f: Floor, robots: seq<Robot>, sacrifice: int) returns (desired: array<int>)
    requires OnMap(f, robots)
    ensures fresh(desired) && Wishes(f, robots, sacrifice, desired[..])
  {
    desired := new int[|robots|](_ => 0);
    for i := 0 to |robots|
      invariant fresh(desired) && desired.Length == |robots|
      invariant forall k :: 0 <= k < i ==>
        if robots[k].taskCompleted || k == sacrifice then desired[k] == 0
        else NextCommand(View(f, robots, k), Target(f, robots[k]), desired[k])
    {
      var command := 0;
      if !robots[i].taskCompleted {
        var target := GetRobotTarget(f, robots[i]);
        if i != sacrifice {
          command := GetNextDirection(View(f, robots, i), target);
        }
      }
      desired[i] := command;
    }
  }

  /** The way out of an unfinished robot, if it has one. */
  method EscapeOf(f: Floor, robots: seq<Robot>, i: nat) returns (d: int)
    requires OnMap(f, robots) && i < |robots|
    ensures d != 0 <==> MayYield(f, robots, i)
    ensures d != 0 ==> BestEscape(View(f, robots, i), Target(f, robots[i]), d)
  {
    if robots[i].taskCompleted {
      return 0;
    }
    var target := GetRobotTarget(f, robots[i]);
    d := GetEscapeDirection(View(f, robots, i), target);
  }

  /** The longest-waiting robot that can back away. */
  method LongestYielding(f: Floor, robots: seq<Robot>, waitSteps: seq<nat>) returns (victim: int, d: int)
    requires OnMap(f, robots) && |waitSteps| == |robots|
    ensures -1 <= victim < |robots|
    ensures victim == -1 ==> d == 0 && forall k :: 0 <= k < |robots| ==> !MayYield(f, robots, k)
    ensures victim != -1 ==> MayYield(f, robots, victim) && BestEscape(View(f, robots, victim), Target(f, robots[victim]), d)
    ensures victim != -1 ==> forall k :: 0 <= k < |robots| && MayYield(f, robots, k) ==>
      k == victim || Ahead(waitSteps, victim, k)
  {
    victim, d := -1, 0;
    var victimWait: int := -1;
    for i := 0 to |robots|
      invariant -1 <= victim < i
      invariant victim == -1 ==> d == 0 && victimWait == -1 && forall k :: 0 <= k < i ==> !MayYield(f, robots, k)
      invariant victim != -1 ==> MayYield(f, robots, victim) && victimWait == waitSteps[victim]
      invariant victim != -1 ==> BestEscape(View(f, robots, victim), Target(f, robots[victim]), d)
      invariant victim != -1 ==> forall k :: 0 <= k < i && MayYield(f, robots, k) ==>
        k == victim || Ahead(waitSteps, victim, k)
    {
      var direction := EscapeOf(f, robots, i);
      if direction != 0 && waitSteps[i] > victimWait {
        victim, victimWait, d := i, waitSteps[i], direction;
      }
    }
  }

  /** choose_deadlock_victim. */
  method ChooseDeadlockVictim(f: Floor, robots: seq<Robot>, waitSteps: seq<nat>, sacrifice: int)
    returns (victim: int, d: int)
    requires OnMap(f, robots) && |waitSteps| == |robots|
    ensures Victim(f, robots, waitSteps, sacrifice, victim, d)
  {
    if 0 <= sacrifice < |robots| {
      d := EscapeOf(f, robots, sacrifice);
      if d != 0 {
        return sacrifice, d;
      }
    }
    victim, d := LongestYielding(f, robots, waitSteps);
  }

  /** The state central control keeps from round to round. */
  class CentralControl {
    const floor: Floor
    const waitSteps: array<nat>
    var sacrifice: int

    constructor (f: Floor, n: nat)
      ensures floor == f && fresh(waitSteps) && sacrifice == -1
      ensures waitSteps[..] == seq(n, _ => 0)
    {
      floor := f;
      waitSteps := new nat[n](_ => 0);
      sacrifice := -1;
    }

    /** The wait counters after a round. */
    method Age(robots: seq<Robot>, accepted: seq<bool>)
      requires waitSteps.Length == |robots| == |accepted|
      modifies waitSteps
      ensures forall i :: 0 <= i < |robots| ==>
        waitSteps[i] == if robots[i].taskCompleted || accepted[i] then 0 else old(waitSteps[i]) + 1
    {
      for i := 0 to |robots|
        invariant forall k :: 0 <= k < i ==>
          waitSteps[k] == if robots[k].taskCompleted || accepted[k] then 0 else old(waitSteps[k]) + 1
        invariant forall k :: i <= k < |robots| ==> waitSteps[k] == old(waitSteps[k])
      {
        waitSteps[i] := if robots[i].taskCompleted || accepted[i] then 0 else waitSteps[i] + 1;
      }
    }

    /** Nobody was let through: one robot backs away, if any can. */
    method BackAway(robots: seq<Robot>, desired: seq<int>, batch: seq<bool>) returns (plan: Plan)
      requires OnMap(floor, robots) && waitSteps.Length == |robots|
      modifies this`sacrifice
      ensures plan.desired == desired && plan.batch == batch && plan.sacrifice == sacrifice
      ensures Yields(floor, robots, waitSteps[..], old(sacrifice), plan)
    {
      var victim, d := ChooseDeadlockVictim(floor, robots, waitSteps[..], sacrifice);
      var accepted := seq(|robots|, i => i == victim);
      var commands := seq(|robots|, i => if i == victim then d else 0);
      sacrifice := victim;
      plan := Plan(desired, batch, accepted, commands, [], victim);
    }

    /** One pass of central_control_thread from the collected robot states to
        the commands that are sent. */
    method Round(robots: seq<Robot>) returns (plan: Plan)
      requires OnMap(floor, robots) && waitSteps.Length == |robots|
      modifies this, waitSteps
      ensures IsPlan(floor, robots, old(waitSteps[..]), old(sacrifice), plan)
      ensures waitSteps[..] == plan.waitSteps && sacrifice == plan.sacrifice
    {
      var desired := ComputeWishes(floor, robots, sacrifice);
      var wishes := desired[..];
      WishesAreEnterable(floor, robots, sacrifice, wishes);
      var accepted, count := AcceptBatch(floor, robots, waitSteps[..], wishes);
      var batch := accepted[..];
      if count == 0 {
        plan := BackAway(robots, wishes, batch);
      } else {
        var commands := IssueCommands(robots, wishes, batch);
        sacrifice := -1;
        plan := Plan(wishes, batch, batch, commands, [], -1);
      }
      Age(robots, plan.accepted);
      plan := plan.(waitSteps := waitSteps[..]);
    }
  }

  /** The test that ends the simulation. */
  method AllCompleted(robots: seq<Robot>) returns (done: bool)
    ensures done <==> forall i :: 0 <= i < |robots| ==> robots[i].taskCompleted && robots[i].currentPayload == 0
  {
    for i := 0 to |robots|
      invariant forall k :: 0 <= k < i ==> robots[k].taskCompleted && robots[k].currentPayload == 0
    {
      if !robots[i].taskCompleted || robots[i].currentPayload != 0 {
        return false;
      }
    }
    return true;
  }

  method IssueCommands(robots: seq<Robot>, desired: seq<int>, accepted: seq<bool>) returns (commands: seq<int>)
    requires |desired| == |accepted| == |robots|
    ensures Issued(robots, desired, accepted, commands)
  {
    commands := seq(|robots|, _ => 0);
    for i := 0 to |robots|
      invariant |commands| == |robots|
      invariant forall k :: 0 <= k < i ==> commands[k] == if accepted[k] then desired[k] else 0
      invariant forall k :: i <= k < |robots| ==> commands[k] == 0
    {
      if accepted[i] {
        commands := commands[i := desired[i]];
      }
    }
  }
}
