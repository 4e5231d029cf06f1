/** The warehouse floor, the robots on it, and the test that every planner and
    every robot uses to decide whether a cell may be entered. */
module Warehouse {
  datatype Pos = Pos(row: int, col: int)

  /** Commands 0 to 4: wait, up, down, left, right. */
  function Next(p: Pos, direction: int): Pos {
    match direction
    case 1 => Pos(p.row - 1, p.col)
    case 2 => Pos(p.row + 1, p.col)
    case 3 => Pos(p.row, p.col - 1)
    case 4 => Pos(p.row, p.col + 1)
    case _ => p
  }

  function Abs(x: int): nat {
    if x < 0 then -x else x
  }

  function Distance(p: Pos, q: Pos): nat {
    Abs(p.row - q.row) + Abs(p.col - q.col)
  }

  /** A map of any size together with the places the program knows by
      coordinate: the unloading docks A, B and C, the entry S and the waiting
      place W. */
  datatype Floor = Floor(cells: seq<seq<char>>, dockA: Pos, dockB: Pos, dockC: Pos, entry: Pos, waiting: Pos) {
    function Height(): nat {
      |cells|
    }

    function Width(): nat {
      if |cells| == 0 then 0 else |cells[0]|
    }

    predicate InMap(p: Pos) {
      0 <= p.row < Height() && 0 <= p.col < Width()
    }

    predicate Rectangular() {
      Width() > 0 && forall r :: 0 <= r < |cells| ==> |cells[r]| == Width()
    }

    function At(p: Pos): char
      requires Rectangular() && InMap(p)
    {
      cells[p.row][p.col]
    }

    predicate Valid() {
      && Rectangular()
      && InMap(dockA) && At(dockA) == 'A'
      && InMap(dockB) && At(dockB) == 'B'
      && InMap(dockC) && At(dockC) == 'C'
      && InMap(waiting) && At(waiting) == 'W'
      && InMap(entry)
    }

    /** Docks and the waiting place hold any number of robots. */
    predicate Shared(p: Pos)
      requires Rectangular() && InMap(p)
    {
      At(p) in {'A', 'B', 'C', 'W'}
    }
  }

  predicate IsDigit(c: char) {
    '1' <= c <= '9'
  }

  datatype Robot = Robot(requiredItem: int, destination: char, pos: Pos,
                         requiredPayload: int, currentPayload: int, taskCompleted: bool)
  {
    /** The cell character of the item this robot has to fetch. */
    predicate OwnItem(c: char) {
      c as int == requiredItem + '0' as int
    }
  }

  predicate Occupied(robots: seq<Robot>, p: Pos) {
    exists i :: 0 <= i < |robots| && robots[i].pos == p
  }

  /** What one robot sees when it looks at the floor. */
  datatype View = View(floor: Floor, robots: seq<Robot>, me: nat) {
    predicate Valid() {
      floor.Rectangular() && me < |robots| && floor.InMap(robots[me].pos)
    }

    function Here(): Pos
      requires me < |robots|
    {
      robots[me].pos
    }

    /** Outside, a wall, an occupied ordinary cell, or an item cell that is not
        the one this robot is on its way to. */
    predicate Blocked(p: Pos)
      requires floor.Rectangular() && me < |robots|
    {
      || !floor.InMap(p)
      || floor.At(p) == 'X'
      || (Occupied(robots, p) && !floor.Shared(p))
      || (!Occupied(robots, p) && IsDigit(floor.At(p)) &&
          !(robots[me].currentPayload == 0 && robots[me].OwnItem(floor.At(p))))
    }

    /** The cells this robot may enter. */
    ghost function Open(): iset<Pos>
      requires floor.Rectangular() && me < |robots|
    {
      iset p | !Blocked(p)
    }
  }

  predicate RowMajorBefore(p: Pos, q: Pos) {
    p.row < q.row || (p.row == q.row && p.col <= q.col)
  }

  /** is_blocked_cell: the scan stops at the first robot found on the cell. */
  method IsBlockedCell(v: View, p: Pos) returns (blocked: bool)
    requires v.floor.Rectangular() && v.me < |v.robots|
    ensures blocked == v.Blocked(p)
    ensures !v.floor.InMap(p) || v.floor.At(p) == 'X' ==> blocked
    ensures !blocked && Occupied(v.robots, p) ==> v.floor.At(p) in {'A', 'B', 'C', 'W'}
    ensures v.floor.InMap(p) && v.floor.At(p) in {'A', 'B', 'C', 'W', 'S', ' '} ==>
      (blocked <==> v.floor.At(p) in {'S', ' '} && Occupied(v.robots, p))
    ensures v.floor.InMap(p) && '1' <= v.floor.At(p) <= '9' ==>
      (!blocked <==> !Occupied(v.robots, p) && v.robots[v.me].currentPayload == 0 &&
                     v.floor.At(p) as int == v.robots[v.me].requiredItem + '0' as int)
  {
    if p.row < 0 || p.row >= v.floor.Height() || p.col < 0 || p.col >= v.floor.Width() {
      return true;
    }
    if v.floor.At(p) == 'X' {
      return true;
    }
    for i := 0 to |v.robots|
      invariant forall k :: 0 <= k < i ==> v.robots[k].pos != p
    {
      if v.robots[i].pos == p {
        assert Occupied(v.robots, p);
        var cell := v.floor.At(p);
        if cell == 'A' || cell == 'B' || cell == 'C' || cell == 'W' {
          return false;
        }
        return true;
      }
    }
    var cell := v.floor.At(p);
    if '1' <= cell <= '9' {
      if v.robots[v.me].currentPayload == 0 && cell as int == v.robots[v.me].requiredItem + '0' as int {
        return false;
      }
      return true;
    }
    return false;
  }

  ghost predicate ShowsItem(f: Floor, item: int, p: Pos)
    requires f.Rectangular()
  {
    f.InMap(p) && f.At(p) as int == item + '0' as int
  }

  ghost predicate FirstItem(f: Floor, item: int, p: Pos)
    requires f.Rectangular()
  {
    ShowsItem(f, item, p) && forall q :: ShowsItem(f, item, q) ==> RowMajorBefore(p, q)
  }

  /** The cell where an item is fetched: the first that shows it, the entry when none does. */
  ghost predicate ItemCell(f: Floor, item: int, p: Pos)
    requires f.Rectangular()
  {
    if exists q :: ShowsItem(f, item, q) then FirstItem(f, item, p) else p == f.entry
  }

  /** If any cell shows the item, one is the first to. */
  lemma {:induction false} SomeFirst(f: Floor, item: int, q: Pos) returns (p: Pos)
    requires f.Rectangular() && ShowsItem(f, item, q)
    ensures FirstItem(f, item, p)
    decreases q.row, q.col
  {
    if r :| ShowsItem(f, item, r) && !RowMajorBefore(q, r) {
      p := SomeFirst(f, item, r);
    } else {
      p := q;
    }
  }

  ghost function ItemPosition(f: Floor, item: int): (p: Pos)
    requires f.Valid()
    ensures f.InMap(p)
    ensures (exists q :: FirstItem(f, item, q)) ==> FirstItem(f, item, p)
  {
    if exists p :: FirstItem(f, item, p) then
      var p :| FirstItem(f, item, p);
      p
    else f.entry
  }

  ghost predicate NoItemBefore(f: Floor, item: int, r: int, c: int)
    requires f.Rectangular()
  {
    forall p :: ShowsItem(f, item, p) ==> r < p.row || (r == p.row && c <= p.col)
  }

  /** get_item_position: the first cell in row-major order that shows the item,
      and the entry cell when no cell does. */
  method GetItemPosition(f: Floor, item: int) returns (p: Pos)
    requires f.Valid()
    ensures p == ItemPosition(f, item)
    ensures ItemCell(f, item, p)
  {
    for r := 0 to f.Height()
      invariant NoItemBefore(f, item, r, 0)
    {
      for c := 0 to f.Width()
        invariant NoItemBefore(f, item, r, c)
      {
        if f.At(Pos(r, c)) as int == item + '0' as int {
          assert FirstItem(f, item, Pos(r, c));
          return Pos(r, c);
        }
        assert !ShowsItem(f, item, Pos(r, c));
      }
    }
    p := f.entry;
  }

  /** The cell where robots sent to that letter unload; any letter but A, B and C stands for the
      waiting place. */
  predicate Dock(f: Floor, destination: char, p: Pos) {
    && (destination == 'A' ==> p == f.dockA)
    && (destination == 'B' ==> p == f.dockB)
    && (destination == 'C' ==> p == f.dockC)
    && (destination !in {'A', 'B', 'C'} ==> p == f.waiting)
  }

  /** get_destination_position. */
  function DestinationPosition(f: Floor, destination: char): (p: Pos)
    requires f.Valid()
    ensures f.InMap(p) && f.Shared(p) && Dock(f, destination, p)
    ensures destination in {'A', 'B', 'C'} ==> f.At(p) == destination
  {
    if destination == 'A' then f.dockA
    else if destination == 'B' then f.dockB
    else if destination == 'C' then f.dockC
    else f.waiting
  }

  /** Where an unfinished robot is heading: its item while it carries nothing,
      its dock afterwards. */
  ghost function Target(f: Floor, robot: Robot): (p: Pos)
    requires f.Valid()
    ensures f.InMap(p)
  {
    if robot.currentPayload == 0 then ItemPosition(f, robot.requiredItem)
    else DestinationPosition(f, robot.destination)
  }

  lemma ItemPositionIsItemCell(f: Floor, item: int)
    requires f.Valid()
    ensures ItemCell(f, item, ItemPosition(f, item))
    ensures forall p :: ItemCell(f, item, p) ==> p == ItemPosition(f, item)
  {
    if q :| ShowsItem(f, item, q) {
      var _ := SomeFirst(f, item, q);
    }
  }

  /** get_robot_target: an unloaded robot heads for the cell of its item, a loaded one for its dock. */
  method GetRobotTarget(f: Floor, robot: Robot) returns (p: Pos)
    requires f.Valid()
    ensures p == Target(f, robot)
    ensures robot.currentPayload == 0 ==> ItemCell(f, robot.requiredItem, p)
    ensures robot.currentPayload != 0 ==> Dock(f, robot.destination, p)
    ensures robot.currentPayload != 0 && robot.destination in {'A', 'B', 'C'} ==> f.At(p) == robot.destination
  {
    if robot.currentPayload == 0 {
      p := GetItemPosition(f, robot.requiredItem);
    } else {
      p := DestinationPosition(f, robot.destination);
    }
  }

  lemma TargetMeans(f: Floor, robot: Robot)
    requires f.Valid()
    ensures robot.currentPayload == 0 ==> ItemCell(f, robot.requiredItem, Target(f, robot))
    ensures robot.currentPayload != 0 ==> Dock(f, robot.destination, Target(f, robot))
  {
    ItemPositionIsItemCell(f, robot.requiredItem);
  }

  /** The 7 by 7 map the program ships with. */
  const DefaultFloor := Floor(
    ["XXXXXXX",
     "A  7  X",
     "X 1X4 X",
     "B 2X5 X",
     "X 3X6 X",
     "C    SX",
     "XXXXXWX"],
    Pos(1, 0), Pos(3, 0), Pos(5, 0), Pos(5, 5), Pos(6, 5))

  /** The shipped map meets every assumption made on maps, and each item from 1
      to 7 is on it. */
  lemma DefaultFloorValid(item: int)
    requires 1 <= item <= 7
    ensures DefaultFloor.Valid() && DefaultFloor.Height() == DefaultFloor.Width() == 7
    ensures ShowsItem(DefaultFloor, item, ItemPosition(DefaultFloor, item))
  {
    var f := DefaultFloor;
    assert |f.cells[0]| == |f.cells[1]| == |f.cells[2]| == |f.cells[3]| == 7;
    assert |f.cells[4]| == |f.cells[5]| == |f.cells[6]| == 7;
    var p := match item
      case 1 => Pos(2, 2)
      case 2 => Pos(3, 2)
      case 3 => Pos(4, 2)
      case 4 => Pos(2, 4)
      case 5 => Pos(3, 4)
      case 6 => Pos(4, 4)
      case _ => Pos(1, 3);
    assert ShowsItem(f, item, p);
    forall q | ShowsItem(f, item, q)
      ensures RowMajorBefore(p, q)
    {
    }
    assert FirstItem(f, item, p);
  }
}
