/** Breadth-first planning of one robot's next command. */
module WarehousePath {
  import opened Div
  import opened Ranges
  import opened Warehouse

  ghost predicate Step(open: iset<Pos>, a: Pos, b: Pos) {
    (exists d :: 1 <= d <= 4 && b == Next(a, d)) && b in open
  }

  ghost predicate Chain(open: iset<Pos>, s: seq<Pos>) {
    forall i, j :: 0 <= i < |s| && 0 <= j < |s| && j == i + 1 ==> Step(open, s[i], s[j])
  }

  /** A walk from start to g that enters open cells only. */
  ghost predicate Walk(open: iset<Pos>, start: Pos, s: seq<Pos>, g: Pos) {
    |s| > 0 && s[0] == start && s[|s| - 1] == g && Chain(open, s)
  }

  ghost predicate Reachable(open: iset<Pos>, start: Pos, g: Pos) {
    exists s :: Walk(open, start, s, g)
  }

  ghost predicate ShortestWalk(open: iset<Pos>, start: Pos, s: seq<Pos>, g: Pos) {
    Walk(open, start, s, g) && forall t :: Walk(open, start, t, g) ==> |s| <= |t|
  }

  ghost function Everywhere(): iset<Pos> {
    iset p | Distance(p, p) == 0
  }

  /** The row and column distance is the length of a shortest walk on a floor without obstacles. */
  lemma {:induction false} NoWalkBeatsDistance(p: Pos, w: seq<Pos>, q: Pos)
    requires Walk(Everywhere(), p, w, q)
    ensures Distance(p, q) < |w|
    decreases |w|
  {
    if |w| > 1 {
      assert Step(Everywhere(), w[0], w[1]);
      NoWalkBeatsDistance(w[1], w[1..], q);
    }
  }

  lemma {:induction false} WalkOfDistance(p: Pos, q: Pos) returns (w: seq<Pos>)
    ensures ShortestWalk(Everywhere(), p, w, q) && |w| == Distance(p, q) + 1
    decreases Distance(p, q)
  {
    if p == q {
      w := [p];
    } else {
      var d := if p.row > q.row then 1 else if p.row < q.row then 2 else if p.col > q.col then 3 else 4;
      var rest := WalkOfDistance(Next(p, d), q);
      w := [p] + rest;
      assert Step(Everywhere(), p, Next(p, d));
    }
    forall t | Walk(Everywhere(), p, t, q) ensures |w| <= |t| {
      NoWalkBeatsDistance(p, t, q);
    }
  }

  /** The bookkeeping of a search, as values: the queue of discovered cells, how
      far each lies from the start, and the cell it was discovered from. */
  datatype Search = Search(queue: seq<Pos>, dist: map<Pos, nat>, parent: map<Pos, Pos>) {
    ghost predicate Known() {
      forall k :: 0 <= k < |queue| ==> queue[k] in dist
    }

    ghost predicate Domain(start: Pos) {
      && |queue| > 0 && queue[0] == start && Known()
      && (forall i, j :: 0 <= i < j < |queue| ==> queue[i] != queue[j])
      && (forall p :: p in dist ==> p in queue) && Rooted(start)
    }

    ghost predicate Rooted(start: Pos) {
      start in dist && (forall p :: p in dist ==> p in parent) && forall p :: p in parent ==> p in dist
    }

    /** Every discovered cell was stepped into from a cell one nearer. */
    ghost predicate Tree(open: iset<Pos>, start: Pos)
      requires Rooted(start)
    {
      && dist[start] == 0 && parent[start] == start
      && forall p :: p in dist && p != start ==>
           && parent[p] in dist && Step(open, parent[p], p)
           && dist[p] == dist[parent[p]] + 1
    }

    /** The queue is in order of distance and spans at most two distances. */
    ghost predicate Layered(head: nat)
      requires Known()
    {
      && (forall i, j :: 0 <= i <= j < |queue| ==> dist[queue[i]] <= dist[queue[j]])
      && (forall i :: 0 <= i < |queue| ==> dist[queue[i]] <= i)
      && (head < |queue| ==> dist[queue[|queue| - 1]] <= dist[queue[head]] + 1)
    }

    ghost predicate Settled(a: Pos, b: Pos)
      requires a in dist
    {
      b in dist && dist[b] <= dist[a] + 1
    }

    /** The first few neighbours of a, where open, have been discovered. */
    ghost predicate Around(open: iset<Pos>, a: Pos, directions: nat)
      requires a in dist
    {
      forall d :: 1 <= d <= directions && d <= 4 && Next(a, d) in open ==> Settled(a, Next(a, d))
    }

    ghost predicate Explored(open: iset<Pos>, start: Pos, head: nat, directions: nat)
      requires Domain(start)
    {
      && (forall i :: 0 <= i < head && i < |queue| ==> Around(open, queue[i], 4))
      && (head < |queue| ==> Around(open, queue[head], directions))
    }

    ghost predicate Inv(open: iset<Pos>, start: Pos, head: nat, directions: nat) {
      && Domain(start) && Tree(open, start)
      && Layered(head) && Explored(open, start, head, directions)
    }

    ghost predicate Exhausted(open: iset<Pos>, start: Pos) {
      Inv(open, start, |queue|, 0)
    }

    function Discover(p: Pos, from: Pos): Search
      requires from in dist
    {
      Search(queue + [p], dist[p := dist[from] + 1], parent[p := from])
    }
  }

  lemma SkipNeighbour(s: Search, open: iset<Pos>, start: Pos, head: nat, d: nat)
    requires s.Inv(open, start, head, d) && head < |s.queue| && d < 4
    requires Next(s.queue[head], d + 1) !in open || Next(s.queue[head], d + 1) in s.dist
    ensures s.Inv(open, start, head, d + 1)
  {
    var p := Next(s.queue[head], d + 1);
    if p in s.dist {
      var k :| 0 <= k < |s.queue| && s.queue[k] == p;
      assert s.dist[s.queue[k]] <= s.dist[s.queue[|s.queue| - 1]];
    }
  }

  lemma DiscoverNeighbour(s: Search, open: iset<Pos>, start: Pos, head: nat, d: nat)
    requires s.Inv(open, start, head, d) && head < |s.queue| && d < 4
    requires Next(s.queue[head], d + 1) in open && Next(s.queue[head], d + 1) !in s.dist
    ensures s.Discover(Next(s.queue[head], d + 1), s.queue[head]).Inv(open, start, head, d + 1)
  {
    var from := s.queue[head];
    var p := Next(from, d + 1);
    assert Step(open, from, p);
    DiscoverKeepsDomain(s, start, p, from);
    DiscoverKeepsTree(s, open, start, p, from);
    DiscoverKeepsLayered(s, head, p);
    DiscoverKeepsExplored(s, open, start, head, d, p);
  }

  lemma DiscoverKeepsDomain(s: Search, start: Pos, p: Pos, from: Pos)
    requires s.Domain(start) && from in s.dist && p !in s.dist
    ensures s.Discover(p, from).Domain(start)
  {
    var t := s.Discover(p, from);
    assert t.queue[|s.queue|] == p;
    forall q | q in t.dist ensures q in t.queue && q in t.parent {
      if q != p { assert q in s.queue; }
    }
  }

  lemma DiscoverKeepsTree(s: Search, open: iset<Pos>, start: Pos, p: Pos, from: Pos)
    requires s.Domain(start) && s.Tree(open, start)
    requires from in s.dist && p !in s.dist && Step(open, from, p)
    requires s.Discover(p, from).Domain(start)
    ensures s.Discover(p, from).Tree(open, start)
  {
  }

  lemma DiscoverKeepsLayered(s: Search, head: nat, p: Pos)
    requires s.Known() && s.Layered(head) && head < |s.queue| && p !in s.dist
    ensures s.Discover(p, s.queue[head]).Known() && s.Discover(p, s.queue[head]).Layered(head)
  {
    var t, n := s.Discover(p, s.queue[head]), |s.queue|;
    forall i | 0 <= i < n ensures t.queue[i] == s.queue[i] && t.dist[t.queue[i]] == s.dist[s.queue[i]] {
      assert s.queue[i] in s.dist;
    }
    assert t.queue[n] == p && t.dist[p] == s.dist[s.queue[head]] + 1;
    assert s.dist[s.queue[n - 1]] <= s.dist[s.queue[head]] + 1;
  }

  lemma DiscoverKeepsExplored(s: Search, open: iset<Pos>, start: Pos, head: nat, d: nat, p: Pos)
    requires s.Domain(start) && s.Explored(open, start, head, d)
    requires head < |s.queue| && d < 4
    requires p == Next(s.queue[head], d + 1) && p !in s.dist
    requires s.Discover(p, s.queue[head]).Domain(start)
    ensures s.Discover(p, s.queue[head]).Explored(open, start, head, d + 1)
  {
    var t := s.Discover(p, s.queue[head]);
    forall i | 0 <= i < head ensures t.Around(open, t.queue[i], 4) {
      AroundKept(s, t, open, s.queue[i], 4);
    }
    AroundKept(s, t, open, s.queue[head], d);
  }

  lemma AroundKept(s: Search, t: Search, open: iset<Pos>, a: Pos, directions: nat)
    requires a in s.dist && s.Around(open, a, directions)
    requires forall q :: q in s.dist ==> q in t.dist && t.dist[q] == s.dist[q]
    ensures t.Around(open, a, directions)
  {
  }

  lemma NextCell(s: Search, open: iset<Pos>, start: Pos, head: nat)
    requires s.Inv(open, start, head, 4) && head < |s.queue|
    ensures s.Inv(open, start, head + 1, 0)
  {
    NextLayer(s, head);
  }

  lemma NextLayer(s: Search, head: nat)
    requires s.Known() && s.Layered(head) && head < |s.queue|
    ensures s.Layered(head + 1)
  {
    if head + 1 < |s.queue| {
      assert s.dist[s.queue[head]] <= s.dist[s.queue[head + 1]];
    }
  }

  /** When the queue is exhausted no walk beats the recorded distances. */
  lemma {:induction false} NoWalkBeats(s: Search, open: iset<Pos>, start: Pos, w: seq<Pos>, g: Pos)
    requires s.Exhausted(open, start) && Walk(open, start, w, g)
    ensures g in s.dist && s.dist[g] < |w|
    decreases |w|
  {
    if |w| > 1 {
      var u := w[..|w| - 1];
      var a := u[|u| - 1];
      NoWalkBeats(s, open, start, u, a);
      assert Step(open, w[|w| - 2], w[|w| - 1]);
      var d :| 1 <= d <= 4 && g == Next(a, d);
      var k :| 0 <= k < |s.queue| && s.queue[k] == a;
      assert s.Around(open, s.queue[k], 4);
    }
  }

  /** Following parents back from a discovered cell spells out a walk. */
  lemma {:induction false} ParentsSpellWalk(s: Search, open: iset<Pos>, start: Pos, g: Pos) returns (w: seq<Pos>)
    requires s.Exhausted(open, start) && g in s.dist
    ensures Walk(open, start, w, g) && |w| == s.dist[g] + 1
    decreases s.dist[g]
  {
    if g == start {
      w := [g];
    } else {
      var u := ParentsSpellWalk(s, open, start, s.parent[g]);
      w := u + [g];
    }
  }

  /** An exhausted search has found exactly the reachable cells, at their exact
      distances. */
  lemma SearchIsExact(s: Search, open: iset<Pos>, start: Pos, g: Pos)
    requires s.Exhausted(open, start)
    ensures Reachable(open, start, g) <==> g in s.dist
    ensures g in s.dist ==>
      forall w :: ShortestWalk(open, start, w, g) <==> Walk(open, start, w, g) && |w| == s.dist[g] + 1
  {
    if Reachable(open, start, g) {
      var w :| Walk(open, start, w, g);
      NoWalkBeats(s, open, start, w, g);
    }
    if g in s.dist {
      var w := ParentsSpellWalk(s, open, start, g);
      forall t | Walk(open, start, t, g) ensures s.dist[g] < |t| {
        NoWalkBeats(s, open, start, t, g);
      }
    }
  }

  // ---------------------------------------------------------------------
  // Index bounds: a queue of distinct cells is no longer than the map is big.

  function Code(f: Floor, p: Pos): int {
    p.row * f.Width() + p.col
  }

  lemma CodeDecodes(f: Floor, p: Pos)
    requires f.InMap(p)
    ensures 0 <= Code(f, p) < f.Height() * f.Width()
    ensures Code(f, p) / f.Width() == p.row && Code(f, p) % f.Width() == p.col
  {
    MulMono(p.row + 1, f.Height(), f.Width());
    assert (p.row + 1) * f.Width() == p.row * f.Width() + f.Width();
    MulMono(0, p.row, f.Width());
    DivModUnique(Code(f, p), f.Width(), p.row, p.col);
  }

  lemma SameCode(f: Floor, p: Pos, q: Pos)
    requires f.InMap(p) && f.InMap(q) && Code(f, p) == Code(f, q)
    ensures p == q
  {
    CodeDecodes(f, p);
    CodeDecodes(f, q);
  }

  lemma QueueFitsMap(s: Search, f: Floor, start: Pos)
    requires s.Domain(start) && forall i :: 0 <= i < |s.queue| ==> f.InMap(s.queue[i])
    ensures |s.queue| <= f.Height() * f.Width()
  {
    CellsFitMap(f, s.queue);
  }

  lemma CellsFitMap(f: Floor, cells: seq<Pos>)
    requires forall i, j :: 0 <= i < j < |cells| ==> cells[i] != cells[j]
    requires forall i :: 0 <= i < |cells| ==> f.InMap(cells[i])
    ensures |cells| <= f.Height() * f.Width()
  {
    var codes := seq(|cells|, i requires 0 <= i < |cells| => Code(f, cells[i]));
    forall i | 0 <= i < |codes| ensures 0 <= codes[i] < f.Height() * f.Width() {
      CodeDecodes(f, cells[i]);
    }
    forall i, j | 0 <= i < j < |codes| ensures codes[i] != codes[j] {
      CodeDecodes(f, cells[i]);
      CodeDecodes(f, cells[j]);
    }
    DistinctBelow(codes, f.Height() * f.Width());
  }

  // ---------------------------------------------------------------------
  // get_next_direction.

  /** The reachable cell nearest to the target by row and column distance, the
      start unless some other cell is strictly nearer, and the first such cell
      in row-major order. */
  ghost predicate Fallback(open: iset<Pos>, start: Pos, target: Pos, g: Pos) {
    && Reachable(open, start, g)
    && (forall p :: Reachable(open, start, p) ==> Distance(g, target) <= Distance(p, target))
    && (Distance(g, target) == Distance(start, target) ==> g == start)
    && (g != start ==> forall p :: Reachable(open, start, p) && Distance(p, target) == Distance(g, target) ==>
          RowMajorBefore(g, p))
  }

  ghost predicate Goal(open: iset<Pos>, start: Pos, target: Pos, g: Pos) {
    if Reachable(open, start, target) then g == target else Fallback(open, start, target, g)
  }

  /** d leads into the second cell of a shortest walk to g. */
  ghost predicate FirstStep(open: iset<Pos>, start: Pos, g: Pos, d: int) {
    if g == start then d == 0
    else 1 <= d <= 4 && exists w :: ShortestWalk(open, start, w, g) && |w| > 1 && w[1] == Next(start, d)
  }

  ghost predicate NextCommand(v: View, target: Pos, d: int)
    requires v.Valid()
  {
    exists g :: Goal(v.Open(), v.Here(), target, g) && FirstStep(v.Open(), v.Here(), g, d)
  }

  /** The parent matrix holds the encoded parent of every discovered cell and -1
      elsewhere. */
  ghost predicate Recorded(f: Floor, parent: array2<int>, s: Search)
    reads parent
  {
    && parent.Length0 == f.Height() && parent.Length1 == f.Width()
    && (forall p :: p in s.dist ==> f.InMap(p))
    && forall r, c :: 0 <= r < parent.Length0 && 0 <= c < parent.Length1 ==>
         parent[r, c] == if Pos(r, c) in s.parent then Code(f, s.parent[Pos(r, c)]) else -1
  }

  /** The queue arrays hold the search's queue, within the size of the map. */
  ghost predicate Queued(f: Floor, queueR: array<int>, queueC: array<int>, tail: nat, s: Search)
    reads queueR, queueC
  {
    && queueR != queueC && queueR.Length == queueC.Length == f.Height() * f.Width()
    && tail == |s.queue| <= queueR.Length
    && forall k :: 0 <= k < tail ==> s.queue[k] == Pos(queueR[k], queueC[k])
  }

  method Record(f: Floor, parent: array2<int>, ghost s: Search, p: Pos, from: Pos)
    requires Recorded(f, parent, s) && f.InMap(p) && from in s.dist
    modifies parent
    ensures Recorded(f, parent, s.Discover(p, from))
  {
    parent[p.row, p.col] := from.row * f.Width() + from.col;
  }

  method Enqueue(f: Floor, queueR: array<int>, queueC: array<int>, tail: nat, ghost s: Search, p: Pos, ghost from: Pos)
    requires Queued(f, queueR, queueC, tail, s) && from in s.dist && tail < queueR.Length
    modifies queueR, queueC
    ensures Queued(f, queueR, queueC, tail + 1, s.Discover(p, from))
  {
    queueR[tail], queueC[tail] := p.row, p.col;
  }

  method AddCell(f: Floor, parent: array2<int>, queueR: array<int>, queueC: array<int>, tail: nat,
                 ghost s: Search, p: Pos, from: Pos)
    requires Recorded(f, parent, s) && Queued(f, queueR, queueC, tail, s)
    requires f.InMap(p) && from in s.dist && tail < queueR.Length
    modifies parent, queueR, queueC
    ensures Recorded(f, parent, s.Discover(p, from)) && Queued(f, queueR, queueC, tail + 1, s.Discover(p, from))
  {
    Record(f, parent, s, p, from);
    Enqueue(f, queueR, queueC, tail, s, p, from);
  }

  method IsUndiscovered(v: View, parent: array2<int>, p: Pos, ghost s: Search) returns (isNew: bool)
    requires v.Valid() && s.Domain(v.Here()) && s.Tree(v.Open(), v.Here()) && Recorded(v.floor, parent, s)
    ensures isNew <==> p in v.Open() && p !in s.dist
  {
    var blocked := IsBlockedCell(v, p);
    isNew := !(blocked || parent[p.row, p.col] != -1);
    if p in s.parent {
      CodeDecodes(v.floor, s.parent[p]);
    }
  }

  lemma DiscoveredFits(s: Search, f: Floor, start: Pos)
    requires s.Domain(start) && forall p :: p in s.dist ==> f.InMap(p)
    ensures |s.queue| <= f.Height() * f.Width()
  {
    QueueFitsMap(s, f, start);
  }

  lemma DiscoverNext(v: View, s: Search, head: nat, d: nat, next: Pos, from: Pos) returns (s': Search)
    requires v.Valid() && s.Inv(v.Open(), v.Here(), head, d) && head < |s.queue| && d < 4
    requires from == s.queue[head] && next == Next(from, d + 1)
    requires next in v.Open() && next !in s.dist && forall p :: p in s.dist ==> v.floor.InMap(p)
    ensures s' == s.Discover(next, from) && s'.Inv(v.Open(), v.Here(), head, d + 1)
    ensures |s'.queue| <= v.floor.Height() * v.floor.Width()
  {
    DiscoverNeighbour(s, v.Open(), v.Here(), head, d);
    s' := s.Discover(next, from);
    DiscoveredFits(s', v.floor, v.Here());
  }

  /** One turn of the inner loop: look at one neighbour of the cell at head. */
  method VisitNeighbour(v: View, parent: array2<int>, queueR: array<int>, queueC: array<int>,
                        tail: nat, ghost s: Search, head: nat, d: nat)
    returns (tail': nat, ghost s': Search)
    requires v.Valid() && d < 4 && head < tail
    requires s.Inv(v.Open(), v.Here(), head, d)
    requires Recorded(v.floor, parent, s) && Queued(v.floor, queueR, queueC, tail, s)
    modifies parent, queueR, queueC
    ensures s'.Inv(v.Open(), v.Here(), head, d + 1)
    ensures Recorded(v.floor, parent, s') && Queued(v.floor, queueR, queueC, tail', s')
    ensures tail <= tail'
  {
    var from := Pos(queueR[head], queueC[head]);
    var next := Next(from, d + 1);
    assert from == s.queue[head];
    var isNew := IsUndiscovered(v, parent, next, s);
    if !isNew {
      SkipNeighbour(s, v.Open(), v.Here(), head, d);
      return tail, s;
    }
    s' := DiscoverNext(v, s, head, d, next, from);
    AddCell(v.floor, parent, queueR, queueC, tail, s, next, from);
    tail' := tail + 1;
  }

  method Explore(v: View, parent: array2<int>) returns (ghost s: Search)
    requires v.Valid()
    requires parent.Length0 == v.floor.Height() && parent.Length1 == v.floor.Width()
    requires forall r, c :: 0 <= r < parent.Length0 && 0 <= c < parent.Length1 ==> parent[r, c] == -1
    modifies parent
    ensures s.Exhausted(v.Open(), v.Here()) && Recorded(v.floor, parent, s)
  {
    var f, start := v.floor, v.Here();
    var queueR := new int[f.Height() * f.Width()];
    var queueC := new int[f.Height() * f.Width()];
    s := Search([start], map[start := 0], map[start := start]);
    DiscoveredFits(s, f, start);
    parent[start.row, start.col] := start.row * f.Width() + start.col;
    queueR[0], queueC[0] := start.row, start.col;
    var head, tail := 0, 1;
    while head < tail
      invariant head <= tail && s.Inv(v.Open(), start, head, 0)
      invariant Recorded(f, parent, s) && Queued(f, queueR, queueC, tail, s)
      decreases queueR.Length - head
    {
      for d := 0 to 4
        invariant head < tail && s.Inv(v.Open(), start, head, d)
        invariant Recorded(f, parent, s) && Queued(f, queueR, queueC, tail, s)
      {
        tail, s := VisitNeighbour(v, parent, queueR, queueC, tail, s, head, d);
      }
      NextCell(s, v.Open(), start, head);
      head := head + 1;
    }
  }

  /** g is the fallback among the discovered cells that come before (r, c). */
  ghost predicate BestBefore(s: Search, start: Pos, target: Pos, r: int, c: int, g: Pos) {
    && g in s.dist && Distance(g, target) <= Distance(start, target)
    && (Distance(g, target) == Distance(start, target) ==> g == start)
    && (g != start ==> g.row < r || (g.row == r && g.col < c))
    && forall p :: p in s.dist && (p.row < r || (p.row == r && p.col < c)) ==>
         && Distance(g, target) <= Distance(p, target)
         && (g != start && Distance(p, target) == Distance(g, target) ==> RowMajorBefore(g, p))
  }

  /** The scan over all discovered cells for the one nearest to the target. */
  method FindFallback(f: Floor, parent: array2<int>, start: Pos, target: Pos, ghost s: Search) returns (g: Pos)
    requires parent.Length0 == f.Height() && parent.Length1 == f.Width() && start in s.dist
    requires forall p :: p in s.dist ==> f.InMap(p)
    requires forall r, c :: 0 <= r < parent.Length0 && 0 <= c < parent.Length1 ==>
      (parent[r, c] != -1 <==> Pos(r, c) in s.dist)
    ensures BestBefore(s, start, target, f.Height(), 0, g)
  {
    g := start;
    var bestDistance := Distance(start, target);
    for r := 0 to f.Height()
      invariant bestDistance == Distance(g, target) && BestBefore(s, start, target, r, 0, g)
    {
      for c := 0 to f.Width()
        invariant bestDistance == Distance(g, target) && BestBefore(s, start, target, r, c, g)
      {
        if parent[r, c] != -1 {
          var distance := Distance(Pos(r, c), target);
          if distance < bestDistance {
            bestDistance := distance;
            g := Pos(r, c);
          }
        }
      }
    }
  }

  /** The target when the search reached it, and the fallback otherwise. */
  method ChooseGoal(v: View, parent: array2<int>, target: Pos, ghost s: Search) returns (g: Pos)
    requires v.Valid() && v.floor.InMap(target)
    requires s.Exhausted(v.Open(), v.Here()) && Recorded(v.floor, parent, s)
    ensures g in s.dist && Goal(v.Open(), v.Here(), target, g)
  {
    DiscoveredMarks(v, parent, s);
    SearchIsExact(s, v.Open(), v.Here(), target);
    g := target;
    if parent[target.row, target.col] == -1 {
      g := FindFallback(v.floor, parent, v.Here(), target, s);
      BestIsFallback(v, s, target, g);
    }
  }

  lemma DiscoveredMarks(v: View, parent: array2<int>, s: Search)
    requires v.Valid() && s.Exhausted(v.Open(), v.Here()) && Recorded(v.floor, parent, s)
    ensures forall r, c :: 0 <= r < parent.Length0 && 0 <= c < parent.Length1 ==>
      (parent[r, c] != -1 <==> Pos(r, c) in s.dist)
  {
    forall r, c | 0 <= r < parent.Length0 && 0 <= c < parent.Length1
      ensures parent[r, c] != -1 <==> Pos(r, c) in s.dist
    {
      if Pos(r, c) in s.parent {
        CodeDecodes(v.floor, s.parent[Pos(r, c)]);
      }
    }
  }

  lemma BestIsFallback(v: View, s: Search, target: Pos, g: Pos)
    requires v.Valid() && s.Exhausted(v.Open(), v.Here())
    requires forall p :: p in s.dist ==> v.floor.InMap(p)
    requires BestBefore(s, v.Here(), target, v.floor.Height(), 0, g)
    ensures Fallback(v.Open(), v.Here(), target, g)
  {
    SearchIsExact(s, v.Open(), v.Here(), g);
    forall p | Reachable(v.Open(), v.Here(), p) ensures p in s.dist && p.row < v.floor.Height() {
      SearchIsExact(s, v.Open(), v.Here(), p);
    }
  }

  /** The cell the matrix records as the one p was discovered from. */
  method ParentCell(f: Floor, parent: array2<int>, ghost start: Pos, p: Pos, ghost open: iset<Pos>, ghost s: Search)
    returns (q: Pos)
    requires s.Rooted(start) && s.Tree(open, start) && Recorded(f, parent, s) && p in s.dist && p != start
    ensures q in s.dist && Step(open, q, p) && s.dist[p] == s.dist[q] + 1
  {
    var code := parent[p.row, p.col];
    CodeDecodes(f, s.parent[p]);
    q := Pos(code / f.Width(), code % f.Width());
  }

  /** The walk leads from a cell to g by discovered cells, one farther at each step. */
  ghost predicate Traced(s: Search, open: iset<Pos>, at: Pos, g: Pos, walk: seq<Pos>) {
    && |walk| > 0 && walk[0] == at && walk[|walk| - 1] == g && Chain(open, walk)
    && at in s.dist && g in s.dist && s.dist[at] + |walk| - 1 == s.dist[g]
  }

  method StepBack(f: Floor, parent: array2<int>, ghost start: Pos, at: Pos, ghost g: Pos, ghost open: iset<Pos>,
                  ghost s: Search, ghost walk: seq<Pos>)
    returns (prev: Pos, ghost longer: seq<Pos>)
    requires s.Rooted(start) && s.Tree(open, start) && Recorded(f, parent, s) && Traced(s, open, at, g, walk) && at != start
    ensures longer == [prev] + walk && Traced(s, open, prev, g, longer)
  {
    prev := ParentCell(f, parent, start, at, open, s);
    TraceStep(s, open, at, prev, g, walk);
    longer := [prev] + walk;
  }

  /** Follows parents back from g, keeping every cell passed, until the start is
      reached; the last cell kept is the one to enter. */
  method TracePath(f: Floor, parent: array2<int>, start: Pos, g: Pos, ghost open: iset<Pos>, ghost s: Search)
    returns (length: nat, next: Pos, ghost walk: seq<Pos>)
    requires f.InMap(start) && s.Rooted(start) && s.Tree(open, start) && Recorded(f, parent, s)
    requires g in s.dist && s.dist[g] < f.Height() * f.Width()
    ensures Walk(open, start, walk, g) && length == s.dist[g] && |walk| == length + 1
    ensures length > 0 ==> next == walk[1]
  {
    var size := f.Height() * f.Width();
    var pathR, pathC := new int[size], new int[size];
    var at := g;
    length, next, walk := 0, g, [g];
    while Code(f, at) != Code(f, start)
      invariant Traced(s, open, at, g, walk) && |walk| == length + 1
      invariant 0 <= length <= size
      invariant length > 0 ==> walk[1] == Pos(pathR[length - 1], pathC[length - 1])
      decreases s.dist[at]
    {
      pathR[length], pathC[length] := at.row, at.col;
      length := length + 1;
      at, walk := StepBack(f, parent, start, at, g, open, s, walk);
    }
    SameCode(f, at, start);
    if length > 0 {
      next := Pos(pathR[length - 1], pathC[length - 1]);
    }
  }

  lemma TraceStep(s: Search, open: iset<Pos>, at: Pos, prev: Pos, g: Pos, walk: seq<Pos>)
    requires Traced(s, open, at, g, walk) && prev in s.dist && Step(open, prev, at) && s.dist[at] == s.dist[prev] + 1
    ensures Traced(s, open, prev, g, [prev] + walk)
  {
  }

  /** The command that leads from start to the neighbouring cell next. */
  method DirectionOf(start: Pos, next: Pos) returns (d: int)
    requires exists d :: 1 <= d <= 4 && next == Next(start, d)
    ensures 1 <= d <= 4 && next == Next(start, d)
  {
    if next.row < start.row { return 1; }
    if next.row > start.row { return 2; }
    if next.col < start.col { return 3; }
    return 4;
  }

  lemma DistanceBelowQueue(s: Search, open: iset<Pos>, start: Pos, g: Pos)
    requires s.Exhausted(open, start) && g in s.dist
    ensures s.dist[g] < |s.queue|
  {
    var k :| 0 <= k < |s.queue| && s.queue[k] == g;
  }

  /** get_next_direction, on every map and every placement of the robots. */
  method GetNextDirection(v: View, target: Pos) returns (d: int)
    requires v.Valid() && v.floor.InMap(target)
    ensures NextCommand(v, target, d)
  {
    var parent := new int[v.floor.Height(), v.floor.Width()]((r, c) => -1);
    ghost var s := Explore(v, parent);
    var g := ChooseGoal(v, parent, target, s);
    DistanceBelowQueue(s, v.Open(), v.Here(), g);
    DiscoveredFits(s, v.floor, v.Here());
    var length, next, walk := TracePath(v.floor, parent, v.Here(), g, v.Open(), s);
    SearchIsExact(s, v.Open(), v.Here(), g);
    assert ShortestWalk(v.Open(), v.Here(), walk, g);
    d := 0;
    if length > 0 {
      assert Step(v.Open(), walk[0], walk[1]);
      d := DirectionOf(v.Here(), next);
    }
    assert FirstStep(v.Open(), v.Here(), g, d);
  }

  /** A planned move always enters a cell the robot may enter. */
  lemma CommandEntersOpenCell(v: View, target: Pos, d: int)
    requires v.Valid() && NextCommand(v, target, d)
    ensures 0 <= d <= 4 && (d != 0 ==> !v.Blocked(Next(v.Here(), d)))
  {
    var g :| Goal(v.Open(), v.Here(), target, g) && FirstStep(v.Open(), v.Here(), g, d);
    if g != v.Here() {
      var w :| ShortestWalk(v.Open(), v.Here(), w, g) && |w| > 1 && w[1] == Next(v.Here(), d);
      assert Step(v.Open(), w[0], w[1]);
    }
  }

  /** The planner waits exactly when the robot is there already, or when the
      target is out of reach and no reachable cell is strictly nearer to it. */
  lemma WaitsExactlyWhen(v: View, target: Pos, d: int)
    requires v.Valid() && NextCommand(v, target, d)
    ensures d == 0 <==>
      if Reachable(v.Open(), v.Here(), target) then target == v.Here()
      else forall p :: Reachable(v.Open(), v.Here(), p) ==> Distance(v.Here(), target) <= Distance(p, target)
  {
    assert Walk(v.Open(), v.Here(), [v.Here()], v.Here());
    assert Reachable(v.Open(), v.Here(), v.Here());
  }
}
