/** Moving elements from one list to another, on the links. */
module ListMoves {
  import opened HashTable
  import opened KernelList

  /** Different elements linked in both directions among each other. */
  ghost predicate Chain(m: seq<Elem>)
    reads m
  {
    && |m| >= 1
    && (forall i, j :: 0 <= i < j < |m| ==> m[i] != m[j])
    && (forall i :: 0 <= i < |m| - 1 ==> m[i].next == m[i + 1])
    && (forall i :: 1 <= i < |m| ==> m[i].prev == m[i - 1])
  }

  ghost predicate Disjoint(s: seq<Elem>, u: seq<Elem>) {
    forall i, j :: 0 <= i < |s| && 0 <= j < |u| ==> s[i] != u[j]
  }

  /** The order of a list without the elements at positions f to l, and with a block m put before
      position k. */
  ghost function Without(s: seq<Elem>, f: nat, l: nat): seq<Elem>
    requires f <= l <= |s|
  {
    s[..f] + s[l..]
  }

  ghost function With(u: seq<Elem>, k: nat, m: seq<Elem>): seq<Elem>
    requires k <= |u|
  {
    u[..k] + m + u[k..]
  }

  /** The first two link updates of list_splice: the elements from first to end leave their list
      and stay linked among each other. */
  method CutOut(first: Elem, end: Elem, ghost s: seq<Elem>, ghost f: nat, ghost l: nat)
    requires Linked(s) && 1 <= f < l < |s| && s[f] == first && s[l - 1] == end
    modifies s[f - 1], s[l]
    ensures Linked(Without(s, f, l)) && Chain(s[f..l])
  {
    assert s[f].prev == s[f - 1] && s[l - 1].next == s[l];
    first.prev.next := end.next;
    end.next.prev := first.prev;
  }

  /** Every link of u points to the next position except the two at position k, which point to the
      ends of the block m, and these to it. */
  ghost predicate Grafted(u: seq<Elem>, k: nat, m: seq<Elem>)
    reads u, m
  {
    && 1 <= k < |u| && Chain(m) && Disjoint(u, m)
    && (forall i, j :: 0 <= i < j < |u| ==> u[i] != u[j])
    && u[0].prev == null && u[|u| - 1].next == null
    && (forall i :: 0 <= i < |u| - 1 && i != k - 1 ==> u[i].next == u[i + 1])
    && (forall i :: 1 <= i < |u| && i != k ==> u[i].prev == u[i - 1])
    && u[k - 1].next == m[0] && m[0].prev == u[k - 1] && u[k].prev == m[|m| - 1] && m[|m| - 1].next == u[k]
  }

  lemma GraftedLinked(u: seq<Elem>, k: nat, m: seq<Elem>)
    requires Grafted(u, k, m)
    ensures Linked(With(u, k, m))
  {
    var t, n := With(u, k, m), |m|;
    forall i | 0 <= i < |t| ensures t[i] == if i < k then u[i] else if i < k + n then m[i - k] else u[i - n] {
    }
    forall i | 0 <= i < |t| - 1 ensures t[i].next == t[i + 1] {
      assert i == k + n - 1 ==> t[i + 1] == u[k];
    }
    forall i | 1 <= i < |t| ensures t[i].prev == t[i - 1] {
      assert i == k + n ==> t[i - 1] == m[n - 1];
    }
  }

  /** The other four. */
  method Graft(before: Elem, first: Elem, end: Elem, ghost u: seq<Elem>, ghost k: nat, ghost m: seq<Elem>)
    requires Linked(u) && 1 <= k < |u| && u[k] == before
    requires Chain(m) && Disjoint(u, m) && m[0] == first && m[|m| - 1] == end
    modifies u[k - 1], u[k], first, end
    ensures Grafted(u, k, m)
  {
    assert u[k].prev == u[k - 1];
    first.prev := before.prev;
    end.next := before;
    before.prev.next := first;
    before.prev := end;
  }

  /** Two lists with no element in common. */
  ghost predicate Apart(a: List, b: List)
    reads a, b
  {
    a != b && a.repr !! b.repr
  }

  lemma ApartOrders(a: List, b: List)
    requires a.Valid() && b.Valid() && Apart(a, b)
    ensures Disjoint(a.order, b.order)
  {
  }

  /** The whole of list_splice's link updates between two lists. */
  method Transfer(before: Elem, first: Elem, end: Elem, ghost s: seq<Elem>, ghost f: nat, ghost l: nat,
                  ghost u: seq<Elem>, ghost k: nat, ghost m: seq<Elem>)
    requires Linked(s) && 1 <= f < l < |s| && s[f] == first && s[l - 1] == end && m == s[f..l]
    requires Linked(u) && 1 <= k < |u| && u[k] == before && Disjoint(s, u)
    modifies s, u
    ensures Linked(Without(s, f, l)) && Linked(With(u, k, m))
  {
    CutOut(first, end, s, f, l);
    Graft(before, first, end, u, k, m);
    GraftedLinked(u, k, m);
  }

  ghost function Elems(m: seq<Elem>): set<Elem> {
    set x | x in m
  }

  /** The part that stays keeps its elements, and the ends of both lists stay. */
  lemma TransferMembers(s: seq<Elem>, f: nat, l: nat, u: seq<Elem>, k: nat, p: set<Elem>, q: set<Elem>)
    requires 1 <= f <= l < |s| && 1 <= k < |u| && (forall i, j :: 0 <= i < j < |s| ==> s[i] != s[j])
    requires (forall i :: 0 <= i < |s| ==> s[i] in p) && (forall i :: 0 <= i < |u| ==> u[i] in q) && p !! q
    ensures var m, s', u' := s[f..l], Without(s, f, l), With(u, k, s[f..l]);
      && (forall i :: 0 <= i < |s'| ==> s'[i] in p - Elems(m)) && (forall i :: 0 <= i < |u'| ==> u'[i] in q + Elems(m))
      && s'[0] == s[0] && s'[|s'| - 1] == s[|s| - 1] && u'[0] == u[0] && u'[|u'| - 1] == u[|u| - 1]
      && p - Elems(m) !! q + Elems(m) && p - Elems(m) + (q + Elems(m)) == p + q
  {
  }

  /** The lists take over their new orders. */
  ghost method Reorder(list: List, t: seq<Elem>, p: set<Elem>)
    requires Linked(t) && t[0] == list.head && t[|t| - 1] == list.tail && forall i :: 0 <= i < |t| ==> t[i] in p
    modifies list
    ensures list.Valid() && list.order == t && list.repr == p
  {
    list.order, list.repr := t, p;
  }

  method SpliceSome(from: List, to: List, before: Elem, first: Elem, last: Elem, ghost k: nat, ghost f: nat, ghost l: nat)
    requires from.Valid() && to.Valid() && Apart(from, to)
    requires 1 <= f < l < |from.order| && from.order[f] == first && from.order[l] == last
    requires 1 <= k < |to.order| && to.order[k] == before
    modifies from, to, from.repr, to.repr
    ensures from.Valid() && to.Valid() && Apart(from, to)
    ensures from.order == old(Without(from.order, f, l)) && to.order == old(With(to.order, k, from.order[f..l]))
    ensures from.repr + to.repr == old(from.repr + to.repr)
  {
    ghost var s, u, p, q := from.order, to.order, from.repr, to.repr;
    ghost var m := s[f..l];
    ApartOrders(from, to);
    TransferMembers(s, f, l, u, k, p, q);
    assert s[l].prev == s[l - 1];
    Transfer(before, first, last.prev, s, f, l, u, k, m);
    Reorder(from, Without(s, f, l), p - Elems(m));
    Reorder(to, With(u, k, m), q + Elems(m));
  }

  /** list_splice from one list to another: the elements from first up to but excluding last,
      at positions f to l of theirs, come to stand just before an element of the other list, at
      position k. Both lists stay well linked in both directions. */
  method SpliceAcross(from: List, to: List, before: Elem, first: Elem, last: Elem, ghost k: nat, ghost f: nat, ghost l: nat)
    requires from.Valid() && to.Valid() && Apart(from, to)
    requires 1 <= f <= l < |from.order| && from.order[f] == first && from.order[l] == last
    requires 1 <= k < |to.order| && to.order[k] == before
    modifies from, to, from.repr, to.repr
    ensures from.Valid() && to.Valid() && Apart(from, to)
    ensures from.order == old(Without(from.order, f, l)) && to.order == old(With(to.order, k, from.order[f..l]))
    ensures from.repr + to.repr == old(from.repr + to.repr)
  {
    if first != last {
      SpliceSome(from, to, before, first, last, k, f, l);
    } else {
      assert f == l && from.order[f..l] == [];
      assert Without(from.order, f, l) == from.order && With(to.order, k, []) == to.order;
    }
  }

  // ---------------------------------------------------------------------
  // Moving the elements of a bucket to new buckets.

  /** list_remove, then list_push_front on another list. */
  method MoveToFront(from: List, to: List, elem: Elem, ghost k: nat) returns (next: Elem)
    requires from.Valid() && to.Valid() && Apart(from, to)
    requires 1 <= k < |from.order| - 1 && from.order[k] == elem
    modifies from, to, from.repr, to.repr
    ensures from.Valid() && to.Valid() && Apart(from, to)
    ensures from.order == old(Without(from.order, k, k + 1)) && next == from.order[k]
    ensures to.order == old(With(to.order, 1, [elem]))
    ensures from.repr == old(from.repr) - {elem} && to.repr == old(to.repr) + {elem}
  {
    ApartOrders(from, to);
    assert to.order[0].next == to.order[1] && elem !in to.order;
    next := from.Remove(elem, k);
    assert elem !in from.order;
    from.repr := from.repr - {elem};
    to.Insert(to.head.next, elem, 1);
  }

  /** No two of the lists share an element. */
  ghost predicate AllApart(from: List, to: seq<List>)
    reads from, to
  {
    && (forall j :: 0 <= j < |to| ==> Apart(from, to[j]))
    && (forall i, j :: 0 <= i < j < |to| ==> Apart(to[i], to[j]))
  }

  /** The elements that belong in bucket b, the last first: each was put in front. */
  ghost function Gathered(c: seq<Elem>, bucket: Elem -> nat, b: nat): seq<Elem> {
    if c == [] then []
    else
      var last, rest := c[|c| - 1], Gathered(c[..|c| - 1], bucket, b);
      if bucket(last) == b then [last] + rest else rest
  }

  /** The elements the lists may hold or touch. */
  ghost predicate Covered(from: List, to: seq<List>, all: set<Elem>)
    reads from, to
  {
    from.repr <= all && forall j :: 0 <= j < |to| ==> to[j].repr <= all
  }

  ghost function Inner(s: seq<Elem>): seq<Elem> {
    if |s| < 2 then [] else s[1..|s| - 1]
  }

  /** What is in each of the lists. */
  ghost function Inners(lists: seq<List>): (r: seq<seq<Elem>>)
    reads lists
    ensures |r| == |lists| && forall j :: 0 <= j < |lists| ==> r[j] == Inner(lists[j].order)
  {
    seq(|lists|, j requires 0 <= j < |lists| reads lists => Inner(lists[j].order))
  }

  lemma FirstMoves(s: seq<Elem>, u: seq<Elem>, x: Elem)
    requires |s| > 2 && |u| >= 2
    ensures Inner(Without(s, 1, 2)) == Inner(s)[1..] && Inner(With(u, 1, [x])) == [x] + Inner(u)
  {
  }

  /** The first element of one list goes to the front of another; the lists besides stay. */
  method MoveAmong(from: List, to: seq<List>, b: nat, elem: Elem) returns (next: Elem)
    requires from.Valid() && (forall j :: 0 <= j < |to| ==> to[j].Valid()) && AllApart(from, to)
    requires b < |to| && to[b].Valid() && |from.order| > 2 && from.order[1] == elem
    modifies from, to[b], from.repr, to[b].repr
    ensures from.Valid() && (forall j :: 0 <= j < |to| ==> to[j].Valid()) && AllApart(from, to)
    ensures next == from.order[1] && from.order == old(Without(from.order, 1, 2))
    ensures to[b].order == old(With(to[b].order, 1, [elem]))
    ensures elem in old(from.repr) && from.repr == old(from.repr) - {elem} && to[b].repr == old(to[b].repr) + {elem}
    ensures forall j :: 0 <= j < |to| && j != b ==> to[j].order == old(to[j].order) && to[j].repr == old(to[j].repr)
  {
    assert Apart(from, to[b]);
    assert forall j :: 0 <= j < |to| && j != b ==> to[j] != to[b] by {
      assert forall j :: 0 <= j < b ==> Apart(to[j], to[b]);
      assert forall j :: b < j < |to| ==> Apart(to[b], to[j]);
    }
    assert from.order[1].next == from.order[2];
    next := elem.next;
    var _ := MoveToFront(from, to[b], elem, 1);
  }

  /** The same, by what is in each list. */
  method MoveInner(from: List, to: seq<List>, b: nat, elem: Elem) returns (next: Elem)
    requires from.Valid() && (forall j :: 0 <= j < |to| ==> to[j].Valid()) && AllApart(from, to)
    requires b < |to| && to[b].Valid() && |from.order| > 2 && from.order[1] == elem
    modifies from, to[b], from.repr, to[b].repr
    ensures from.Valid() && (forall j :: 0 <= j < |to| ==> to[j].Valid()) && AllApart(from, to)
    ensures next == from.order[1] && from.Contents() == old(from.Contents()[1..])
    ensures Inner(to[b].order) == [elem] + old(Inner(to[b].order))
    ensures forall j :: 0 <= j < |to| && j != b ==> to[j].order == old(to[j].order) && to[j].repr == old(to[j].repr)
    ensures from.repr <= old(from.repr) && to[b].repr <= old(to[b].repr) + old(from.repr)
  {
    FirstMoves(from.order, to[b].order, elem);
    next := MoveAmong(from, to, b, elem);
  }

  lemma InnersUpdated(to: seq<List>, was: seq<seq<Elem>>, b: nat, x: Elem)
    requires |was| == |to| && b < |to| && Inner(to[b].order) == [x] + was[b]
    requires forall j :: 0 <= j < |to| && j != b ==> Inner(to[j].order) == was[j]
    ensures Inners(to) == was[b := [x] + was[b]]
  {
  }

  /** The same, by what is in all of them. */
  method MoveFirst(from: List, to: seq<List>, b: nat, elem: Elem, ghost all: set<Elem>) returns (next: Elem)
    requires from.Valid() && (forall j :: 0 <= j < |to| ==> to[j].Valid()) && AllApart(from, to) && Covered(from, to, all)
    requires b < |to| && to[b].Valid() && |from.order| > 2 && from.order[1] == elem
    modifies from, to, all
    ensures from.Valid() && (forall j :: 0 <= j < |to| ==> to[j].Valid()) && AllApart(from, to) && Covered(from, to, all)
    ensures next == from.order[1] && from.Contents() == old(from.Contents()[1..])
    ensures Inners(to) == old(Inners(to)[b := [elem] + Inners(to)[b]])
  {
    ghost var was := Inners(to);
    next := MoveInner(from, to, b, elem);
    InnersUpdated(to, was, b, elem);
  }

  /** The buckets hold what they held before and, in front of it, what was gathered from c. */
  ghost predicate Spread(now: seq<seq<Elem>>, c: seq<Elem>, bucket: Elem -> nat, was: seq<seq<Elem>>) {
    |was| == |now| && forall j :: 0 <= j < |now| ==> now[j] == Gathered(c, bucket, j) + was[j]
  }

  lemma SpreadOne(now: seq<seq<Elem>>, c: seq<Elem>, n: nat, bucket: Elem -> nat, was: seq<seq<Elem>>)
    requires n < |c| && bucket(c[n]) < |now| && Spread(now, c[..n], bucket, was)
    ensures var b := bucket(c[n]); Spread(now[b := [c[n]] + now[b]], c[..n + 1], bucket, was)
  {
    assert c[..n + 1][..n] == c[..n];
    var b := bucket(c[n]);
    assert Gathered(c[..n + 1], bucket, b) + was[b] == [c[n]] + (Gathered(c[..n], bucket, b) + was[b]);
  }

  /** The inner loop of rehash: every element of an old bucket goes to the front of the new bucket
      it belongs in. */
  method Scatter(from: List, to: seq<List>, bucket: Elem -> nat, ghost all: set<Elem>)
    requires from.Valid() && (forall j :: 0 <= j < |to| ==> to[j].Valid()) && AllApart(from, to) && Covered(from, to, all)
    requires forall x :: x in from.Contents() ==> bucket(x) < |to|
    modifies from, to, all
    ensures from.Valid() && (forall j :: 0 <= j < |to| ==> to[j].Valid()) && AllApart(from, to) && Covered(from, to, all)
    ensures from.Contents() == [] && Spread(Inners(to), old(from.Contents()), bucket, old(Inners(to)))
  {
    ghost var was, c, n := Inners(to), from.Contents(), 0;
    assert from.order[0].next == from.order[1];
    var elem := from.head.next;
    while elem != from.tail
      invariant from.Valid() && (forall j :: 0 <= j < |to| ==> to[j].Valid()) && AllApart(from, to) && Covered(from, to, all)
      invariant n <= |c| && from.Contents() == c[n..] && elem == from.order[1] && Spread(Inners(to), c[..n], bucket, was)
      decreases |c| - n
    {
      assert from.Contents()[0] == elem == c[n] && elem in c;
      SpreadOne(Inners(to), c, n, bucket, was);
      elem := MoveFirst(from, to, bucket(elem), elem, all);
      n := n + 1;
    }
    assert c[..n] == c;
  }

  /** The last element moved, moved back. */
  lemma SpreadLast(now: seq<seq<Elem>>, d: seq<Elem>, x: Elem, bucket: Elem -> nat, was: seq<seq<Elem>>)
    requires Spread(now, d + [x], bucket, was) && bucket(x) < |now|
    ensures var b := bucket(x);
      && now[b] == [x] + (Gathered(d, bucket, b) + was[b])
      && Spread(now[b := Gathered(d, bucket, b) + was[b]], d, bucket, was)
  {
    assert (d + [x])[..|d|] == d;
  }

  /** Nothing is lost or doubled on the way: the buckets hold what they held and the moved elements. */
  lemma {:induction false} SpreadConserves(now: seq<seq<Elem>>, c: seq<Elem>, bucket: Elem -> nat, was: seq<seq<Elem>>)
    requires Spread(now, c, bucket, was) && forall x :: x in c ==> bucket(x) < |now|
    ensures All(now) == All(was) + multiset(c)
    decreases |c|
  {
    if c == [] {
      forall j | 0 <= j < |now| ensures now[j] == was[j] {
        assert now[j] == [] + was[j];
      }
      assert now == was;
    } else {
      var d, x := c[..|c| - 1], c[|c| - 1];
      var b := bucket(x);
      assert c == d + [x];
      SpreadLast(now, d, x, bucket, was);
      var before := now[b := Gathered(d, bucket, b) + was[b]];
      SpreadConserves(before, d, bucket, was);
      AllPush(before, b, x);
      assert now == before[b := [x] + before[b]];
    }
  }
}
