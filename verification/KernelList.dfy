/** The kernel's doubly linked lists with sentinels, and their in-place natural
    merge sort. */
module KernelList {
  class Elem {
    var prev: Elem?
    var next: Elem?

    constructor ()
      ensures prev == null && next == null
    {
      prev, next := null, null;
    }
  }

  /** s[0] to s[|s| - 1] are different elements, each linked to its neighbours
      in both directions and to nothing beyond the ends. */
  ghost predicate Linked(s: seq<Elem>)
    reads s
  {
    && |s| >= 2
    && (forall i, j :: 0 <= i < j < |s| ==> s[i] != s[j])
    && s[0].prev == null && s[|s| - 1].next == null
    && (forall i :: 0 <= i < |s| - 1 ==> s[i].next == s[i + 1])
    && (forall i :: 1 <= i < |s| ==> s[i].prev == s[i - 1])
  }

  /** A list is its head, the elements in it, and its tail. */
  class List {
    const head: Elem
    const tail: Elem
    ghost var order: seq<Elem>
    ghost var repr: set<Elem>

    ghost predicate Valid()
      reads this, order
    {
      && Linked(order) && order[0] == head && order[|order| - 1] == tail
      && forall i :: 0 <= i < |order| ==> order[i] in repr
    }

    /** The elements between the sentinels. */
    ghost function Contents(): seq<Elem>
      requires Valid()
      reads this, order
    {
      order[1..|order| - 1]
    }

    constructor ()
      ensures Valid() && fresh(repr) && Contents() == []
    {
      head := new Elem();
      tail := new Elem();
      new;
      head.next, tail.prev := tail, head;
      order, repr := [head, tail], {head, tail};
    }

    /** list_insert: just before an interior element or the tail. */
    method Insert(before: Elem, elem: Elem, ghost k: nat)
      requires Valid() && 1 <= k < |order| && order[k] == before && elem !in order
      modifies this, repr, elem
      ensures Valid() && order == old(order[..k] + [elem] + order[k..]) && repr == old(repr) + {elem}
    {
      assert order[k].prev == order[k - 1];
      elem.prev := before.prev;
      elem.next := before;
      before.prev.next := elem;
      before.prev := elem;
      order, repr := order[..k] + [elem] + order[k..], repr + {elem};
    }

    /** list_remove: returns the element that followed. */
    method Remove(elem: Elem, ghost k: nat) returns (next: Elem)
      requires Valid() && 1 <= k < |order| - 1 && order[k] == elem
      modifies this`order, repr
      ensures Valid() && order == old(order[..k] + order[k + 1..]) && next == order[k]
    {
      assert order[k].prev == order[k - 1] && order[k].next == order[k + 1];
      elem.prev.next := elem.next;
      elem.next.prev := elem.prev;
      next := elem.next;
      order := order[..k] + order[k + 1..];
    }

    /** list_splice within one list: the elements from first up to but excluding
        last, which stand at positions f to l, are moved just before an element
        that lies outside them. */
    method Splice(before: Elem, first: Elem, last: Elem, ghost k: nat, ghost f: nat, ghost l: nat)
      requires Valid() && 1 <= f <= l < |order| && 1 <= k < |order| && (k < f || l <= k)
      requires order[k] == before && order[f] == first && order[l] == last
      modifies this`order, repr
      ensures Valid() && order == old(Spliced(order, k, f, l))
    {
      if first == last {
        assert f == l;
        SplicedNothing(order, k, f);
      } else {
        SpliceSome(before, first, last, k, f, l, Spliced(order, k, f, l));
      }
    }

    method SpliceSome(before: Elem, first: Elem, last: Elem, ghost k: nat, ghost f: nat, ghost l: nat, ghost t: seq<Elem>)
      requires Valid() && 1 <= f < l < |order| && 1 <= k < |order| && (k < f || l <= k) && t == Spliced(order, k, f, l)
      requires order[k] == before && order[f] == first && order[l] == last
      modifies this`order, repr
      ensures Valid() && order == t
    {
      SplicedMembers(order, repr, k, f, l, t);
      MoveBlock(before, first, last, order, k, f, l, t);
      order := t;
    }
  }

  /** The six link updates of list_splice. */
  method Relink(before: Elem, first: Elem, last: Elem, ghost s: seq<Elem>, ghost k: nat, ghost f: nat, ghost l: nat)
    requires Linked(s) && 1 <= f < l < |s| && 1 <= k < |s| && (k < f || l <= k)
    requires s[k] == before && s[f] == first && s[l] == last
    modifies s
    ensures k < f ==> Exchanging(s, k, f, l)
    ensures l < k ==> Exchanging(s, f, l, k)
    ensures k == l ==> Linked(s)
  {
    assert s[f].prev == s[f - 1] && s[l].prev == s[l - 1];
    assert s[l - 1].next == s[l] && s[k].prev == s[k - 1];
    var end := last.prev;
    first.prev.next := end.next;
    end.next.prev := first.prev;

    first.prev := before.prev;
    end.next := before;
    before.prev.next := first;
    before.prev := end;
  }

  method MoveBlock(before: Elem, first: Elem, last: Elem, ghost s: seq<Elem>, ghost k: nat, ghost f: nat, ghost l: nat,
                   ghost t: seq<Elem>)
    requires Linked(s) && 1 <= f < l < |s| && 1 <= k < |s| && (k < f || l <= k) && t == Spliced(s, k, f, l)
    requires s[k] == before && s[f] == first && s[l] == last
    modifies s
    ensures Linked(t) && |t| == |s| && t[0] == s[0] && t[|s| - 1] == s[|s| - 1]
  {
    Relink(before, first, last, s, k, f, l);
    SplicedLinked(s, k, f, l);
  }

  /** s with the elements at positions f to l moved to just before position k. */
  ghost function Spliced(s: seq<Elem>, k: nat, f: nat, l: nat): seq<Elem>
    requires f <= l <= |s| && k <= |s| && (k <= f || l <= k)
  {
    if k <= f then Exchanged(s, k, f, l) else Exchanged(s, f, l, k)
  }

  /** s with the neighbouring blocks [a, b) and [b, c) exchanged. */
  ghost function Exchanged(s: seq<Elem>, a: nat, b: nat, c: nat): seq<Elem>
    requires a <= b <= c <= |s|
  {
    s[..a] + s[b..c] + s[a..b] + s[c..]
  }

  /** Where the element at position i after an exchange came from. */
  ghost function Source(a: nat, b: nat, c: nat, i: nat): nat
    requires a <= b <= c
  {
    if i < a || c <= i then i else if i < a + (c - b) then i - a + b else i - (c - b)
  }

  lemma ExchangedPoint(s: seq<Elem>, a: nat, b: nat, c: nat, i: nat)
    requires a <= b <= c <= |s| && i < |s|
    ensures |Exchanged(s, a, b, c)| == |s| && Exchanged(s, a, b, c)[i] == s[Source(a, b, c, i)]
  {
  }

  lemma ExchangedAt(s: seq<Elem>, a: nat, b: nat, c: nat)
    requires a <= b <= c <= |s|
    ensures |Exchanged(s, a, b, c)| == |s|
    ensures forall i :: 0 <= i < |s| ==> Exchanged(s, a, b, c)[i] == s[Source(a, b, c, i)]
  {
  }

  /** Every link points to the next position except the three at the borders of
      two neighbouring blocks, which point as if the blocks were exchanged. */
  ghost predicate Exchanging(s: seq<Elem>, a: nat, b: nat, c: nat)
    reads s
  {
    && 1 <= a < b < c < |s|
    && (forall i, j :: 0 <= i < j < |s| ==> s[i] != s[j])
    && s[0].prev == null && s[|s| - 1].next == null
    && (forall i :: 0 <= i < |s| - 1 && i != a - 1 && i != b - 1 && i != c - 1 ==> s[i].next == s[i + 1])
    && s[a - 1].next == s[b] && s[c - 1].next == s[a] && s[b - 1].next == s[c]
    && (forall i :: 1 <= i < |s| && i != a && i != b && i != c ==> s[i].prev == s[i - 1])
    && s[b].prev == s[a - 1] && s[a].prev == s[c - 1] && s[c].prev == s[b - 1]
  }

  lemma ExchangedLinked(s: seq<Elem>, a: nat, b: nat, c: nat)
    requires Exchanging(s, a, b, c)
    ensures Linked(Exchanged(s, a, b, c))
  {
    var t := Exchanged(s, a, b, c);
    ExchangedAt(s, a, b, c);
    forall i | 0 <= i < |t| - 1 ensures t[i].next == t[i + 1] {
      var p, q := Source(a, b, c, i), Source(a, b, c, i + 1);
      assert t[i] == s[p] && t[i + 1] == s[q];
    }
    forall i | 1 <= i < |t| ensures t[i].prev == t[i - 1] {
      var p, q := Source(a, b, c, i - 1), Source(a, b, c, i);
      assert t[i - 1] == s[p] && t[i] == s[q];
    }
    forall i, j | 0 <= i < j < |t| ensures t[i] != t[j] {
      assert t[i] == s[Source(a, b, c, i)] && t[j] == s[Source(a, b, c, j)];
    }
  }

  lemma ExchangedWithNothing(s: seq<Elem>, a: nat, b: nat)
    requires a <= b <= |s|
    ensures Exchanged(s, a, b, b) == s
  {
  }

  lemma SplicedNothing(s: seq<Elem>, k: nat, f: nat)
    requires f <= |s| && k <= |s|
    ensures Spliced(s, k, f, f) == s
  {
  }

  lemma SplicedMembers(s: seq<Elem>, repr: set<Elem>, k: nat, f: nat, l: nat, t: seq<Elem>)
    requires f <= l <= |s| && k <= |s| && (k <= f || l <= k) && t == Spliced(s, k, f, l)
    requires forall i :: 0 <= i < |s| ==> s[i] in repr
    ensures |t| == |s| && forall i :: 0 <= i < |t| ==> t[i] in repr
  {
    if k <= f {
      ExchangedAt(s, k, f, l);
    } else {
      ExchangedAt(s, f, l, k);
    }
  }

  lemma SplicedLinked(s: seq<Elem>, k: nat, f: nat, l: nat)
    requires 1 <= f < l < |s| && 1 <= k < |s| && (k < f || l <= k)
    requires k < f ==> Exchanging(s, k, f, l)
    requires l < k ==> Exchanging(s, f, l, k)
    requires k == l ==> Linked(s)
    ensures Linked(Spliced(s, k, f, l)) && |Spliced(s, k, f, l)| == |s|
    ensures Spliced(s, k, f, l)[0] == s[0] && Spliced(s, k, f, l)[|s| - 1] == s[|s| - 1]
  {
    if k < f {
      ExchangedAt(s, k, f, l);
      ExchangedLinked(s, k, f, l);
    } else if l < k {
      ExchangedAt(s, f, l, k);
      ExchangedLinked(s, f, l, k);
    } else {
      ExchangedWithNothing(s, f, l);
    }
  }
}
