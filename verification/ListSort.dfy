/** list_sort: repeated passes that merge adjacent runs in place until one run
    is left. */
module ListSort {
  import opened KernelList
  import opened RunOrder

  /** find_end_of_run: the first position after a where the order drops, or b. */
  method FindEndOfRun(list: List, a: Elem, b: Elem, less: Less, ghost ia: nat, ghost ib: nat)
    returns (end: Elem, ghost ie: nat)
    requires list.Valid() && 1 <= ia < ib < |list.order| && list.order[ia] == a && list.order[ib] == b
    ensures ie == RunEnd(list.order, ia + 1, ib, less) && ia < ie <= ib && list.order[ie] == end
  {
    assert list.order[ia].next == list.order[ia + 1];
    assert list.order[ia + 1].prev == list.order[ia];
    end, ie := a.next, ia + 1;
    while end != b && !less(end, end.prev)
      invariant ia < ie <= ib && list.order[ie] == end && end.prev == list.order[ie - 1]
      invariant RunEnd(list.order, ie, ib, less) == RunEnd(list.order, ia + 1, ib, less)
      decreases ib - ie
    {
      assert list.order[ie].next == list.order[ie + 1];
      assert list.order[ie + 1].prev == list.order[ie];
      end, ie := end.next, ie + 1;
    }
  }

  /** Moves the element b at position m in front of a; returns what followed b. */
  method MoveInFront(list: List, a: Elem, b: Elem, ghost i: nat, ghost m: nat) returns (next: Elem)
    requires list.Valid() && 1 <= i < m < |list.order| - 1 && list.order[i] == a && list.order[m] == b
    modifies list`order, list.repr
    ensures list.Valid() && list.order == Exchanged(old(list.order), i, m, m + 1)
    ensures |list.order| == old(|list.order|) && list.order[i + 1] == a && list.order[m + 1] == next
    ensures forall k :: m < k < |list.order| ==> list.order[k] == old(list.order[k])
  {
    ghost var s := list.order;
    Moved(s, i, m);
    ghost var t := Exchanged(s, i, m, m + 1);
    assert s[m].next == s[m + 1] && s[m + 1].prev == s[m] && Spliced(s, i, m, m + 1) == t;
    next := b.next;
    list.Splice(a, next.prev, next, i, m, m + 1);
    assert list.order == t && t[m + 1] == s[m + 1];
  }

  /** One comparison of inplace_merge: a stays in front of b, or b moves in front of a. */
  method MergeStep(list: List, a: Elem, b: Elem, less: Less, ghost i: nat, ghost m: nat, ghost hi: nat)
    returns (a': Elem, b': Elem, ghost m': nat)
    requires list.Valid() && 1 <= i < m < hi < |list.order| && list.order[i] == a && list.order[m] == b
    modifies list`order, list.repr
    ensures list.Valid() && i + 1 <= m' <= hi < |list.order| && m <= m' && list.order[hi] == old(list.order[hi])
    ensures list.order[i + 1] == a' && list.order[m'] == b'
    ensures Merged(list.order, i + 1, m', hi, less) == Merged(old(list.order), i, m, hi, less)
  {
    if !less(b, a) {
      assert list.order[i].next == list.order[i + 1];
      return a.next, b, m;
    }
    b' := MoveInFront(list, a, b, i, m);
    a', m' := a, m + 1;
  }

  /** inplace_merge of the runs at [lo, mid) and [mid, hi). */
  method InplaceMerge(list: List, first: Elem, second: Elem, end: Elem, less: Less,
                      ghost lo: nat, ghost mid: nat, ghost hi: nat)
    requires list.Valid() && 1 <= lo < mid < hi < |list.order|
    requires list.order[lo] == first && list.order[mid] == second && list.order[hi] == end
    modifies list`order, list.repr
    ensures list.Valid() && list.order == Merged(old(list.order), lo, mid, hi, less)
  {
    var a, b := first, second;
    ghost var i, m := lo, mid;
    ghost var goal := Merged(list.order, lo, mid, hi, less);
    while a != b && b != end
      invariant list.Valid() && 1 <= i <= m <= hi < |list.order|
      invariant list.order[i] == a && list.order[m] == b && list.order[hi] == end
      invariant Merged(list.order, i, m, hi, less) == goal
      decreases hi - i
    {
      a, b, m := MergeStep(list, a, b, less, i, m, hi);
      i := i + 1;
    }
  }

  /** A pass of s from i on is one run and a pass of t from h on. */
  ghost predicate PassStep(s: seq<Elem>, i: nat, t: seq<Elem>, h: nat, less: Less) {
    && 1 <= i < |s| && 1 <= h < |t|
    && Passed(s, i, less) == (Passed(t, h, less).0, Passed(t, h, less).1 + 1)
  }

  /** One turn of a pass: merge the next two runs, unless only one is left. */
  method MergeNextRuns(list: List, a: Elem, less: Less, ghost i: nat) returns (last: bool, next: Elem, ghost h: nat)
    requires list.Valid() && 1 <= i < |list.order| - 1 && list.order[i] == a
    modifies list`order, list.repr
    ensures list.Valid() && |list.order| == old(|list.order|)
    ensures last ==> (list.order, 1) == Passed(old(list.order), i, less)
    ensures !last ==> i < h < |list.order| && list.order[h] == next && PassStep(old(list.order), i, list.order, h, less)
  {
    ghost var s, n := list.order, |list.order| - 1;
    var b, m := FindEndOfRun(list, a, list.tail, less, i, n);
    if b == list.tail {
      OneRunLeft(s, i, less);
      return true, b, m;
    }
    next, h := FindEndOfRun(list, b, list.tail, less, m, n);
    TwoRuns(s, i, m, h, less);
    InplaceMerge(list, a, b, next, less, i, m, h);
    last := false;
  }

  lemma OneRunLeft(s: seq<Elem>, i: nat, less: Less)
    requires 1 <= i < |s| - 1 && RunEnd(s, i + 1, |s| - 1, less) == |s| - 1
    ensures Passed(s, i, less) == (s, 1)
  {
  }

  lemma TwoRuns(s: seq<Elem>, i: nat, m: nat, h: nat, less: Less)
    requires 1 <= i < m < h < |s| && m == RunEnd(s, i + 1, |s| - 1, less) && h == RunEnd(s, m + 1, |s| - 1, less)
    ensures var t := Merged(s, i, m, h, less);
            |t| == |s| && t[h] == s[h] && PassStep(s, i, t, h, less)
  {
    var m', h' := NextRuns(s, i, less);
    MergedOutside(s, i, m, h, less);
  }

  /** One pass of list_sort. It returns the number of runs it produced. */
  method Pass(list: List, less: Less) returns (runs: nat)
    requires list.Valid()
    modifies list`order, list.repr
    ensures list.Valid() && (list.order, runs) == Passed(old(list.order), 1, less)
  {
    ghost var goal := Passed(list.order, 1, less);
    assert list.order[0].next == list.order[1];
    var a := list.head.next;
    ghost var i := 1;
    runs := 0;
    while a != list.tail
      invariant list.Valid() && 1 <= i < |list.order| && list.order[i] == a
      invariant goal == (Passed(list.order, i, less).0, runs + Passed(list.order, i, less).1)
      decreases |list.order| - i
    {
      runs := runs + 1;
      var last;
      last, a, i := MergeNextRuns(list, a, less, i);
      if last {
        return;
      }
    }
  }

  /** A pass, as a step towards a sorted list. */
  method SortPass(list: List, less: Less, ghost s0: seq<Elem>, ghost els: set<Elem>) returns (runs: nat)
    requires list.Valid() && StrictWeak(els, less) && Inner(list.order, els) && StableOf(s0, list.order, less)
    modifies list`order, list.repr
    ensures list.Valid() && PassDone(list.order, old(list.order), els, runs, less)
    ensures StableOf(s0, list.order, less) && multiset(list.order) == multiset(old(list.order))
  {
    PassFromFront(s0, list.order, els, less);
    runs := Pass(list, less);
  }

  /** list_sort leaves the same elements, linked as before, in nondecreasing
      order, with elements that are not less than each other in their old order. */
  method Sort(list: List, less: Less)
    requires list.Valid() && StrictWeak((set e | e in list.Contents()), less)
    modifies list`order, list.repr
    ensures list.Valid() && multiset(list.order) == old(multiset(list.order))
    ensures StableOf(old(list.order), list.order, less)
    ensures NonDecreasing(list.order, 1, |list.order| - 1, less)
  {
    ghost var els := set e | e in list.Contents();
    InnerContents(list, els, less);
    SortRuns(list, less, list.order, els);
  }

  /** Passes until one run is left. */
  method SortRuns(list: List, less: Less, ghost s0: seq<Elem>, ghost els: set<Elem>)
    requires list.Valid() && StrictWeak(els, less) && Inner(list.order, els) && StableOf(s0, list.order, less)
    modifies list`order, list.repr
    ensures list.Valid() && multiset(list.order) == old(multiset(list.order))
    ensures StableOf(s0, list.order, less) && NonDecreasing(list.order, 1, |list.order| - 1, less)
  {
    var runs := SortPass(list, less, s0, els);
    while runs > 1
      invariant list.Valid() && Inner(list.order, els)
      invariant StableOf(s0, list.order, less) && multiset(list.order) == old(multiset(list.order))
      invariant runs <= 1 ==> NonDecreasing(list.order, 1, |list.order| - 1, less)
      decreases runs > 1, Descents(list.order, 1, |list.order| - 1, less)
    {
      runs := SortPass(list, less, s0, els);
    }
  }

  lemma InnerContents(list: List, els: set<Elem>, less: Less)
    requires list.Valid() && els == set e | e in list.Contents()
    ensures Inner(list.order, els) && StableOf(list.order, list.order, less)
  {
    assert forall x, y :: Before(list.order, x, y) ==> !Before(list.order, y, x);
    forall i | 0 < i < |list.order| - 1 ensures list.order[i] in els {
      assert list.order[i] == list.Contents()[i - 1];
    }
  }
}
