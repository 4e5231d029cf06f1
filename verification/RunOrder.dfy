/** Sequences made of runs: what merging two adjacent runs in place does to
    order, stability and the number of runs. */
module RunOrder {
  import opened KernelList

  type Less = (Elem, Elem) -> bool

  /** A strict weak order on the given elements: asymmetric, and "not less" is
      transitive. */
  ghost predicate StrictWeak(els: set<Elem>, less: Less) {
    && (forall a, b :: a in els && b in els && less(a, b) ==> !less(b, a))
    && (forall a, b, c :: a in els && b in els && c in els && !less(a, b) && !less(b, c) ==> !less(a, c))
  }

  /** All elements of s but the sentinels at both ends are in els. */
  ghost predicate Inner(s: seq<Elem>, els: set<Elem>) {
    forall i :: 0 < i < |s| - 1 ==> s[i] in els
  }

  /** No element of [lo, hi) is less than the one before it. */
  ghost predicate NonDecreasing(s: seq<Elem>, lo: int, hi: int, less: Less)
    requires 0 <= lo && hi <= |s|
  {
    forall k :: lo < k < hi ==> !less(s[k], s[k - 1])
  }

  lemma {:induction false} NotLessLater(s: seq<Elem>, els: set<Elem>, lo: int, hi: int, less: Less, p: int, q: int)
    requires Inner(s, els) && StrictWeak(els, less)
    requires 0 < lo <= p <= q < hi < |s| && NonDecreasing(s, lo, hi, less)
    ensures !less(s[q], s[p])
    decreases q - p
  {
    if p < q {
      NotLessLater(s, els, lo, hi, less, p, q - 1);
      assert !less(s[q], s[q - 1]);
    }
  }

  ghost predicate Before(s: seq<Elem>, x: Elem, y: Elem) {
    exists i, j :: 0 <= i < j < |s| && s[i] == x && s[j] == y
  }

  /** Whenever two elements of s have changed places in t, the one now in front
      is strictly less: equals keep their order. */
  ghost predicate StableOf(s: seq<Elem>, t: seq<Elem>, less: Less) {
    forall x, y {:trigger Before(s, x, y), Before(t, y, x)} ::
      x in s && y in s && Before(s, x, y) && Before(t, y, x) ==> less(y, x)
  }

  lemma ExchangedElements(s: seq<Elem>, i: nat, m: nat)
    requires i < m < |s|
    ensures |Exchanged(s, i, m, m + 1)| == |s|
    ensures multiset(Exchanged(s, i, m, m + 1)) == multiset(s)
  {
    var t := Exchanged(s, i, m, m + 1);
    assert s == s[..i] + s[i..m] + [s[m]] + s[m + 1..];
    assert t == s[..i] + [s[m]] + s[i..m] + s[m + 1..];
  }

  /** Moving an element forward puts it before the ones it passes and changes no
      other order. */
  lemma MoveOrder(s: seq<Elem>, i: nat, m: nat, x: Elem, y: Elem)
    requires i < m < |s| && Before(Exchanged(s, i, m, m + 1), x, y)
    ensures Before(s, x, y) || (x == s[m] && exists k :: i <= k < m && y == s[k])
  {
    var t := Exchanged(s, i, m, m + 1);
    var p, q :| 0 <= p < q < |t| && t[p] == x && t[q] == y;
    ExchangedPoint(s, i, m, m + 1, p);
    ExchangedPoint(s, i, m, m + 1, q);
  }

  lemma Moved(s: seq<Elem>, i: nat, m: nat)
    requires i < m < |s| - 1
    ensures |Exchanged(s, i, m, m + 1)| == |s|
    ensures Exchanged(s, i, m, m + 1)[i + 1] == s[i]
    ensures forall k :: m < k < |s| ==> Exchanged(s, i, m, m + 1)[k] == s[k]
  {
    ExchangedAt(s, i, m, m + 1);
  }

  /** Moving one element in front of elements it is less than. */
  lemma MoveKeepsStable(s0: seq<Elem>, s: seq<Elem>, i: nat, m: nat, less: Less)
    requires StableOf(s0, s, less) && i < m < |s|
    requires forall k :: i <= k < m ==> less(s[m], s[k])
    ensures StableOf(s0, Exchanged(s, i, m, m + 1), less)
  {
    var t := Exchanged(s, i, m, m + 1);
    forall x, y | x in s0 && y in s0 && Before(s0, x, y) && Before(t, y, x)
      ensures less(y, x)
    {
      MoveOrder(s, i, m, y, x);
    }
  }

  // ---------------------------------------------------------------------
  // Merging [i, m) with [m, hi) by moving elements of the second run forward.

  ghost function Merged(s: seq<Elem>, i: nat, m: nat, hi: nat, less: Less): seq<Elem>
    requires i <= m <= hi <= |s|
    decreases hi - i + hi - m
  {
    if i == m || m == hi then s
    else if !less(s[m], s[i]) then Merged(s, i + 1, m, hi, less)
    else
      ExchangedElements(s, i, m);
      Merged(Exchanged(s, i, m, m + 1), i + 1, m + 1, hi, less)
  }

  lemma {:induction false} MergedElements(s: seq<Elem>, i: nat, m: nat, hi: nat, less: Less)
    requires i <= m <= hi <= |s|
    ensures |Merged(s, i, m, hi, less)| == |s| && multiset(Merged(s, i, m, hi, less)) == multiset(s)
    decreases hi - i + hi - m
  {
    if i < m < hi {
      if !less(s[m], s[i]) {
        MergedElements(s, i + 1, m, hi, less);
      } else {
        ExchangedElements(s, i, m);
        MergedElements(Exchanged(s, i, m, m + 1), i + 1, m + 1, hi, less);
      }
    }
  }

  lemma {:induction false} MergedOutside(s: seq<Elem>, i: nat, m: nat, hi: nat, less: Less)
    requires i <= m <= hi <= |s|
    ensures |Merged(s, i, m, hi, less)| == |s|
    ensures forall k :: 0 <= k < i || hi <= k < |s| ==> Merged(s, i, m, hi, less)[k] == s[k]
    decreases hi - i + hi - m
  {
    if i < m < hi {
      if !less(s[m], s[i]) {
        MergedOutside(s, i + 1, m, hi, less);
      } else {
        ExchangedAt(s, i, m, m + 1);
        MergedOutside(Exchanged(s, i, m, m + 1), i + 1, m + 1, hi, less);
      }
    }
  }

  /** Half-way through a merge: [lo, i) is final, [i, m) and [m, hi) remain. */
  ghost predicate Merging(s: seq<Elem>, lo: nat, i: nat, m: nat, hi: nat, less: Less) {
    && 1 <= lo <= i <= m <= hi < |s| && lo < m && (i == m ==> lo < i)
    && NonDecreasing(s, lo, m, less) && NonDecreasing(s, m, hi, less)
    && (lo < i && m < hi ==> !less(s[m], s[i - 1]))
  }

  lemma MergeMoves(s: seq<Elem>, els: set<Elem>, lo: nat, i: nat, m: nat, hi: nat, less: Less)
    requires Inner(s, els) && StrictWeak(els, less) && Merging(s, lo, i, m, hi, less)
    requires i < m < hi && less(s[m], s[i])
    ensures |Exchanged(s, i, m, m + 1)| == |s| && Inner(Exchanged(s, i, m, m + 1), els)
    ensures Merging(Exchanged(s, i, m, m + 1), lo, i + 1, m + 1, hi, less)
  {
    var t := Exchanged(s, i, m, m + 1);
    forall k | 0 <= k < |s| ensures |t| == |s| && t[k] == s[Source(i, m, m + 1, k)] {
      ExchangedPoint(s, i, m, m + 1, k);
    }
    MoveKeepsSorted(s, lo, i, m, hi, less);
  }

  lemma MoveKeepsSorted(s: seq<Elem>, lo: nat, i: nat, m: nat, hi: nat, less: Less)
    requires Merging(s, lo, i, m, hi, less) && i < m < hi && !less(s[i], s[m])
    ensures |Exchanged(s, i, m, m + 1)| == |s|
    ensures NonDecreasing(Exchanged(s, i, m, m + 1), lo, m + 1, less)
    ensures NonDecreasing(Exchanged(s, i, m, m + 1), m + 1, hi, less)
  {
    var t := Exchanged(s, i, m, m + 1);
    ExchangedPoint(s, i, m, m + 1, 0);
    forall k | lo < k < hi && k != m + 1 ensures !less(t[k], t[k - 1]) {
      ExchangedPoint(s, i, m, m + 1, k);
      ExchangedPoint(s, i, m, m + 1, k - 1);
    }
  }

  /** A moved element is less than every element it passes. */
  lemma LessThanPassed(s: seq<Elem>, els: set<Elem>, lo: nat, i: nat, m: nat, hi: nat, less: Less)
    requires Inner(s, els) && StrictWeak(els, less) && Merging(s, lo, i, m, hi, less)
    requires i < m < hi && less(s[m], s[i])
    ensures forall k :: i <= k < m ==> less(s[m], s[k])
  {
    forall k | i <= k < m ensures less(s[m], s[k]) {
      NotLessLater(s, els, lo, m, less, i, k);
    }
  }

  lemma MergeEnds(s: seq<Elem>, lo: nat, i: nat, m: nat, hi: nat, less: Less)
    requires Merging(s, lo, i, m, hi, less) && (i == m || m == hi)
    ensures NonDecreasing(s, lo, hi, less)
  {
  }

  /** The merged range is one run. */
  lemma {:induction false} MergedSorted(s: seq<Elem>, els: set<Elem>, lo: nat, i: nat, m: nat, hi: nat, less: Less)
    requires Inner(s, els) && StrictWeak(els, less) && Merging(s, lo, i, m, hi, less)
    ensures |Merged(s, i, m, hi, less)| == |s| && Inner(Merged(s, i, m, hi, less), els)
    ensures NonDecreasing(Merged(s, i, m, hi, less), lo, hi, less)
    decreases hi - i + hi - m
  {
    if i == m || m == hi {
      MergeEnds(s, lo, i, m, hi, less);
    } else if !less(s[m], s[i]) {
      MergedSorted(s, els, lo, i + 1, m, hi, less);
    } else {
      MergeMoves(s, els, lo, i, m, hi, less);
      MergedSorted(Exchanged(s, i, m, m + 1), els, lo, i + 1, m + 1, hi, less);
    }
  }

  lemma MergeMoveStable(s0: seq<Elem>, s: seq<Elem>, els: set<Elem>, lo: nat, i: nat, m: nat, hi: nat, less: Less)
    requires Inner(s, els) && StrictWeak(els, less) && Merging(s, lo, i, m, hi, less)
    requires i < m < hi && less(s[m], s[i]) && StableOf(s0, s, less)
    ensures StableOf(s0, Exchanged(s, i, m, m + 1), less)
  {
    LessThanPassed(s, els, lo, i, m, hi, less);
    MoveKeepsStable(s0, s, i, m, less);
  }

  lemma {:induction false} MergedStable(s0: seq<Elem>, s: seq<Elem>, els: set<Elem>,
                                        lo: nat, i: nat, m: nat, hi: nat, less: Less)
    requires Inner(s, els) && StrictWeak(els, less) && Merging(s, lo, i, m, hi, less)
    requires StableOf(s0, s, less)
    ensures StableOf(s0, Merged(s, i, m, hi, less), less)
    decreases hi - i + hi - m
  {
    if i == m || m == hi {
      assert Merged(s, i, m, hi, less) == s;
    } else if !less(s[m], s[i]) {
      MergedStable(s0, s, els, lo, i + 1, m, hi, less);
      assert Merged(s, i, m, hi, less) == Merged(s, i + 1, m, hi, less);
    } else {
      var t := Exchanged(s, i, m, m + 1);
      MergeMoveStable(s0, s, els, lo, i, m, hi, less);
      MergeMoves(s, els, lo, i, m, hi, less);
      MergedStable(s0, t, els, lo, i + 1, m + 1, hi, less);
      assert Merged(s, i, m, hi, less) == Merged(t, i + 1, m + 1, hi, less);
    }
  }

  // ---------------------------------------------------------------------
  // Counting runs.

  /** The number of places in [lo, hi) where one run ends and the next begins. */
  ghost function Descents(s: seq<Elem>, lo: int, hi: int, less: Less): (n: nat)
    requires 0 <= lo && hi <= |s|
    decreases hi - lo
  {
    if hi <= lo + 1 then 0
    else Descents(s, lo, hi - 1, less) + if less(s[hi - 1], s[hi - 2]) then 1 else 0
  }

  lemma {:induction false} NoDescents(s: seq<Elem>, lo: int, hi: int, less: Less)
    requires 0 <= lo && hi <= |s|
    ensures Descents(s, lo, hi, less) == 0 <==> NonDecreasing(s, lo, hi, less)
    decreases hi - lo
  {
    if hi > lo + 1 {
      NoDescents(s, lo, hi - 1, less);
    }
  }

  lemma {:induction false} DescentsSplit(s: seq<Elem>, lo: int, mid: int, hi: int, less: Less)
    requires 0 <= lo < mid < hi <= |s|
    ensures Descents(s, lo, hi, less) ==
      Descents(s, lo, mid, less) + (if less(s[mid], s[mid - 1]) then 1 else 0) + Descents(s, mid, hi, less)
    decreases hi
  {
    if hi > mid + 1 {
      DescentsSplit(s, lo, mid, hi - 1, less);
    }
  }

  lemma {:induction false} DescentsSame(s: seq<Elem>, t: seq<Elem>, lo: int, hi: int, less: Less)
    requires 0 <= lo && hi <= |s| && hi <= |t| && forall k :: lo <= k < hi ==> s[k] == t[k]
    ensures Descents(s, lo, hi, less) == Descents(t, lo, hi, less)
    decreases hi - lo
  {
    if hi > lo + 1 {
      DescentsSame(s, t, lo, hi - 1, less);
    }
  }

  // ---------------------------------------------------------------------
  // One pass: merge the runs two by two.

  /** The first position from e on where a run ends, at most n. */
  ghost function RunEnd(s: seq<Elem>, e: nat, n: nat, less: Less): nat
    requires 1 <= e <= n <= |s|
    decreases n - e
  {
    if e == n || less(s[e], s[e - 1]) then e else RunEnd(s, e + 1, n, less)
  }

  lemma {:induction false} RunEndBounds(s: seq<Elem>, i: nat, e: nat, n: nat, less: Less)
    requires 0 <= i < e <= n <= |s| && NonDecreasing(s, i, e, less)
    ensures e <= RunEnd(s, e, n, less) <= n && NonDecreasing(s, i, RunEnd(s, e, n, less), less)
    ensures RunEnd(s, e, n, less) < n ==> less(s[RunEnd(s, e, n, less)], s[RunEnd(s, e, n, less) - 1])
    decreases n - e
  {
    if e < n && !less(s[e], s[e - 1]) {
      RunEndBounds(s, i, e + 1, n, less);
    }
  }

  /** The sequence after a pass from position i on, and the runs it produced. */
  ghost function Passed(s: seq<Elem>, i: nat, less: Less): (seq<Elem>, nat)
    requires 1 <= i < |s|
    decreases |s| - i
  {
    var n := |s| - 1;
    if i == n then (s, 0)
    else
      RunEndBounds(s, i, i + 1, n, less);
      var m := RunEnd(s, i + 1, n, less);
      if m == n then (s, 1)
      else
        RunEndBounds(s, m, m + 1, n, less);
        var h := RunEnd(s, m + 1, n, less);
        MergedElements(s, i, m, h, less);
        var (t, c) := Passed(Merged(s, i, m, h, less), h, less);
        (t, c + 1)
  }

  /** A pass over before that has reached position i after producing c runs: at
      most c runs stand before i, where at least 2c stood. */
  ghost predicate PassState(s: seq<Elem>, before: seq<Elem>, els: set<Elem>, i: nat, c: nat, less: Less) {
    && 1 <= i < |s| == |before| && Inner(s, els)
    && (forall k :: i <= k < |s| ==> s[k] == before[k])
    && (if c == 0 then i == 1 else Descents(s, 1, i, less) <= c - 1)
    && (if i < |s| - 1 then Descents(before, 1, i + 1, less) >= 2 * c
        else c > 0 ==> Descents(before, 1, i, less) >= 2 * c - 1)
  }

  lemma RunsConsumed(before: seq<Elem>, i: nat, m: nat, h: nat, less: Less)
    requires 1 <= i < m < h < |before| && less(before[m], before[m - 1])
    ensures Descents(before, 1, h, less) >= Descents(before, 1, i + 1, less) + 1
    ensures less(before[h], before[h - 1]) ==>
      Descents(before, 1, h + 1, less) >= Descents(before, 1, i + 1, less) + 2
  {
    DescentsSplit(before, 1, m, h, less);
    if i + 1 < m {
      DescentsSplit(before, 1, i + 1, m, less);
    }
  }

  lemma RunsProduced(s: seq<Elem>, t: seq<Elem>, i: nat, h: nat, less: Less)
    requires 1 <= i < h < |s| == |t| && NonDecreasing(t, i, h, less)
    requires forall k :: 0 <= k < i ==> t[k] == s[k]
    ensures Descents(t, 1, h, less) <= if i == 1 then 0 else Descents(s, 1, i, less) + 1
  {
    NoDescents(t, i, h, less);
    if i > 1 {
      DescentsSame(s, t, 1, i, less);
      DescentsSplit(t, 1, i, h, less);
    }
  }

  lemma PassMerges(s: seq<Elem>, before: seq<Elem>, els: set<Elem>, i: nat, m: nat, h: nat, c: nat, less: Less)
    requires StrictWeak(els, less) && PassState(s, before, els, i, c, less) && i < m < h < |s|
    requires NonDecreasing(s, i, m, less) && NonDecreasing(s, m, h, less)
    requires less(s[m], s[m - 1]) && (h < |s| - 1 ==> less(s[h], s[h - 1]))
    ensures PassState(Merged(s, i, m, h, less), before, els, h, c + 1, less)
  {
    MergedOutside(s, i, m, h, less);
    MergedSorted(s, els, i, i, m, h, less);
    RunsProduced(s, Merged(s, i, m, h, less), i, h, less);
    RunsConsumed(before, i, m, h, less);
  }

  /** What a pass that produced c runs has achieved. */
  ghost predicate PassDone(s: seq<Elem>, before: seq<Elem>, els: set<Elem>, c: nat, less: Less) {
    && |s| == |before| >= 2 && Inner(s, els)
    && (c <= 1 ==> NonDecreasing(s, 1, |s| - 1, less))
    && (c > 1 ==> Descents(s, 1, |s| - 1, less) < Descents(before, 1, |s| - 1, less))
  }

  /** The last run of an odd number is left as it is. */
  lemma PassEndsWithRun(s: seq<Elem>, before: seq<Elem>, els: set<Elem>, i: nat, c: nat, less: Less)
    requires PassState(s, before, els, i, c, less) && i < |s| - 1 && NonDecreasing(s, i, |s| - 1, less)
    ensures PassDone(s, before, els, c + 1, less)
  {
    var n := |s| - 1;
    RunsProduced(s, s, i, n, less);
    if i + 1 < n {
      DescentsSplit(before, 1, i + 1, n, less);
    }
    NoDescents(s, 1, n, less);
  }

  lemma PassEndsAtTail(s: seq<Elem>, before: seq<Elem>, els: set<Elem>, c: nat, less: Less)
    requires |s| >= 2 && PassState(s, before, els, |s| - 1, c, less)
    ensures PassDone(s, before, els, c, less)
  {
    NoDescents(s, 1, |s| - 1, less);
  }

  /** The positions of the next two runs from i on. */
  lemma NextRuns(s: seq<Elem>, i: nat, less: Less) returns (m: nat, h: nat)
    requires 1 <= i < |s| - 1
    ensures i < m <= h < |s| && NonDecreasing(s, i, m, less) && m == RunEnd(s, i + 1, |s| - 1, less)
    ensures m == |s| - 1 ==> Passed(s, i, less) == (s, 1)
    ensures m < |s| - 1 ==>
      && m < h == RunEnd(s, m + 1, |s| - 1, less)
      && NonDecreasing(s, m, h, less) && less(s[m], s[m - 1]) && (h < |s| - 1 ==> less(s[h], s[h - 1]))
      && |Merged(s, i, m, h, less)| == |s|
      && Passed(s, i, less) ==
         (Passed(Merged(s, i, m, h, less), h, less).0, Passed(Merged(s, i, m, h, less), h, less).1 + 1)
  {
    var n := |s| - 1;
    RunEndBounds(s, i, i + 1, n, less);
    m := RunEnd(s, i + 1, n, less);
    h := m;
    if m < n {
      RunEndBounds(s, m, m + 1, n, less);
      h := RunEnd(s, m + 1, n, less);
      MergedElements(s, i, m, h, less);
    }
  }

  /** A pass that leaves more than one run leaves strictly fewer than it found;
      a pass that leaves one has sorted. */
  lemma {:induction false} PassAchieves(s: seq<Elem>, before: seq<Elem>, els: set<Elem>, i: nat, c: nat, less: Less)
    requires StrictWeak(els, less) && PassState(s, before, els, i, c, less)
    ensures PassDone(Passed(s, i, less).0, before, els, c + Passed(s, i, less).1, less)
    decreases |s| - i
  {
    if i == |s| - 1 {
      PassEndsAtTail(s, before, els, c, less);
    } else {
      var m, h := NextRuns(s, i, less);
      if m == |s| - 1 {
        PassEndsWithRun(s, before, els, i, c, less);
      } else {
        PassMerges(s, before, els, i, m, h, c, less);
        PassAchieves(Merged(s, i, m, h, less), before, els, h, c + 1, less);
      }
    }
  }

  lemma {:induction false} PassElements(s: seq<Elem>, i: nat, less: Less)
    requires 1 <= i < |s|
    ensures |Passed(s, i, less).0| == |s| && multiset(Passed(s, i, less).0) == multiset(s)
    decreases |s| - i
  {
    if i < |s| - 1 {
      var m, h := NextRuns(s, i, less);
      if m < |s| - 1 {
        MergedElements(s, i, m, h, less);
        PassElements(Merged(s, i, m, h, less), h, less);
      }
    }
  }

  lemma {:induction false} PassStable(s0: seq<Elem>, s: seq<Elem>, els: set<Elem>, i: nat, less: Less)
    requires StrictWeak(els, less) && 1 <= i < |s| && Inner(s, els) && StableOf(s0, s, less)
    ensures StableOf(s0, Passed(s, i, less).0, less)
    decreases |s| - i
  {
    if i < |s| - 1 {
      var m, h := NextRuns(s, i, less);
      if m < |s| - 1 {
        MergedSorted(s, els, i, i, m, h, less);
        MergedStable(s0, s, els, i, i, m, h, less);
        PassStable(s0, Merged(s, i, m, h, less), els, h, less);
      }
    }
  }

  /** What one pass from the front does, for the sort's loop. */
  lemma PassFromFront(s0: seq<Elem>, s: seq<Elem>, els: set<Elem>, less: Less)
    requires StrictWeak(els, less) && |s| >= 2 && Inner(s, els) && StableOf(s0, s, less)
    ensures PassDone(Passed(s, 1, less).0, s, els, Passed(s, 1, less).1, less)
    ensures StableOf(s0, Passed(s, 1, less).0, less) && multiset(Passed(s, 1, less).0) == multiset(s)
  {
    PassElements(s, 1, less);
    PassAchieves(s, s, els, 1, 0, less);
    PassStable(s0, s, els, 1, less);
  }
}
