/** Heapsort and binary search on arrays, for any comparison function that is a
    total preorder. Positions are 1-based where the code's are. */
module Sorting {
  type Compare<!T> = (T, T) -> int

  predicate Le<T>(cmp: Compare<T>, x: T, y: T) {
    cmp(x, y) <= 0
  }

  /** A strcmp-type comparison: antisymmetric in sign, and transitive. */
  ghost predicate TotalPreorder<T(!new)>(cmp: Compare<T>) {
    && (forall x, y :: cmp(x, y) > 0 <==> cmp(y, x) < 0)
    && (forall x, y, z :: Le(cmp, x, y) && Le(cmp, y, z) ==> Le(cmp, x, z))
  }

  /** The element with 1-based number k. */
  function At<T>(s: seq<T>, k: nat): T
    requires 1 <= k <= |s|
  {
    s[k - 1]
  }

  function Swap<T>(s: seq<T>, i: nat, j: nat): seq<T>
    requires 1 <= i <= |s| && 1 <= j <= |s|
  {
    s[i - 1 := s[j - 1]][j - 1 := s[i - 1]]
  }

  lemma SwapPermutes<T>(s: seq<T>, i: nat, j: nat)
    requires 1 <= i <= |s| && 1 <= j <= |s|
    ensures multiset(Swap(s, i, j)) == multiset(s)
  {
  }

  /** The largest of node i and its children below cnt, the node itself first. */
  function Largest<T>(s: seq<T>, cmp: Compare<T>, i: nat, cnt: nat): (m: nat)
    requires 1 <= i <= cnt <= |s|
    ensures m in {i, 2 * i, 2 * i + 1} && i <= m <= cnt
  {
    var m := if 2 * i <= cnt && cmp(At(s, 2 * i), At(s, i)) > 0 then 2 * i else i;
    if 2 * i + 1 <= cnt && cmp(At(s, 2 * i + 1), At(s, m)) > 0 then 2 * i + 1 else m
  }

  /** What heapify makes of s: the element of node i floats down. */
  function Sifted<T>(s: seq<T>, cmp: Compare<T>, i: nat, cnt: nat): seq<T>
    requires 1 <= i <= cnt <= |s|
    decreases cnt - i
  {
    var m := Largest(s, cmp, i, cnt);
    if m == i then s else Sifted(Swap(s, i, m), cmp, m, cnt)
  }

  /** heapify, in place. */
  method Heapify<T>(a: array<T>, i: nat, cnt: nat, cmp: Compare<T>)
    requires 1 <= i <= cnt <= a.Length
    modifies a
    ensures a[..] == Sifted(old(a[..]), cmp, i, cnt)
  {
    var k := i;
    ghost var goal := Sifted(a[..], cmp, i, cnt);
    while true
      invariant 1 <= k <= cnt && Sifted(a[..], cmp, k, cnt) == goal
      decreases cnt - k
    {
      var left, right, max := 2 * k, 2 * k + 1, k;
      if left <= cnt && cmp(a[left - 1], a[max - 1]) > 0 {
        max := left;
      }
      if right <= cnt && cmp(a[right - 1], a[max - 1]) > 0 {
        max := right;
      }
      assert max == Largest(a[..], cmp, k, cnt);
      if max == k {
        return;
      }
      assert Swap(a[..], k, max) == a[..][k - 1 := a[max - 1]][max - 1 := a[k - 1]];
      a[k - 1], a[max - 1] := a[max - 1], a[k - 1];
      k := max;
    }
  }

  // ---------------------------------------------------------------------
  // What sifting achieves.

  lemma {:induction false} SiftedPermutes<T>(s: seq<T>, cmp: Compare<T>, i: nat, cnt: nat)
    requires 1 <= i <= cnt <= |s|
    ensures |Sifted(s, cmp, i, cnt)| == |s|
    ensures multiset(Sifted(s, cmp, i, cnt)) == multiset(s)
    ensures Sifted(s, cmp, i, cnt)[cnt..] == s[cnt..]
    decreases cnt - i
  {
    var m := Largest(s, cmp, i, cnt);
    if m != i {
      SwapPermutes(s, i, m);
      SiftedPermutes(Swap(s, i, m), cmp, m, cnt);
      assert Swap(s, i, m)[cnt..] == s[cnt..];
    }
  }

  predicate IsChild(c: int, k: int) {
    c == 2 * k || c == 2 * k + 1
  }

  /** No node from lo to cnt is smaller than a child of it. */
  ghost predicate HeapFrom<T>(s: seq<T>, cmp: Compare<T>, lo: nat, cnt: nat)
    requires cnt <= |s|
  {
    forall k, c :: 1 <= lo <= k && IsChild(c, k) && c <= cnt ==> Le(cmp, At(s, c), At(s, k))
  }

  /** The same but for node j, whose children are bounded by its parent. */
  ghost predicate HeapBut<T>(s: seq<T>, cmp: Compare<T>, lo: nat, j: nat, cnt: nat)
    requires cnt <= |s|
  {
    && (forall k, c :: 1 <= lo <= k && k != j && IsChild(c, k) && c <= cnt ==> Le(cmp, At(s, c), At(s, k)))
    && (forall p, c :: 1 <= lo <= p && IsChild(j, p) && IsChild(c, j) && c <= cnt ==> Le(cmp, At(s, c), At(s, p)))
  }

  lemma Greater<T(!new)>(cmp: Compare<T>, x: T, y: T)
    requires TotalPreorder(cmp)
    ensures cmp(x, y) > 0 ==> Le(cmp, y, x)
    ensures Le(cmp, x, x)
  {
    assert cmp(x, y) > 0 <==> cmp(y, x) < 0;
    assert cmp(x, x) > 0 <==> cmp(x, x) < 0;
  }

  lemma LargestBounds<T(!new)>(s: seq<T>, cmp: Compare<T>, i: nat, cnt: nat)
    requires TotalPreorder(cmp) && 1 <= i <= cnt <= |s|
    ensures forall c :: IsChild(c, i) && c <= cnt ==> Le(cmp, At(s, c), At(s, Largest(s, cmp, i, cnt)))
    ensures Le(cmp, At(s, i), At(s, Largest(s, cmp, i, cnt)))
  {
    var x := At(s, i);
    Greater(cmp, x, x);
    if 2 * i <= cnt {
      Greater(cmp, At(s, 2 * i), x);
      if 2 * i + 1 <= cnt {
        Greater(cmp, At(s, 2 * i + 1), x);
        Greater(cmp, At(s, 2 * i + 1), At(s, 2 * i));
        Greater(cmp, At(s, 2 * i), At(s, 2 * i + 1));
      }
    }
  }

  lemma SiftStep<T(!new)>(s: seq<T>, cmp: Compare<T>, lo: nat, j: nat, cnt: nat)
    requires TotalPreorder(cmp) && 1 <= lo <= j <= cnt <= |s| && HeapBut(s, cmp, lo, j, cnt)
    ensures var m := Largest(s, cmp, j, cnt);
      if m == j then HeapFrom(s, cmp, lo, cnt) else HeapBut(Swap(s, j, m), cmp, lo, m, cnt)
  {
    var m := Largest(s, cmp, j, cnt);
    LargestBounds(s, cmp, j, cnt);
    if m != j {
      var t := Swap(s, j, m);
      forall k, c | lo <= k && k != m && IsChild(c, k) && c <= cnt ensures Le(cmp, At(t, c), At(t, k)) {
        if k == j {
          assert Le(cmp, At(s, c), At(s, m));
        } else if c == j {
          assert IsChild(j, k) && IsChild(m, j);
        } else {
          assert c != m;
        }
      }
    }
  }

  /** Floating the element of node i down restores the heap from i on. */
  lemma {:induction false} SiftedIsHeap<T(!new)>(s: seq<T>, cmp: Compare<T>, lo: nat, j: nat, cnt: nat)
    requires TotalPreorder(cmp) && 1 <= lo <= j <= cnt <= |s| && HeapBut(s, cmp, lo, j, cnt)
    ensures |Sifted(s, cmp, j, cnt)| == |s| && HeapFrom(Sifted(s, cmp, j, cnt), cmp, lo, cnt)
    decreases cnt - j
  {
    SiftStep(s, cmp, lo, j, cnt);
    var m := Largest(s, cmp, j, cnt);
    if m != j {
      SiftedIsHeap(Swap(s, j, m), cmp, lo, m, cnt);
    }
  }

  lemma {:induction false} RootIsLargest<T(!new)>(s: seq<T>, cmp: Compare<T>, k: nat, cnt: nat)
    requires TotalPreorder(cmp) && 1 <= k <= cnt <= |s| && HeapFrom(s, cmp, 1, cnt)
    ensures Le(cmp, At(s, k), At(s, 1))
    decreases k
  {
    if k > 1 {
      RootIsLargest(s, cmp, k / 2, cnt);
      assert IsChild(k, k / 2);
    } else {
      assert cmp(At(s, 1), At(s, 1)) > 0 <==> cmp(At(s, 1), At(s, 1)) < 0;
    }
  }

  // ---------------------------------------------------------------------
  // Sorting.

  ghost predicate SortedBy<T>(s: seq<T>, cmp: Compare<T>) {
    forall p, q :: 0 <= p < q < |s| ==> Le(cmp, s[p], s[q])
  }

  /** Every element from position i on is at least as large as all before it. */
  ghost predicate TailDone<T>(s: seq<T>, cmp: Compare<T>, i: nat) {
    forall p, q :: 0 <= p < q < |s| && i <= q ==> Le(cmp, s[p], s[q])
  }

  lemma {:induction false} SiftedFromFront<T>(s: seq<T>, cmp: Compare<T>, i: nat, cnt: nat)
    requires 1 <= i <= cnt <= |s|
    ensures |Sifted(s, cmp, i, cnt)| == |s|
    ensures forall k :: 0 <= k < cnt ==> Sifted(s, cmp, i, cnt)[k] in s[..cnt]
    ensures forall k :: cnt <= k < |s| ==> Sifted(s, cmp, i, cnt)[k] == s[k]
    decreases cnt - i
  {
    var m := Largest(s, cmp, i, cnt);
    if m == i {
      assert forall k :: 0 <= k < cnt ==> s[..cnt][k] == s[k];
    } else {
      var t := Swap(s, i, m);
      SiftedFromFront(t, cmp, m, cnt);
      forall x | x in t[..cnt] ensures x in s[..cnt] {
        var k :| 0 <= k < cnt && t[..cnt][k] == x;
        var k' := if k == i - 1 then m - 1 else if k == m - 1 then i - 1 else k;
        assert s[..cnt][k'] == x;
      }
    }
  }

  /** Moving the root to the end and sifting the new root. */
  function Extracted<T>(s: seq<T>, cmp: Compare<T>, i: nat): seq<T>
    requires 2 <= i <= |s|
  {
    Sifted(Swap(s, 1, i), cmp, 1, i - 1)
  }

  lemma ExtractKeepsHeap<T(!new)>(s: seq<T>, cmp: Compare<T>, i: nat)
    requires TotalPreorder(cmp) && 2 <= i <= |s| && HeapFrom(s, cmp, 1, i)
    ensures |Extracted(s, cmp, i)| == |s| && HeapFrom(Extracted(s, cmp, i), cmp, 1, i - 1)
    ensures multiset(Extracted(s, cmp, i)) == multiset(s)
  {
    var t := Swap(s, 1, i);
    SwapPermutes(s, 1, i);
    SiftedPermutes(t, cmp, 1, i - 1);
    assert HeapBut(t, cmp, 1, 1, i - 1);
    SiftedIsHeap(t, cmp, 1, 1, i - 1);
  }

  lemma ExtractKeepsTail<T(!new)>(s: seq<T>, cmp: Compare<T>, i: nat)
    requires TotalPreorder(cmp) && 2 <= i <= |s| && HeapFrom(s, cmp, 1, i) && TailDone(s, cmp, i)
    ensures |Extracted(s, cmp, i)| == |s| && TailDone(Extracted(s, cmp, i), cmp, i - 1)
  {
    var t, u := Swap(s, 1, i), Extracted(s, cmp, i);
    SiftedFromFront(t, cmp, 1, i - 1);
    forall p, q | 0 <= p < q < |u| && i - 1 <= q ensures Le(cmp, u[p], u[q]) {
      if p < i - 1 {
        var k :| 0 <= k < i - 1 && t[..i - 1][k] == u[p];
        var k' := if k == 0 then i - 1 else k;
        assert u[p] == s[k'] == At(s, k' + 1);
        RootIsLargest(s, cmp, k' + 1, i);
      }
    }
  }

  /** sort yields a sorted permutation. */
  method Sort<T(!new)>(a: array<T>, cmp: Compare<T>)
    requires TotalPreorder(cmp)
    modifies a
    ensures SortedBy(a[..], cmp) && multiset(a[..]) == old(multiset(a[..]))
  {
    var cnt := a.Length;
    var i: nat := cnt / 2;
    while i > 0
      invariant i <= cnt / 2 && HeapFrom(a[..], cmp, i + 1, cnt)
      invariant multiset(a[..]) == old(multiset(a[..]))
    {
      assert HeapBut(a[..], cmp, i, i, cnt);
      SiftedIsHeap(a[..], cmp, i, i, cnt);
      SiftedPermutes(a[..], cmp, i, cnt);
      Heapify(a, i, cnt, cmp);
      i := i - 1;
    }
    i := cnt;
    while i > 1
      invariant i <= cnt && HeapFrom(a[..], cmp, 1, i) && TailDone(a[..], cmp, i)
      invariant multiset(a[..]) == old(multiset(a[..]))
    {
      ghost var s := a[..];
      ExtractKeepsHeap(s, cmp, i);
      ExtractKeepsTail(s, cmp, i);
      a[0], a[i - 1] := a[i - 1], a[0];
      assert a[..] == Swap(s, 1, i);
      Heapify(a, 1, i - 1, cmp);
      i := i - 1;
    }
  }

  /** binary_search on a sorted array finds a match exactly when there is one. */
  method BinarySearch<T(!new)>(key: T, a: array<T>, cmp: Compare<T>) returns (found: int)
    requires TotalPreorder(cmp) && SortedBy(a[..], cmp)
    ensures 0 <= found ==> found < a.Length && cmp(key, a[found]) == 0
    ensures found < 0 ==> forall k :: 0 <= k < a.Length ==> cmp(key, a[k]) != 0
  {
    var first, last := 0, a.Length;
    while first < last
      invariant 0 <= first <= last <= a.Length
      invariant forall k :: 0 <= k < first ==> cmp(key, a[k]) > 0
      invariant forall k :: last <= k < a.Length ==> cmp(key, a[k]) < 0
    {
      var middle := first + (last - first) / 2;
      var c := cmp(key, a[middle]);
      if c < 0 {
        Below(key, a[..], cmp, middle);
        last := middle;
      } else if c > 0 {
        Above(key, a[..], cmp, middle);
        first := middle + 1;
      } else {
        return middle;
      }
    }
    return -1;
  }

  lemma LessTransitive<T(!new)>(cmp: Compare<T>, x: T, y: T, z: T)
    requires TotalPreorder(cmp)
    ensures cmp(x, y) < 0 && Le(cmp, y, z) ==> cmp(x, z) < 0
    ensures cmp(z, y) > 0 && Le(cmp, x, y) ==> cmp(z, x) > 0
  {
    assert cmp(z, x) > 0 <==> cmp(x, z) < 0;
    assert cmp(y, x) > 0 <==> cmp(x, y) < 0;
    assert Le(cmp, y, z) && Le(cmp, z, x) ==> Le(cmp, y, x);
    assert Le(cmp, z, x) && Le(cmp, x, y) ==> Le(cmp, z, y);
  }

  lemma Below<T(!new)>(key: T, s: seq<T>, cmp: Compare<T>, m: nat)
    requires TotalPreorder(cmp) && SortedBy(s, cmp) && m < |s| && cmp(key, s[m]) < 0
    ensures forall k :: m <= k < |s| ==> cmp(key, s[k]) < 0
  {
    forall k | m <= k < |s| ensures cmp(key, s[k]) < 0 {
      LessTransitive(cmp, key, s[m], s[k]);
    }
  }

  lemma Above<T(!new)>(key: T, s: seq<T>, cmp: Compare<T>, m: nat)
    requires TotalPreorder(cmp) && SortedBy(s, cmp) && m < |s| && cmp(key, s[m]) > 0
    ensures forall k :: 0 <= k <= m ==> cmp(key, s[k]) > 0
  {
    forall k | 0 <= k <= m ensures cmp(key, s[k]) > 0 {
      LessTransitive(cmp, s[k], s[m], key);
    }
  }
}
