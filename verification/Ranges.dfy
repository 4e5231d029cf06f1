/** Counting arguments over the numbers below a bound. */
module Ranges {
  ghost function Below(n: nat): (s: set<int>)
    ensures forall i :: i in s <==> 0 <= i < n
    ensures |s| == n
  {
    if n == 0 then {} else Below(n - 1) + {n - 1}
  }

  lemma SubsetSize(s: set<int>, n: nat)
    requires forall i :: i in s ==> 0 <= i < n
    ensures |s| <= n
  {
    assert s <= Below(n);
    assert |Below(n) - s| == |Below(n)| - |s|;
  }

  /** n numbers below n are all the numbers below n. */
  lemma FullSubset(s: set<int>, n: nat)
    requires forall i :: i in s ==> 0 <= i < n
    requires |s| == n
    ensures forall i :: 0 <= i < n ==> i in s
  {
    assert s <= Below(n);
    assert |Below(n) - s| == 0;
    forall i | 0 <= i < n ensures i in s {
      assert i in Below(n);
    }
  }

  ghost function Elements(s: seq<int>): set<int> {
    set i | 0 <= i < |s| :: s[i]
  }

  lemma {:induction false} DistinctSize(s: seq<int>)
    requires forall i, j :: 0 <= i < j < |s| ==> s[i] != s[j]
    ensures |Elements(s)| == |s|
  {
    if |s| > 0 {
      var t := s[..|s| - 1];
      DistinctSize(t);
      assert Elements(s) == Elements(t) + {s[|s| - 1]};
    }
  }

  /** Distinct numbers below n: at most n of them. */
  lemma DistinctBelow(s: seq<int>, n: nat)
    requires forall i :: 0 <= i < |s| ==> 0 <= s[i] < n
    requires forall i, j :: 0 <= i < j < |s| ==> s[i] != s[j]
    ensures |s| <= n
  {
    DistinctSize(s);
    SubsetSize(Elements(s), n);
  }
}
