/** The kernel's hash table: chained buckets whose number follows the number of
    elements. */
module HashTable {
  import opened Prelude
  import opened Bits

  // ---------------------------------------------------------------------
  // The elements in a sequence of buckets.

  ghost function All<T>(bs: seq<seq<T>>): multiset<T> {
    if bs == [] then multiset{} else All(bs[..|bs| - 1]) + multiset(bs[|bs| - 1])
  }

  lemma {:induction false} AllUpdate<T>(bs: seq<seq<T>>, k: nat, v: seq<T>)
    requires k < |bs|
    ensures All(bs[k := v]) + multiset(bs[k]) == All(bs) + multiset(v)
    decreases |bs|
  {
    var n := |bs| - 1;
    if k == n {
      assert bs[k := v][..n] == bs[..n];
    } else {
      assert bs[k := v][..n] == bs[..n][k := v];
      AllUpdate(bs[..n], k, v);
      var rest, last := All(bs[..n][k := v]), multiset(bs[n]);
      assert bs[..n][k] == bs[k];
      assert (rest + last) + multiset(bs[k]) == (rest + multiset(bs[k])) + last;
      assert (All(bs[..n]) + multiset(v)) + last == (All(bs[..n]) + last) + multiset(v);
    }
  }

  lemma Cancel<T>(a: multiset<T>, b: multiset<T>, c: multiset<T>)
    requires a + c == b + c
    ensures a == b
  {
    forall x ensures a[x] == b[x] {
      assert (a + c)[x] == (b + c)[x];
    }
  }

  lemma {:induction false} AllHas<T>(bs: seq<seq<T>>, x: T)
    ensures x in All(bs) <==> exists i :: 0 <= i < |bs| && x in bs[i]
    decreases |bs|
  {
    if bs != [] {
      var n := |bs| - 1;
      AllHas(bs[..n], x);
      assert x in multiset(bs[n]) <==> x in bs[n];
      if x in bs[n] {
        assert exists i :: 0 <= i < |bs| && x in bs[i];
      } else if i :| 0 <= i < |bs| && x in bs[i] {
        assert bs[..n][i] == bs[i];
      }
      if i :| 0 <= i < n && x in bs[..n][i] {
        assert bs[i] == bs[..n][i];
      }
    }
  }

  lemma {:induction false} AllEmpty<T>(bs: seq<seq<T>>)
    requires forall i :: 0 <= i < |bs| ==> bs[i] == []
    ensures All(bs) == multiset{}
    decreases |bs|
  {
    if bs != [] {
      AllEmpty(bs[..|bs| - 1]);
    }
  }

  lemma AllPush<T>(bs: seq<seq<T>>, k: nat, x: T)
    requires k < |bs|
    ensures All(bs[k := [x] + bs[k]]) == All(bs) + multiset{x}
  {
    AllUpdate(bs, k, [x] + bs[k]);
    assert multiset([x] + bs[k]) == multiset{x} + multiset(bs[k]);
    Cancel(All(bs[k := [x] + bs[k]]), All(bs) + multiset{x}, multiset(bs[k]));
  }

  lemma AllRemove<T>(bs: seq<seq<T>>, k: nat, j: nat)
    requires k < |bs| && j < |bs[k]|
    ensures All(bs[k := bs[k][..j] + bs[k][j + 1..]]) == All(bs) - multiset{bs[k][j]}
  {
    var v, x := bs[k][..j] + bs[k][j + 1..], bs[k][j];
    AllUpdate(bs, k, v);
    RemovedOne(bs[k], j);
    Cancel(All(bs[k := v]) + multiset{x}, All(bs), multiset(v));
  }

  lemma RemovedOne<T>(s: seq<T>, j: nat)
    requires j < |s|
    ensures multiset(s) == multiset(s[..j] + s[j + 1..]) + multiset{s[j]}
  {
    assert s == s[..j] + ([s[j]] + s[j + 1..]);
  }

  /** The bucket of an element among n buckets. */
  function Bucket(hash: nat, n: nat): nat
    requires n > 0
  {
    And(hash, n - 1)
  }

  ghost predicate Placed<T>(bs: seq<seq<T>>, hash: T -> nat)
  {
    |bs| > 0 && forall i, x :: 0 <= i < |bs| && x in bs[i] ==> Bucket(hash(x), |bs|) == i
  }

  /** The number of buckets is a power of two, at least four. */
  ghost predicate GoodCount(n: nat) {
    n >= 4 && n == TopBit(n)
  }

  /** With a power of two of buckets the mask is a remainder. */
  lemma BucketMeans(h: nat, n: nat)
    requires GoodCount(n)
    ensures Bucket(h, n) == h % n
  {
    var k := TopBitIsPow2(n);
    AndMask(h, k);
  }

  lemma BucketInRange(h: nat, n: nat)
    requires GoodCount(n)
    ensures Bucket(h, n) < n
  {
    var k := TopBitIsPow2(n);
    AndMask(h, k);
  }

  // ---------------------------------------------------------------------
  // Comparing elements.

  predicate Equal<T>(less: (T, T) -> bool, x: T, y: T) {
    !less(x, y) && !less(y, x)
  }

  /** Equality made from less is an equivalence, and equal elements hash alike. */
  ghost predicate Lawful<T(!new)>(hash: T -> nat, less: (T, T) -> bool) {
    && (forall x :: Equal(less, x, x))
    && (forall x, y, z :: Equal(less, x, y) && Equal(less, y, z) ==> Equal(less, x, z))
    && (forall x, y :: Equal(less, x, y) ==> hash(x) == hash(y))
  }

  /** No two elements are equal, none occurs twice: a finite set modulo Equal. */
  ghost predicate SetLike<T>(m: multiset<T>, less: (T, T) -> bool) {
    && (forall x :: x in m ==> m[x] == 1)
    && (forall x, y :: x in m && y in m && Equal(less, x, y) ==> x == y)
  }

  lemma AddOne<T>(m: multiset<T>, less: (T, T) -> bool, x: T)
    requires SetLike(m, less) && (forall y :: y in m ==> !Equal(less, y, x)) && Equal(less, x, x)
    ensures SetLike(m + multiset{x}, less)
  {
    assert x !in m;
    assert forall y :: y in m + multiset{x} <==> y in m || y == x;
  }

  lemma DropOne<T>(m: multiset<T>, less: (T, T) -> bool, x: T)
    requires SetLike(m, less) && x in m
    ensures SetLike(m - multiset{x}, less) && x !in m - multiset{x} && |m - multiset{x}| == |m| - 1
    ensures forall y :: y in m && Equal(less, y, x) ==> y == x
  {
    assert forall y :: y in m - multiset{x} <==> y in m && y != x;
  }

  /** With e gone, nothing equal to e' is left. */
  lemma NoneLeft<T(!new)>(m: multiset<T>, hash: T -> nat, less: (T, T) -> bool, e: T, e': T)
    requires Lawful(hash, less) && SetLike(m, less) && e in m && Equal(less, e, e')
    ensures forall x :: x in m - multiset{e} ==> !Equal(less, x, e')
  {
    assert Equal(less, e', e);
    assert forall x :: Equal(less, x, e') ==> Equal(less, x, e);
    assert forall x :: x in m - multiset{e} ==> x in m && x != e;
  }

  lemma PlacedPush<T>(bs: seq<seq<T>>, hash: T -> nat, x: T)
    requires Placed(bs, hash) && Bucket(hash(x), |bs|) < |bs|
    ensures var k := Bucket(hash(x), |bs|); Placed(bs[k := [x] + bs[k]], hash)
  {
  }

  lemma PlacedRemove<T>(bs: seq<seq<T>>, hash: T -> nat, k: nat, j: nat)
    requires Placed(bs, hash) && k < |bs| && j < |bs[k]|
    ensures Placed(bs[k := bs[k][..j] + bs[k][j + 1..]], hash)
  {
    var v := bs[k][..j] + bs[k][j + 1..];
    assert forall x :: x in v ==> x in bs[k];
  }

  /** An element equal to e is in the table exactly if one is in e's bucket. */
  lemma EqualIsInBucket<T(!new)>(bs: seq<seq<T>>, hash: T -> nat, less: (T, T) -> bool, e: T)
    requires Placed(bs, hash) && Lawful(hash, less) && Bucket(hash(e), |bs|) < |bs|
    ensures forall x :: x in bs[Bucket(hash(e), |bs|)] ==> x in All(bs)
    ensures forall x :: x in All(bs) && Equal(less, x, e) ==> x in bs[Bucket(hash(e), |bs|)]
  {
    forall x | x in bs[Bucket(hash(e), |bs|)] ensures x in All(bs) {
      AllHas(bs, x);
    }
    forall x | x in All(bs) && Equal(less, x, e) ensures x in bs[Bucket(hash(e), |bs|)] {
      AllHas(bs, x);
    }
  }

  // ---------------------------------------------------------------------
  // The number of buckets.

  /** The bucket count the table aims for: half the elements, at least four,
      rounded down to a power of two. */
  function BestCount(elemCnt: nat): (n: nat)
    ensures n >= 4
  {
    TopBit(if elemCnt / 2 < 4 then 4 else elemCnt / 2)
  }

  method ComputeCount(elemCnt: nat) returns (n: nat)
    ensures n == BestCount(elemCnt) && GoodCount(n)
    ensures n == 4 || 2 * n <= elemCnt
    ensures elemCnt < 4 * n
  {
    n := elemCnt / 2;
    if n < 4 {
      n := 4;
    }
    ghost var start := n;
    TopBitIdempotent(n);
    while !IsPowerOf2(n)
      invariant n > 0 && TopBit(n) == TopBit(start)
      decreases n
    {
      TurnOffKeepsTop(n);
      n := TurnOffLeast1Bit(n);
    }
    TurnOffKeepsTop(n);
  }

  lemma {:induction false} TopBitIdempotent(x: nat)
    requires x > 0
    ensures TopBit(TopBit(x)) == TopBit(x)
    decreases x
  {
    if x > 1 {
      TopBitIdempotent(x / 2);
    }
  }

  // ---------------------------------------------------------------------
  // The table.

  class Hash<T(!new)> {
    const hash: T -> nat
    const less: (T, T) -> bool
    var buckets: array<seq<T>>
    var elemCnt: nat

    ghost function Contents(): multiset<T>
      reads this, buckets
    {
      All(buckets[..])
    }

    ghost predicate Valid()
      reads this, buckets
    {
      && Lawful(hash, less) && GoodCount(buckets.Length) && Placed(buckets[..], hash)
      && SetLike(Contents(), less) && elemCnt == |Contents()|
    }

    /** hash_init, with memory for the buckets. */
    constructor (hash: T -> nat, less: (T, T) -> bool)
      requires Lawful(hash, less)
      ensures Valid() && Contents() == multiset{} && fresh(buckets)
      ensures this.hash == hash && this.less == less
    {
      this.hash, this.less := hash, less;
      buckets := new seq<T>[4](_ => []);
      elemCnt := 0;
      new;
      AllEmpty(buckets[..]);
    }

    /** find_elem: the position of an element equal to e in bucket k. */
    method FindElem(k: nat, e: T) returns (j: nat)
      requires k < buckets.Length
      ensures j <= |buckets[k]|
      ensures forall i :: 0 <= i < j ==> !Equal(less, buckets[k][i], e)
      ensures j < |buckets[k]| ==> Equal(less, buckets[k][j], e)
    {
      j := 0;
      while j < |buckets[k]|
        invariant j <= |buckets[k]| && forall i :: 0 <= i < j ==> !Equal(less, buckets[k][i], e)
      {
        if !less(buckets[k][j], e) && !less(e, buckets[k][j]) {
          return;
        }
        j := j + 1;
      }
    }

    /** Locates e: its bucket, and the position of an equal element in it if
        there is one anywhere in the table. */
    method Locate(e: T) returns (k: nat, j: nat)
      requires Valid()
      ensures k < buckets.Length && k == Bucket(hash(e), buckets.Length) && j <= |buckets[k]|
      ensures j < |buckets[k]| ==> buckets[k][j] in Contents() && Equal(less, buckets[k][j], e)
      ensures j == |buckets[k]| ==> forall x :: x in Contents() ==> !Equal(less, x, e)
    {
      BucketInRange(hash(e), buckets.Length);
      k := And(hash(e), buckets.Length - 1);
      j := FindElem(k, e);
      EqualIsInBucket(buckets[..], hash, less, e);
    }

    /** hash_find. */
    method Find(e: T) returns (found: Option<T>)
      requires Valid()
      ensures found.Some? ==> found.value in Contents() && Equal(less, found.value, e)
      ensures found.None? ==> forall x :: x in Contents() ==> !Equal(less, x, e)
    {
      var k, j := Locate(e);
      found := if j < |buckets[k]| then Some(buckets[k][j]) else None;
    }

    /** insert_elem. */
    method InsertElem(k: nat, e: T)
      requires Valid() && k < buckets.Length && k == Bucket(hash(e), buckets.Length)
      requires forall x :: x in Contents() ==> !Equal(less, x, e)
      modifies this`elemCnt, buckets
      ensures Valid() && buckets == old(buckets) && Contents() == old(Contents()) + multiset{e}
    {
      ghost var bs := buckets[..];
      AllPush(bs, k, e);
      PlacedPush(bs, hash, e);
      AddOne(All(bs), less, e);
      elemCnt := elemCnt + 1;
      buckets[k] := [e] + buckets[k];
      assert buckets[..] == bs[k := [e] + bs[k]];
    }

    /** remove_elem. */
    method RemoveElem(k: nat, j: nat, ghost e': T)
      requires Valid() && k < buckets.Length && j < |buckets[k]| && buckets[k][j] in Contents()
      requires Equal(less, buckets[k][j], e')
      modifies this`elemCnt, buckets
      ensures Valid() && buckets == old(buckets) && Contents() == old(Contents()) - multiset{old(buckets[k][j])}
      ensures forall x :: x in Contents() ==> !Equal(less, x, e')
    {
      ghost var bs, e := buckets[..], buckets[k][j];
      AllRemove(bs, k, j);
      PlacedRemove(bs, hash, k, j);
      DropOne(All(bs), less, e);
      NoneLeft(All(bs), hash, less, e, e');
      elemCnt := elemCnt - 1;
      buckets[k] := buckets[k][..j] + buckets[k][j + 1..];
      assert buckets[..] == bs[k := bs[k][..j] + bs[k][j + 1..]];
    }

    /** The move of every element into a new set of n buckets. */
    method Redistribute(n: nat) returns (fresh': array<seq<T>>)
      requires GoodCount(n)
      ensures fresh(fresh') && fresh'.Length == n
      ensures Placed(fresh'[..], hash) && All(fresh'[..]) == All(buckets[..])
    {
      fresh' := new seq<T>[n](_ => []);
      AllEmpty(fresh'[..]);
      for i := 0 to buckets.Length
        invariant fresh(fresh') && fresh'.Length == n
        invariant Placed(fresh'[..], hash) && All(fresh'[..]) == All(buckets[..i])
      {
        MoveBucket(fresh', buckets[i]);
        assert buckets[..i + 1][..i] == buckets[..i];
      }
      assert buckets[..buckets.Length] == buckets[..];
    }

    method MoveBucket(to: array<seq<T>>, bucket: seq<T>)
      requires GoodCount(to.Length) && Placed(to[..], hash)
      modifies to
      ensures Placed(to[..], hash) && All(to[..]) == old(All(to[..])) + multiset(bucket)
    {
      for j := 0 to |bucket|
        invariant Placed(to[..], hash) && All(to[..]) == old(All(to[..])) + multiset(bucket[..j])
      {
        PrefixGrows(bucket, j);
        MoveElem(to, bucket[j]);
      }
      assert bucket[..|bucket|] == bucket;
    }

    method MoveElem(to: array<seq<T>>, e: T)
      requires GoodCount(to.Length) && Placed(to[..], hash)
      modifies to
      ensures Placed(to[..], hash) && All(to[..]) == old(All(to[..])) + multiset{e}
    {
      ghost var bs := to[..];
      BucketInRange(hash(e), to.Length);
      var k := And(hash(e), to.Length - 1);
      AllPush(bs, k, e);
      PlacedPush(bs, hash, e);
      to[k] := [e] + to[k];
      assert to[..] == bs[k := [e] + bs[k]];
    }

    /** rehash; it keeps the old buckets when no memory is available. */
    method Rehash(memory: bool)
      requires Valid()
      modifies this`buckets
      ensures Valid() && Contents() == old(Contents())
      ensures buckets == old(buckets) || fresh(buckets)
      ensures memory ==> buckets.Length == BestCount(elemCnt)
      ensures !memory || old(buckets).Length == BestCount(elemCnt) ==> buckets == old(buckets)
    {
      var n := ComputeCount(elemCnt);
      if n == buckets.Length || !memory {
        return;
      }
      buckets := Redistribute(n);
    }

    /** hash_insert: nothing happens if an equal element is there already. */
    method Insert(e: T, memory: bool) returns (found: Option<T>)
      requires Valid()
      modifies this, buckets
      ensures Valid() && (buckets == old(buckets) || fresh(buckets))
      ensures found.Some? ==> found.value in old(Contents()) && Equal(less, found.value, e) && Contents() == old(Contents())
      ensures found.None? ==> (forall x :: x in old(Contents()) ==> !Equal(less, x, e)) &&
                              Contents() == old(Contents()) + multiset{e}
      ensures memory ==> buckets.Length == BestCount(elemCnt)
    {
      var k, j := Locate(e);
      if j < |buckets[k]| {
        found := Some(buckets[k][j]);
      } else {
        found := None;
        InsertElem(k, e);
      }
      Rehash(memory);
    }

    /** hash_replace: an equal element makes way. */
    method Replace(e: T, memory: bool) returns (found: Option<T>)
      requires Valid()
      modifies this, buckets
      ensures Valid() && (buckets == old(buckets) || fresh(buckets))
      ensures found.Some? ==> found.value in old(Contents()) && Equal(less, found.value, e) &&
                              Contents() == old(Contents()) - multiset{found.value} + multiset{e}
      ensures found.None? ==> (forall x :: x in old(Contents()) ==> !Equal(less, x, e)) &&
                              Contents() == old(Contents()) + multiset{e}
      ensures memory ==> buckets.Length == BestCount(elemCnt)
    {
      var k, j := Locate(e);
      found := None;
      if j < |buckets[k]| {
        found := Some(buckets[k][j]);
        RemoveElem(k, j, e);
      }
      InsertElem(k, e);
      Rehash(memory);
    }

    /** hash_delete. */
    method Delete(e: T, memory: bool) returns (found: Option<T>)
      requires Valid()
      modifies this, buckets
      ensures Valid() && (buckets == old(buckets) || fresh(buckets))
      ensures found.Some? ==> found.value in old(Contents()) && Equal(less, found.value, e) &&
                              Contents() == old(Contents()) - multiset{found.value}
      ensures found.None? ==> (forall x :: x in old(Contents()) ==> !Equal(less, x, e)) && Contents() == old(Contents())
      ensures if found.Some? then memory ==> buckets.Length == BestCount(elemCnt) else buckets == old(buckets)
    {
      var k, j := Locate(e);
      found := None;
      if j < |buckets[k]| {
        found := Some(buckets[k][j]);
        RemoveElem(k, j, e);
        Rehash(memory);
      }
    }
  }

  // ---------------------------------------------------------------------
  // Iteration.

  /** hash_init: it fails exactly when there is no memory for the buckets. */
  method HashInit<T(!new)>(hash: T -> nat, less: (T, T) -> bool, memory: bool) returns (table: Option<Hash<T>>)
    requires Lawful(hash, less)
    ensures table.Some? <==> memory
    ensures table.Some? ==> fresh(table.value) && fresh(table.value.buckets) && table.value.Valid() &&
                            table.value.Contents() == multiset{}
    ensures table.Some? ==> table.value.hash == hash && table.value.less == less
  {
    table := None;
    if memory {
      var h := new Hash(hash, less);
      table := Some(h);
    }
  }

  /** hash_first and hash_next: a bucket and a position in it, -1 before the
      first element; past the last bucket at the end. */
  class HashIterator<T(!new)> {
    const table: Hash<T>
    var bucket: nat
    var pos: int

    ghost predicate Valid()
      reads this, table, table.buckets
    {
      bucket < table.buckets.Length && -1 <= pos < |table.buckets[bucket]|
    }

    /** The elements returned so far. */
    ghost function Seen(): multiset<T>
      requires Valid()
      reads this, table, table.buckets
    {
      Before(table.buckets[..], bucket, pos + 1)
    }

    constructor (table: Hash<T>)
      requires table.Valid()
      ensures this.table == table && Valid() && Seen() == multiset{}
    {
      this.table := table;
      bucket, pos := 0, -1;
    }

    /** hash_next: one more element each time, until all have been seen. */
    method Next() returns (e: Option<T>)
      requires table.Valid() && Valid()
      modifies this
      ensures e.Some? ==> Valid() && Seen() == old(Seen()) + multiset{e.value}
      ensures e.None? ==> old(Seen()) == table.Contents()
    {
      ghost var bs, seen := table.buckets[..], Seen();
      pos := pos + 1;
      while pos == |table.buckets[bucket]|
        invariant bucket < table.buckets.Length && 0 <= pos <= |table.buckets[bucket]|
        invariant Before(bs, bucket, pos) == seen
        decreases table.buckets.Length - bucket, |table.buckets[bucket]| - pos
      {
        BucketDone(bs, bucket);
        bucket := bucket + 1;
        if bucket >= table.buckets.Length {
          return None;
        }
        pos := 0;
      }
      OneMore(bs, bucket, pos);
      e := Some(table.buckets[bucket][pos]);
    }
  }

  /** The elements in front of position n of bucket k. */
  ghost function Before<T>(bs: seq<seq<T>>, k: nat, n: nat): multiset<T>
    requires k < |bs| && n <= |bs[k]|
  {
    All(bs[..k]) + multiset(bs[k][..n])
  }

  lemma PrefixGrows<T>(s: seq<T>, n: nat)
    requires n < |s|
    ensures multiset(s[..n + 1]) == multiset(s[..n]) + multiset{s[n]}
  {
    assert s[..n + 1] == s[..n] + [s[n]];
  }

  lemma OneMore<T>(bs: seq<seq<T>>, k: nat, n: nat)
    requires k < |bs| && n < |bs[k]|
    ensures Before(bs, k, n + 1) == Before(bs, k, n) + multiset{bs[k][n]}
  {
    PrefixGrows(bs[k], n);
  }

  lemma BucketDone<T>(bs: seq<seq<T>>, k: nat)
    requires k < |bs|
    ensures Before(bs, k, |bs[k]|) == if k + 1 < |bs| then Before(bs, k + 1, 0) else All(bs)
  {
    assert bs[..k + 1][..k] == bs[..k] && bs[k][..|bs[k]|] == bs[k];
    assert k + 1 == |bs| ==> bs[..k + 1] == bs;
  }

  /** The iteration idiom visits every element of the table exactly once. */
  method VisitAll<T(!new)>(table: Hash<T>) returns (visited: seq<T>)
    requires table.Valid()
    ensures multiset(visited) == table.Contents()
    ensures forall i, j :: 0 <= i < j < |visited| ==> visited[i] != visited[j]
  {
    visited := [];
    var it := new HashIterator(table);
    var e := it.Next();
    while e.Some?
      invariant fresh(it) && it.table == table
      invariant e.Some? ==> it.Valid() && it.Seen() == multiset(visited) + multiset{e.value}
      invariant e.None? ==> multiset(visited) == table.Contents()
      decreases |table.Contents()| - |visited|, e.Some?
    {
      SeenIsPart(table.buckets[..], it.bucket, it.pos + 1);
      visited := visited + [e.value];
      e := it.Next();
    }
    OnceEach(visited, table.less);
  }

  lemma OnceEach<T>(s: seq<T>, less: (T, T) -> bool)
    requires SetLike(multiset(s), less)
    ensures forall i, j :: 0 <= i < j < |s| ==> s[i] != s[j]
  {
    forall i, j | 0 <= i < j < |s| ensures s[i] != s[j] {
      CountsTwice(s, i, j);
      assert s[i] in multiset(s);
    }
  }

  lemma CountsTwice<T>(s: seq<T>, i: nat, j: nat)
    requires i < j < |s|
    ensures s[i] == s[j] ==> multiset(s)[s[i]] >= 2
  {
    var t := s[i + 1..];
    assert s == s[..i] + [s[i]] + t;
    assert t[j - i - 1] == s[j] && s[j] in multiset(t);
  }

  lemma SeenIsPart<T>(bs: seq<seq<T>>, k: nat, p: nat)
    requires k < |bs| && p <= |bs[k]|
    ensures |All(bs[..k]) + multiset(bs[k][..p])| <= |All(bs)|
  {
    assert bs[..k + 1][..k] == bs[..k];
    assert bs[k] == bs[k][..p] + bs[k][p..];
    AllPrefix(bs, k + 1);
  }

  lemma {:induction false} AllPrefix<T>(bs: seq<seq<T>>, k: nat)
    requires k <= |bs|
    ensures |All(bs[..k])| <= |All(bs)|
    decreases |bs|
  {
    if k == |bs| {
      assert bs[..k] == bs;
    } else {
      var n := |bs| - 1;
      assert bs[..n][..k] == bs[..k];
      AllPrefix(bs[..n], k);
    }
  }
}
