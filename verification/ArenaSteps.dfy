/** What malloc and free do to arenas and free lists, step by step, and that each
    step keeps the invariant. */
module ArenaSteps {
  import opened Prelude
  import opened Palloc
  import opened Arenas

  // ---------------------------------------------------------------------
  // A new arena for small blocks.

  function NewBlocks(p: nat, d: nat, n: nat): seq<nat> {
    seq(n, i requires 0 <= i < n => Addr(p, d, i))
  }

  lemma NewBlocksAre(p: nat, d: nat)
    requires d < DescCnt
    ensures Distinct(NewBlocks(p, d, PerArena(d)))
    ensures forall a :: a in NewBlocks(p, d, PerArena(d)) ==> Page(a) == p && IsBlock(d, a)
  {
    var s := NewBlocks(p, d, PerArena(d));
    forall i | 0 <= i < |s| ensures Page(s[i]) == p && IsBlock(d, s[i]) && Idx(d, s[i]) == i {
      BlockInPage(p, d, i);
    }
  }

  /** Page p does not belong to any arena. */
  ghost predicate Unheld(arenas: Headers, p: nat, cnt: nat) {
    p !in arenas && forall q :: q in arenas ==> Apart(p, cnt, q, Span(arenas[q]))
  }

  lemma GrowFree(arenas: Headers, free: seq<seq<nat>>, p: nat, d: nat)
    requires FreeOk(arenas, free) && p !in arenas && d < DescCnt
    ensures FreeOk(arenas[p := Arena(Some(d), PerArena(d))], free[d := free[d] + NewBlocks(p, d, PerArena(d))])
  {
    var arenas' := arenas[p := Arena(Some(d), PerArena(d))];
    var added := NewBlocks(p, d, PerArena(d));
    NewBlocksAre(p, d);
    assert FreeListOk(arenas, d, free[d]);
    forall i, j | 0 <= i < |free[d]| && 0 <= j < |added| ensures free[d][i] != added[j] {
      assert free[d][i] in free[d] && added[j] in added;
    }
    var free' := free[d := free[d] + added];
    forall e | 0 <= e < DescCnt ensures FreeListOk(arenas', e, free'[e]) {
      assert FreeListOk(arenas, e, free[e]);
    }
  }

  lemma GrowArenas(arenas: Headers, free: seq<seq<nat>>, live: set<nat>, p: nat, d: nat)
    requires FreeOk(arenas, free) && LiveOk(arenas, live) && ArenasOk(arenas, free, live) && p !in arenas && d < DescCnt
    ensures ArenasOk(arenas[p := Arena(Some(d), PerArena(d))], free[d := free[d] + NewBlocks(p, d, PerArena(d))], live)
  {
    var added := NewBlocks(p, d, PerArena(d));
    var free' := free[d := free[d] + added];
    NewBlocksAre(p, d);
    forall i: nat | i < PerArena(d) ensures Addr(p, d, i) in free'[d] && Addr(p, d, i) !in live {
      assert added[i] == Addr(p, d, i);
      BlockInPage(p, d, i);
      assert Addr(p, d, i) in live ==> LiveAt(arenas, Addr(p, d, i));
    }
    FreeIdxFull(free'[d], p, d);
    forall q | q in arenas ensures ArenaOk(q, arenas[q], free', live) {
      OtherListSame(q, arenas[q], free, free', live);
    }
  }

  /** An arena none of whose blocks changed hands is as it was. */
  lemma OtherListSame(q: nat, arena: Arena, free: seq<seq<nat>>, free': seq<seq<nat>>, live: set<nat>)
    requires |free| == DescCnt && |free'| == DescCnt && ArenaOk(q, arena, free, live)
    requires arena.desc.Some? ==> forall a :: Page(a) == q ==> (a in free[arena.desc.value] <==> a in free'[arena.desc.value])
    ensures ArenaOk(q, arena, free', live)
  {
    if arena.desc.Some? {
      var d := arena.desc.value;
      FreeIdxSame(free[d], free'[d], q, d);
      forall i: nat | i < PerArena(d) ensures Addr(q, d, i) in live <==> Addr(q, d, i) !in free'[d] {
        BlockInPage(q, d, i);
      }
    }
  }

  lemma GrowKeeps(arenas: Headers, free: seq<seq<nat>>, live: set<nat>, p: nat, d: nat)
    requires Inv(arenas, free, live, None) && Unheld(arenas, p, 1) && d < DescCnt
    ensures Inv(arenas[p := Arena(Some(d), PerArena(d))], free[d := free[d] + NewBlocks(p, d, PerArena(d))], live, Some(p))
  {
    GrowFree(arenas, free, p, d);
    GrowArenas(arenas, free, live, p, d);
    assert forall a :: a in live ==> LiveAt(arenas, a);
  }

  // ---------------------------------------------------------------------
  // A block is taken off, or put on, a free list.

  /** The arena of a block with one free block more or less. */
  function Counted(arenas: Headers, p: nat, cnt: nat): Headers
    requires p in arenas
  {
    arenas[p := arenas[p].(freeCnt := cnt)]
  }

  lemma CountedKeeps(arenas: Headers, p: nat, cnt: nat, free: seq<seq<nat>>, live: set<nat>)
    requires p in arenas && arenas[p].desc.Some?
    ensures Held(Counted(arenas, p, cnt)) == Held(arenas)
    ensures PagesApart(arenas) ==> PagesApart(Counted(arenas, p, cnt))
    ensures LiveOk(arenas, live) ==> LiveOk(Counted(arenas, p, cnt), live)
    ensures FreeOk(arenas, free) ==> FreeOk(Counted(arenas, p, cnt), free)
  {
    var after := Counted(arenas, p, cnt);
    assert forall q :: q in arenas ==> Span(after[q]) == Span(arenas[q]) && after[q].desc == arenas[q].desc;
    if LiveOk(arenas, live) {
      forall a | a in live ensures LiveAt(after, a) {
        assert LiveAt(arenas, a);
      }
    }
    if FreeOk(arenas, free) {
      forall d | 0 <= d < DescCnt ensures FreeListOk(after, d, free[d]) {
        assert FreeListOk(arenas, d, free[d]);
      }
    }
    HeldSame(arenas, after);
  }

  lemma HeldSame(arenas: Headers, after: Headers)
    requires after.Keys == arenas.Keys && forall q :: q in arenas ==> Span(after[q]) == Span(arenas[q])
    ensures Held(after) == Held(arenas)
  {
    forall x ensures x in Held(after) <==> x in Held(arenas) {
      if x in Held(arenas) {
        var p :| p in arenas && x in PageRange(p, Span(arenas[p]));
        assert p in after && x in PageRange(p, Span(after[p]));
      }
      if x in Held(after) {
        var p :| p in after && x in PageRange(p, Span(after[p]));
        assert p in arenas && x in PageRange(p, Span(arenas[p]));
      }
    }
  }

  /** The lists are the same except that block a is on list d of the second only. */
  ghost predicate OneMore(free: seq<seq<nat>>, more: seq<seq<nat>>, d: nat, a: nat) {
    && |free| == |more| == DescCnt && d < DescCnt && IsBlock(d, a) && a !in free[d] && a in more[d]
    && (forall e :: 0 <= e < DescCnt && e != d ==> free[e] == more[e])
    && forall x :: x != a ==> (x in free[d] <==> x in more[d])
  }

  /** An arena that does not hold the block sees no difference. */
  lemma Elsewhere(q: nat, arena: Arena, free: seq<seq<nat>>, more: seq<seq<nat>>, live: set<nat>, d: nat, a: nat)
    requires OneMore(free, more, d, a) && Page(a) != q
    ensures ArenaOk(q, arena, free, live + {a}) <==> ArenaOk(q, arena, more, live)
  {
    assert Page(BigAddr(q)) == q;
    if arena.desc.Some? && arena.desc.value < DescCnt {
      var e := arena.desc.value;
      FreeIdxSame(free[e], more[e], q, e);
      forall i: nat | i < PerArena(e) ensures Addr(q, e, i) != a {
        BlockInPage(q, e, i);
      }
    }
  }

  /** Taking the block or putting it back, with the arena's count one lower or higher. */
  lemma MoveKeeps(arenas: Headers, free: seq<seq<nat>>, more: seq<seq<nat>>, live: set<nat>, d: nat, a: nat, cnt: nat)
    requires OneMore(free, more, d, a) && a !in live
    requires Page(a) in arenas && arenas[Page(a)].desc == Some(d)
    ensures ArenasOk(Counted(arenas, Page(a), cnt), free, live + {a}) <==>
            ArenasOk(Counted(arenas, Page(a), cnt + 1), more, live)
  {
    var p := Page(a);
    var low, high := Counted(arenas, p, cnt), Counted(arenas, p, cnt + 1);
    FreeIdxMore(free[d], more[d], d, a);
    assert ArenaOk(p, low[p], free, live + {a}) <==> ArenaOk(p, high[p], more, live);
    forall q | q in arenas && q != p
      ensures ArenaOk(q, low[q], free, live + {a}) <==> ArenaOk(q, high[q], more, live)
    {
      Elsewhere(q, arenas[q], free, more, live, d, a);
    }
  }

  /** The first block of a list is a free block of an arena that counts it. */
  lemma FirstFree(arenas: Headers, free: seq<seq<nat>>, live: set<nat>, d: nat)
    requires FreeOk(arenas, free) && ArenasOk(arenas, free, live) && d < DescCnt && free[d] != []
    ensures var a := free[d][0]; var p := Page(a);
            a !in live && IsBlock(d, a) && p in arenas && arenas[p].desc == Some(d) &&
            0 < arenas[p].freeCnt <= PerArena(d) && OneMore(free[d := free[d][1..]], free, d, a)
  {
    var a := free[d][0];
    var p, after := Page(a), free[d := free[d][1..]];
    assert FreeListOk(arenas, d, free[d]) && a in free[d];
    assert ArenaOk(p, arenas[p], free, live);
    assert OneMore(after, free, d, a);
    FreeIdxMore(after[d], free[d], d, a);
    FreeIdxBound(free[d], p, d);
  }

  /** malloc: the first block of list d goes into use. */
  lemma TakeKeeps(arenas: Headers, free: seq<seq<nat>>, live: set<nat>, but: Option<nat>, d: nat, a: nat)
    requires Inv(arenas, free, live, but) && d < DescCnt && free[d] != [] && free[d][0] == a
    requires but == None || but == Some(Page(a))
    ensures a !in live && Page(a) in arenas && arenas[Page(a)].desc == Some(d) && 0 < arenas[Page(a)].freeCnt
    ensures Inv(Counted(arenas, Page(a), arenas[Page(a)].freeCnt - 1), free[d := free[d][1..]], live + {a}, None)
  {
    FirstFree(arenas, free, live, d);
    TakeArenas(arenas, free[d := free[d][1..]], free, live, d, a);
    TakeShape(arenas, free, live, d, a, arenas[Page(a)].freeCnt - 1);
    CountedNeeded(arenas, but, Page(a), arenas[Page(a)].freeCnt - 1);
  }

  lemma TakeArenas(arenas: Headers, rest: seq<seq<nat>>, free: seq<seq<nat>>, live: set<nat>, d: nat, a: nat)
    requires OneMore(rest, free, d, a) && ArenasOk(arenas, free, live) && a !in live
    requires Page(a) in arenas && arenas[Page(a)].desc == Some(d) && 0 < arenas[Page(a)].freeCnt
    ensures ArenasOk(Counted(arenas, Page(a), arenas[Page(a)].freeCnt - 1), rest, live + {a})
  {
    assert Counted(arenas, Page(a), arenas[Page(a)].freeCnt) == arenas;
    MoveKeeps(arenas, rest, free, live, d, a, arenas[Page(a)].freeCnt - 1);
  }

  lemma TakeShape(arenas: Headers, free: seq<seq<nat>>, live: set<nat>, d: nat, a: nat, cnt: nat)
    requires FreeOk(arenas, free) && LiveOk(arenas, live) && PagesApart(arenas) && d < DescCnt && free[d] != []
    requires IsBlock(d, a) && Page(a) in arenas && arenas[Page(a)].desc == Some(d)
    ensures var after := Counted(arenas, Page(a), cnt);
            FreeOk(after, free[d := free[d][1..]]) && LiveOk(after, live + {a}) && PagesApart(after)
  {
    ShrunkFree(arenas, free, d);
    assert LiveAt(arenas, a);
    CountedKeeps(arenas, Page(a), cnt, free[d := free[d][1..]], live + {a});
  }

  lemma CountedNeeded(arenas: Headers, but: Option<nat>, p: nat, cnt: nat)
    requires Needed(arenas, but) && p in arenas && arenas[p].desc.Some? && (but == None || but == Some(p))
    requires cnt < PerArena(arenas[p].desc.value)
    ensures Needed(Counted(arenas, p, cnt), None)
  {
  }

  lemma ShrunkFree(arenas: Headers, free: seq<seq<nat>>, d: nat)
    requires FreeOk(arenas, free) && d < DescCnt && free[d] != []
    ensures FreeOk(arenas, free[d := free[d][1..]])
  {
    var after := free[d := free[d][1..]];
    forall e | 0 <= e < DescCnt ensures FreeListOk(arenas, e, after[e]) {
      assert FreeListOk(arenas, e, free[e]);
    }
  }

  /** A small block in use is not on its list, and its arena has room to count it. */
  lemma InUse(arenas: Headers, free: seq<seq<nat>>, live: set<nat>, d: nat, a: nat)
    requires |free| == DescCnt && LiveOk(arenas, live) && ArenasOk(arenas, free, live)
    requires a in live && Page(a) in arenas && arenas[Page(a)].desc == Some(d)
    ensures d < DescCnt && IsBlock(d, a) && OneMore(free, free[d := [a] + free[d]], d, a)
    ensures arenas[Page(a)].freeCnt + 1 <= PerArena(d)
  {
    var p, more := Page(a), free[d := [a] + free[d]];
    assert LiveAt(arenas, a);
    assert ArenaOk(p, arenas[p], free, live);
    assert a == Addr(p, d, Idx(d, a));
    assert OneMore(free, more, d, a);
    FreeIdxMore(free[d], more[d], d, a);
    FreeIdxBound(more[d], p, d);
  }

  /** free: a block in use goes to the front of its list. */
  lemma PutKeeps(arenas: Headers, free: seq<seq<nat>>, live: set<nat>, d: nat, a: nat)
    requires Inv(arenas, free, live, None) && a in live && Page(a) in arenas && arenas[Page(a)].desc == Some(d)
    ensures d < DescCnt && arenas[Page(a)].freeCnt + 1 <= PerArena(d)
    ensures Inv(Counted(arenas, Page(a), arenas[Page(a)].freeCnt + 1), free[d := [a] + free[d]], live - {a}, Some(Page(a)))
  {
    InUse(arenas, free, live, d, a);
    PutArenas(arenas, free, free[d := [a] + free[d]], live, d, a);
    PutShape(arenas, free, live, d, a, arenas[Page(a)].freeCnt + 1);
  }

  lemma PutArenas(arenas: Headers, free: seq<seq<nat>>, more: seq<seq<nat>>, live: set<nat>, d: nat, a: nat)
    requires OneMore(free, more, d, a) && ArenasOk(arenas, free, live) && a in live
    requires Page(a) in arenas && arenas[Page(a)].desc == Some(d)
    ensures ArenasOk(Counted(arenas, Page(a), arenas[Page(a)].freeCnt + 1), more, live - {a})
  {
    assert Counted(arenas, Page(a), arenas[Page(a)].freeCnt) == arenas;
    assert live - {a} + {a} == live;
    MoveKeeps(arenas, free, more, live - {a}, d, a, arenas[Page(a)].freeCnt);
  }

  lemma PutShape(arenas: Headers, free: seq<seq<nat>>, live: set<nat>, d: nat, a: nat, cnt: nat)
    requires FreeOk(arenas, free) && LiveOk(arenas, live) && PagesApart(arenas) && d < DescCnt
    requires a !in free[d] && IsBlock(d, a) && Page(a) in arenas && arenas[Page(a)].desc == Some(d)
    ensures var after := Counted(arenas, Page(a), cnt);
            FreeOk(after, free[d := [a] + free[d]]) && LiveOk(after, live - {a}) && PagesApart(after)
  {
    GrownFree(arenas, free, d, a);
    CountedKeeps(arenas, Page(a), cnt, free[d := [a] + free[d]], live - {a});
  }

  lemma GrownFree(arenas: Headers, free: seq<seq<nat>>, d: nat, a: nat)
    requires FreeOk(arenas, free) && d < DescCnt && a !in free[d]
    requires IsBlock(d, a) && Page(a) in arenas && arenas[Page(a)].desc == Some(d)
    ensures FreeOk(arenas, free[d := [a] + free[d]])
  {
    var after := free[d := [a] + free[d]];
    forall e | 0 <= e < DescCnt ensures FreeListOk(arenas, e, after[e]) {
      assert FreeListOk(arenas, e, free[e]);
    }
  }

  // ---------------------------------------------------------------------
  // An arena goes back to the page allocator.

  /** The list d after the removal of the blocks of arena p. */
  ghost predicate Dropped(free: seq<seq<nat>>, after: seq<seq<nat>>, d: nat, p: nat) {
    && |free| == |after| == DescCnt && d < DescCnt && Distinct(after[d])
    && (forall e :: 0 <= e < DescCnt && e != d ==> free[e] == after[e])
    && forall x :: x in after[d] <==> x in free[d] && Page(x) != p
  }

  lemma DropFree(arenas: Headers, free: seq<seq<nat>>, after: seq<seq<nat>>, d: nat, p: nat)
    requires FreeOk(arenas, free) && Dropped(free, after, d, p) && p in arenas && arenas[p].desc == Some(d)
    ensures FreeOk(arenas - {p}, after)
  {
    forall e | 0 <= e < DescCnt ensures FreeListOk(arenas - {p}, e, after[e]) {
      assert FreeListOk(arenas, e, free[e]);
    }
  }

  lemma DropLive(arenas: Headers, free: seq<nat>, live: set<nat>, d: nat, p: nat)
    requires LiveOk(arenas, live) && p in arenas && arenas[p].desc == Some(d)
    requires Split(p, d, free, live) && |FreeIdx(free, p, d)| == PerArena(d)
    ensures forall a :: a in live ==> Page(a) != p
    ensures LiveOk(arenas - {p}, live)
  {
    FreeIdxBound(free, p, d);
    forall a | a in live ensures Page(a) != p && LiveAt(arenas - {p}, a) {
      assert LiveAt(arenas, a);
      assert Page(a) == p ==> a == Addr(p, d, Idx(d, a));
    }
  }

  lemma DropKeeps(arenas: Headers, free: seq<seq<nat>>, after: seq<seq<nat>>, live: set<nat>, d: nat, p: nat)
    requires Inv(arenas, free, live, Some(p)) && Dropped(free, after, d, p)
    requires p in arenas && arenas[p].desc == Some(d) && arenas[p].freeCnt == PerArena(d)
    ensures Inv(arenas - {p}, after, live, None) && forall a :: a in live ==> Page(a) != p
  {
    assert ArenaOk(p, arenas[p], free, live);
    DropFree(arenas, free, after, d, p);
    DropLive(arenas, free[d], live, d, p);
    forall q | q in arenas - {p} ensures ArenaOk(q, arenas[q], after, live) {
      assert ArenaOk(q, arenas[q], free, live);
      OtherListSame(q, arenas[q], free, after, live);
    }
  }

  // ---------------------------------------------------------------------
  // Big blocks.

  lemma BigAddKeeps(arenas: Headers, free: seq<seq<nat>>, live: set<nat>, p: nat, cnt: nat)
    requires Inv(arenas, free, live, None) && Unheld(arenas, p, cnt) && cnt > 0
    ensures Inv(arenas[p := Arena(None, cnt)], free, live + {BigAddr(p)}, None)
    ensures BigAddr(p) !in live && Page(BigAddr(p)) == p
  {
    var arenas' := arenas[p := Arena(None, cnt)];
    assert Page(BigAddr(p)) == p;
    forall a | a in live ensures Page(a) != p && LiveAt(arenas', a) {
      assert LiveAt(arenas, a);
    }
    forall d | 0 <= d < DescCnt ensures FreeListOk(arenas', d, free[d]) {
      assert FreeListOk(arenas, d, free[d]);
    }
    forall q | q in arenas ensures ArenaOk(q, arenas[q], free, live + {BigAddr(p)}) {
      LiveElsewhere(q, arenas[q], free, live, BigAddr(p));
    }
  }

  lemma BigDropKeeps(arenas: Headers, free: seq<seq<nat>>, live: set<nat>, p: nat)
    requires Inv(arenas, free, live, None) && p in arenas && arenas[p].desc == None
    ensures Inv(arenas - {p}, free, live - {BigAddr(p)}, None)
    ensures forall a :: a in live - {BigAddr(p)} ==> Page(a) != p
  {
    BigDropLive(arenas, live, p);
    BigDropFree(arenas, free, p);
    BigDropArenas(arenas, free, live, p);
  }

  lemma BigDropLive(arenas: Headers, live: set<nat>, p: nat)
    requires LiveOk(arenas, live) && p in arenas && arenas[p].desc == None
    ensures LiveOk(arenas - {p}, live - {BigAddr(p)})
    ensures forall a :: a in live - {BigAddr(p)} ==> Page(a) != p
  {
    forall a | a in live - {BigAddr(p)} ensures Page(a) != p && LiveAt(arenas - {p}, a) {
      assert LiveAt(arenas, a);
    }
  }

  lemma BigDropFree(arenas: Headers, free: seq<seq<nat>>, p: nat)
    requires FreeOk(arenas, free) && p in arenas && arenas[p].desc == None
    ensures FreeOk(arenas - {p}, free)
  {
    forall d | 0 <= d < DescCnt ensures FreeListOk(arenas - {p}, d, free[d]) {
      assert FreeListOk(arenas, d, free[d]);
    }
  }

  lemma BigDropArenas(arenas: Headers, free: seq<seq<nat>>, live: set<nat>, p: nat)
    requires |free| == DescCnt && ArenasOk(arenas, free, live) && p in arenas && arenas[p].desc == None
    ensures ArenasOk(arenas - {p}, free, live - {BigAddr(p)})
  {
    var rest := live - {BigAddr(p)};
    assert Page(BigAddr(p)) == p;
    assert ArenaOk(p, arenas[p], free, live);
    assert rest + {BigAddr(p)} == live;
    forall q | q in arenas - {p} ensures ArenaOk(q, arenas[q], free, rest) {
      LiveElsewhere(q, arenas[q], free, rest, BigAddr(p));
    }
  }

  lemma LiveElsewhere(q: nat, arena: Arena, free: seq<seq<nat>>, live: set<nat>, a: nat)
    requires |free| == DescCnt && Page(a) != q
    ensures ArenaOk(q, arena, free, live) <==> ArenaOk(q, arena, free, live + {a})
  {
    assert Page(BigAddr(q)) == q;
    if arena.desc.Some? && arena.desc.value < DescCnt {
      var d := arena.desc.value;
      forall i: nat | i < PerArena(d) ensures Addr(q, d, i) != a {
        BlockInPage(q, d, i);
      }
    }
  }

  // ---------------------------------------------------------------------
  // The pages the arenas hold.

  lemma HeldAdd(arenas: Headers, p: nat, arena: Arena)
    requires p !in arenas
    ensures Held(arenas[p := arena]) == Held(arenas) + PageRange(p, Span(arena))
  {
    var after := arenas[p := arena];
    forall x ensures x in Held(after) <==> x in Held(arenas) || x in PageRange(p, Span(arena)) {
      if x in Held(arenas) {
        var q :| q in arenas && x in PageRange(q, Span(arenas[q]));
        assert q in after && x in PageRange(q, Span(after[q]));
      }
      if x in PageRange(p, Span(arena)) {
        assert p in after && x in PageRange(p, Span(after[p]));
      }
    }
  }

  lemma HeldDrop(arenas: Headers, p: nat)
    requires p in arenas && PagesApart(arenas)
    ensures Held(arenas - {p}) == Held(arenas) - PageRange(p, Span(arenas[p])) && PageRange(p, Span(arenas[p])) <= Held(arenas)
  {
    var before := arenas - {p};
    assert arenas == before[p := arenas[p]];
    HeldAdd(before, p, arenas[p]);
    forall x | x in Held(before) ensures x !in PageRange(p, Span(arenas[p])) {
      var q :| q in before && x in PageRange(q, Span(before[q]));
      assert Apart(p, Span(arenas[p]), q, Span(arenas[q]));
    }
  }

  /** Pages that were not in use belong to no arena. */
  lemma FreshPages(arenas: Headers, free: seq<seq<nat>>, live: set<nat>, used: set<nat>, p: nat, cnt: nat)
    requires Inv(arenas, free, live, None) && Held(arenas) <= used && cnt > 0 && PageRange(p, cnt) !! used
    ensures Unheld(arenas, p, cnt)
  {
    forall q | q in arenas ensures Apart(p, cnt, q, Span(arenas[q])) && q != p {
      assert ArenaOk(q, arenas[q], free, live);
      assert forall x :: x in PageRange(q, Span(arenas[q])) ==> x in Held(arenas);
      RangesApart(p, cnt, q, Span(arenas[q]));
    }
  }

  lemma RangesApart(p: nat, m: nat, q: nat, n: nat)
    requires m > 0 && n > 0 && PageRange(p, m) !! PageRange(q, n)
    ensures Apart(p, m, q, n) && p != q
  {
    assert p in PageRange(p, m) && q in PageRange(q, n);
  }
}
