/** How malloc lays blocks out in pages, and what its free lists and arena headers
    say about the blocks that are in use. */
module Arenas {
  import opened Div
  import opened Bits
  import opened Prelude
  import opened Ranges
  import opened Palloc

  const DescCnt: nat := 7

  /** The size of struct arena. */
  const Header: nat := 12

  function Size(d: nat): nat {
    16 * Pow2(d)
  }

  function PerArena(d: nat): nat {
    DivisionBounds(PageSize - Header, Size(d));
    (PageSize - Header) / Size(d)
  }

  /** An arena's header: its descriptor, none for a big block, and its count of free
      blocks or, for a big block, of pages. */
  datatype Arena = Arena(desc: Option<nat>, freeCnt: nat)

  /** arena_to_block. */
  function Addr(p: nat, d: nat, i: nat): nat {
    p * PageSize + Header + i * Size(d)
  }

  function BigAddr(p: nat): nat {
    p * PageSize + Header
  }

  /** The arena of an address, from rounding down to its page. */
  function Page(a: nat): nat {
    a / PageSize
  }

  function Idx(d: nat, a: nat): nat {
    if a % PageSize < Header then 0 else DivisionBounds(a % PageSize - Header, Size(d)); (a % PageSize - Header) / Size(d)
  }

  /** The address is aligned as a block of its arena. */
  ghost predicate IsBlock(d: nat, a: nat) {
    Idx(d, a) < PerArena(d) && a == Addr(Page(a), d, Idx(d, a))
  }

  lemma SizeFacts(d: nat)
    requires d < DescCnt
    ensures 16 <= Size(d) <= 1024 && 3 <= PerArena(d) && Header + PerArena(d) * Size(d) <= PageSize
  {
    Pow2Grows(d, DescCnt);
    DivisionBounds(PageSize - Header, Size(d));
    assert Pow2(7) == 128 by {
      Pow2Values();
      assert Pow2(7) == 2 * Pow2(6) && Pow2(6) == 2 * Pow2(5) && Pow2(5) == 2 * Pow2(4);
    }
    assert Pow2(d) <= 64 by {
      if d < 6 {
        Pow2Grows(d, 6);
      }
    }
    QuotientAtLeast(PageSize - Header, Size(d), 3);
  }

  /** Blocks stay within their page, behind its header. */
  lemma BlockInPage(p: nat, d: nat, i: nat)
    requires d < DescCnt && i < PerArena(d)
    ensures p * PageSize + Header <= Addr(p, d, i) && Addr(p, d, i) + Size(d) <= (p + 1) * PageSize
    ensures Page(Addr(p, d, i)) == p && Idx(d, Addr(p, d, i)) == i && IsBlock(d, Addr(p, d, i))
  {
    SizeFacts(d);
    MulMono(i + 1, PerArena(d), Size(d));
    assert (i + 1) * Size(d) == i * Size(d) + Size(d);
    assert i * Size(d) >= 0;
    DivModUnique(Addr(p, d, i), PageSize, p, Header + i * Size(d));
    QuotientUnique(i * Size(d), Size(d), i);
  }

  /** Two blocks of one arena do not overlap. */
  lemma BlocksApart(p: nat, d: nat, i: nat, j: nat)
    requires i < j
    ensures Addr(p, d, i) + Size(d) <= Addr(p, d, j)
  {
    MulMono(i + 1, j, Size(d));
    assert (i + 1) * Size(d) == i * Size(d) + Size(d);
  }

  // ---------------------------------------------------------------------
  // Big blocks.

  /** Pages for a request of size bytes and a header, in 32-bit arithmetic. */
  function BigPages(size: nat): nat {
    ((size + Header) % 0x1_0000_0000 + PageSize - 1) % 0x1_0000_0000 / PageSize
  }

  /** When the count comes out non-zero, the pages hold the request exactly when the
      request is not within a header's size of the end of the 32-bit range. */
  lemma BigPagesFit(size: nat)
    requires 0 < size < 0x1_0000_0000 && BigPages(size) > 0
    ensures size <= PageSize * BigPages(size) - Header <==> size <= 0x1_0000_0000 - Header
  {
  }

  /** Up to there it takes no more pages than it needs. */
  lemma BigPagesLeast(size: nat)
    requires size + 12 + 4095 < 0x1_0000_0000
    ensures 4096 * (BigPages(size) - 1) < size + 12 <= 4096 * BigPages(size)
  {
  }

  lemma BigPagesTooFew()
    ensures BigPages(0xFFFF_FFFF) == 1
  {
  }

  // ---------------------------------------------------------------------
  // Free lists.

  /** The indices of the free blocks of arena p. */
  ghost function FreeIdx(free: seq<nat>, p: nat, d: nat): set<int> {
    set i | i in Below(PerArena(d)) && Addr(p, d, i) in free
  }

  lemma FreeIdxBound(free: seq<nat>, p: nat, d: nat)
    ensures |FreeIdx(free, p, d)| <= PerArena(d)
    ensures |FreeIdx(free, p, d)| == PerArena(d) ==> forall i: nat :: i < PerArena(d) ==> Addr(p, d, i) in free
  {
    var s := FreeIdx(free, p, d);
    SubsetSize(s, PerArena(d));
    if |s| == PerArena(d) {
      FullSubset(s, PerArena(d));
      forall i: nat | i < PerArena(d) ensures Addr(p, d, i) in free {
        assert i in s;
      }
    }
  }

  lemma FreeIdxFull(free: seq<nat>, p: nat, d: nat)
    requires forall i: nat :: i < PerArena(d) ==> Addr(p, d, i) in free
    ensures |FreeIdx(free, p, d)| == PerArena(d)
  {
    assert FreeIdx(free, p, d) == Below(PerArena(d));
  }

  /** Lists that agree on a page's blocks count the same free blocks. */
  lemma FreeIdxSame(f: seq<nat>, g: seq<nat>, p: nat, d: nat)
    requires d < DescCnt
    requires forall a :: Page(a) == p ==> (a in f <==> a in g)
    ensures FreeIdx(f, p, d) == FreeIdx(g, p, d)
  {
    forall i | i in Below(PerArena(d)) ensures Addr(p, d, i) in f <==> Addr(p, d, i) in g {
      BlockInPage(p, d, i);
    }
  }

  /** A list with one more block of a page counts one more. */
  lemma FreeIdxMore(f: seq<nat>, g: seq<nat>, d: nat, a: nat)
    requires d < DescCnt && IsBlock(d, a) && a !in f && a in g
    requires forall x :: x != a ==> (x in f <==> x in g)
    ensures |FreeIdx(g, Page(a), d)| == |FreeIdx(f, Page(a), d)| + 1
  {
    var p, k := Page(a), Idx(d, a);
    forall i | i in Below(PerArena(d)) && i != k ensures Addr(p, d, i) != a {
      BlockInPage(p, d, i);
    }
    assert k in Below(PerArena(d));
    assert FreeIdx(g, p, d) == FreeIdx(f, p, d) + {k};
  }

  // ---------------------------------------------------------------------
  // The invariant.

  type Headers = map<nat, Arena>

  function Span(arena: Arena): nat {
    if arena.desc.Some? then 1 else arena.freeCnt
  }

  ghost predicate FreeListOk(arenas: Headers, d: nat, free: seq<nat>) {
    && Distinct(free)
    && forall a :: a in free ==> IsBlock(d, a) && Page(a) in arenas && arenas[Page(a)].desc == Some(d)
  }

  ghost predicate FreeOk(arenas: Headers, free: seq<seq<nat>>) {
    |free| == DescCnt && forall d {:trigger FreeListOk(arenas, d, free[d])} :: 0 <= d < DescCnt ==> FreeListOk(arenas, d, free[d])
  }

  ghost predicate LiveAt(arenas: Headers, a: nat) {
    && Page(a) in arenas
    && match arenas[Page(a)].desc
       case Some(d) => d < DescCnt && IsBlock(d, a)
       case None => a == BigAddr(Page(a))
  }

  ghost predicate LiveOk(arenas: Headers, live: set<nat>) {
    forall a {:trigger LiveAt(arenas, a)} :: a in live ==> LiveAt(arenas, a)
  }

  /** Each block of a small arena is in use or on the free list, and not both. */
  ghost predicate Split(p: nat, d: nat, free: seq<nat>, live: set<nat>) {
    forall i: nat :: i < PerArena(d) ==> (Addr(p, d, i) in live <==> Addr(p, d, i) !in free)
  }

  ghost predicate ArenaOk(p: nat, arena: Arena, free: seq<seq<nat>>, live: set<nat>)
    requires |free| == DescCnt
  {
    match arena.desc
    case Some(d) => d < DescCnt && Split(p, d, free[d], live) && arena.freeCnt == |FreeIdx(free[d], p, d)|
    case None => arena.freeCnt > 0 && BigAddr(p) in live
  }

  ghost predicate ArenasOk(arenas: Headers, free: seq<seq<nat>>, live: set<nat>)
    requires |free| == DescCnt
  {
    forall p {:trigger ArenaOk(p, arenas[p], free, live)} :: p in arenas ==> ArenaOk(p, arenas[p], free, live)
  }

  ghost predicate NotAllFree(arena: Arena) {
    arena.desc.Some? ==> arena.freeCnt < PerArena(arena.desc.value)
  }

  /** Every small arena but the one named has a block in use. */
  ghost predicate Needed(arenas: Headers, but: Option<nat>) {
    forall p {:trigger NotAllFree(arenas[p])} :: p in arenas && Some(p) != but ==> NotAllFree(arenas[p])
  }

  ghost predicate Apart(p: nat, m: nat, q: nat, n: nat) {
    p + m <= q || q + n <= p
  }

  ghost predicate PagesApart(arenas: Headers) {
    forall p, q {:trigger Apart(p, Span(arenas[p]), q, Span(arenas[q]))} ::
      p in arenas && q in arenas && p != q ==> Apart(p, Span(arenas[p]), q, Span(arenas[q]))
  }

  ghost predicate Inv(arenas: Headers, free: seq<seq<nat>>, live: set<nat>, but: Option<nat>) {
    FreeOk(arenas, free) && LiveOk(arenas, live) && ArenasOk(arenas, free, live) && Needed(arenas, but) && PagesApart(arenas)
  }

  /** The pages the arenas hold. */
  ghost function Held(arenas: Headers): set<nat> {
    set p, x | p in arenas && x in PageRange(p, Span(arenas[p])) :: x
  }

  function Capacity(arenas: Headers, a: nat): nat
    requires Page(a) in arenas
  {
    match arenas[Page(a)].desc
    case Some(d) => Size(d)
    case None => if PageSize * arenas[Page(a)].freeCnt < a % PageSize then 0
                 else PageSize * arenas[Page(a)].freeCnt - a % PageSize
  }

  // ---------------------------------------------------------------------
  // What the invariant means.

  /** A block in use lies behind its arena's header and within its arena's pages. */
  lemma LiveInPages(arenas: Headers, a: nat)
    requires LiveAt(arenas, a)
    requires arenas[Page(a)].desc.None? ==> arenas[Page(a)].freeCnt > 0
    ensures var p := Page(a); var end := (p + Span(arenas[p])) * PageSize;
            p * PageSize + Header <= a && 0 < Capacity(arenas, a) && a + Capacity(arenas, a) <= end
  {
    match arenas[Page(a)].desc {
      case Some(d) =>
        BlockInPage(Page(a), d, Idx(d, a));
        SizeFacts(d);
      case None =>
    }
  }

  /** Blocks in use do not overlap. */
  lemma LiveApart(arenas: Headers, free: seq<seq<nat>>, live: set<nat>, but: Option<nat>, a: nat, b: nat)
    requires Inv(arenas, free, live, but) && a in live && b in live && a != b
    ensures Page(a) in arenas && Page(b) in arenas
    ensures Apart(a, Capacity(arenas, a), b, Capacity(arenas, b))
  {
    assert LiveAt(arenas, a) && LiveAt(arenas, b);
    var p, q := Page(a), Page(b);
    assert ArenaOk(p, arenas[p], free, live) && ArenaOk(q, arenas[q], free, live);
    if p == q {
      var d := arenas[p].desc.value;
      if Idx(d, a) < Idx(d, b) {
        BlocksApart(p, d, Idx(d, a), Idx(d, b));
      } else {
        BlocksApart(p, d, Idx(d, b), Idx(d, a));
      }
    } else {
      LiveInPages(arenas, a);
      LiveInPages(arenas, b);
      assert Apart(p, Span(arenas[p]), q, Span(arenas[q]));
    }
  }

  /** With no block in use there is no arena and no free block: all pages are back. */
  lemma AllFreed(arenas: Headers, free: seq<seq<nat>>)
    requires Inv(arenas, free, {}, None)
    ensures arenas == map[] && Held(arenas) == {} && forall d, a :: 0 <= d < DescCnt ==> a !in free[d]
  {
    if arenas != map[] {
      var p :| p in arenas;
      assert ArenaOk(p, arenas[p], free, {});
      var d := arenas[p].desc.value;
      assert NotAllFree(arenas[p]);
      FreeIdxFull(free[d], p, d);
      assert false;
    }
    assert forall d :: 0 <= d < DescCnt ==> FreeListOk(arenas, d, free[d]);
  }
}
