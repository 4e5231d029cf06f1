/** The page allocator: two pools of pages, each with a bitmap at its start. */
module Palloc {
  import opened Prelude
  import opened Bitmap

  const PageSize: nat := 4096

  /** The first page above 1 MB, where free memory starts. */
  const FirstFreePage: nat := 256

  function DivRoundUp(x: nat, step: nat): nat
    requires step > 0
  {
    (x + step - 1) / step
  }

  /** Pages set aside for the bitmap of a pool of pageCnt pages. */
  function BitmapPages(pageCnt: nat): nat {
    DivRoundUp(BufSize(pageCnt), PageSize)
  }

  /** The bitmap is sized for a pool that still includes the bitmap's own pages; the
      bitmap made for the pages that are left fits in them, whatever the pool's size. */
  lemma BitmapFits(pageCnt: nat)
    requires BitmapPages(pageCnt) <= pageCnt
    ensures BufSize(pageCnt - BitmapPages(pageCnt)) <= BitmapPages(pageCnt) * PageSize
  {
  }

  /** No more pages are set aside than two words and a bit for each page take, in whole words. */
  lemma BitmapPagesLeast(pageCnt: nat)
    ensures var bytes := 8 + (pageCnt + 31) / 32 * 4;
      4096 * (BitmapPages(pageCnt) - 1) < bytes <= 4096 * BitmapPages(pageCnt)
  {
  }

  // ---------------------------------------------------------------------
  // Sets of pages.

  ghost function PageRange(first: nat, cnt: nat): (r: set<nat>)
    ensures forall p: nat :: p in r <==> first <= p < first + cnt
  {
    if cnt == 0 then {} else PageRange(first, cnt - 1) + {first + cnt - 1}
  }

  /** The pages of a pool at base whose bit is set. */
  ghost function Marked(b: seq<bool>, base: nat): (r: set<nat>)
    ensures forall p: nat :: p in r <==> base <= p < base + |b| && b[p - base]
  {
    set p | p in PageRange(base, |b|) && b[p - base]
  }

  lemma MarkedNone(n: nat, base: nat)
    ensures Marked(seq(n, _ => false), base) == {}
  {
  }

  lemma MarkedFilled(b: seq<bool>, base: nat, idx: nat, cnt: nat, value: bool)
    requires idx + cnt <= |b|
    ensures var range := PageRange(base + idx, cnt);
            Marked(Filled(b, idx, cnt, value), base) == if value then Marked(b, base) + range else Marked(b, base) - range
  {
    var after := Filled(b, idx, cnt, value);
    forall k | 0 <= k < |b| ensures after[k] == if idx <= k < idx + cnt then value else b[k] {
    }
    forall p: nat ensures p in Marked(after, base) <==>
        if p in PageRange(base + idx, cnt) then value else p in Marked(b, base) {
      if base <= p < base + |b| {
        assert after[p - base] == if idx <= p - base < idx + cnt then value else b[p - base];
      }
    }
  }

  /** A run of clear bits is a range of pages of the pool that are not marked. */
  lemma ClearRun(b: seq<bool>, base: nat, idx: nat, cnt: nat)
    requires idx + cnt <= |b|
    ensures RunAt(b, idx, cnt, false) <==> PageRange(base + idx, cnt) !! Marked(b, base)
  {
    if PageRange(base + idx, cnt) !! Marked(b, base) {
      forall k | idx <= k < idx + cnt ensures !b[k] {
        assert base + k in PageRange(base + idx, cnt);
      }
    }
  }

  // ---------------------------------------------------------------------
  // Pools.

  class Pool {
    const base: nat
    const usedMap: Bitmap
    ghost const start: nat
    ghost const pageCnt: nat

    ghost predicate Valid()
      reads usedMap.bits
    {
      usedMap.Valid()
    }

    ghost function Used(): set<nat>
      requires Valid()
      reads usedMap.bits
    {
      Marked(usedMap.Bools(), base)
    }

    /** The bitmap's pages come first, and the others follow up to the end of the pool. */
    ghost predicate Laid() {
      base == start + BitmapPages(pageCnt) && base + usedMap.bitCnt == start + pageCnt
    }

    ghost predicate Inside(first: nat, cnt: nat) {
      base <= first && first + cnt <= base + usedMap.bitCnt
    }

    /** No cnt pages in a row are unused. */
    ghost predicate NoRun(cnt: nat)
      requires Valid()
      reads usedMap.bits
    {
      forall p: nat :: Inside(p, cnt) ==> !(PageRange(p, cnt) !! Used())
    }

    /** init_pool, on pageCnt pages from page start on; where the bitmap does not fit it panics. */
    constructor (start: nat, pageCnt: nat)
      requires BitmapPages(pageCnt) <= pageCnt
      ensures Valid() && fresh(usedMap.bits) && Used() == {}
      ensures Laid() && this.start == start && this.pageCnt == pageCnt
      ensures base == start + BitmapPages(pageCnt) && base + usedMap.bitCnt == start + pageCnt
      ensures BufSize(usedMap.bitCnt) <= (base - start) * PageSize
    {
      var bmPages := BitmapPages(pageCnt);
      BitmapFits(pageCnt);
      this.start, this.pageCnt := start, pageCnt;
      base := start + bmPages;
      usedMap := new Bitmap(pageCnt - bmPages);
      new;
      MarkedNone(usedMap.bitCnt, base);
    }

    /** page_from_pool. */
    predicate PageFromPool(page: nat) {
      base <= page < base + usedMap.bitCnt
    }

    method Take(cnt: nat) returns (r: Option<nat>)
      requires Valid()
      modifies usedMap.bits
      ensures Valid()
      ensures r.Some? ==> Inside(r.value, cnt) && PageRange(r.value, cnt) !! old(Used()) &&
                          Used() == old(Used()) + PageRange(r.value, cnt)
      ensures r.None? ==> Used() == old(Used()) && NoRun(cnt)
    {
      ghost var before := usedMap.Bools();
      var idx := usedMap.ScanAndFlip(0, cnt, false);
      if idx.Some? {
        ClearRun(before, base, idx.value, cnt);
        MarkedFilled(before, base, idx.value, cnt, true);
        return Some(base + idx.value);
      }
      forall p: nat | Inside(p, cnt) ensures !(PageRange(p, cnt) !! Used()) {
        ClearRun(before, base, p - base, cnt);
      }
      return None;
    }

    method Give(page: nat, cnt: nat)
      requires Valid() && Inside(page, cnt)
      modifies usedMap.bits
      ensures Valid() && Used() == old(Used()) - PageRange(page, cnt)
    {
      MarkedFilled(usedMap.Bools(), base, page - base, cnt, false);
      usedMap.SetMultiple(page - base, cnt, false);
    }
  }

  /** The kernel pool and the user pool. */
  class PageAllocator {
    const kernelPool: Pool
    const userPool: Pool

    ghost predicate Valid()
      reads kernelPool.usedMap.bits, userPool.usedMap.bits
    {
      && kernelPool.usedMap.bits != userPool.usedMap.bits
      && kernelPool.Valid() && userPool.Valid()
      && FirstFreePage < kernelPool.base && kernelPool.base + kernelPool.usedMap.bitCnt < userPool.base
    }

    /** The pages handed out and not yet freed. */
    ghost function Out(): set<nat>
      requires Valid()
      reads kernelPool.usedMap.bits, userPool.usedMap.bits
    {
      kernelPool.Used() + userPool.Used()
    }

    /** palloc_init. */
    constructor (ramPages: nat, userPageLimit: nat)
      requires FirstFreePage <= ramPages
      requires var user := Min((ramPages - FirstFreePage) / 2, userPageLimit);
               BitmapPages(user) <= user && BitmapPages(ramPages - FirstFreePage - user) <= ramPages - FirstFreePage - user
      ensures Valid() && Out() == {}
      ensures fresh(kernelPool.usedMap.bits) && fresh(userPool.usedMap.bits)
      ensures userPool.base + userPool.usedMap.bitCnt == ramPages && userPool.usedMap.bitCnt <= userPageLimit
      ensures kernelPool.Laid() && userPool.Laid() && kernelPool.start == 256
      ensures userPool.start == kernelPool.start + kernelPool.pageCnt && userPool.start + userPool.pageCnt == ramPages
      ensures userPool.pageCnt == Min((ramPages - 256) / 2, userPageLimit)
    {
      var freePages := ramPages - FirstFreePage;
      var userPages := Min(freePages / 2, userPageLimit);
      var kernelPages := freePages - userPages;
      kernelPool := new Pool(FirstFreePage, kernelPages);
      userPool := new Pool(FirstFreePage + kernelPages, userPages);
    }

    /** palloc_get_multiple without PAL_ASSERT: the pages were not out, lie in the pool
        asked for, and are the only ones that go out; it fails only where no run fits. */
    method GetMultiple(user: bool, pageCnt: nat) returns (pages: Option<nat>)
      requires Valid()
      modifies kernelPool.usedMap.bits, userPool.usedMap.bits
      ensures Valid()
      ensures var pool := if user then userPool else kernelPool;
              match pages
              case Some(p) => pageCnt > 0 && pool.Inside(p, pageCnt) && PageRange(p, pageCnt) !! old(Out()) &&
                              Out() == old(Out()) + PageRange(p, pageCnt) &&
                              pool.Used() == old(pool.Used()) + PageRange(p, pageCnt)
              case None => Out() == old(Out()) && pool.Used() == old(pool.Used()) &&
                           (pageCnt == 0 || pool.NoRun(pageCnt))
      ensures (if user then kernelPool else userPool).Used() == old((if user then kernelPool else userPool).Used())
    {
      if pageCnt == 0 {
        return None;
      }
      if user {
        pages := userPool.Take(pageCnt);
      } else {
        pages := kernelPool.Take(pageCnt);
      }
    }

    /** palloc_free_multiple: pages of one pool that are out come back, and no others. */
    method FreeMultiple(pages: nat, pageCnt: nat)
      requires Valid()
      requires pageCnt > 0 ==> PageRange(pages, pageCnt) <= Out() &&
                               (kernelPool.Inside(pages, pageCnt) || userPool.Inside(pages, pageCnt))
      modifies kernelPool.usedMap.bits, userPool.usedMap.bits
      ensures Valid() && Out() == old(Out()) - PageRange(pages, pageCnt)
      ensures kernelPool.Used() == old(kernelPool.Used()) - PageRange(pages, pageCnt)
    {
      if pageCnt == 0 {
        return;
      }
      if kernelPool.PageFromPool(pages) {
        kernelPool.Give(pages, pageCnt);
      } else {
        userPool.Give(pages, pageCnt);
      }
    }
  }
}
