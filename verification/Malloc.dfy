/** malloc, realloc and free. */
module Malloc {
  import opened Div
  import opened Bits
  import opened Prelude
  import opened Bitmap
  import opened Palloc
  import opened Arenas
  import opened ArenaSteps

  datatype Desc = Desc(blockSize: nat, blocksPerArena: nat)

  /** The sizes double from 16 bytes to 1 kB. */
  ghost predicate DescsOk(descs: seq<Desc>) {
    |descs| == DescCnt && forall d :: 0 <= d < DescCnt ==> descs[d] == Desc(Size(d), PerArena(d))
  }

  /** malloc_init: the table of block sizes. */
  method MallocInit() returns (descs: seq<Desc>)
    ensures DescsOk(descs)
  {
    Pow2Values();
    descs := [];
    var blockSize := 16;
    while blockSize < PageSize / 2
      invariant |descs| <= DescCnt && blockSize == Size(|descs|)
      invariant forall d :: 0 <= d < |descs| ==> descs[d] == Desc(Size(d), PerArena(d))
      decreases 2 * PageSize - blockSize
    {
      assert |descs| == DescCnt ==> blockSize == 2048 by {
        SevenSizes();
      }
      descs := descs + [Desc(blockSize, (PageSize - Header) / blockSize)];
      blockSize := blockSize * 2;
    }
    SevenSizes();
  }

  /** Seven sizes, from 16 bytes on each twice the one before, and as many blocks of each as fit a
      page behind its header. */
  lemma DescsMean(descs: seq<Desc>, d: nat)
    requires DescsOk(descs) && d < 7
    ensures |descs| == 7 && descs[0].blockSize == 16
    ensures d < 6 ==> descs[d + 1].blockSize == 2 * descs[d].blockSize
    ensures 12 + descs[d].blocksPerArena * descs[d].blockSize <= 4096 < 12 + (descs[d].blocksPerArena + 1) * descs[d].blockSize
  {
    DivisionBounds(PageSize - Header, Size(d));
  }

  lemma SevenSizes()
    ensures Size(7) == 2048 && forall d :: 0 <= d < 7 ==> Size(d) < 2048
  {
    assert Pow2(7) == 128;
    forall d | 0 <= d < 7 ensures Size(d) < 2048 {
      SizeFacts(d);
    }
  }

  lemma NewBlocksStep(p: nat, d: nat, i: nat)
    ensures NewBlocks(p, d, i + 1) == NewBlocks(p, d, i) + [Addr(p, d, i)]
  {
  }

  type Memory = nat -> nat

  /** memset. */
  function MemSet(mem: Memory, at: nat, n: nat, value: nat): Memory {
    (x: nat) => if at <= x < at + n then value else mem(x)
  }

  /** memcpy between ranges that do not overlap. */
  function MemCpy(mem: Memory, to: nat, from: nat, n: nat): Memory {
    (x: nat) => if to <= x < to + n then mem(from + (x - to)) else mem(x)
  }

  /** The block has the size and the bytes it had. */
  ghost predicate SameBlock(before: Headers, m: Memory, after: Headers, n: Memory, b: nat) {
    && Page(b) in before && Page(b) in after && Capacity(after, b) == Capacity(before, b)
    && forall x :: b <= x < b + Capacity(before, b) ==> n(x) == m(x)
  }

  ghost predicate Intact(before: Headers, m: Memory, after: Headers, n: Memory, blocks: set<nat>) {
    forall b {:trigger SameBlock(before, m, after, n, b)} :: b in blocks ==> SameBlock(before, m, after, n, b)
  }

  /** The n bytes at one address are those that were at the other. */
  ghost predicate Starts(n: Memory, to: nat, m: Memory, from: nat, cnt: nat) {
    forall x: nat :: to <= x < to + cnt ==> n(x) == m(from + (x - to))
  }

  /** The n bytes at the address are overwritten. */
  ghost predicate Cleared(m: Memory, at: nat, cnt: nat) {
    forall x: nat :: at <= x < at + cnt ==> m(x) == 0xcc
  }

  /** No byte is changed but to overwrite it. */
  ghost predicate OnlyCleared(m: Memory, n: Memory) {
    forall x: nat :: n(x) == m(x) || n(x) == 0xcc
  }

  lemma SetClears(mem: Memory, at: nat, n: nat)
    ensures Cleared(MemSet(mem, at, n, 0xcc), at, n) && OnlyCleared(mem, MemSet(mem, at, n, 0xcc))
  {
  }

  /** The arenas that were there are there, with the same descriptors and the same pages. */
  ghost predicate SameBlocks(before: Headers, after: Headers) {
    forall p :: p in before ==> p in after && after[p].desc == before[p].desc && Span(after[p]) == Span(before[p])
  }

  lemma TakeFacts(arenas: Headers, free: seq<seq<nat>>, live: set<nat>, but: Option<nat>, d: nat, a: nat)
    requires Inv(arenas, free, live, but) && d < DescCnt && free[d] != [] && free[d][0] == a
    requires but == None || but == Some(Page(a))
    ensures a !in live && Page(a) in arenas && arenas[Page(a)].desc == Some(d) && 0 < arenas[Page(a)].freeCnt
    ensures var after := Counted(arenas, Page(a), arenas[Page(a)].freeCnt - 1);
            Inv(after, free[d := free[d][1..]], live + {a}, None) && Held(after) == Held(arenas) && SameBlocks(arenas, after)
  {
    TakeKeeps(arenas, free, live, but, d, a);
    CountedKeeps(arenas, Page(a), arenas[Page(a)].freeCnt - 1, [], {});
  }

  lemma GrowFacts(arenas: Headers, free: seq<seq<nat>>, live: set<nat>, used: set<nat>, p: nat, d: nat)
    requires Inv(arenas, free, live, None) && Held(arenas) <= used && PageRange(p, 1) !! used && d < DescCnt && free[d] == []
    ensures var after, list := arenas[p := Arena(Some(d), PerArena(d))], NewBlocks(p, d, PerArena(d));
            && list != [] && Page(list[0]) == p && Inv(after, free[d := list], live, Some(p)) && SameBlocks(arenas, after)
            && Held(after) <= used + PageRange(p, 1) && used + PageRange(p, 1) - Held(after) == used - Held(arenas)
  {
    FreshPages(arenas, free, live, used, p, 1);
    GrowKeeps(arenas, free, live, p, d);
    HeldAdd(arenas, p, Arena(Some(d), PerArena(d)));
    SizeFacts(d);
    BlockInPage(p, d, 0);
    assert free[d] + NewBlocks(p, d, PerArena(d)) == NewBlocks(p, d, PerArena(d));
  }

  lemma BigFacts(arenas: Headers, free: seq<seq<nat>>, live: set<nat>, used: set<nat>, p: nat, cnt: nat)
    requires Inv(arenas, free, live, None) && Held(arenas) <= used && PageRange(p, cnt) !! used && cnt > 0
    ensures var after, a := arenas[p := Arena(None, cnt)], BigAddr(p);
            && a !in live && Inv(after, free, live + {a}, None) && SameBlocks(arenas, after) && LiveAt(after, a) && Page(a) == p
            && Held(after) <= used + PageRange(p, cnt) && used + PageRange(p, cnt) - Held(after) == used - Held(arenas)
  {
    FreshPages(arenas, free, live, used, p, cnt);
    BigAddKeeps(arenas, free, live, p, cnt);
    HeldAdd(arenas, p, Arena(None, cnt));
  }

  /** The descriptor with the smallest blocks that are large enough. */
  ghost predicate Serves(d: int, size: nat) {
    0 <= d < DescCnt && 0 < size <= Size(d) && forall e :: 0 <= e < d ==> Size(e) < size
  }

  lemma ServesOnce(d: int, e: int, size: nat)
    requires Serves(d, size) && Serves(e, size)
    ensures d == e
  {
  }

  /** The pages a request needs when no free block serves it. */
  function PagesFor(size: nat): nat {
    if size <= 1024 then 1 else BigPages(size)
  }

  lemma SizeIndex(size: nat, d: nat)
    requires d <= DescCnt && (d < DescCnt ==> size <= Size(d)) && forall e :: 0 <= e < d ==> Size(e) < size
    ensures d == DescCnt <==> size > 1024
  {
    assert Pow2(6) == 64;
    if d < DescCnt {
      SizeFacts(d);
    } else {
      assert Size(6) < size;
    }
  }

  // ---------------------------------------------------------------------
  // Bytes of the blocks in use.

  lemma IntactSame(before: Headers, m: Memory, after: Headers, n: Memory, later: Headers, blocks: set<nat>)
    requires Intact(before, m, after, n, blocks) && SameBlocks(after, later)
    ensures Intact(before, m, later, n, blocks)
  {
    forall b | b in blocks ensures SameBlock(before, m, later, n, b) {
      assert SameBlock(before, m, after, n, b);
    }
  }

  /** Writing within one block leaves the others. */
  lemma WriteBlock(arenas: Headers, free: seq<seq<nat>>, live: set<nat>, mem: Memory, written: Memory, a: nat)
    requires Inv(arenas, free, live, None) && a in live && Page(a) in arenas
    requires forall x: nat :: !(a <= x < a + Capacity(arenas, a)) ==> written(x) == mem(x)
    ensures Intact(arenas, mem, arenas, written, live - {a})
  {
    forall b | b in live - {a}
      ensures Page(b) in arenas && Apart(a, Capacity(arenas, a), b, Capacity(arenas, b))
    {
      LiveApart(arenas, free, live, None, a, b);
    }
  }

  /** Writing over the pages of an arena leaves the blocks of the others. */
  lemma SetPages(arenas: Headers, free: seq<seq<nat>>, live: set<nat>, but: Option<nat>, mem: Memory, p: nat, value: nat,
                 blocks: set<nat>)
    requires Inv(arenas, free, live, but) && p in arenas && blocks <= live && forall b :: b in blocks ==> Page(b) != p
    ensures Intact(arenas, mem, arenas - {p}, MemSet(mem, p * PageSize, Span(arenas[p]) * PageSize, value), blocks)
  {
    forall b | b in blocks
      ensures Page(b) in arenas && Apart(p * PageSize, Span(arenas[p]) * PageSize, b, Capacity(arenas, b))
    {
      assert LiveAt(arenas, b);
      assert ArenaOk(Page(b), arenas[Page(b)], free, live);
      LiveInPages(arenas, b);
      assert Apart(p, Span(arenas[p]), Page(b), Span(arenas[Page(b)]));
    }
  }

  lemma PutFacts(arenas: Headers, free: seq<seq<nat>>, live: set<nat>, mem: Memory, d: nat, a: nat)
    requires Inv(arenas, free, live, None) && a in live && Page(a) in arenas && arenas[Page(a)].desc == Some(d)
    ensures d < DescCnt && arenas[Page(a)].freeCnt + 1 <= PerArena(d)
    ensures var after, more := Counted(arenas, Page(a), arenas[Page(a)].freeCnt + 1), free[d := [a] + free[d]];
            && Inv(after, more, live - {a}, Some(Page(a))) && Held(after) == Held(arenas) && SameBlocks(arenas, after)
            && Intact(arenas, mem, after, MemSet(mem, a, Size(d), 0xcc), live - {a})
  {
    PutKeeps(arenas, free, live, d, a);
    CountedKeeps(arenas, Page(a), arenas[Page(a)].freeCnt + 1, [], {});
    WriteBlock(arenas, free, live, mem, MemSet(mem, a, Size(d), 0xcc), a);
    IntactSame(arenas, mem, arenas, MemSet(mem, a, Size(d), 0xcc),
               Counted(arenas, Page(a), arenas[Page(a)].freeCnt + 1), live - {a});
  }

  lemma DropFacts(arenas: Headers, free: seq<seq<nat>>, after: seq<seq<nat>>, live: set<nat>, used: set<nat>,
                  mem: Memory, d: nat, p: nat)
    requires Inv(arenas, free, live, Some(p)) && Dropped(free, after, d, p) && Held(arenas) <= used
    requires p in arenas && arenas[p].desc == Some(d) && arenas[p].freeCnt == PerArena(d)
    ensures Inv(arenas - {p}, after, live, None) && PageRange(p, 1) <= used
    ensures Held(arenas - {p}) <= used - PageRange(p, 1) && used - PageRange(p, 1) - Held(arenas - {p}) == used - Held(arenas)
    ensures Intact(arenas, mem, arenas - {p}, MemSet(mem, p * PageSize, PageSize, 0xcc), live)
  {
    DropKeeps(arenas, free, after, live, d, p);
    HeldDrop(arenas, p);
    SetPages(arenas, free, live, Some(p), mem, p, 0xcc, live);
  }

  lemma BigDropFacts(arenas: Headers, free: seq<seq<nat>>, live: set<nat>, used: set<nat>, mem: Memory, p: nat)
    requires Inv(arenas, free, live, None) && Held(arenas) <= used && p in arenas && arenas[p].desc == None
    ensures var cnt, rest, left := arenas[p].freeCnt, live - {BigAddr(p)}, arenas - {p};
            && cnt > 0 && Inv(left, free, rest, None) && PageRange(p, cnt) <= used
            && Held(left) <= used - PageRange(p, cnt) && used - PageRange(p, cnt) - Held(left) == used - Held(arenas)
            && Intact(arenas, mem, left, MemSet(mem, p * PageSize, cnt * PageSize, 0xcc), rest)
  {
    assert ArenaOk(p, arenas[p], free, live);
    BigDropKeeps(arenas, free, live, p);
    HeldDrop(arenas, p);
    SetPages(arenas, free, live, None, mem, p, 0xcc, live - {BigAddr(p)});
  }

  /** Kernel pages in use are a run inside the kernel pool. */
  lemma KernelRun(palloc: PageAllocator, p: nat, cnt: nat)
    requires palloc.Valid() && cnt > 0 && PageRange(p, cnt) <= palloc.kernelPool.Used()
    ensures palloc.kernelPool.Inside(p, cnt) && PageRange(p, cnt) <= palloc.Out()
  {
    assert p in PageRange(p, cnt) && p + cnt - 1 in PageRange(p, cnt);
  }

  lemma IntactTrans(a: Headers, m: Memory, b: Headers, n: Memory, c: Headers, o: Memory, blocks: set<nat>, fewer: set<nat>)
    requires Intact(a, m, b, n, blocks) && Intact(b, n, c, o, fewer) && fewer <= blocks
    ensures Intact(a, m, c, o, fewer)
  {
    forall x | x in fewer ensures SameBlock(a, m, c, o, x) {
      assert SameBlock(a, m, b, n, x) && SameBlock(b, n, c, o, x);
    }
  }

  /** The bytes realloc copies: the shorter of the two lengths. */
  function CopyLength(newSize: nat, oldSize: nat): nat {
    if newSize < oldSize then newSize else oldSize
  }

  /** They fit the new block exactly when the request is not within a header's size of 4 GB,
      or the old block is no larger than a page less a header. */
  predicate CopyFits(newSize: nat, oldSize: nat) {
    newSize <= 0x1_0000_0000 - Header || oldSize <= PageSize - Header
  }

  lemma CopyFitsExactly(newSize: nat, oldSize: nat)
    requires 0 < newSize < 0x1_0000_0000 && BigPages(newSize) > 0
    ensures CopyLength(newSize, oldSize) <= PageSize * BigPages(newSize) - Header <==> CopyFits(newSize, oldSize)
  {
    BigPagesFit(newSize);
  }

  lemma CopyFacts(arenas: Headers, free: seq<seq<nat>>, live: set<nat>, mem: Memory, to: nat, from: nat, n: nat)
    requires Inv(arenas, free, live, None) && to in live && Page(to) in arenas && n <= Capacity(arenas, to)
    ensures Intact(arenas, mem, arenas, MemCpy(mem, to, from, n), live - {to})
  {
    WriteBlock(arenas, free, live, mem, MemCpy(mem, to, from, n), to);
  }

  lemma CopyStarts(mem: Memory, to: nat, from: nat, n: nat)
    ensures Starts(MemCpy(mem, to, from, n), to, mem, from, n)
  {
  }

  /** What realloc is asked to do does not make it copy beyond the new block. */
  ghost predicate CopyOk(arenas: Headers, oldBlock: Option<nat>, newSize: nat, r: Option<nat>) {
    oldBlock.Some? && Page(oldBlock.value) in arenas && r.Some? ==> CopyFits(newSize, Capacity(arenas, oldBlock.value))
  }

  lemma IntactSelf(arenas: Headers, free: seq<seq<nat>>, live: set<nat>, mem: Memory)
    requires Inv(arenas, free, live, None)
    ensures Intact(arenas, mem, arenas, mem, live)
  {
    forall b | b in live ensures Page(b) in arenas {
      assert LiveAt(arenas, b);
    }
  }

  lemma NeededAfter(arenas: Headers, p: nat)
    requires Needed(arenas, Some(p)) && (p in arenas ==> NotAllFree(arenas[p]))
    ensures Needed(arenas, None)
  {
  }

  class Allocator {
    const palloc: PageAllocator
    const descs: seq<Desc>
    var arenas: Headers
    var free: seq<seq<nat>>
    var mem: Memory
    ghost var live: set<nat>

    ghost predicate Tied(but: Option<nat>)
      reads this, palloc.kernelPool.usedMap.bits, palloc.userPool.usedMap.bits
    {
      && palloc.Valid() && Inv(arenas, free, live, but) && Held(arenas) <= palloc.kernelPool.Used()
      && DescsOk(descs)
    }

    ghost predicate Valid()
      reads this, palloc.kernelPool.usedMap.bits, palloc.userPool.usedMap.bits
    {
      Tied(None)
    }

    constructor (p: PageAllocator, m: Memory)
      requires p.Valid()
      ensures Valid() && palloc == p && live == {} && arenas == map[] && mem == m
    {
      var table := MallocInit();
      palloc, mem, live, arenas, descs := p, m, {}, map[], table;
      free := seq(DescCnt, _ => []);
    }

    /** The kernel pages in use by others than the arenas. */
    ghost function Others(): set<nat>
      requires palloc.Valid()
      reads this, palloc.kernelPool.usedMap.bits, palloc.userPool.usedMap.bits
    {
      palloc.kernelPool.Used() - Held(arenas)
    }

    /** The smallest descriptor whose blocks are large enough, or their number. */
    method FindDesc(size: nat) returns (d: nat)
      requires DescsOk(descs)
      ensures d <= DescCnt && (d < DescCnt ==> size <= Size(d))
      ensures forall e :: 0 <= e < d ==> Size(e) < size
    {
      d := 0;
      while d < |descs| && descs[d].blockSize < size
        invariant d <= DescCnt && forall e :: 0 <= e < d ==> Size(e) < size
      {
        d := d + 1;
      }
    }

    /** The blocks of an arena go to the end of a free list. */
    method PushBlocks(p: nat, d: nat)
      requires d < |free|
      modifies this`free
      ensures free == old(free)[d := old(free[d]) + NewBlocks(p, d, PerArena(d))]
    {
      ghost var list := free[d];
      assert list + NewBlocks(p, d, 0) == list && free == free[d := list];
      for i := 0 to PerArena(d)
        invariant free == old(free)[d := list + NewBlocks(p, d, i)]
      {
        NewBlocksStep(p, d, i);
        assert list + NewBlocks(p, d, i + 1) == free[d] + [Addr(p, d, i)];
        free := free[d := free[d] + [Addr(p, d, i)]];
      }
    }

    /** The first block of a free list goes into use. */
    method TakeBlock(d: nat, ghost but: Option<nat>) returns (a: nat)
      requires Inv(arenas, free, live, but) && d < DescCnt && free[d] != []
      requires but == None || but == Some(Page(free[d][0]))
      modifies this`arenas, this`free, this`live
      ensures Inv(arenas, free, live, None) && a !in old(live) && live == old(live) + {a}
      ensures Held(arenas) == old(Held(arenas)) && SameBlocks(old(arenas), arenas)
      ensures Page(a) in arenas && arenas[Page(a)].desc == Some(d)
    {
      a := free[d][0];
      var p := Page(a);
      TakeFacts(arenas, free, live, but, d, a);
      free, arenas := free[d := free[d][1..]], Counted(arenas, p, arenas[p].freeCnt - 1);
      live := live + {a};
    }

    /** A page from the page allocator becomes an arena of descriptor d, if there is one. */
    method NewArena(d: nat) returns (p: Option<nat>)
      requires Valid() && d < DescCnt && free[d] == []
      modifies this`arenas, this`free, palloc.kernelPool.usedMap.bits, palloc.userPool.usedMap.bits
      ensures palloc.Valid() && Held(arenas) <= palloc.kernelPool.Used()
      ensures Others() == old(Others()) && palloc.userPool.Used() == old(palloc.userPool.Used())
      ensures p.Some? ==> Inv(arenas, free, live, p) && free[d] != [] && Page(free[d][0]) == p.value
      ensures p.Some? ==> SameBlocks(old(arenas), arenas)
      ensures p.None? ==> arenas == old(arenas) && free == old(free) && palloc.kernelPool.NoRun(1)
    {
      p := palloc.GetMultiple(false, 1);
      if p.Some? {
        GrowFacts(arenas, free, live, old(palloc.kernelPool.Used()), p.value, d);
        arenas := arenas[p.value := Arena(Some(d), descs[d].blocksPerArena)];
        PushBlocks(p.value, d);
        assert [] + NewBlocks(p.value, d, PerArena(d)) == NewBlocks(p.value, d, PerArena(d));
      }
    }

    /** A request too large for any descriptor gets pages of its own. */
    method MallocBig(size: nat) returns (r: Option<nat>)
      requires Valid()
      modifies this`arenas, this`live, palloc.kernelPool.usedMap.bits, palloc.userPool.usedMap.bits
      ensures Valid() && Others() == old(Others()) && palloc.userPool.Used() == old(palloc.userPool.Used())
      ensures SameBlocks(old(arenas), arenas)
      ensures r.Some? ==> r.value !in old(live) && live == old(live) + {r.value}
      ensures r.Some? ==> BigPages(size) > 0 && LiveAt(arenas, r.value) && arenas[Page(r.value)] == Arena(None, BigPages(size))
      ensures r.None? ==> live == old(live) && (BigPages(size) == 0 || palloc.kernelPool.NoRun(BigPages(size)))
    {
      var cnt := BigPages(size);
      var p := palloc.GetMultiple(false, cnt);
      if p.None? {
        return None;
      }
      BigFacts(arenas, free, live, old(palloc.kernelPool.Used()), p.value, cnt);
      arenas := arenas[p.value := Arena(None, cnt)];
      live := live + {BigAddr(p.value)};
      r := Some(BigAddr(p.value));
    }

    /** A request that a descriptor serves. */
    method MallocSmall(d: nat) returns (r: Option<nat>)
      requires Valid() && d < DescCnt
      modifies this`arenas, this`free, this`live, palloc.kernelPool.usedMap.bits, palloc.userPool.usedMap.bits
      ensures Valid() && Others() == old(Others()) && palloc.userPool.Used() == old(palloc.userPool.Used())
      ensures SameBlocks(old(arenas), arenas)
      ensures r.Some? ==> r.value !in old(live) && live == old(live) + {r.value}
      ensures r.Some? ==> Page(r.value) in arenas && arenas[Page(r.value)].desc == Some(d)
      ensures r.None? ==> live == old(live) && palloc.kernelPool.NoRun(1) && old(free)[d] == []
    {
      var p := None;
      if free[d] == [] {
        p := NewArena(d);
        if p.None? {
          return None;
        }
      }
      var a := TakeBlock(d, p);
      r := Some(a);
    }

    /** malloc: a block not in use before, as large as asked for unless the request is within
        a header's size of 4 GB; no block in use is touched. Null only where the request is
        for nothing, or the kernel pool has no run of pages that is needed. */
    method Malloc(size: nat) returns (r: Option<nat>)
      requires Valid() && size < 0x1_0000_0000
      modifies this`arenas, this`free, this`live, palloc.kernelPool.usedMap.bits, palloc.userPool.usedMap.bits
      ensures Valid() && Others() == old(Others()) && palloc.userPool.Used() == old(palloc.userPool.Used())
      ensures SameBlocks(old(arenas), arenas)
      ensures r.Some? ==> size > 0 && r.value !in old(live) && live == old(live) + {r.value} && Page(r.value) in arenas
      ensures r.Some? ==> (size <= Capacity(arenas, r.value) <==> size <= 0x1_0000_0000 - Header)
      ensures r.Some? ==> forall d :: Serves(d, size) ==> Capacity(arenas, r.value) == Size(d)
      ensures r.Some? && size > 1024 ==> Capacity(arenas, r.value) == PageSize * PagesFor(size) - Header
      ensures r.None? ==> live == old(live)
      ensures r.None? && size > 0 ==> PagesFor(size) == 0 || palloc.kernelPool.NoRun(PagesFor(size))
      ensures r.None? ==> forall d :: Serves(d, size) ==> old(free)[d] == []
    {
      if size == 0 {
        return None;
      }
      var d := FindDesc(size);
      SizeIndex(size, d);
      forall e | Serves(e, size) ensures d < DescCnt && d == e {
        if d < DescCnt {
          ServesOnce(d, e, size);
        }
      }
      if d == DescCnt {
        r := MallocBig(size);
        if r.Some? {
          BigPagesFit(size);
        }
      } else {
        r := MallocSmall(d);
      }
    }

    /** The blocks of an arena all of whose blocks are free leave its free list. */
    method RemoveBlocks(p: nat, d: nat)
      requires |free| == DescCnt && d < DescCnt && FreeListOk(arenas, d, free[d])
      modifies this`free
      ensures Dropped(old(free), free, d, p)
    {
      for i := 0 to PerArena(d)
        invariant |free| == DescCnt && Distinct(free[d])
        invariant forall e :: 0 <= e < DescCnt && e != d ==> free[e] == old(free)[e]
        invariant forall x :: x in free[d] <==> x in old(free[d]) && !(Page(x) == p && Idx(d, x) < i)
      {
        WithoutDistinct(free[d], Addr(p, d, i));
        BlockInPage(p, d, i);
        ghost var before := free[d];
        free := free[d := Without(free[d], Addr(p, d, i))];
        forall x | x in before && Page(x) == p && Idx(d, x) == i ensures x == Addr(p, d, i) {
          assert x in old(free[d]);
        }
      }
    }

    /** A small block goes back on its free list. */
    method PutBlock(a: nat, d: nat)
      requires Inv(arenas, free, live, None) && a in live && Page(a) in arenas && arenas[Page(a)].desc == Some(d)
      modifies this`arenas, this`free, this`live, this`mem
      ensures Inv(arenas, free, live, Some(Page(a))) && live == old(live) - {a} && Held(arenas) == old(Held(arenas))
      ensures SameBlocks(old(arenas), arenas) && d < DescCnt && Page(a) in arenas && arenas[Page(a)].freeCnt <= PerArena(d)
      ensures Intact(old(arenas), old(mem), arenas, mem, live) && Cleared(mem, a, Size(d))
    {
      var p := Page(a);
      PutFacts(arenas, free, live, mem, d, a);
      SetClears(mem, a, Size(d));
      mem := MemSet(mem, a, Size(d), 0xcc);
      free := free[d := [a] + free[d]];
      arenas := Counted(arenas, p, arenas[p].freeCnt + 1);
      live := live - {a};
    }

    /** An arena with no block in use gives its page back. */
    method ReleaseArena(p: nat, d: nat)
      requires Tied(Some(p)) && p in arenas && arenas[p].desc == Some(d) && arenas[p].freeCnt == PerArena(d)
      modifies this`arenas, this`free, this`mem, palloc.kernelPool.usedMap.bits, palloc.userPool.usedMap.bits
      ensures Valid() && Others() == old(Others()) && palloc.userPool.Used() == old(palloc.userPool.Used())
      ensures Intact(old(arenas), old(mem), arenas, mem, live) && OnlyCleared(old(mem), mem)
    {
      assert ArenaOk(p, arenas[p], free, live) && FreeListOk(arenas, d, free[d]);
      SetClears(mem, p * PageSize, PageSize);
      ghost var before := free;
      RemoveBlocks(p, d);
      DropFacts(arenas, before, free, live, palloc.kernelPool.Used(), mem, d, p);
      mem := MemSet(mem, p * PageSize, PageSize, 0xcc);
      ReturnPage(p);
      arenas := arenas - {p};
    }

    method ReturnPage(p: nat)
      requires palloc.Valid() && PageRange(p, 1) <= palloc.kernelPool.Used()
      modifies palloc.kernelPool.usedMap.bits, palloc.userPool.usedMap.bits
      ensures palloc.Valid() && palloc.kernelPool.Used() == old(palloc.kernelPool.Used()) - PageRange(p, 1)
      ensures palloc.userPool.Used() == old(palloc.userPool.Used())
    {
      KernelRun(palloc, p, 1);
      palloc.FreeMultiple(p, 1);
    }

    method FreeBig(p: nat)
      requires Valid() && p in arenas && arenas[p].desc == None
      modifies this`arenas, this`live, this`mem, palloc.kernelPool.usedMap.bits, palloc.userPool.usedMap.bits
      ensures Valid() && Others() == old(Others()) && palloc.userPool.Used() == old(palloc.userPool.Used())
      ensures live == old(live) - {BigAddr(p)} && Intact(old(arenas), old(mem), arenas, mem, live)
      ensures Cleared(mem, p * PageSize, old(arenas[p].freeCnt) * PageSize)
    {
      var cnt := arenas[p].freeCnt;
      SetClears(mem, p * PageSize, cnt * PageSize);
      BigDropFacts(arenas, free, live, palloc.kernelPool.Used(), mem, p);
      KernelRun(palloc, p, cnt);
      mem := MemSet(mem, p * PageSize, cnt * PageSize, 0xcc);
      palloc.FreeMultiple(p, cnt);
      arenas := arenas - {p};
      live := live - {BigAddr(p)};
    }

    /** free: the block goes out of use and every other block keeps its size and its bytes;
        a null pointer is ignored. */
    method Free(block: Option<nat>)
      requires Valid() && (block.Some? ==> block.value in live)
      modifies this`arenas, this`free, this`live, this`mem, palloc.kernelPool.usedMap.bits, palloc.userPool.usedMap.bits
      ensures Valid() && Others() == old(Others()) && palloc.userPool.Used() == old(palloc.userPool.Used())
      ensures live == if block.Some? then old(live) - {block.value} else old(live)
      ensures Intact(old(arenas), old(mem), arenas, mem, live)
      ensures block.Some? && Page(block.value) in old(arenas) ==> Cleared(mem, block.value, old(Capacity(arenas, block.value)))
    {
      if block.None? {
        IntactSelf(arenas, free, live, mem);
        return;
      }
      var a := block.value;
      var p := Page(a);
      assert LiveAt(arenas, a);
      if arenas[p].desc == None {
        FreeBig(p);
      } else {
        FreeSmall(a, arenas[p].desc.value);
      }
    }

    method FreeSmall(a: nat, d: nat)
      requires Valid() && a in live && Page(a) in arenas && arenas[Page(a)].desc == Some(d)
      modifies this`arenas, this`free, this`live, this`mem, palloc.kernelPool.usedMap.bits, palloc.userPool.usedMap.bits
      ensures Valid() && Others() == old(Others()) && palloc.userPool.Used() == old(palloc.userPool.Used())
      ensures live == old(live) - {a} && Intact(old(arenas), old(mem), arenas, mem, live) && Cleared(mem, a, Size(d))
    {
      PutBlock(a, d);
      if arenas[Page(a)].freeCnt >= PerArena(d) {
        ghost var mid, bytes := arenas, mem;
        ReleaseArena(Page(a), d);
        IntactTrans(old(arenas), old(mem), mid, bytes, arenas, mem, live, live);
      } else {
        NeededAfter(arenas, Page(a));
      }
    }

    /** The bytes of one block are copied to another. */
    method CopyBlock(to: nat, from: nat, n: nat)
      requires Inv(arenas, free, live, None) && to in live && Page(to) in arenas
      requires from in live && Page(from) in arenas && n <= Capacity(arenas, from) && from != to
      modifies this`mem
      ensures n <= Capacity(arenas, to) ==> Intact(arenas, old(mem), arenas, mem, live - {to})
      ensures Starts(mem, to, old(mem), from, n)
    {
      if n <= Capacity(arenas, to) {
        CopyFacts(arenas, free, live, mem, to, from, n);
      }
      CopyStarts(mem, to, from, n);
      mem := MemCpy(mem, to, from, n);
    }

    /** The old block's bytes move to the new block, and the old block goes out of use. */
    method MoveBlock(to: nat, from: nat, newSize: nat)
      requires Valid() && to in live && from in live && to != from && Page(to) in arenas && Page(from) in arenas
      modifies this`arenas, this`free, this`live, this`mem, palloc.kernelPool.usedMap.bits, palloc.userPool.usedMap.bits
      ensures Valid() && Others() == old(Others()) && palloc.userPool.Used() == old(palloc.userPool.Used())
      ensures live == old(live) - {from} && Page(to) in arenas && Capacity(arenas, to) == old(Capacity(arenas, to))
      ensures CopyLength(newSize, old(Capacity(arenas, from))) <= Capacity(arenas, to) ==>
                && Intact(old(arenas), old(mem), arenas, mem, live - {to})
                && Starts(mem, to, old(mem), from, CopyLength(newSize, old(Capacity(arenas, from))))
    {
      CopyBlock(to, from, CopyLength(newSize, Capacity(arenas, from)));
      ghost var copied := mem;
      Free(Some(from));
      assert SameBlock(old(arenas), copied, arenas, mem, to);
      if CopyLength(newSize, old(Capacity(arenas, from))) <= Capacity(arenas, to) {
        IntactTrans(old(arenas), old(mem), old(arenas), copied, arenas, mem, old(live) - {to}, live - {to});
      }
    }

    /** realloc: the new block, if any, starts with the old block's bytes, and the old block is out
        of use; where none comes back, the old block stays unless the request was for 0 bytes.
        Every other block keeps its size and its bytes. Nothing is promised where the copy runs
        past the end of the new block. */
    method Realloc(oldBlock: Option<nat>, newSize: nat) returns (r: Option<nat>)
      requires Valid() && newSize < 0x1_0000_0000
      requires oldBlock.Some? ==> oldBlock.value in live && Page(oldBlock.value) in arenas
      modifies this`arenas, this`free, this`live, this`mem, palloc.kernelPool.usedMap.bits, palloc.userPool.usedMap.bits
      ensures CopyOk(old(arenas), oldBlock, newSize, r) ==>
                Valid() && Others() == old(Others()) && palloc.userPool.Used() == old(palloc.userPool.Used())
      ensures var gone := if oldBlock.Some? && (newSize == 0 || r.Some?) then {oldBlock.value} else {};
              CopyOk(old(arenas), oldBlock, newSize, r) ==>
                && live == old(live) - gone + (if r.Some? then {r.value} else {})
                && Intact(old(arenas), old(mem), arenas, mem, old(live) - gone)
      ensures r.Some? ==> newSize > 0 && r.value !in old(live) && Page(r.value) in arenas
      ensures r.Some? ==> (newSize <= Capacity(arenas, r.value) <==> newSize <= 0x1_0000_0000 - Header)
      ensures r.Some? && oldBlock.Some? && CopyOk(old(arenas), oldBlock, newSize, r) ==>
                Starts(mem, r.value, old(mem), oldBlock.value, CopyLength(newSize, old(Capacity(arenas, oldBlock.value))))
      ensures r.None? && newSize > 0 ==> PagesFor(newSize) == 0 || palloc.kernelPool.NoRun(PagesFor(newSize))
    {
      if newSize == 0 {
        Free(oldBlock);
        return None;
      }
      if oldBlock.None? {
        IntactSelf(arenas, free, live, mem);
        r := Malloc(newSize);
        IntactSame(old(arenas), mem, old(arenas), mem, arenas, old(live));
      } else {
        r := Resize(oldBlock.value, newSize);
      }
    }

    /** A new block in place of the old one, if there is memory. */
    method Resize(oldBlock: nat, newSize: nat) returns (r: Option<nat>)
      requires Valid() && 0 < newSize < 0x1_0000_0000 && oldBlock in live && Page(oldBlock) in arenas
      modifies this`arenas, this`free, this`live, this`mem, palloc.kernelPool.usedMap.bits, palloc.userPool.usedMap.bits
      ensures Valid() && Others() == old(Others()) && palloc.userPool.Used() == old(palloc.userPool.Used())
      ensures r.None? ==> live == old(live) && Intact(old(arenas), old(mem), arenas, mem, old(live))
      ensures r.None? ==> PagesFor(newSize) == 0 || palloc.kernelPool.NoRun(PagesFor(newSize))
      ensures r.Some? ==> live == old(live) - {oldBlock} + {r.value} && r.value !in old(live)
      ensures r.Some? && CopyFits(newSize, old(Capacity(arenas, oldBlock))) ==>
                && Intact(old(arenas), old(mem), arenas, mem, old(live) - {oldBlock})
                && Starts(mem, r.value, old(mem), oldBlock, CopyLength(newSize, old(Capacity(arenas, oldBlock))))
      ensures r.Some? ==> Page(r.value) in arenas && (newSize <= Capacity(arenas, r.value) <==> newSize <= 0x1_0000_0000 - Header)
    {
      IntactSelf(arenas, free, live, mem);
      r := Malloc(newSize);
      IntactSame(old(arenas), mem, old(arenas), mem, arenas, old(live));
      if r.Some? {
        assert SameBlock(old(arenas), old(mem), arenas, mem, oldBlock);
        ghost var mid := arenas;
        MoveBlock(r.value, oldBlock, newSize);
        if CopyFits(newSize, old(Capacity(arenas, oldBlock))) {
          IntactTrans(old(arenas), old(mem), mid, old(mem), arenas, mem, old(live), old(live) - {oldBlock});
        }
      }
    }
  }
}
