/** Single physical pages from the page allocator, one at a time and in lists. */
module PhysicalPages {
  import opened Bits
  import opened BuddySpec
  import opened BuddyTable
  import opened BuddyState
  import opened BuddyMoves
  import opened BuddyRuns
  import opened BuddyPool
  import opened PageLists

  ghost function PagesIn(list: seq<Range>): set<nat> {
    set i | 0 <= i < |list| :: list[i].ppage
  }

  /** The live blocks are the pages in use, counted from the first one. */
  ghost predicate SinglesInUse(live: set<Block>, inUse: set<nat>, first: nat) {
    && (forall p <- inUse :: p >= first)
    && (forall b :: b in live <==> b.order == 0 && b.index + first in inUse)
  }

  /** These pool indices lie ahead of the boundary and their pages are not in use. */
  ghost predicate Spares(spare: set<nat>, boundary: int, first: nat, inUse: set<nat>) {
    forall i: nat :: i in spare <==> i < boundary && i + first !in inUse
  }

  lemma SparesAfter(before: set<nat>, after: set<nat>, boundary: int, first: nat, inUse: set<nat>, page: nat)
    requires Spares(before, boundary, first, inUse)
    requires Spares(after, boundary, first, if page == 0 then inUse else inUse + {page})
    ensures if page == 0 then after == before else page >= first ==> after == before - {page - first}
    ensures first <= page < first + boundary && page !in inUse ==> page - first in before
  {
    if page != 0 && page >= first {
      assert after == before - {page - first};
    }
  }

  lemma SingleFreed(live: set<Block>, inUse: set<nat>, first: nat, page: nat)
    requires SinglesInUse(live, inUse, first) && page in inUse
    ensures SinglesInUse(live - {Block(page - first, 0)}, inUse - {page}, first)
  {
  }

  /** Kernel memory at hand: whether there is room for a larger record, and for how many entries of
      page lists. */
  datatype KernelMemory = KernelMemory(record: bool, entries: nat)

  class Pages {
    const pool: Pool
    /** Where the physical address space starts, and the number of the pool's first page in it. */
    const base: nat
    const first: nat

    /** The pages handed out. */
    ghost var inUse: set<nat>

    ghost predicate Valid()
      reads this, pool, pool.blocks
    {
      && pool.Valid()
      && first >= 1 && pool.pagesStart == base + first * PAGE_SIZE
      && SinglesInUse(pool.live, inUse, first)
    }

    /** The pool indices still to be had: ahead of the waste boundary and not in use. */
    ghost function Spare(): set<nat>
      requires Valid()
      reads this, pool, pool.blocks
    {
      Unused(pool.shape, pool.live)
    }

    lemma SpareIs()
      requires Valid()
      ensures pool.shape.Indices() <= pool.blocks.Length && Consistent(pool.shape, pool.State())
      ensures SinglePages(pool.live) && pool.freePages >= |Spare()|
      ensures forall i: nat :: i in Spare() <==> i < pool.shape.Boundary() && i + first !in inUse
    {
      hide Pool.Valid, ListedBlocks, Unused, Consistent;
      pool.ValidIsConsistent();
      SinglePagesCount(pool.shape, pool.State());
      UnusedIs(pool.shape, pool.State());
      assert forall i: nat :: i + first in inUse <==> Block(i, 0) in pool.live;
    }

    /** Wraps a fresh pool whose metadata takes the first pages of memory. */
    constructor (pool: Pool, base: nat)
      requires pool.Valid() && pool.live == {} && base % PAGE_SIZE == 0 && base < pool.pagesStart
      ensures Valid() && this.pool == pool && this.base == base && inUse == {}
    {
      this.pool := pool;
      this.base := base;
      this.first := (pool.pagesStart - base) / PAGE_SIZE;
      this.inUse := {};
      WholePages(base, pool.pagesStart);
    }

    /** page_allocate of one page: its physical page number, or 0 when there is none. */
    method PageAllocate() returns (page: nat)
      requires Valid()
      modifies this, pool, pool.blocks
      ensures Valid()
      ensures page == 0 ==> inUse == old(inUse) && Spare() == old(Spare()) == {}
      ensures page != 0 ==> page >= first && page - first in old(Spare()) && page !in old(inUse)
      ensures page != 0 ==> inUse == old(inUse) + {page} && Spare() == old(Spare()) - {page - first}
    {
      hide Valid, Spare, Unused, Spares, Shape.Boundary;
      SparesOk();
      ghost var spare, used := Spare(), inUse;
      page := AllocateOne();
      SparesOk();
      SparesAfter(spare, Spare(), pool.shape.Boundary(), first, used, page);
    }

    lemma SparesOk()
      requires Valid()
      ensures Spares(Spare(), pool.shape.Boundary(), first, inUse)
    {
      hide Valid, Spare, Unused, Consistent, SinglePages, Pool.State, Shape.Boundary;
      SpareIs();
    }

    method AllocateOne() returns (page: nat)
      requires Valid()
      modifies this, pool, pool.blocks
      ensures Valid()
      ensures page == 0 ==> inUse == old(inUse) && Spare() == {}
      ensures page != 0 ==> first <= page < first + pool.shape.Boundary()
      ensures page != 0 ==> page !in old(inUse) && inUse == old(inUse) + {page}
    {
      hide Pool.Valid, Step, GetOrder, PagesFor, ListedBlocks, Grantable, Unused, Consistent;
      SpareIs();
      ghost var before := pool.State();
      OnePage();
      var address, b := pool.Allocate(PAGE_SIZE);
      pool.ValidIsConsistent();
      if address == 0 {
        StepLive(pool.shape, before, Refused(1), pool.State());
        NoneSpare(pool.shape, before);
        return 0;
      }
      StepLive(pool.shape, before, Granted(1, b), pool.State());
      LiveAhead(pool.shape, pool.State(), b);
      page := (address - base) / PAGE_SIZE;
      PageNumber(base, first, b.index);
      inUse := inUse + {page};
    }

    /** page_deallocate of a page in use. */
    method PageDeallocate(page: nat)
      requires Valid() && page in inUse
      modifies this, pool, pool.blocks
      ensures Valid() && inUse == old(inUse) - {page}
    {
      hide Pool.Valid, Step, ListedBlocks, Consistent;
      ghost var b := Block(page - first, 0);
      SingleFreed(pool.live, inUse, first, page);
      PageNumber(base, first, b.index);
      pool.ValidIsConsistent();
      pool.LiveAccepted(b);
      ghost var before := pool.State();
      pool.Deallocate(base + page * PAGE_SIZE, b);
      StepLive(pool.shape, before, Freed(b), pool.State());
      inUse := inUse - {page};
    }

    /** pages_deallocate: every page of a list goes back. */
    method PagesDeallocate(list: seq<Range>)
      requires Valid() && NoDuplicates(list) && PagesIn(list) <= inUse
      modifies this, pool, pool.blocks
      ensures Valid() && inUse == old(inUse) - PagesIn(list)
    {
      hide Valid;
      for i := 0 to |list|
        invariant Valid() && inUse == old(inUse) - PagesIn(list[..i])
      {
        PagesInNext(list, i);
        PageDeallocate(list[i].ppage);
      }
      assert list[..|list|] == list;
    }

    /** pages_allocate: n pages for the virtual pages from vpage on, or none at all. It succeeds
        exactly when n pages are to be had and kernel memory, which has room for so many list
        entries, holds one for each. */
    method PagesAllocate(vpage: nat, n: nat, entries: nat) returns (ok: bool, list: seq<Range>)
      requires Valid()
      modifies this, pool, pool.blocks
      ensures Valid()
      ensures ok ==> |list| == n && Descending(list, vpage) && NoDuplicates(list)
      ensures ok ==> PagesIn(list) !! old(inUse) && inUse == old(inUse) + PagesIn(list)
      ensures !ok ==> list == [] && inUse == old(inUse)
      ensures ok <==> n <= |old(Spare())| && n <= entries
      ensures ok ==> |Spare()| == |old(Spare())| - n
    {
      hide Pool.Valid, ListedBlocks, Unused, Consistent;
      SpareIs();
      hide Valid;
      list := [];
      if n > pool.freePages {
        return false, [];
      }
      var toAllocate, vaddr, left := n, vpage, entries;
      while toAllocate > 0
        invariant Valid() && 0 <= toAllocate <= n && |list| == n - toAllocate && vaddr == vpage + |list|
        invariant Descending(list, vpage) && NoDuplicates(list)
        invariant PagesIn(list) !! old(inUse) && inUse == old(inUse) + PagesIn(list)
        invariant |Spare()| == |old(Spare())| - |list| && left == entries - |list|
      {
        var newPage := 0;
        if left > 0 {
          left := left - 1;
          newPage := PageAllocate();
        }
        if newPage == 0 {
          PagesDeallocate(list);
          return false, [];
        }
        PushPage(list, vpage, newPage);
        list := [Range(vaddr, newPage, 1)] + list;
        vaddr := vaddr + 1;
        toAllocate := toAllocate - 1;
      }
      return true, list;
    }
  }

  /** Requests of one page until one is refused: every spare page is handed out, and no other. */
  method ExhaustPages(pages: Pages) returns (count: nat)
    requires pages.Valid()
    modifies pages, pages.pool, pages.pool.blocks
    ensures pages.Valid() && count == |old(pages.Spare())| && pages.Spare() == {}
    ensures |pages.inUse - old(pages.inUse)| == count && pages.inUse >= old(pages.inUse)
  {
    hide Pages.Valid, Pages.Spare, HandedOut;
    ghost var before, spare := pages.inUse, pages.Spare();
    NoneHandedOut(before, spare);
    count := 0;
    while true
      invariant pages.Valid() && HandedOut(before, spare, pages.inUse, pages.Spare(), count)
      decreases |pages.Spare()|
    {
      ghost var inUse, left := pages.inUse, pages.Spare();
      var page := pages.PageAllocate();
      if page == 0 {
        break;
      }
      OneHandedOut(before, spare, inUse, left, count, page, page - pages.first);
      count := count + 1;
    }
    AllHandedOut(before, spare, pages.inUse, count);
  }

  /** So many pages have been handed out since inUse and spare were what they were before. */
  ghost predicate HandedOut(before: set<nat>, spare: set<nat>, inUse: set<nat>, left: set<nat>, count: nat) {
    before <= inUse && |inUse - before| == count && count + |left| == |spare|
  }

  lemma NoneHandedOut(before: set<nat>, spare: set<nat>)
    ensures HandedOut(before, spare, before, spare, 0)
  {
    assert before - before == {};
  }

  lemma OneHandedOut(before: set<nat>, spare: set<nat>, inUse: set<nat>, left: set<nat>, count: nat, page: nat, i: nat)
    requires HandedOut(before, spare, inUse, left, count) && page !in inUse && i in left
    ensures HandedOut(before, spare, inUse + {page}, left - {i}, count + 1) && |left - {i}| < |left|
  {
    assert inUse + {page} - before == (inUse - before) + {page};
  }

  lemma AllHandedOut(before: set<nat>, spare: set<nat>, inUse: set<nat>, count: nat)
    requires HandedOut(before, spare, inUse, {}, count)
    ensures count == |spare| && |inUse - before| == count && inUse >= before
  {
  }

  /** A fresh pool meets as many requests of one page as there are pages ahead of its boundary. */
  method ExhaustFreshPool(memStart: nat, memEnd: Word) returns (count: nat)
    requires 0 < memStart <= memEnd && memStart % PAGE_SIZE == 0 && Layout(memStart, memEnd).Valid()
    requires memStart < PagesStart(memStart, Layout(memStart, memEnd).total, Layout(memStart, memEnd).top)
    ensures count == Layout(memStart, memEnd).Boundary()
  {
    hide Pool.Valid, Layout, PagesStart, Unused, Consistent, ListedBlocks;
    var pool := new Pool(memStart, memEnd);
    var pages := new Pages(pool, memStart);
    NothingUsed(pool.shape);
    count := ExhaustPages(pages);
  }

  lemma NothingUsed(sh: Shape)
    requires sh.Boundary() >= 0
    ensures |Unused(sh, {})| == sh.Boundary()
  {
    assert Unused(sh, {}) == Indices(0, sh.Boundary());
  }

  /** The system pool of 512 pages, one of them metadata, meets exactly 510 such requests. */
  method ExhaustSystemPool(start: nat) returns (count: nat)
    requires 0 < start && start % PAGE_SIZE == 0 && start + 512 * PAGE_SIZE < WORD
    ensures count == 510
  {
    hide Layout, PagesStart;
    SystemPools(start, 512);
    assert Shape(9, 511, 512).Boundary() == 510;
    count := ExhaustFreshPool(start, start + 512 * PAGE_SIZE);
  }

  lemma PagesInNext(list: seq<Range>, i: nat)
    requires i < |list|
    ensures PagesIn(list[..i + 1]) == PagesIn(list[..i]) + {list[i].ppage}
    ensures NoDuplicates(list) ==> list[i].ppage !in PagesIn(list[..i])
    ensures list[i].ppage in PagesIn(list)
  {
    assert forall j | 0 <= j <= i :: list[..i + 1][j] == list[j];
    assert forall j | 0 <= j < i :: list[..i][j] == list[j];
    assert list[..i + 1][i] == list[i];
    forall p | p in PagesIn(list[..i])
      ensures p in PagesIn(list[..i + 1])
    {
      var j :| 0 <= j < i && list[..i][j].ppage == p;
      assert list[..i + 1][j].ppage == p;
    }
  }

  /** A fresh page put before a list. */
  lemma PushPage(list: seq<Range>, low: nat, page: nat)
    requires Descending(list, low) && NoDuplicates(list) && page !in PagesIn(list)
    ensures var next := [Range(low + |list|, page, 1)] + list;
      Descending(next, low) && NoDuplicates(next) && PagesIn(next) == PagesIn(list) + {page}
  {
    var next := [Range(low + |list|, page, 1)] + list;
    assert next[0].ppage == page;
    forall p | p in PagesIn(list)
      ensures p in PagesIn(next)
    {
      var j :| 0 <= j < |list| && list[j].ppage == p;
      assert next[j + 1].ppage == p;
    }
  }

  lemma LiveAhead(sh: Shape, s: PoolState, b: Block)
    requires Consistent(sh, s) && b in s.live
    ensures b.index < sh.Boundary()
  {
  }

  lemma UnusedIs(sh: Shape, s: PoolState)
    requires Consistent(sh, s) && SinglePages(s.live)
    ensures sh.Boundary() >= 0
    ensures forall i: nat :: i in Unused(sh, s.live) <==> i < sh.Boundary() && Block(i, 0) !in s.live
  {
    hide Tight, MaxFree, FreeCount;
    forall i: nat | i < sh.Boundary()
      ensures i in Unused(sh, s.live) <==> Block(i, 0) !in s.live
    {
      if Block(i, 0) !in s.live {
        UnusedIndex(sh, s.live, i);
      } else {
        assert Block(i, 0).Has(i);
      }
    }
  }

  lemma NoneSpare(sh: Shape, s: PoolState)
    requires Consistent(sh, s) && SinglePages(s.live) && !Grantable(sh, s, 1)
    ensures Unused(sh, s.live) == {}
  {
    hide Grantable, Consistent, Unused;
    UnusedIs(sh, s);
    forall i: nat | i < sh.Boundary() && Block(i, 0) !in s.live
      ensures false
    {
      SinglePageGrantable(sh, s, i);
    }
  }

  lemma WholePages(base: nat, start: nat)
    requires base % PAGE_SIZE == 0 && start % PAGE_SIZE == 0 && base < start
    ensures (start - base) / PAGE_SIZE >= 1 && start == base + (start - base) / PAGE_SIZE * PAGE_SIZE
  {
  }

  lemma OnePage()
    ensures PagesFor(PAGE_SIZE) == 1 && GetOrder(1) == 0
  {
    hide GetOrder;
    GetOrderBound(1);
  }

  /** The page at pool index i, as an address and as a physical page number. */
  lemma PageNumber(base: nat, first: nat, i: nat)
    ensures base + first * PAGE_SIZE + i * PAGE_SIZE == base + (i + first) * PAGE_SIZE
    ensures (base + first * PAGE_SIZE + i * PAGE_SIZE - base) / PAGE_SIZE == i + first
  {
  }
}
