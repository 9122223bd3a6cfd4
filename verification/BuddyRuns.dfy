/** Whole runs of the allocator: what every reachable state satisfies, and that the state is a
    function of the live blocks alone. */
module BuddyRuns {
  import opened Powers
  import opened Bits
  import opened BuddySpec
  import opened BuddyTable
  import opened BuddyMoves
  import opened BuddyState

  // ---- The state is a function of the live blocks ----

  lemma SameLiveSameState(sh: Shape, s: PoolState, s': PoolState)
    requires Consistent(sh, s) && Consistent(sh, s') && s.live == s'.live
    ensures s == s'
  {
    assert s.listed == s'.listed;
    assert s.bound == s'.bound;
  }

  /** A free undoes the grant it follows. */
  lemma AllocateThenFree(sh: Shape, s: PoolState, p: nat, b: Block, s1: PoolState, s2: PoolState)
    requires Consistent(sh, s) && Step(sh, s, Granted(p, b), s1) && Step(sh, s1, Freed(b), s2)
    ensures s2 == s
  {
    hide Consistent, Grantable, Chosen;
    assert s.live + {b} - {b} == s.live;
    SameLiveSameState(sh, s, s2);
  }

  /** s' is reached from s by freeing the listed blocks in turn. */
  ghost predicate Frees(sh: Shape, s: PoolState, order: seq<Block>, s': PoolState)
    decreases |order|
  {
    if order == [] then s' == s
    else exists mid :: Step(sh, s, Freed(order[0]), mid) && Frees(sh, mid, order[1..], s')
  }

  lemma {:induction false} FreesLive(sh: Shape, s: PoolState, order: seq<Block>, s': PoolState)
    requires Consistent(sh, s) && Frees(sh, s, order, s')
    decreases |order|
    ensures Consistent(sh, s') && s'.live == s.live - (set b | b in order)
  {
    hide Consistent;
    if order != [] {
      var mid :| Step(sh, s, Freed(order[0]), mid) && Frees(sh, mid, order[1..], s');
      FreesLive(sh, mid, order[1..], s');
      assert order == [order[0]] + order[1..];
    }
  }

  /** Freeing the same blocks in two orders reaches the same state. */
  lemma FreesInAnyOrder(sh: Shape, s: PoolState, order: seq<Block>, other: seq<Block>, a: PoolState, b: PoolState)
    requires Consistent(sh, s) && Frees(sh, s, order, a) && Frees(sh, s, other, b)
    requires multiset(order) == multiset(other)
    ensures a == b
  {
    hide Consistent, Frees;
    FreesLive(sh, s, order, a);
    FreesLive(sh, s, other, b);
    assert forall x :: x in order <==> x in multiset(order);
    assert forall x :: x in other <==> x in multiset(other);
    assert (set x | x in order) == (set x | x in other);
    SameLiveSameState(sh, a, b);
  }

  /** With everything freed the pool is as init_pool left it: one block of all indices. */
  lemma AllFreed(sh: Shape, s: PoolState)
    requires Consistent(sh, s) && s.live == {}
    ensures s.listed == {Block(0, sh.top)} && s.freePages == sh.pages && s.bound == sh.top
  {
    FreshCounters(sh);
    forall b {
      NothingLive(sh.top, b);
    }
    assert s.listed == {Block(0, sh.top)};
  }

  // ---- Grants and refusals ----

  lemma FreeRunIsSuitable(sh: Shape, live: set<Block>, p: nat, r: Block)
    requires p <= Pow2(r.order) && InPool(sh.top, r) && Free(live, r)
    requires r.index < sh.Boundary() && r.index + p <= sh.Boundary()
    ensures exists m :: Suitable(sh, live, r.order, p, m)
  {
    var m := MaxFreeAround(sh.top, live, r);
    Pow2Order(m.order, r.order);
    assert Suitable(sh, live, r.order, p, m);
  }

  /** A refusal leaves no aligned run of the order free with its requested pages ahead of the boundary. */
  lemma RefusalIsComplete(sh: Shape, s: PoolState, p: nat, s': PoolState, r: Block)
    requires Step(sh, s, Refused(p), s')
    requires p <= PAGE_SIZE && p <= s.freePages && 0 <= GetOrder(p) == r.order < sh.top
    requires InPool(sh.top, r) && r.index < sh.Boundary() && r.index + p <= sh.Boundary()
    ensures !Free(s.live, r)
  {
    hide GetOrder, Consistent, Suitable, Free, InPool;
    GetOrderBound(p);
    if Free(s.live, r) {
      FreeRunIsSuitable(sh, s.live, p, r);
    }
  }

  /** A grant is an aligned block of the least sufficient order that was free before; its
      requested pages lie ahead of the boundary exactly when they all have records. */
  lemma GrantIsSound(sh: Shape, s: PoolState, p: nat, b: Block, s': PoolState)
    requires Consistent(sh, s) && Step(sh, s, Granted(p, b), s')
    ensures InPool(sh.top, b) && Free(s.live, b)
    ensures p <= b.Size() && (b.order > 0 ==> Pow2(b.order - 1) < p)
    ensures b.index + p <= sh.Boundary() <==> b.index + p <= sh.total
    ensures sh.total == sh.Indices() ==> b.index + p <= sh.Boundary()
    ensures p <= sh.total - sh.Boundary() ==> b.index + p <= sh.Boundary()
  {
    hide GetOrder, Tight, MaxFree, InPool;
    GetOrderBound(p);
    assert b in s'.live;
    assert forall x <- s.live :: x in s'.live && x != b;
    var m :| Suitable(sh, s.live, b.order, p, m) && m.index == b.index;
    FitsInPool(sh, b, p);
  }

  lemma FitsInPool(sh: Shape, b: Block, p: nat)
    requires InPool(sh.top, b) && p <= b.Size()
    ensures b.index + p <= sh.Indices()
  {
  }

  /** A size within a page of 2^32 asks for no page at all: it is met, with one page, exactly if any
      free block starts ahead of the boundary, whatever the counter says. */
  lemma NearlyAllOfMemory(sh: Shape, s: PoolState, size: Word)
    requires Consistent(sh, s) && size > WORD - PAGE_SIZE
    ensures Grantable(sh, s, PagesFor(size)) <==> exists m :: MaxFree(sh.top, s.live, m) && m.index < sh.Boundary()
    ensures forall b, s' :: Step(sh, s, Granted(PagesFor(size), b), s') ==> b.Size() == 1
  {
    hide GetOrder, Tight, MaxFree, PagesFor;
    PagesBytes(size);
    GetOrderBound(0);
    assert forall m | MaxFree(sh.top, s.live, m) && m.index < sh.Boundary() :: Suitable(sh, s.live, 0, 0, m);
    assert forall m | Suitable(sh, s.live, 0, 0, m) :: MaxFree(sh.top, s.live, m) && m.index < sh.Boundary();
  }

  /** A table shorter than the index range lets a grant run past the pool: with 399 pages and
      400 records, one page live, a request for 150 pages is met at index 256. */
  lemma ShortTableOverruns(s: PoolState, b: Block, s': PoolState)
    requires var sh := Shape(9, 399, 400);
      Consistent(sh, s) && s.live == {Block(0, 0)} && Step(sh, s, Granted(150, b), s')
    ensures b == Block(256, 8) && b.index + 150 > 399
  {
    hide GetOrder, Consistent, Grantable;
    UpperHalfGranted(Shape(9, 399, 400), s, Block(0, 0), 150, b, s');
  }

  /** With a block at index 0 live, more than a quarter of 512 indices is met in the upper half. */
  lemma UpperHalfGranted(sh: Shape, s: PoolState, taken: Block, p: nat, b: Block, s': PoolState)
    requires sh.top == 9 && 128 < p <= 256 && taken.index == 0
    requires Consistent(sh, s) && s.live == {taken} && Step(sh, s, Granted(p, b), s')
    ensures b == Block(256, 8)
  {
    hide GetOrder, Consistent, Suitable, MaxFree;
    GetOrderBound(p);
    OrderIs8(p, GetOrder(p));
    var m :| Suitable(sh, s.live, b.order, p, m) && m.index == b.index;
    SuitableIsFree(sh, s.live, b.order, p, m);
    OnlyUpperHalf(9, taken, m);
    assert Pow2(8) == 256;
  }

  lemma OrderIs8(p: nat, k: nat)
    requires 128 < p <= 256 && p <= Pow2(k) && (k > 0 ==> Pow2(k - 1) < p)
    ensures k == 8
  {
    assert Pow2(8) == 256 && Pow2(7) == 128;
    if k > 0 { Pow2Order(k - 1, 8); }
    Pow2Order(7, k);
  }

  lemma OrderOf9(n: nat)
    requires 256 < n <= 512
    ensures GetOrder(n) == 9
  {
    hide GetOrder;
    GetOrderBound(n);
    assert Pow2(8) == 256 && Pow2(9) == 512;
    var k := GetOrder(n);
    if k > 0 { Pow2Order(k - 1, 9); }
    Pow2Order(8, k);
  }

  /** The two pools of the system: 32 MB of page frames, and 25 MB of framebuffer addresses
      whose table is shorter than its index range. */
  lemma SystemPools(start: nat, pages: nat)
    requires start % PAGE_SIZE == 0 && pages in {512, 400} && start + pages * PAGE_SIZE < WORD
    ensures Layout(start, start + pages * PAGE_SIZE) == Shape(9, pages - 1, pages)
    ensures Shape(9, pages - 1, pages).Valid()
    ensures PagesStart(start, pages, 9) == start + PAGE_SIZE
  {
    hide GetOrder, PagesStart, AlignDown;
    OrderOf9(pages);
    WholeMemory(start, pages);
    MetadataPage(start / PAGE_SIZE, pages);
    assert start == start / PAGE_SIZE * PAGE_SIZE;
    assert Pow2(9) == 512;
  }

  lemma WholeMemory(start: nat, pages: nat)
    requires start % PAGE_SIZE == 0
    ensures (start + pages * PAGE_SIZE - start) / PAGE_SIZE == pages
    ensures AlignDown(start + pages * PAGE_SIZE, PAGE_SIZE) == start + pages * PAGE_SIZE
    ensures pages > 0 ==> (start + pages * PAGE_SIZE - (start + PAGE_SIZE)) / PAGE_SIZE == pages - 1
  {
    PageAddress(start, pages);
    if pages > 0 { PageAddress(start, pages - 1); }
  }

  /** In memory that starts on a page, the metadata takes the least number k of pages that hold 256
      bytes for each list head and 16 for each record. */
  lemma MetadataPages(q: nat, total: nat, orders: nat, k: nat)
    ensures PagesStart(q * PAGE_SIZE, total, orders) == (q + k) * PAGE_SIZE <==>
            (k - 1) * 0x1_0000 < 256 * (orders + 1) + 16 * total <= k * 0x1_0000
  {
    var heads, bytes := 256 * (orders + 1), 256 * (orders + 1) + 16 * total;
    assert AlignUp(q * PAGE_SIZE + heads, 8) == q * PAGE_SIZE + heads;
    var r := (bytes + PAGE_SIZE - 1) / PAGE_SIZE;
    assert (q * PAGE_SIZE + bytes + PAGE_SIZE - 1) / PAGE_SIZE == q + r;
    assert PagesStart(q * PAGE_SIZE, total, orders) == (q + r) * PAGE_SIZE;
  }

  /** List heads and records of either pool fit in one page. */
  lemma MetadataPage(q: nat, pages: nat)
    requires pages in {512, 400}
    ensures PagesStart(q * PAGE_SIZE, pages, 9) == q * PAGE_SIZE + PAGE_SIZE
  {
    assert AlignUp(q * PAGE_SIZE + 2560, 8) == q * PAGE_SIZE + 2560;
  }

  /** With index 0 taken, the one free block of half the pool is the upper half. */
  lemma OnlyUpperHalf(top: nat, taken: Block, m: Block)
    requires top > 0 && MaxFree(top, {taken}, m) && m.order >= top - 1 && taken.index == 0
    ensures m == Block(Pow2(top - 1), top - 1)
  {
    assert !taken.Overlaps(m);
    assert m.index > 0;
    Pow2Order(m.order, top - 1);
    assert m.order == top - 1;
    ZeroAligned(top - 1);
    var lower := Block(0, top - 1);
    Pow2Aligned(top - 1, top - 1);
    var upper := Block(Pow2(top - 1), top - 1);
    if lower.Overlaps(m) {
      Nested(top, lower, m);
    } else {
      Nested(top, upper, m);
    }
  }

  /** And that request is always met. */
  lemma ShortTableGrants(s: PoolState)
    requires Consistent(Shape(9, 399, 400), s) && s.live == {Block(0, 0)}
    ensures Grantable(Shape(9, 399, 400), s, 150)
  {
    hide GetOrder, Consistent, Grantable, FreeCount;
    OnePageLive();
    StateCount(Shape(9, 399, 400), s);
    UpperHalfGrantable(Shape(9, 399, 400), s, Block(0, 0), 150);
  }

  lemma UpperHalfGrantable(sh: Shape, s: PoolState, taken: Block, p: nat)
    requires sh.top == 9 && 128 < p <= 256 && taken.index == 0 && taken.order <= 8
    requires Consistent(sh, s) && s.live == {taken} && p <= s.freePages
    requires 256 < sh.Boundary() && !sh.Waste(255 + p)
    ensures Grantable(sh, s, p)
  {
    hide GetOrder, Tight, MaxFree, FreeCount;
    GetOrderBound(p);
    OrderIs8(p, GetOrder(p));
    UpperHalfFree(taken);
    assert Suitable(sh, s.live, 8, p, Block(256, 8));
  }

  lemma OnePageLive()
    ensures FreeCount(Shape(9, 399, 400), {Block(0, 0)}) == 398
  {
    TotalWith({}, Block(0, 0));
    assert {} + {Block(0, 0)} == {Block(0, 0)};
  }

  lemma UpperHalfFree(taken: Block)
    requires taken.index == 0 && taken.order <= 8
    ensures MaxFree(9, {taken}, Block(256, 8))
  {
    Pow2Order(8, taken.order);
    assert Pow2(8) == 256 && Pow2(9) == 512;
    Pow2Aligned(8, 8);
    HighBit(256, 8);
    assert Block(256, 8).Parent() == Block(0, 9);
  }

  // ---- Conservation of pages ----

  /** The n indices from lo on. */
  ghost function Indices(lo: nat, n: nat): (r: set<nat>)
    ensures |r| == n
    ensures forall i :: i in r <==> lo <= i < lo + n
  {
    if n == 0 then {} else Indices(lo, n - 1) + {lo + n - 1}
  }

  ghost function Covered(top: nat, blocks: set<Block>): set<nat> {
    set i | i in Indices(0, Pow2(top)) && exists b <- blocks :: b.Has(i)
  }

  ghost predicate Disjoint(blocks: set<Block>) {
    forall x <- blocks, y <- blocks :: x != y ==> !x.Overlaps(y)
  }

  /** Disjoint blocks hold as many pages as they cover. */
  lemma {:induction false} PagesAreCovered(top: nat, blocks: set<Block>)
    requires Disjoint(blocks) && forall b <- blocks :: b.End() <= Pow2(top)
    ensures TotalPages(blocks) == |Covered(top, blocks)|
    decreases |blocks|
  {
    if blocks == {} {
      assert Covered(top, blocks) == {};
    } else {
      var b :| b in blocks;
      var rest := blocks - {b};
      PagesAreCovered(top, rest);
      TotalWithout(blocks, b);
      CoveredSplit(top, blocks, b);
    }
  }

  lemma CoveredSplit(top: nat, blocks: set<Block>, b: Block)
    requires Disjoint(blocks) && b in blocks && b.End() <= Pow2(top)
    ensures Covered(top, blocks) == Covered(top, blocks - {b}) + Indices(b.index, b.Size())
    ensures Covered(top, blocks - {b}) !! Indices(b.index, b.Size())
  {
    var r := Indices(b.index, b.Size());
    forall i: nat | i in Covered(top, blocks)
      ensures i in Covered(top, blocks - {b}) || i in r
    {
      var x :| x in blocks && x.Has(i);
      assert x != b ==> x in blocks - {b};
    }
    forall i: nat | i in Covered(top, blocks - {b})
      ensures i in Covered(top, blocks) && i !in r
    {
      var x :| x in blocks - {b} && x.Has(i);
      assert x in blocks && !x.Overlaps(b);
    }
  }

  lemma SubsetSize(a: set<nat>, b: set<nat>)
    requires a <= b
    ensures |a| <= |b|
  {
    assert b == a + (b - a);
  }

  /** Live and listed blocks together hold every index of the pool once. */
  lemma PagesConserved(sh: Shape, s: PoolState)
    requires Consistent(sh, s)
    ensures TotalPages(s.live) + TotalPages(s.listed) == Pow2(sh.top)
  {
    hide Tight, MaxFree;
    ListedDisjoint(sh.top, s);
    CoverTogether(sh, s);
    PagesAreCovered(sh.top, s.live);
    PagesAreCovered(sh.top, s.listed);
    hide Consistent, Disjoint;
    var all := Indices(0, Pow2(sh.top));
    var a, b := Covered(sh.top, s.live), Covered(sh.top, s.listed);
    assert a + b == all && a !! b;
  }

  lemma ListedDisjoint(top: nat, s: PoolState)
    requires forall b :: b in s.listed <==> MaxFree(top, s.live, b)
    ensures Disjoint(s.listed) && forall b <- s.listed :: b.End() <= Pow2(top)
  {
    forall x, y | x in s.listed && y in s.listed && x != y
      ensures !x.Overlaps(y)
    {
      if x.Overlaps(y) {
        MaxFreeDisjoint(top, s.live, x, y);
      }
    }
  }

  lemma CoverTogether(sh: Shape, s: PoolState)
    requires Consistent(sh, s)
    ensures forall i: nat | i < Pow2(sh.top) ::
              (i in Covered(sh.top, s.live) || i in Covered(sh.top, s.listed))
              && !(i in Covered(sh.top, s.live) && i in Covered(sh.top, s.listed))
  {
    hide Tight;
    forall i: nat | i < Pow2(sh.top)
      ensures (i in Covered(sh.top, s.live) || i in Covered(sh.top, s.listed))
      ensures !(i in Covered(sh.top, s.live) && i in Covered(sh.top, s.listed))
    {
      TiledExactly(sh.top, s.live, i);
      var b: Block :| b.Has(i) && Tile(sh.top, s.live, b);
      assert b in s.live || b in s.listed;
      assert forall x <- s.live, y <- s.listed :: x.Has(i) ==> !y.Has(i) by {
        assert forall x <- s.live, y <- s.listed :: !x.Overlaps(y);
      }
    }
  }

  // ---- Runs ----

  /** A run from a fresh pool: state i becomes state i + 1 by event i. */
  ghost predicate Run(sh: Shape, states: seq<PoolState>, events: seq<Event>) {
    && |states| == |events| + 1
    && Fresh(sh, states[0])
    && forall i | 0 <= i < |events| :: Step(sh, states[i], events[i], states[i + 1])
  }

  lemma RunConsistent(sh: Shape, states: seq<PoolState>, events: seq<Event>, n: nat)
    requires Run(sh, states, events) && n < |states|
    ensures Consistent(sh, states[n])
  {
    if n > 0 {
      assert Step(sh, states[n - 1], events[n - 1], states[n]);
    }
  }

  ghost predicate PowerOfTwo(p: nat) {
    exists k :: Pow2(k) == p
  }

  lemma PowerFillsBlock(p: nat, order: nat)
    requires PowerOfTwo(p) && p <= Pow2(order) && (order > 0 ==> Pow2(order - 1) < p)
    ensures p == Pow2(order)
  {
    var k :| Pow2(k) == p;
    Pow2Order(order, k);
    if order > 0 {
      Pow2Order(order - 1, k);
    }
  }

  /** The counter holds the page count less the pages of the live blocks, without a wrap. */
  ghost predicate Exact(sh: Shape, s: PoolState) {
    s.freePages == sh.pages - TotalPages(s.live)
  }

  /** A grant takes a whole block off the counter, which need not hold as many pages: the counter
      stays exact if and only if it does. */
  lemma CountStaysExact(sh: Shape, s: PoolState, p: nat, b: Block, s': PoolState)
    requires Consistent(sh, s) && Exact(sh, s) && Step(sh, s, Granted(p, b), s')
    ensures Exact(sh, s') <==> Pow2(GetOrder(p)) <= s.freePages
  {
    hide GetOrder, Tight, MaxFree, WellPlaced, Grantable, Chosen;
    TotalWith(s.live, b);
  }

  lemma FreeKeepsExact(sh: Shape, s: PoolState, b: Block, s': PoolState)
    requires Consistent(sh, s) && Exact(sh, s) && Step(sh, s, Freed(b), s')
    ensures Exact(sh, s')
  {
    hide Tight, MaxFree, WellPlaced;
    FreshCounters(sh);
    TotalWithout(s.live, b);
  }

  /** When every request is for a power of two pages, the page counter never wraps. */
  lemma {:induction false} PowerOfTwoRunsCount(sh: Shape, states: seq<PoolState>, events: seq<Event>, n: nat)
    requires Run(sh, states, events) && n < |states|
    requires forall i | 0 <= i < n && events[i].Granted? :: PowerOfTwo(events[i].p)
    ensures states[n].freePages == sh.pages - TotalPages(states[n].live)
  {
    hide Consistent, GetOrder;
    if n > 0 {
      PowerOfTwoRunsCount(sh, states, events, n - 1);
      RunConsistent(sh, states, events, n - 1);
      var e := events[n - 1];
      assert Step(sh, states[n - 1], e, states[n]);
      if e.Granted? {
        GetOrderBound(e.p);
        PowerFillsBlock(e.p, GetOrder(e.p));
        CountStaysExact(sh, states[n - 1], e.p, e.b, states[n]);
      } else if e.Freed? {
        FreeKeepsExact(sh, states[n - 1], e.b, states[n]);
      }
    }
  }

  /** The counter does wrap: in the 511 page pool with 256 pages live, 200 pages are granted as a
      block of 256 when 255 are left. */
  lemma CounterWraps(s: PoolState)
    requires Consistent(Shape(9, 511, 512), s) && s.live == {Block(0, 8)}
    ensures Grantable(Shape(9, 511, 512), s, 200)
    ensures forall b, s' :: Step(Shape(9, 511, 512), s, Granted(200, b), s') ==> s'.freePages == WORD - 1
  {
    hide GetOrder, Consistent, Grantable, FreeCount;
    HalfLive();
    StateCount(Shape(9, 511, 512), s);
    UpperHalfGrantable(Shape(9, 511, 512), s, Block(0, 8), 200);
    forall b, s' | Step(Shape(9, 511, 512), s, Granted(200, b), s')
      ensures s'.freePages == WORD - 1
    {
      UpperHalfGranted(Shape(9, 511, 512), s, Block(0, 8), 200, b, s');
      StateCount(Shape(9, 511, 512), s');
    }
  }

  lemma StateCount(sh: Shape, s: PoolState)
    requires Consistent(sh, s)
    ensures s.freePages == FreeCount(sh, s.live)
  {
  }

  lemma HalfLive()
    ensures FreeCount(Shape(9, 511, 512), {Block(0, 8)}) == 255
    ensures FreeCount(Shape(9, 511, 512), {Block(0, 8)} + {Block(256, 8)}) == WORD - 1
  {
    assert Pow2(8) == 256;
    TotalWith({}, Block(0, 8));
    assert {} + {Block(0, 8)} == {Block(0, 8)};
    TotalWith({Block(0, 8)}, Block(256, 8));
  }

  lemma {:induction false} LiveAheadOfBoundary(sh: Shape, states: seq<PoolState>, events: seq<Event>, n: nat)
    requires Run(sh, states, events) && n < |states| && sh.total == sh.Indices()
    requires forall i | 0 <= i < n && events[i].Granted? :: PowerOfTwo(events[i].p)
    ensures forall b <- states[n].live :: b.End() <= sh.Boundary()
  {
    hide Consistent, GetOrder;
    if n > 0 {
      LiveAheadOfBoundary(sh, states, events, n - 1);
      RunConsistent(sh, states, events, n - 1);
      var e := events[n - 1];
      assert Step(sh, states[n - 1], e, states[n]);
      if e.Granted? {
        GrantIsSound(sh, states[n - 1], e.p, e.b, states[n]);
        PowerFillsBlock(e.p, e.b.order);
      }
    }
  }

  lemma CountExact(sh: Shape, s: PoolState)
    requires Consistent(sh, s) && forall b <- s.live :: b.End() <= sh.Boundary()
    ensures s.freePages == sh.pages - TotalPages(s.live)
  {
    hide Tight, MaxFree;
    FreshCounters(sh);
    TotalWithin(sh.top, s.live, sh.Boundary());
  }

  lemma TotalWithin(top: nat, blocks: set<Block>, end: nat)
    requires Disjoint(blocks) && end <= Pow2(top) && forall b <- blocks :: b.End() <= end
    ensures TotalPages(blocks) <= end
  {
    PagesAreCovered(top, blocks);
    SubsetSize(Covered(top, blocks), Indices(0, end));
  }

  // ---- Single pages ----

  ghost predicate SinglePages(live: set<Block>) {
    forall b <- live :: b.order == 0
  }

  /** The indices ahead of the boundary that no live block covers. */
  ghost function Unused(sh: Shape, live: set<Block>): set<nat>
    requires sh.Boundary() >= 0
  {
    Indices(0, sh.Boundary()) - Covered(sh.top, live)
  }

  /** With only single pages live, the counter has not wrapped and counts at least the unused pages. */
  lemma SinglePagesCount(sh: Shape, s: PoolState)
    requires Consistent(sh, s) && SinglePages(s.live)
    ensures sh.Boundary() >= 0 && |Unused(sh, s.live)| <= s.freePages
  {
    hide Tight, MaxFree;
    forall b | b in s.live
      ensures b.End() <= sh.Boundary() && b.End() <= Pow2(sh.top)
    {
    }
    CountExact(sh, s);
    PagesAreCovered(sh.top, s.live);
    hide Disjoint, FreeCount, WellPlaced, TotalPages;
    assert Covered(sh.top, s.live) <= Indices(0, sh.Boundary());
    SizeWithout(Indices(0, sh.Boundary()), Covered(sh.top, s.live));
  }

  lemma SizeWithout(all: set<nat>, part: set<nat>)
    requires part <= all
    ensures |all - part| == |all| - |part|
  {
    assert all == (all - part) + part;
  }

  /** Any unused page can be granted. */
  lemma SinglePageGrantable(sh: Shape, s: PoolState, i: nat)
    requires Consistent(sh, s) && SinglePages(s.live) && i < sh.Boundary() && Block(i, 0) !in s.live
    ensures Grantable(sh, s, 1)
  {
    hide Tight, GetOrder;
    GetOrderBound(1);
    var r := Block(i, 0);
    assert GetOrder(1) == 0;
    assert Free(s.live, r) by {
      forall x | x in s.live
        ensures !x.Overlaps(r)
      {
        assert x.order == 0 && x != r;
      }
    }
    FreeRunIsSuitable(sh, s.live, 1, r);
    UnusedIndex(sh, s.live, i);
    SinglePagesCount(sh, s);
  }

  lemma UnusedIndex(sh: Shape, live: set<Block>, i: nat)
    requires sh.Valid() && SinglePages(live) && i < sh.Boundary() && Block(i, 0) !in live
    ensures i in Unused(sh, live) && |Unused(sh, live)| >= 1
  {
    forall b | b in live
      ensures !b.Has(i)
    {
      assert b.order == 0 && b != Block(i, 0);
    }
  }
}
