/** What a pool's callers can observe, and the steps they can take. */
module BuddyState {
  import opened Powers
  import opened Bits
  import opened BuddySpec
  import opened BlockLists
  import opened BuddyTable
  import opened BuddyMoves

  const PAGE_SIZE: nat := 0x1_0000
  const RECORD_SIZE: nat := 16

  function AlignDown(x: nat, y: nat): nat
    requires y > 0
  {
    x / y * y
  }

  function AlignUp(x: nat, y: nat): nat
    requires y > 0
  {
    AlignDown(x + y - 1, y)
  }

  /** Where init_pool puts the first page: after the list heads and the block records. The size of
      the heads, in bytes already, is added to a pointer to records and so counts records. */
  function PagesStart(memStart: nat, total: nat, orders: nat): nat {
    AlignUp(AlignUp(memStart + RECORD_SIZE * RECORD_SIZE * (orders + 1), 8) + RECORD_SIZE * total, PAGE_SIZE)
  }

  /** The pool init_pool lays out in [memStart, memEnd). */
  function Layout(memStart: nat, memEnd: nat): Shape
    requires memStart <= memEnd < WORD
  {
    var total := (memEnd - memStart) / PAGE_SIZE;
    var orders := GetOrder(total);
    var first := PagesStart(memStart, total, if orders < 0 then 0 else orders);
    var last := AlignDown(memEnd, PAGE_SIZE);
    Shape(if orders < 0 then 0 else orders, if last < first then 0 else (last - first) / PAGE_SIZE, total)
  }

  /** Pages needed for a request in bytes; the sum wraps in a 32-bit size. */
  function PagesFor(size: Word): Word {
    ((size + PAGE_SIZE - 1) % WORD) / PAGE_SIZE
  }

  datatype PoolState = PoolState(live: set<Block>, listed: set<Block>, freePages: Word, bound: nat)

  function ListedBlocks(sh: Shape, t: seq<Record>): set<Block>
    requires sh.Indices() <= |t|
  {
    set x | 0 <= x < sh.Indices() && t[x].inList :: Block(x, t[x].order)
  }

  /** Pages less the pages of live blocks, as the 32-bit counter holds it. */
  ghost function FreeCount(sh: Shape, live: set<Block>): Word {
    Wrap(sh.pages - TotalPages(live))
  }

  /** The invariant of the allocator, on its observable state. */
  ghost predicate Consistent(sh: Shape, s: PoolState) {
    && sh.Valid()
    && WellPlaced(sh.top, s.live)
    && (forall b <- s.live :: b.index < sh.Boundary())
    && (forall b :: b in s.listed <==> MaxFree(sh.top, s.live, b))
    && s.freePages == FreeCount(sh, s.live)
    && Tight(sh, s.live, s.bound)
  }

  /** A request of p pages, at most those of a 32-bit size, can be met: it is below the top
      order, within the page count, and some free block fits it. A size within a page of 2^32
      wraps to zero pages, which any free block fits. */
  ghost predicate Grantable(sh: Shape, s: PoolState, p: nat) {
    && p <= PAGE_SIZE && p <= s.freePages && 0 <= GetOrder(p) < sh.top
    && exists m :: Suitable(sh, s.live, GetOrder(p), p, m)
  }

  /** b starts where a suitable block of the lowest order starts. */
  ghost predicate Chosen(sh: Shape, live: set<Block>, p: nat, b: Block) {
    exists m :: Suitable(sh, live, b.order, p, m) && m.index == b.index
      && forall x :: Suitable(sh, live, b.order, p, x) ==> m.order <= x.order
  }

  datatype Event = Granted(p: nat, b: Block) | Refused(p: nat) | Freed(b: Block)

  /** One call. */
  ghost predicate Step(sh: Shape, s: PoolState, e: Event, s': PoolState) {
    && Consistent(sh, s')
    && match e
       case Granted(p, b) =>
         && Grantable(sh, s, p)
         && b.order == GetOrder(p)
         && Chosen(sh, s.live, p, b)
         && b !in s.live
         && s'.live == s.live + {b}
       case Refused(p) => !Grantable(sh, s, p) && s' == s
       case Freed(b) => b in s.live && s'.live == s.live - {b}
  }

  ghost predicate Fresh(sh: Shape, s: PoolState) {
    Consistent(sh, s) && s.live == {} && s.freePages == sh.pages && s.bound == sh.top
  }

  lemma ListedAreMaxFree(sh: Shape, t: seq<Record>, lists: Lists, live: set<Block>)
    requires Files(sh, t, lists, live)
    ensures forall b :: b in ListedBlocks(sh, t) <==> MaxFree(sh.top, live, b)
  {
    hide WellLinked;
    forall b: Block
      ensures b in ListedBlocks(sh, t) <==> MaxFree(sh.top, live, b)
    {
      assert b in ListedBlocks(sh, t) <==> Listed(sh, t, b);
    }
  }

  /** The pages just hold the bytes, unless rounding up wrapped. */
  lemma PagesBytes(size: Word)
    requires 0 < size
    ensures PagesFor(size) == 0 <==> size + PAGE_SIZE - 1 >= WORD
    ensures PagesFor(size) > 0 ==> PAGE_SIZE * (PagesFor(size) - 1) < size <= PAGE_SIZE * PagesFor(size)
    ensures PagesFor(size) <= PAGE_SIZE
  {
    if size + PAGE_SIZE - 1 >= WORD {
      assert (size + PAGE_SIZE - 1) % WORD == size + PAGE_SIZE - 1 - WORD;
    }
  }

  lemma OrderOfNone()
    ensures GetOrder(0) == GetOrder(1)
  {
  }

  /** Below 2^31 pages get_order is the least sufficient order; for no pages it is 0. */
  lemma GetOrderBound(p: nat)
    requires p <= PAGE_SIZE
    ensures 0 <= GetOrder(p) && p <= Pow2(GetOrder(p)) && (GetOrder(p) > 0 ==> Pow2(GetOrder(p) - 1) < p)
  {
    OrderOfNone();
    hide GetOrder;
    GetOrderExact(if p == 0 then 1 else p);
  }

  /** The byte test of buddy_allocate refuses every request of the top order. */
  lemma BelowTopOrder(sh: Shape, s: PoolState, size: Word)
    requires Consistent(sh, s) && 0 < size && GetOrder(PagesFor(size)) <= s.bound
    requires !(GetOrder(PagesFor(size)) == sh.top && size > Pow2(sh.top) - (sh.Indices() - sh.pages))
    ensures GetOrder(PagesFor(size)) < sh.top
  {
    hide GetOrder, MaxFree, WellPlaced;
    PagesBytes(size);
    GetOrderBound(PagesFor(size));
    var p, k := PagesFor(size), GetOrder(PagesFor(size));
    hide PagesFor;
    if k > 0 {
      assert Pow2(k) == 2 * Pow2(k - 1) < 2 * p;
    }
  }

  lemma OrderOfPages(size: Word)
    requires 0 < size
    ensures var p := PagesFor(size); p <= PAGE_SIZE && 0 <= GetOrder(p) && p <= Pow2(GetOrder(p))
  {
    hide GetOrder;
    PagesBytes(size);
    GetOrderBound(PagesFor(size));
  }

  /** What buddy_allocate checks before it searches rules out every suitable block. */
  lemma EarlyRefusal(sh: Shape, s: PoolState, p: nat)
    requires Consistent(sh, s)
    requires p < WORD && (s.bound < GetOrder(p) || s.freePages < p || GetOrder(p) == sh.top)
    ensures Step(sh, s, Refused(p), s)
  {
    hide GetOrder;
  }

  lemma LateRefusal(sh: Shape, s: PoolState, p: Word)
    requires Consistent(sh, s) && GetOrder(p) >= 0
    requires forall x :: !Suitable(sh, s.live, GetOrder(p), p, x)
    ensures Step(sh, s, Refused(p), s)
  {
    hide GetOrder;
  }

  lemma GrantStep(sh: Shape, s: PoolState, p: Word, b: Block, s': PoolState)
    requires Consistent(sh, s') && p <= PAGE_SIZE && p <= s.freePages && 0 <= GetOrder(p) == b.order < sh.top
    requires b !in s.live && s'.live == s.live + {b}
    requires Chosen(sh, s.live, p, b)
    ensures Step(sh, s, Granted(p, b), s')
  {
    hide GetOrder;
  }

  lemma GrantedCount(sh: Shape, live: set<Block>, b: Block)
    requires b !in live
    ensures FreeCount(sh, live + {b}) == Wrap(FreeCount(sh, live) - b.Size())
  {
    TotalWith(live, b);
    WrapThenMove(sh.pages - TotalPages(live), 0 - b.Size());
  }

  lemma FreedCount(sh: Shape, live: set<Block>, b: Block)
    requires b in live
    ensures FreeCount(sh, live - {b}) == Wrap(FreeCount(sh, live) + b.Size())
  {
    TotalWithout(live, b);
    WrapThenMove(sh.pages - TotalPages(live), b.Size());
  }

  /** Page counts may be taken off or put back after wrapping. */
  lemma WrapThenMove(a: int, d: int)
    ensures (a % WORD + d) % WORD == (a + d) % WORD
  {
    var q := a / WORD;
    assert a == q * WORD + a % WORD;
    WrapWhole(a % WORD + d, q);
  }

  lemma WrapWhole(x: int, q: int)
    ensures (x + q * WORD) % WORD == x % WORD
  {
    var r := x / WORD;
    assert x + q * WORD == (r + q) * WORD + x % WORD;
  }

  lemma FreeStep(sh: Shape, s: PoolState, b: Block, s': PoolState)
    requires Consistent(sh, s') && b in s.live && s'.live == s.live - {b}
    ensures Step(sh, s, Freed(b), s')
  {
  }

  lemma ChosenFrom(sh: Shape, live: set<Block>, p: nat, e: Block, b: Block)
    requires b.index == e.index && Suitable(sh, live, b.order, p, e)
    requires forall x :: Suitable(sh, live, b.order, p, x) ==> e.order <= x.order
    ensures Chosen(sh, live, p, b)
  {
  }

  lemma FreeNotLive(live: set<Block>, b: Block)
    requires Free(live, b)
    ensures b !in live
  {
    assert b.Overlaps(b);
  }

  // ---- A fresh pool ----

  function EmptyLists(sh: Shape): Lists {
    seq(sh.top + 2, _ => [])
  }

  function FirstLists(sh: Shape): Lists {
    EmptyLists(sh)[sh.top := [0]]
  }

  /** The table once the heads are closed on themselves, the waste marked and block 0 prepared. */
  ghost predicate Prepared(sh: Shape, t: seq<Record>) {
    && |t| == sh.Base() + sh.top + 2
    && (forall l | 0 <= l < sh.top + 2 :: t[sh.Head(l)].prev == sh.Head(l) && t[sh.Head(l)].next == sh.Head(l))
    && (forall i | 0 <= i < sh.Base() :: !t[i].inList && (t[i].isWaste <==> sh.Waste(i)))
    && t[0].order == sh.top
  }

  lemma PreparedLinked(sh: Shape, t: seq<Record>)
    requires Prepared(sh, t)
    ensures WellLinked(t, sh.Base(), EmptyLists(sh))
  {
    forall l | 0 <= l < sh.top + 2
      ensures Ring(t, sh.Base() + l, EmptyLists(sh)[l])
    {
      assert sh.Head(l) == sh.Base() + l;
    }
  }

  lemma FreshRepresents(sh: Shape, t: seq<Record>, u: seq<Record>)
    requires sh.Valid() && Prepared(sh, t) && Pushed(t, u, sh.Head(sh.top), 0)
    ensures Represents(sh, u, FirstLists(sh), {})
  {
    hide WellLinked;
    PreparedLinked(sh, t);
    PushKeeps(t, u, sh.Base(), EmptyLists(sh), sh.top, 0);
    assert EmptyLists(sh)[sh.top] + [0] == [0];
    assert Appended(EmptyLists(sh), sh.top, 0) == FirstLists(sh);
    forall b: Block
      ensures Listed(sh, u, b) <==> MaxFree(sh.top, {}, b)
    {
      NothingLive(sh.top, b);
    }
  }

  lemma FreshCounters(sh: Shape)
    requires sh.Valid()
    ensures Tight(sh, {}, sh.top) && sh.pages < WORD && FreeCount(sh, {}) == sh.pages
  {
    Pow2Order(sh.top, 32);
    Words();
    NothingLive(sh.top, Block(0, sh.top));
    forall b: Block {
      NothingLive(sh.top, b);
    }
  }

  lemma PagesStartAligned(memStart: nat, total: nat, orders: nat)
    requires memStart > 0
    ensures PagesStart(memStart, total, orders) > 0 && PagesStart(memStart, total, orders) % PAGE_SIZE == 0
  {
  }

  lemma StepLive(sh: Shape, s: PoolState, e: Event, s': PoolState)
    requires Step(sh, s, e, s')
    ensures e.Granted? ==> e.b !in s.live && s'.live == s.live + {e.b} && e.b.order == GetOrder(e.p)
    ensures e.Refused? ==> s' == s && !Grantable(sh, s, e.p)
    ensures e.Freed? ==> e.b in s.live && s'.live == s.live - {e.b}
  {
    hide GetOrder, Consistent, Grantable, Chosen;
  }

  lemma PageAddress(start: nat, i: nat)
    requires start % PAGE_SIZE == 0
    ensures (start + i * PAGE_SIZE) % PAGE_SIZE == 0 && (start + i * PAGE_SIZE - start) / PAGE_SIZE == i
  {
  }
}
