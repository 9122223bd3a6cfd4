/** Which requests a pool can always meet inside its memory. The answer needs the pool's shape and
    the page count alone, and is exact: for any other request some state grants it past the end. */
module BuddyBounds {
  import opened Powers
  import opened Bits
  import opened BuddySpec
  import opened BuddyTable
  import opened BuddyMoves
  import opened BuddyState
  import opened BuddyRuns
  import opened BuddyReach

  /** The last start of an order k block ahead of the boundary. */
  function LastStart(sh: Shape, k: nat): nat
    requires sh.Boundary() > 0
  {
    Times((sh.Boundary() - 1) / Pow2(k), Pow2(k))
  }

  /** A request that some state may meet: no more pages than bytes in 32 bits make, and below the
      top order. */
  predicate MayBeMet(sh: Shape, p: Word) {
    p <= PAGE_SIZE && 0 <= GetOrder(p) < sh.top
  }

  /** From the last place a request of p pages can be met at, its pages have records. */
  predicate StaysInside(sh: Shape, p: Word) {
    sh.Boundary() > 0 && MayBeMet(sh, p) ==> LastStart(sh, GetOrder(p)) + p <= sh.total
  }

  lemma LastStartIs(sh: Shape, k: nat)
    requires sh.Boundary() > 0
    ensures var h := LastStart(sh, k);
      h < sh.Boundary() <= h + Pow2(k) && Aligned(h, k)
    ensures forall i: nat :: Aligned(i, k) && i < sh.Boundary() ==> i <= LastStart(sh, k)
  {
    var n, d := sh.Boundary() - 1, Pow2(k);
    Divided(n, d);
    AlignedIsMultiple(LastStart(sh, k), k);
    forall i: nat | Aligned(i, k) && i < sh.Boundary()
      ensures i <= LastStart(sh, k)
    {
      AlignedIsMultiple(i, k);
      var q: nat :| Times(q, d) == i;
      LargestMultiple(q, n, d);
    }
  }

  lemma Divided(n: nat, d: nat)
    requires d > 0
    ensures Times(n / d, d) <= n < Times(n / d, d) + d
  {
  }

  lemma LargestMultiple(q: nat, n: nat, d: nat)
    requires d > 0 && Times(q, d) <= n
    ensures Times(q, d) <= Times(n / d, d)
  {
    Divided(n, d);
    if q < n / d {
      TimesOrder(q, n / d, d);
    } else if n / d < q {
      TimesOrder(n / d, q, d);
    }
  }

  lemma {:induction false} TimesOrder(i: nat, j: nat, d: nat)
    requires i < j
    ensures Times(i, d) + d <= Times(j, d)
  {
    if i < j - 1 {
      TimesOrder(i, j - 1, d);
    }
    assert Times(j, d) == Times(j - 1, d) + d;
  }

  // ---- Requests that stay inside ----

  lemma GrantInside(sh: Shape, s: PoolState, p: nat, b: Block, s': PoolState)
    requires Consistent(sh, s) && Step(sh, s, Granted(p, b), s') && p < WORD && StaysInside(sh, p)
    ensures b.index + p <= sh.Boundary()
  {
    hide GetOrder, Tight, MaxFree, LastStart, WellPlaced, FreeCount, Free;
    GrantIsSound(sh, s, p, b, s');
    LastStartIs(sh, b.order);
    ChosenStart(sh, s.live, p, b);
  }

  lemma ChosenStart(sh: Shape, live: set<Block>, p: nat, b: Block)
    requires Chosen(sh, live, p, b)
    ensures b.index < sh.Boundary()
  {
  }

  // ---- A state that grants any other request past the end ----

  /** Live and not: a page at the start of each order k block before the last. */
  ghost function Starts(k: nat, m: nat): set<Block> {
    set i: nat | i < m :: Block(Times(i, Pow2(k)), 0)
  }

  lemma {:induction false} StartsCount(k: nat, m: nat)
    ensures TotalPages(Starts(k, m)) == m
  {
    if m == 0 {
      assert Starts(k, 0) == {};
    } else {
      StartsCount(k, m - 1);
      var last := Block(Times(m - 1, Pow2(k)), 0);
      assert Starts(k, m) == Starts(k, m - 1) + {last};
      assert last !in Starts(k, m - 1) by {
        forall i: nat | i < m - 1
          ensures Times(i, Pow2(k)) < Times(m - 1, Pow2(k))
        {
          TimesOrder(i, m - 1, Pow2(k));
        }
      }
      TotalWith(Starts(k, m - 1), last);
    }
  }

  /** The state that has only those pages live leaves one place for an order k block: the last. */
  lemma OneStartLeft(sh: Shape, k: nat, m: nat, x: Block)
    requires sh.Valid() && Times(m, Pow2(k)) == LastStart(sh, k) && k <= x.order
    requires MaxFree(sh.top, Starts(k, m), x) && x.index < sh.Boundary()
    ensures x.index == LastStart(sh, k)
  {
    hide LastStart;
    AlignedLess(x.index, x.order, k);
    AlignedIsMultiple(x.index, k);
    LastStartIs(sh, k);
    var q: nat :| Times(q, Pow2(k)) == x.index;
    if q < m {
      StartTaken(k, m, q, x);
    } else if m < q {
      TimesOrder(m, q, Pow2(k));
    }
  }

  lemma StartTaken(k: nat, m: nat, q: nat, x: Block)
    requires q < m && x.index == Times(q, Pow2(k))
    ensures !Free(Starts(k, m), x)
  {
    assert Block(Times(q, Pow2(k)), 0) in Starts(k, m);
    assert Block(Times(q, Pow2(k)), 0).Overlaps(x);
  }

  lemma StartsPlaced(sh: Shape, k: nat, m: nat)
    requires sh.Valid() && Times(m, Pow2(k)) == LastStart(sh, k) && k < sh.top
    ensures WellPlaced(sh.top, Starts(k, m)) && forall b <- Starts(k, m) :: b.index < sh.Boundary()
    ensures InPool(sh.top, Block(LastStart(sh, k), k)) && Free(Starts(k, m), Block(LastStart(sh, k), k))
  {
    hide LastStart;
    LastStartIs(sh, k);
    var last := Block(LastStart(sh, k), k);
    if k > 0 {
      ParentFits(sh.top, last);
    }
    forall i: nat | i < m
      ensures Times(i, Pow2(k)) + Pow2(k) <= last.index
    {
      TimesOrder(i, m, Pow2(k));
    }
  }

  lemma FewStarts(sh: Shape, k: nat, m: nat, p: nat)
    requires sh.Valid() && Times(m, Pow2(k)) < sh.Boundary() && k < sh.top && p <= Pow2(k)
    ensures p <= FreeCount(sh, Starts(k, m))
  {
    hide Starts;
    FreshCounters(sh);
    StartsCount(k, m);
    if m == 0 {
      Pow2Order(k, sh.top);
      Pow2Monotone(k, sh.top);
    } else {
      RunsCover(m, Pow2(k));
    }
  }

  lemma {:induction false} RunsCover(m: nat, d: nat)
    requires m > 0 && d > 0
    ensures m + d <= Times(m, d) + 1
  {
    if m > 1 {
      RunsCover(m - 1, d);
      assert Times(m, d) == Times(m - 1, d) + d;
    }
  }

  /** Any other request is met past the end in that state, which some run reaches. */
  lemma GrantOutside(sh: Shape, p: Word) returns (s: PoolState, b: Block, s': PoolState)
    requires sh.Valid() && !StaysInside(sh, p)
    ensures Consistent(sh, s) && Reached(sh, s) && Step(sh, s, Granted(p, b), s') && b.index + p > sh.total
  {
    hide GetOrder, Consistent, LastStart, WellPlaced, InPool, Free, Chosen, FreeCount, Times, Reached;
    var k := GetOrder(p);
    var m := LastStartTimes(sh, k);
    StartsPlaced(sh, k, m);
    LastStartIs(sh, k);
    GetOrderBound(p);
    SinglePagesReached(sh, Starts(k, m));
    hide Starts;
    s, b := StateOf(sh, Starts(k, m)), Block(LastStart(sh, k), k);
    StateCount(sh, s);
    FewStarts(sh, k, m, p);
    LastIsChosen(sh, k, m, p);
    FreeNotLive(s.live, b);
    WellPlacedWith(sh.top, s.live, b);
    s' := StateOf(sh, s.live + {b});
    GrantStep(sh, s, p, b, s');
  }

  lemma LastStartTimes(sh: Shape, k: nat) returns (m: nat)
    requires sh.Boundary() > 0
    ensures LastStart(sh, k) == Times(m, Pow2(k))
  {
    m := (sh.Boundary() - 1) / Pow2(k);
  }

  lemma LastIsChosen(sh: Shape, k: nat, m: nat, p: nat)
    requires sh.Valid() && Times(m, Pow2(k)) == LastStart(sh, k) && k < sh.top && LastStart(sh, k) + p > sh.total
    ensures Chosen(sh, Starts(k, m), p, Block(LastStart(sh, k), k))
  {
    hide LastStart, Starts;
    var last := Block(LastStart(sh, k), k);
    StartsPlaced(sh, k, m);
    LastStartIs(sh, k);
    var e := MaxFreeAround(sh.top, Starts(k, m), last);
    Pow2Order(e.order, k);
    OneStartLeft(sh, k, m, e);
    assert Suitable(sh, Starts(k, m), k, p, e);
    forall x | Suitable(sh, Starts(k, m), k, p, x)
      ensures x == e
    {
      OneStartLeft(sh, k, m, x);
      assert x.Overlaps(e);
      MaxFreeDisjoint(sh.top, Starts(k, m), x, e);
    }
  }

  /** A request is always met ahead of the waste boundary exactly if it fits from the last place
      it can be met at: in every consistent state, and already in every state of a run. */
  lemma InsideExactly(sh: Shape, p: Word)
    requires sh.Valid()
    ensures StaysInside(sh, p) <==> forall s, b, s' | Consistent(sh, s) && Step(sh, s, Granted(p, b), s') ::
                                      b.index + p <= sh.Boundary()
    ensures StaysInside(sh, p) <==> forall s, b, s' | Reached(sh, s) && Step(sh, s, Granted(p, b), s') ::
                                      b.index + p <= sh.Boundary()
  {
    hide GetOrder, Consistent, StaysInside, Step, Reached;
    forall s, b, s' | Step(sh, s, Granted(p, b), s') && StaysInside(sh, p)
      ensures Consistent(sh, s) || Reached(sh, s) ==> b.index + p <= sh.Boundary()
    {
      if Reached(sh, s) {
        ReachedConsistent(sh, s);
      }
      if Consistent(sh, s) {
        GrantInside(sh, s, p, b, s');
      }
    }
    if !StaysInside(sh, p) {
      var s, b, s' := GrantOutside(sh, p);
      assert sh.Boundary() <= sh.total;
    }
  }

  /** A table as long as the index range lets no request out. */
  lemma FullTableStaysInside(sh: Shape, p: Word)
    requires sh.Valid() && sh.total == sh.Indices()
    ensures StaysInside(sh, p)
  {
    hide GetOrder, LastStart;
    if MayBeMet(sh, p) {
      GetOrderBound(p);
      var m := LastStartTimes(sh, GetOrder(p));
      StartsPlaced(sh, GetOrder(p), m);
    }
  }

  /** In the window pool of the system, whose table is short, requests of up to 144 pages stay. */
  lemma WindowPoolStaysInside(p: Word)
    requires p <= 256
    ensures StaysInside(Shape(9, 399, 400), p) <==> p <= 144
  {
    hide GetOrder, LastStart, Aligned;
    var sh, k := Shape(9, 399, 400), GetOrder(p);
    GetOrderBound(p);
    SmallOrders(p, k);
    LastStartIs(sh, k);
    AlignedTo(LastStart(sh, k));
    hide Pow2;
  }

  lemma SmallOrders(p: nat, k: nat)
    requires p <= 256 && p <= Pow2(k) && (k > 0 ==> Pow2(k - 1) < p)
    ensures k <= 8 && Pow2(9) == 512
    ensures if p > 128 then k == 8 && Pow2(k) == 256 else if p > 64 then k == 7 && Pow2(k) == 128 else Pow2(k) <= 128
  {
    assert Pow2(9) == 512 && Pow2(8) == 256 && Pow2(7) == 128 && Pow2(6) == 64;
    if k > 0 { Pow2Order(k - 1, 8); Pow2Order(k - 1, 7); Pow2Order(k - 1, 6); }
    Pow2Order(6, k);
    Pow2Order(7, k);
  }

  lemma AlignedTo(i: nat)
    ensures Aligned(i, 7) ==> i % 128 == 0
    ensures Aligned(i, 8) ==> i % 256 == 0
  {
    hide Aligned;
    assert Pow2(8) == 256 && Pow2(7) == 128;
    hide Pow2;
    if Aligned(i, 7) {
      AlignedIsMultiple(i, 7);
      var q: nat :| Times(q, Pow2(7)) == i;
      assert i == 128 * q;
    }
    if Aligned(i, 8) {
      AlignedIsMultiple(i, 8);
      var q: nat :| Times(q, Pow2(8)) == i;
      assert i == 256 * q;
    }
  }

  // ---- Places a request can be met at ----

  /** An aligned run of the request's order is free at i, its pages ahead of the boundary. */
  ghost predicate Slot(sh: Shape, live: set<Block>, p: Word, i: nat) {
    && MayBeMet(sh, p) && InPool(sh.top, Block(i, GetOrder(p))) && Free(live, Block(i, GetOrder(p)))
    && i < sh.Boundary() && i + p <= sh.Boundary()
  }

  /** A request that stays inside is grantable exactly if it is within the counter and has a place. */
  lemma GrantableBySlot(sh: Shape, s: PoolState, p: Word)
    requires Consistent(sh, s) && StaysInside(sh, p)
    ensures Grantable(sh, s, p) <==> p <= s.freePages && exists i :: Slot(sh, s.live, p, i)
  {
    hide GetOrder, LastStart, Tight, FreeCount, WellPlaced;
    if Grantable(sh, s, p) {
      var m :| Suitable(sh, s.live, GetOrder(p), p, m);
      SuitableIsSlot(sh, s.live, p, m);
    }
    if i :| Slot(sh, s.live, p, i) {
      GetOrderBound(p);
      FreeRunIsSuitable(sh, s.live, p, Block(i, GetOrder(p)));
    }
  }

  lemma SuitableIsSlot(sh: Shape, live: set<Block>, p: Word, m: Block)
    requires sh.Valid() && StaysInside(sh, p) && MayBeMet(sh, p) && Suitable(sh, live, GetOrder(p), p, m)
    ensures Slot(sh, live, p, m.index)
  {
    hide GetOrder, LastStart;
    var k := GetOrder(p);
    AlignedLess(m.index, m.order, k);
    Pow2Order(m.order, k);
    LastStartIs(sh, k);
  }

  ghost predicate TwoSlots(sh: Shape, live: set<Block>, p: Word) {
    exists i, j :: i != j && Slot(sh, live, p, i) && Slot(sh, live, p, j)
  }

  /** A state that grants p pages once has a place and a count for as many more. */
  ghost predicate SecondFits(sh: Shape, s: PoolState, p: Word) {
    GetOrder(p) >= 0 && TwoSlots(sh, s.live, p) && p <= Wrap(s.freePages - Pow2(GetOrder(p)))
  }

  /** A grant takes the place it is met at, and leaves the others. */
  lemma SlotsAfterGrant(sh: Shape, live: set<Block>, p: Word, b: Block, i: nat)
    requires Slot(sh, live, p, b.index) && b.order == GetOrder(p)
    ensures Slot(sh, live + {b}, p, i) <==> Slot(sh, live, p, i) && i != b.index
  {
    hide GetOrder;
    if Slot(sh, live, p, i) && i != b.index {
      var r := Block(i, b.order);
      if r.Overlaps(b) {
        Nested(sh.top, r, b);
      }
      assert Free(live + {b}, r);
    }
    if Slot(sh, live + {b}, p, i) {
      assert b in live + {b} && !b.Overlaps(Block(i, b.order));
      assert Free(live, Block(i, b.order));
    }
  }

  /** After one grant another of the same size is met exactly if there were two places and the
      counter holds the pages still. */
  lemma SecondGrant(sh: Shape, s: PoolState, p: Word, b: Block, s': PoolState)
    requires Consistent(sh, s) && Consistent(sh, s') && StaysInside(sh, p)
    requires Slot(sh, s.live, p, b.index) && b.order == GetOrder(p) && b !in s.live && s'.live == s.live + {b}
    ensures Grantable(sh, s', p) <==> SecondFits(sh, s, p)
  {
    hide GetOrder, StaysInside, Slot, Grantable, Tight, MaxFree, WellPlaced;
    GrantedCount(sh, s.live, b);
    hide FreeCount;
    GrantableBySlot(sh, s', p);
    forall i: nat {
      SlotsAfterGrant(sh, s.live, p, b, i);
    }
  }
}
