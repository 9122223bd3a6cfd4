/** The allocator can be driven anywhere single pages can: for every set of them ahead of the waste
    boundary some run from a fresh pool ends with exactly those live. */
module BuddyReach {
  import opened Powers
  import opened Bits
  import opened BuddySpec
  import opened BuddyTable
  import opened BuddyMoves
  import opened BuddyState
  import opened BuddyRuns

  ghost function MaxFreeBlocks(top: nat, live: set<Block>): (r: set<Block>)
    ensures forall b :: b in r <==> MaxFree(top, live, b)
  {
    var r := set i: nat, k: nat | i < Pow2(top) && k <= top && MaxFree(top, live, Block(i, k)) :: Block(i, k);
    assert forall b :: MaxFree(top, live, b) ==> b == Block(b.index, b.order) && b.index < Pow2(top);
    r
  }

  ghost function BoundFrom(sh: Shape, live: set<Block>, bound: nat): (r: nat)
    requires bound <= sh.top && Below(sh, live, bound)
    ensures Tight(sh, live, r)
  {
    if bound == 0 || exists x :: MaxFree(sh.top, live, x) && x.index < sh.Boundary() && x.order == bound
    then bound
    else BoundFrom(sh, live, bound - 1)
  }

  /** The state with the given live blocks. */
  ghost function StateOf(sh: Shape, live: set<Block>): (s: PoolState)
    requires sh.Valid() && WellPlaced(sh.top, live) && forall b <- live :: b.index < sh.Boundary()
    ensures Consistent(sh, s) && s.live == live
  {
    assert Below(sh, live, sh.top);
    PoolState(live, MaxFreeBlocks(sh.top, live), FreeCount(sh, live), BoundFrom(sh, live, sh.top))
  }

  // ---- Runs ----

  /** Some run from a fresh pool ends in s. */
  ghost predicate Reached(sh: Shape, s: PoolState) {
    exists states, events :: Run(sh, states, events) && states[|events|] == s
  }

  lemma ReachedFresh(sh: Shape)
    requires sh.Valid()
    ensures Reached(sh, StateOf(sh, {}))
  {
    hide Consistent;
    var s := StateOf(sh, {});
    AllFreed(sh, s);
    assert Run(sh, [s], []);
  }

  lemma ReachedStep(sh: Shape, s: PoolState, e: Event, s': PoolState)
    requires Reached(sh, s) && Step(sh, s, e, s')
    ensures Reached(sh, s')
  {
    hide Step, Fresh;
    var states, events :| Run(sh, states, events) && states[|events|] == s;
    var states', events' := states + [s'], events + [e];
    forall i | 0 <= i < |events'|
      ensures Step(sh, states'[i], events'[i], states'[i + 1])
    {
      assert i < |events| ==> states'[i + 1] == states[i + 1];
    }
    assert Run(sh, states', events');
  }

  lemma ReachedConsistent(sh: Shape, s: PoolState)
    requires Reached(sh, s)
    ensures Consistent(sh, s)
  {
    hide Step, Consistent;
    var states, events :| Run(sh, states, events) && states[|events|] == s;
    RunConsistent(sh, states, events, |events|);
  }

  /** A request that some free block fits has a block to be met with. */
  lemma {:induction false} SomeChosen(sh: Shape, live: set<Block>, order: nat, p: nat, m: Block) returns (b: Block)
    requires Suitable(sh, live, order, p, m)
    ensures b.order == order && Chosen(sh, live, p, b) && Free(live, b) && InPool(sh.top, b) && b.index < sh.Boundary()
    decreases m.order
  {
    if x :| Suitable(sh, live, order, p, x) && x.order < m.order {
      b := SomeChosen(sh, live, order, p, x);
    } else {
      b := Block(m.index, order);
      AlignedLess(m.index, m.order, order);
      Pow2Order(m.order, order);
      ChosenFrom(sh, live, p, m, b);
    }
  }

  /** What a grantable request is granted. */
  lemma SomeGrant(sh: Shape, s: PoolState, p: nat) returns (b: Block, s': PoolState)
    requires Consistent(sh, s) && Grantable(sh, s, p)
    ensures Step(sh, s, Granted(p, b), s') && Consistent(sh, s')
  {
    hide GetOrder, Tight, FreeCount, MaxFree, Suitable, Chosen, InPool, Free;
    var m :| Suitable(sh, s.live, GetOrder(p), p, m);
    b := SomeChosen(sh, s.live, GetOrder(p), p, m);
    FreeNotLive(s.live, b);
    WellPlacedWith(sh.top, s.live, b);
    s' := StateOf(sh, s.live + {b});
    GrantStep(sh, s, p, b, s');
  }

  lemma GrantSingle(sh: Shape, s: PoolState) returns (b: Block, s': PoolState)
    requires Consistent(sh, s) && SinglePages(s.live) && Grantable(sh, s, 1)
    ensures Step(sh, s, Granted(1, b), s') && SinglePages(s'.live)
    ensures sh.Boundary() >= 0 && |Unused(sh, s'.live)| < |Unused(sh, s.live)|
  {
    hide GetOrder, Tight, FreeCount, MaxFree, Chosen, InPool, Free, WellPlaced, Grantable;
    GetOrderBound(1);
    b, s' := SomeGrant(sh, s, 1);
    StepLive(sh, s, Granted(1, b), s');
    assert b == Block(b.index, 0) && b in s'.live;
    FewerUnused(sh, s.live, b);
  }

  lemma FewerUnused(sh: Shape, live: set<Block>, b: Block)
    requires sh.Valid() && SinglePages(live) && b.order == 0 && b.index < sh.Boundary() && b !in live
    ensures |Unused(sh, live + {b})| < |Unused(sh, live)|
  {
    UnusedIndex(sh, live, b.index);
    assert b in live + {b} && b.Has(b.index);
    assert b.index in Covered(sh.top, live + {b});
    forall i | i in Unused(sh, live + {b})
      ensures i in Unused(sh, live) - {b.index}
    {
      assert forall x <- live :: x in live + {b};
    }
    assert Unused(sh, live + {b}) <= Unused(sh, live) - {b.index};
    SubsetSize(Unused(sh, live + {b}), Unused(sh, live) - {b.index});
  }

  /** Single pages can be granted until none ahead of the boundary is left. */
  lemma {:induction false} UseAllPages(sh: Shape, s: PoolState) returns (t: PoolState)
    requires Reached(sh, s) && SinglePages(s.live) && sh.Boundary() >= 0
    ensures Reached(sh, t) && forall i: nat | i < sh.Boundary() :: Block(i, 0) in t.live
    decreases |Unused(sh, s.live)|
  {
    hide Reached, Consistent, Step, Unused;
    t := s;
    if i: nat :| i < sh.Boundary() && Block(i, 0) !in s.live {
      ReachedConsistent(sh, s);
      SinglePageGrantable(sh, s, i);
      var b, s' := GrantSingle(sh, s);
      ReachedStep(sh, s, Granted(1, b), s');
      t := UseAllPages(sh, s');
    }
  }

  /** And all but some chosen ones given back. */
  lemma {:induction false} GiveBackTo(sh: Shape, s: PoolState, keep: set<Block>)
    requires Reached(sh, s) && Consistent(sh, s) && keep <= s.live
    ensures Reached(sh, StateOf(sh, keep))
    decreases |s.live|
  {
    hide Reached, Tight, MaxFree, FreeCount, Step;
    if s.live == keep {
      SameLiveSameState(sh, s, StateOf(sh, keep));
    } else {
      var b :| b in s.live && b !in keep;
      var s' := StateOf(sh, s.live - {b});
      FreeStep(sh, s, b, s');
      ReachedStep(sh, s, Freed(b), s');
      GiveBackTo(sh, s', keep);
    }
  }

  /** Every set of single pages ahead of the boundary is live in a reachable state. */
  lemma SinglePagesReached(sh: Shape, pages: set<Block>)
    requires sh.Valid() && SinglePages(pages) && WellPlaced(sh.top, pages)
    requires forall b <- pages :: b.index < sh.Boundary()
    ensures Reached(sh, StateOf(sh, pages))
  {
    hide Reached, Consistent, Tight;
    ReachedFresh(sh);
    var all := UseAllPages(sh, StateOf(sh, {}));
    ReachedConsistent(sh, all);
    assert pages <= all.live by {
      assert forall b <- pages :: b == Block(b.index, 0);
    }
    GiveBackTo(sh, all, pages);
  }

  /** Two requests for 200 pages take a fresh pool of 511 pages to a wrapped counter. */
  lemma WrapReached() returns (s: PoolState)
    ensures Reached(Shape(9, 511, 512), s) && s.freePages == WORD - 1
  {
    hide Reached, Consistent, Grantable, Step;
    var sh := Shape(9, 511, 512);
    assert Pow2(9) == 512;
    ReachedFresh(sh);
    var s0 := StateOf(sh, {});
    FirstGrantable(s0);
    var b0, s1 := SomeGrant(sh, s0, 200);
    FirstGrant(s0, b0, s1);
    ReachedStep(sh, s0, Granted(200, b0), s1);
    CounterWraps(s1);
    var b1, s2 := SomeGrant(sh, s1, 200);
    ReachedStep(sh, s1, Granted(200, b1), s2);
    s := s2;
  }

  lemma FirstGrantable(s: PoolState)
    requires Consistent(Shape(9, 511, 512), s) && s.live == {}
    ensures Grantable(Shape(9, 511, 512), s, 200)
  {
    hide GetOrder, Consistent, MaxFree;
    AllFreed(Shape(9, 511, 512), s);
    GetOrderBound(200);
    OrderIs8(200, GetOrder(200));
    NothingLive(9, Block(0, 9));
    assert Pow2(9) == 512;
    assert Suitable(Shape(9, 511, 512), {}, 8, 200, Block(0, 9));
  }

  lemma FirstGrant(s: PoolState, b: Block, s': PoolState)
    requires Step(Shape(9, 511, 512), s, Granted(200, b), s') && s.live == {}
    ensures s'.live == {Block(0, 8)}
  {
    hide GetOrder, Consistent, MaxFree;
    GetOrderBound(200);
    OrderIs8(200, GetOrder(200));
    forall m {
      NothingLive(9, m);
    }
    assert b.index == 0;
  }
}
