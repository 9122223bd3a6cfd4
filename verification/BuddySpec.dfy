/** What the buddy allocator's free lists must hold, stated without lists: given the set of
    live blocks, the free blocks are the largest aligned runs of page indices that no live
    block touches. The lemmas follow that set through one split, one merge, one grant and
    one release. */
module BuddySpec {
  import opened Powers

  /** A run of 2^order page indices starting at index. */
  datatype Block = Block(index: nat, order: nat) {
    function Size(): nat {
      Pow2(order)
    }

    function End(): nat {
      index + Size()
    }

    predicate Has(i: nat) {
      index <= i < End()
    }

    predicate Overlaps(b: Block) {
      index < b.End() && b.index < End()
    }

    predicate Within(b: Block) {
      b.index <= index && End() <= b.End()
    }

    /** The other half of the block of twice the size. */
    function Buddy(): Block {
      Block(Xor(index, Pow2(order)), order)
    }

    function Parent(): Block {
      Block(if Bit(index, order) && index >= Size() then index - Size() else index, order + 1)
    }

    function LeftHalf(): Block
      requires order > 0
    {
      Block(index, order - 1)
    }

    function RightHalf(): Block
      requires order > 0
    {
      Block(index + Pow2(order - 1), order - 1)
    }
  }

  /** An aligned block inside a pool of 2^top indices. */
  predicate InPool(top: nat, b: Block) {
    b.order <= top && Aligned(b.index, b.order) && b.End() <= Pow2(top)
  }

  ghost predicate Free(live: set<Block>, b: Block) {
    forall x <- live :: !x.Overlaps(b)
  }

  /** b is free and no larger aligned block around it is: what a fully merged free list holds. */
  ghost predicate MaxFree(top: nat, live: set<Block>, b: Block) {
    InPool(top, b) && Free(live, b) && (b.order < top ==> !Free(live, b.Parent()))
  }

  ghost predicate WellPlaced(top: nat, live: set<Block>) {
    && (forall x <- live :: InPool(top, x))
    && (forall x <- live, y <- live :: x != y ==> !x.Overlaps(y))
  }

  // ---- Geometry of aligned blocks ----

  lemma Nested(top: nat, b: Block, c: Block)
    requires InPool(top, b) && InPool(top, c) && b.order <= c.order && b.Overlaps(c)
    ensures b.Within(c)
    ensures b.order == c.order ==> b == c
  {
    AlignedNested(b.index, b.order, c.index, c.order);
  }

  /** Two same-order blocks differing in one index bit make up their common parent. */
  lemma Family(top: nat, b: Block)
    requires InPool(top, b) && b.order < top
    ensures InPool(top, b.Buddy()) && InPool(top, b.Parent())
    ensures b.Buddy() != b && b.Buddy().Buddy() == b && b.Buddy().Parent() == b.Parent()
    ensures !b.Overlaps(b.Buddy())
    ensures {b, b.Buddy()} == {b.Parent().LeftHalf(), b.Parent().RightHalf()}
    ensures b.Parent().index == if b.index <= b.Buddy().index then b.index else b.Buddy().index
    ensures b.Within(b.Parent()) && b.Buddy().Within(b.Parent())
  {
    XorOneBit(b.index, b.order);
    AlignedParent(b.index, b.order);
    var p := b.Parent();
    AlignedHalves(p.index, b.order);
    Pow2Aligned(b.order + 1, top);
    ParentFits(top, p);
    XorOneBit(b.Buddy().index, b.order);
  }

  lemma ParentFits(top: nat, p: Block)
    requires Aligned(p.index, p.order) && 0 < p.order <= top
    requires p.index < Pow2(top)
    ensures p.End() <= Pow2(top)
  {
    Pow2Aligned(p.order, top);
    Pow2Aligned(p.order, p.order);
    if Pow2(top) < p.End() {
      AlignedNested(p.index, p.order, Pow2(top), p.order);
    }
  }

  /** The two halves of a block, seen from the block. */
  lemma Halves(top: nat, b: Block)
    requires InPool(top, b) && b.order > 0
    ensures InPool(top, b.LeftHalf()) && InPool(top, b.RightHalf())
    ensures b.LeftHalf().Buddy() == b.RightHalf() && b.LeftHalf().Parent() == b
  {
    AlignedHalves(b.index, b.order - 1);
    XorOneBit(b.index, b.order - 1);
  }

  lemma ParentWithin(top: nat, b: Block, c: Block)
    requires InPool(top, b) && InPool(top, c) && b.Within(c) && b.order < c.order
    ensures InPool(top, b.Parent()) && b.Parent().Within(c)
  {
    Family(top, b);
    Nested(top, b.Parent(), c);
  }

  /** Whatever meets a free block's parent but not the live set meets only the other half. */
  lemma MeetsParent(top: nat, x: Block, b: Block)
    requires InPool(top, b) && b.order < top && x.Overlaps(b.Parent()) && !x.Overlaps(b)
    ensures x.Overlaps(b.Buddy())
  {
    Family(top, b);
  }

  // ---- Maximal free blocks ----

  lemma MaxFreeDisjoint(top: nat, live: set<Block>, a: Block, b: Block)
    requires MaxFree(top, live, a) && MaxFree(top, live, b) && a.Overlaps(b)
    ensures a == b
  {
    if a.order <= b.order {
      MaxFreeNotInside(top, live, a, b);
    } else {
      MaxFreeNotInside(top, live, b, a);
    }
  }

  lemma MaxFreeNotInside(top: nat, live: set<Block>, a: Block, b: Block)
    requires MaxFree(top, live, a) && InPool(top, b) && Free(live, b) && a.Overlaps(b) && a.order <= b.order
    ensures a == b
  {
    Nested(top, a, b);
    if a != b {
      ParentWithin(top, a, b);
      assert Free(live, a.Parent());
    }
  }

  /** Every free aligned block lies inside a maximal free one. */
  lemma {:induction false} MaxFreeAround(top: nat, live: set<Block>, b: Block) returns (m: Block)
    requires InPool(top, b) && Free(live, b)
    ensures MaxFree(top, live, m) && b.Within(m)
    decreases top - b.order
  {
    m := b;
    if b.order < top && Free(live, b.Parent()) {
      Family(top, b);
      m := MaxFreeAround(top, live, b.Parent());
    }
  }

  /** Granting a maximal free block removes exactly that block from the maximal free blocks. */
  lemma GrantMaxFree(top: nat, live: set<Block>, b: Block, x: Block)
    requires MaxFree(top, live, b)
    ensures MaxFree(top, live + {b}, x) <==> MaxFree(top, live, x) && x != b
  {
    if MaxFree(top, live, x) && x != b {
      if x.Overlaps(b) {
        MaxFreeDisjoint(top, live, x, b);
      }
      assert Free(live + {b}, x);
    }
    if MaxFree(top, live + {b}, x) {
      assert Free(live, x);
      if x.order < top && Free(live, x.Parent()) {
        Family(top, x);
        assert b.Overlaps(x.Parent());
        NoFreeParentBeside(top, live, b, x);
      }
    }
  }

  lemma NoFreeParentBeside(top: nat, live: set<Block>, b: Block, x: Block)
    requires MaxFree(top, live, b) && InPool(top, x) && !x.Overlaps(b)
    requires x.order < top && b.Overlaps(x.Parent())
    ensures !Free(live, x.Parent())
  {
    Family(top, x);
    var p := x.Parent();
    if p.order < b.order {
      Nested(top, p, b);
    } else if Free(live, p) {
      MaxFreeNotInside(top, live, b, p);
    }
  }

  /** Splitting an allocated block releases exactly the half that is not kept. */
  lemma SplitMaxFree(top: nat, live: set<Block>, c: Block, x: Block)
    requires InPool(top, c) && c.order < top && Free(live, c.Parent())
    ensures MaxFree(top, live + {c}, x) <==> MaxFree(top, live + {c.Parent()}, x) || x == c.Buddy()
  {
    var p, s := c.Parent(), c.Buddy();
    Family(top, c);
    if x == s {
      assert Free(live + {c}, s);
      assert c.Overlaps(s.Parent());
    } else if MaxFree(top, live + {p}, x) {
      KeepAfterSplit(top, live, c, x);
    } else if MaxFree(top, live + {c}, x) {
      KeepBeforeSplit(top, live, c, x);
    }
  }

  lemma KeepAfterSplit(top: nat, live: set<Block>, c: Block, x: Block)
    requires InPool(top, c) && c.order < top && Free(live, c.Parent())
    requires MaxFree(top, live + {c.Parent()}, x)
    ensures MaxFree(top, live + {c}, x)
  {
    var p := c.Parent();
    Family(top, c);
    assert Free(live + {c}, x);
    if x.order < top && p.Overlaps(x.Parent()) {
      Family(top, x);
      if x.Parent().order <= p.order {
        Nested(top, x.Parent(), p);
      } else {
        Nested(top, p, x.Parent());
        assert c.Overlaps(x.Parent());
      }
    }
  }

  lemma KeepBeforeSplit(top: nat, live: set<Block>, c: Block, x: Block)
    requires InPool(top, c) && c.order < top && Free(live, c.Parent())
    requires MaxFree(top, live + {c}, x) && x != c.Buddy()
    ensures MaxFree(top, live + {c.Parent()}, x)
  {
    var p, s := c.Parent(), c.Buddy();
    Family(top, c);
    assert s.Parent() == p && c.Overlaps(p);
    assert MaxFree(top, live + {c}, s) by {
      assert Free(live + {c}, s);
    }
    if x.Overlaps(p) {
      MeetsParent(top, x, c);
      MaxFreeDisjoint(top, live + {c}, x, s);
    }
    assert Free(live + {p}, x);
    if x.order < top && c.Overlaps(x.Parent()) {
      assert p.Overlaps(x.Parent());
    }
  }

  /** A released block whose buddy is not free is maximal: merging may stop there. */
  lemma StopMerging(top: nat, live: set<Block>, c: Block)
    requires InPool(top, c) && Free(live, c)
    requires c.order < top ==> !MaxFree(top, live + {c}, c.Buddy())
    ensures MaxFree(top, live, c)
  {
    if c.order < top {
      Family(top, c);
      var s := c.Buddy();
      assert !Free(live + {c}, s.Parent());
      assert Free(live, c.Parent()) ==> Free(live + {c}, s);
    }
  }

  // ---- The pool is tiled ----

  ghost predicate Tile(top: nat, live: set<Block>, b: Block) {
    b in live || MaxFree(top, live, b)
  }

  /** Every index lies in exactly one live or maximal free block. */
  lemma TiledExactly(top: nat, live: set<Block>, i: nat)
    requires WellPlaced(top, live) && i < Pow2(top)
    ensures exists b: Block :: b.Has(i) && Tile(top, live, b)
    ensures forall a: Block, b: Block ::
              a.Has(i) && b.Has(i) && Tile(top, live, a) && Tile(top, live, b) ==> a == b
  {
    var unit := Block(i, 0);
    if Free(live, unit) {
      var m := MaxFreeAround(top, live, unit);
      assert m.Has(i) && Tile(top, live, m);
    } else {
      var x :| x in live && x.Overlaps(unit);
      assert x.Has(i) && Tile(top, live, x);
    }
    forall a: Block, b: Block | a.Has(i) && b.Has(i) && Tile(top, live, a) && Tile(top, live, b)
      ensures a == b
    {
      assert a.Overlaps(b) && b.Overlaps(a);
      if a !in live && b !in live {
        MaxFreeDisjoint(top, live, a, b);
      }
    }
  }

  /** Two buddies are never both free and unmerged. */
  lemma BuddiesMerged(top: nat, live: set<Block>, b: Block)
    requires MaxFree(top, live, b) && b.order < top
    ensures !MaxFree(top, live, b.Buddy())
  {
    Family(top, b);
    if Free(live, b.Buddy()) {
      var x :| x in live && x.Overlaps(b.Parent());
      MeetsParent(top, x, b);
    }
  }

  /** With nothing live the whole pool is one free block. */
  lemma NothingLive(top: nat, b: Block)
    ensures MaxFree(top, {}, b) <==> b == Block(0, top)
  {
    var whole := Block(0, top);
    ZeroAligned(top);
    if MaxFree(top, {}, b) {
      assert b.order == top;
      assert whole.Overlaps(b);
      MaxFreeDisjoint(top, {}, whole, b);
    }
  }

  lemma {:induction false} ZeroAligned(k: nat)
    ensures Aligned(0, k)
  {
    if k > 0 {
      ZeroAligned(k - 1);
    }
  }

  // ---- Counting pages ----

  /** Pages held by a set of blocks. */
  ghost function TotalPages(live: set<Block>): nat {
    if live == {} then 0
    else
      var b :| b in live;
      b.Size() + TotalPages(live - {b})
  }

  lemma {:induction false} TotalWithout(live: set<Block>, b: Block)
    requires b in live
    ensures TotalPages(live) == b.Size() + TotalPages(live - {b})
  {
    var a :| a in live && TotalPages(live) == a.Size() + TotalPages(live - {a});
    if a != b {
      TotalWithout(live - {a}, b);
      TotalWithout(live - {b}, a);
      assert live - {a} - {b} == live - {b} - {a};
    }
  }

  lemma TotalWith(live: set<Block>, b: Block)
    requires b !in live
    ensures TotalPages(live + {b}) == TotalPages(live) + b.Size()
  {
    TotalWithout(live + {b}, b);
    assert live + {b} - {b} == live;
  }
}
