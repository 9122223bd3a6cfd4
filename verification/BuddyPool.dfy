/** One pool of the buddy page allocator: the record table with its free lists, split and merge
    in place, and the two cached counters. */
module BuddyPool {
  import opened Powers
  import opened Bits
  import opened BuddySpec
  import opened BlockLists
  import opened BuddyTable
  import opened BuddyMoves
  import opened BuddyState

  class Pool {
    const shape: Shape
    const pagesStart: nat
    const blocks: array<Record>
    var freePages: Word
    var maxOrderFree: nat

    /** Contents of the free lists by order, then of the waste list. */
    ghost var lists: Lists
    /** The blocks handed out and not yet returned. */
    ghost var live: set<Block>

    ghost predicate Valid()
      reads this, blocks
    {
      && Represents(shape, blocks[..], lists, live)
      && freePages == FreeCount(shape, live)
      && Tight(shape, live, maxOrderFree)
      && pagesStart > 0 && pagesStart % PAGE_SIZE == 0
    }

    /** The free blocks are the records marked as listed. */
    ghost function State(): PoolState
      requires shape.Indices() <= blocks.Length
      reads this, blocks
    {
      PoolState(live, ListedBlocks(shape, blocks[..]), freePages, maxOrderFree)
    }

    function Address(b: nat): nat {
      pagesStart + b * PAGE_SIZE
    }

    /** A pointer buddy_get_block accepts: page aligned and inside the pool. */
    predicate Accepts(pointer: nat) {
      pointer % PAGE_SIZE == 0 && pagesStart <= pointer < Address(shape.pages)
    }

    function IndexOf(pointer: nat): nat
      requires pagesStart <= pointer
    {
      (pointer - pagesStart) / PAGE_SIZE
    }

    ghost predicate Holding(c: Block)
      reads this, blocks
    {
      InHand(shape, blocks[..], lists, live, c)
    }

    /** init_pool: metadata, waste marks and one free block of all indices. The layout must leave
        more than half of the indices usable, or the start of the waste would underflow. */
    constructor (memStart: nat, memEnd: Word)
      requires 0 < memStart <= memEnd && Layout(memStart, memEnd).Valid()
      ensures Valid() && fresh(blocks) && shape == Layout(memStart, memEnd)
      ensures pagesStart == PagesStart(memStart, shape.total, shape.top)
      ensures shape.Indices() <= blocks.Length && Fresh(shape, State())
    {
      hide Represents, Tight, FreeCount, ListedBlocks, Consistent, Layout, PagesStart;
      var sh := Layout(memStart, memEnd);
      FreshCounters(sh);
      var table := new Record[sh.Base() + sh.top + 2](_ => Record(0, false, false, 0, 0));
      shape := sh;
      pagesStart := PagesStart(memStart, sh.total, sh.top);
      blocks := table;
      freePages := sh.pages;
      maxOrderFree := sh.top;
      live := {};
      lists := FirstLists(sh);
      new;
      InitLists();
      MarkWaste();
      blocks[0] := blocks[0].(order := shape.top);
      blocks[0] := blocks[0].(next := 0);
      blocks[0] := blocks[0].(prev := 0);
      ghost var before := blocks[..];
      assert Prepared(shape, before);
      ListPushBack(blocks, shape.Head(shape.top), 0);
      FreshRepresents(shape, before, blocks[..]);
      PagesStartAligned(memStart, shape.total, shape.top);
      ValidIsConsistent();
    }

    /** Every list head points at itself. */
    method InitLists()
      requires blocks.Length == shape.Base() + shape.top + 2
      modifies blocks
      ensures forall l | 0 <= l < shape.top + 2 ::
                blocks[shape.Head(l)].prev == shape.Head(l) && blocks[shape.Head(l)].next == shape.Head(l)
      ensures forall i | 0 <= i < shape.Base() :: blocks[i] == old(blocks[i])
    {
      for l := 0 to shape.top + 1
        invariant forall m | 0 <= m < l ::
                    blocks[shape.Head(m)].prev == shape.Head(m) && blocks[shape.Head(m)].next == shape.Head(m)
        invariant forall i | 0 <= i < shape.Base() :: blocks[i] == old(blocks[i])
      {
        ListInit(blocks, shape.Head(l));
      }
      ListInit(blocks, shape.Head(shape.WasteList()));
    }

    /** Indices from the boundary to the end of the original table are waste. */
    method MarkWaste()
      requires shape.Valid() && shape.Base() <= blocks.Length
      requires forall i | 0 <= i < shape.Base() :: !blocks[i].isWaste
      modifies blocks
      ensures forall i | 0 <= i < blocks.Length :: blocks[i] == old(blocks[i]).(isWaste := blocks[i].isWaste)
      ensures WasteMarked(shape, blocks[..])
    {
      for i := shape.pages - (shape.Indices() - shape.pages) to shape.total
        invariant forall j | 0 <= j < blocks.Length :: blocks[j] == old(blocks[j]).(isWaste := blocks[j].isWaste)
        invariant forall j | 0 <= j < shape.Base() :: blocks[j].isWaste <==> shape.Boundary() <= j < i
      {
        blocks[i] := blocks[i].(isWaste := true);
      }
    }

    /** split_block: the right half of block b goes to its list, the left half stays in hand. */
    method SplitBlock(b: nat, ghost whole: Block)
      requires whole.order > 0 && whole.index == b < blocks.Length && blocks[b].order == whole.order
      requires Holding(whole)
      modifies this`lists, blocks
      ensures blocks[b].order == whole.order - 1 && Holding(whole.LeftHalf())
    {
      hide InHand, HalvedOrders, Pushed;
      ghost var before := blocks[..];
      ghost var right := whole.RightHalf();
      SplitReady(shape, before, lists, live, whole);
      var buddy := HalveOrders(b, whole);
      if !blocks[buddy].isWaste {
        ListPushBack(blocks, shape.Head(blocks[buddy].order), buddy);
      } else {
        ListPushBack(blocks, shape.Head(shape.WasteList()), buddy);
      }
      SplitKeeps(shape, before, blocks[..], lists, live, whole);
      lists := Appended(lists, HomeList(shape, right.index, right.order), buddy);
      InHandOrder(shape, blocks[..], lists, live, whole.LeftHalf());
    }

    /** Both halves get the lower order. */
    method HalveOrders(b: nat, ghost whole: Block) returns (buddy: nat)
      requires whole.order > 0 && whole.index == b < whole.End() <= blocks.Length && blocks[b].order == whole.order
      requires whole.RightHalf().index == Xor(b, Pow2(whole.order - 1))
      modifies blocks
      ensures buddy == whole.RightHalf().index && blocks[buddy].order == whole.order - 1
      ensures blocks[..] == HalvedOrders(old(blocks[..]), whole)
      ensures forall i | 0 <= i < blocks.Length :: blocks[i] == old(blocks[i]).(order := blocks[i].order)
    {
      blocks[b] := blocks[b].(order := blocks[b].order - 1);
      buddy := Xor(b, Pow2(blocks[b].order));
      blocks[buddy] := blocks[buddy].(order := blocks[b].order);
    }

    /** try_merge_buddy: with the buddy free and of equal order, block and buddy become one. */
    method TryMergeBuddy(b: nat, ghost c: Block) returns (merged: bool, m: nat)
      requires c.index == b < blocks.Length && blocks[b].order == c.order && Holding(c)
      modifies this`lists, blocks
      ensures merged == (c.order < shape.top && MaxFree(shape.top, live + {c}, c.Buddy()))
      ensures merged ==> m == c.Parent().index < blocks.Length && blocks[m].order == c.order + 1 && Holding(c.Parent())
      ensures !merged ==> m == b && unchanged(this) && unchanged(blocks)
    {
      hide InHand;
      ghost var before := blocks[..];
      MergeReady(shape, before, lists, live, c);
      m := b;
      merged := false;
      var buddy := Xor(b, Pow2(blocks[b].order));
      if buddy > shape.Indices() {
        return;
      }
      if blocks[buddy].order == blocks[b].order && blocks[buddy].inList {
        ghost var l, i := MergePlace(shape, before, lists, live, c);
        ghost var middle;
        m, middle := Absorb(b, buddy);
        merged := true;
        MergeKeeps(shape, before, middle, blocks[..], lists, live, c, l, i);
        lists := Removed(lists, l, i);
      }
    }

    /** The listed buddy leaves its list and the lower of the two blocks grows. */
    method Absorb(b: nat, buddy: nat) returns (m: nat, ghost middle: seq<Record>)
      requires b < blocks.Length && buddy < blocks.Length
      requires blocks[buddy].prev < blocks.Length && blocks[buddy].next < blocks.Length
      requires buddy != blocks[buddy].prev && buddy != blocks[buddy].next
      modifies blocks
      ensures m == if b <= buddy then b else buddy
      ensures Merged(old(blocks[..]), middle, blocks[..], b, buddy)
    {
      ListRemove(blocks, buddy);
      middle := blocks[..];
      m := if b <= buddy then b else buddy;
      blocks[m] := blocks[m].(order := blocks[m].order + 1);
    }

    /** free_block: merge as long as the buddy is free, then list what came of it. */
    method FreeBlock(b: nat, ghost c: Block)
      requires c.index == b < blocks.Length && blocks[b].order == c.order && Holding(c)
      requires Tight(shape, live + {c}, maxOrderFree)
      modifies this`lists, this`maxOrderFree, blocks
      ensures Represents(shape, blocks[..], lists, live) && Tight(shape, live, maxOrderFree)
    {
      hide InHand, Represents, Tight, Grown, MaxFree, Free, InPool, Block.Buddy;
      GrownFromStart(shape, live, c);
      var cur := b;
      ghost var m := c;
      InHandUnlisted(shape, blocks[..], lists, live, m);
      var merged, next := TryMergeBuddy(cur, m);
      while merged
        invariant maxOrderFree == old(maxOrderFree)
        invariant cur < blocks.Length && m.index == cur && Grown(shape, live, c, m)
        invariant merged ==> m.order < shape.top && next == m.Parent().index < blocks.Length
        invariant merged ==> blocks[next].order == m.order + 1 && Holding(m.Parent()) && InPool(shape.top, m)
        invariant !merged ==> blocks[cur].order == m.order && Holding(m)
        invariant !merged && m.order < shape.top ==> !MaxFree(shape.top, live + {m}, m.Buddy())
        decreases shape.top - m.order, merged
      {
        InHandUnlisted(shape, blocks[..], lists, live, m.Parent());
        GrownByMerge(shape, live, c, m);
        cur := next;
        m := m.Parent();
        merged, next := TryMergeBuddy(cur, m);
      }
      InHandUnlisted(shape, blocks[..], lists, live, m);
      StopMerging(shape.top, live, m);
      TightAfterFree(shape, live, c, m, maxOrderFree);
      ListFree(cur, m);
    }

    /** The end of free_block: raise the bound and put the merged block on its list. */
    method ListFree(b: nat, ghost m: Block)
      requires m.index == b < blocks.Length && blocks[b].order == m.order && Holding(m)
      requires m.order < shape.top ==> !MaxFree(shape.top, live + {m}, m.Buddy())
      modifies this`lists, this`maxOrderFree, blocks
      ensures Represents(shape, blocks[..], lists, live)
      ensures maxOrderFree == if old(maxOrderFree) > m.order then old(maxOrderFree) else m.order
    {
      hide InHand;
      PutReady(shape, blocks[..], lists, live, m);
      ghost var before := blocks[..];
      if !blocks[b].isWaste {
        maxOrderFree := if maxOrderFree > blocks[b].order then maxOrderFree else blocks[b].order;
        ListPushBack(blocks, shape.Head(blocks[b].order), b);
        PutKeeps(shape, before, blocks[..], lists, live, m);
        lists := Appended(lists, m.order, b);
      } else {
        // A block handed out starts ahead of the boundary and merging only moves its start down.
        assert false;
      }
    }

    /** The inner loop of pool_find_block: from the newest entry of one free list back to the
        first whose last requested page is no waste. */
    method ScanList(a: nat, p: nat) returns (found: bool, b: nat, ghost i: nat)
      requires Files(shape, blocks[..], lists, live) && a <= shape.top && p <= Pow2(a)
      ensures found ==> i < |lists[a]| && lists[a][i] == b && !shape.Fails(b, p)
      ensures found <==> exists j :: 0 <= j < |lists[a]| && !shape.Fails(lists[a][j], p)
      ensures forall j :: (if found then i < j else 0 <= j) && j < |lists[a]| ==> shape.Fails(lists[a][j], p)
    {
      hide WellLinked, Sorted, ListsAre, WasteMarked;
      var list := shape.Head(a);
      ghost var t, c := blocks[..], lists[a];
      b, i, found := list, |c|, false;
      PreviousEntry(t, shape.Base(), lists, a, i);
      while blocks[b].prev != list
        invariant 0 <= i <= |c| && b == if i == |c| then list else c[i]
        invariant b < |t| && t[b].prev == Before(list, c, i) && (i > 0 ==> t[b].prev != list)
        invariant forall j :: i <= j < |c| ==> shape.Fails(c[j], p)
        decreases i
      {
        b := blocks[b].prev;
        i := i - 1;
        PreviousEntry(t, shape.Base(), lists, a, i);
        LookAt(shape, t, lists, live, a, i, p);
        if b + p == 0 || !blocks[b + p - 1].isWaste {
          found := true;
          return;
        }
      }
    }

    /** pool_find_block: the newest fitting block of the lowest order that has one, off its list. */
    method FindBlock(order: nat, p: nat) returns (found: bool, b: nat, ghost e: Block)
      requires Represents(shape, blocks[..], lists, live) && order <= shape.top && p <= Pow2(order)
      modifies this`lists, blocks
      ensures found ==> b == e.index < blocks.Length && blocks[b].order == e.order && Holding(e)
      ensures found ==> Suitable(shape, live, order, p, e)
      ensures found ==> forall x :: Suitable(shape, live, order, p, x) ==> e.order <= x.order
      ensures found ==> e.order < |old(lists)| && Newest(shape, old(lists)[e.order], p, b)
      ensures !found ==> unchanged(this) && unchanged(blocks) && forall x :: !Suitable(shape, live, order, p, x)
    {
      hide Files, WellPlaced, OrdersSet, Suitable, Newest, InHand, MaxFree;
      found, b, e := false, 0, Block(0, 0);
      SuitableOrders(shape, live, order, p);
      ghost var t := blocks[..];
      for a := order to shape.top + 1
        invariant !found && blocks[..] == t && unchanged(this) && unchanged(blocks)
        invariant forall x :: Suitable(shape, live, order, p, x) ==> a <= x.order
      {
        Pow2Order(a, order);
        FilesShape(shape, t, lists, live);
        ghost var i;
        found, b, i := ScanList(a, p);
        if found {
          e := Block(b, a);
          ChosenEntry(shape, t, lists, live, a, i, order, p);
          ListRemove(blocks, b);
          TakeKeeps(shape, t, blocks[..], lists, live, a, i, e);
          lists := Removed(lists, a, i);
          return;
        }
        NoneSuitable(shape, t, lists, live, order, p, a);
      }
      NoneAboveTop(shape, live, order, p);
    }

    lemma ValidIsConsistent()
      requires Valid()
      ensures shape.Indices() <= blocks.Length && Consistent(shape, State())
    {
      hide WellLinked, Tight;
      ListedAreMaxFree(shape, blocks[..], lists, live);
    }

    /** The address of a live block is one that buddy_deallocate accepts, for that block. */
    lemma LiveAccepted(b: Block)
      requires Valid() && b in live
      ensures Accepts(Address(b.index)) && IndexOf(Address(b.index)) == b.index
    {
      hide Represents, Tight;
      ValidIsConsistent();
      assert b.index < shape.Boundary() <= shape.pages;
      PageAddress(pagesStart, b.index);
    }

    /** The splitting loop of buddy_allocate. */
    method SplitDown(b: nat, order: nat, ghost e: Block) returns (ghost m: Block)
      requires e.index == b < blocks.Length && blocks[b].order == e.order && Holding(e) && order <= e.order
      modifies this`lists, blocks
      ensures m == Block(b, order) && blocks[b].order == order && Holding(m) && Shrunk(shape, live, e, m)
    {
      hide InHand, Shrunk, InPool, Free;
      ShrunkFromStart(shape, live, e);
      m := e;
      while blocks[b].order > order
        invariant m.index == b && blocks[b].order == m.order && order <= m.order <= e.order
        invariant Holding(m) && Shrunk(shape, live, e, m)
        decreases m.order
      {
        InHandUnlisted(shape, blocks[..], lists, live, m);
        ShrunkBySplit(shape, live, e, m);
        SplitBlock(b, m);
        m := m.LeftHalf();
      }
    }

    /** The loop that lowers max_order_free past empty lists. */
    method LowerBound()
      requires Files(shape, blocks[..], lists, live)
      requires maxOrderFree <= shape.top && Below(shape, live, maxOrderFree)
      modifies this`maxOrderFree
      ensures Tight(shape, live, maxOrderFree)
    {
      hide Files, Below, Tight;
      BoundFromList(shape, blocks[..], lists, live, maxOrderFree);
      while maxOrderFree > 0 && blocks[shape.Head(maxOrderFree)].prev == shape.Head(maxOrderFree)
        invariant maxOrderFree <= shape.top && shape.Head(maxOrderFree) < blocks.Length
        invariant Below(shape, live, maxOrderFree)
        invariant maxOrderFree == 0 || blocks[shape.Head(maxOrderFree)].prev != shape.Head(maxOrderFree)
                  ==> Tight(shape, live, maxOrderFree)
      {
        BoundFromList(shape, blocks[..], lists, live, maxOrderFree);
        maxOrderFree := maxOrderFree - 1;
        BoundFromList(shape, blocks[..], lists, live, maxOrderFree);
      }
    }

    /** buddy_allocate: the address of a block of the least order holding `size` bytes, or 0. */
    method Allocate(size: Word) returns (address: nat, ghost b: Block)
      requires Valid()
      modifies this`lists, this`live, this`freePages, this`maxOrderFree, blocks
      ensures Valid() && shape.Indices() <= blocks.Length
      ensures size == 0 ==> address == 0 && State() == old(State())
      ensures size > 0 && address == 0 ==> Step(shape, old(State()), Refused(PagesFor(size)), State())
      ensures address != 0 ==> address == Address(b.index)
      ensures address != 0 ==> Step(shape, old(State()), Granted(PagesFor(size), b), State())
    {
      hide Represents, Tight, GetOrder, Step, Consistent, Suitable, Grantable, Chosen, PagesFor, Shape.Valid,
        ListedBlocks;
      ValidIsConsistent();
      ghost var before := State();
      address, b := 0, Block(0, 0);
      if size == 0 {
        return;
      }
      OrderOfPages(size);
      var pages := PagesFor(size);
      var order := GetOrder(pages);
      if maxOrderFree < order || freePages < pages {
        EarlyRefusal(shape, before, pages);
        return;
      }
      if order == shape.top && size > Pow2(order) - (shape.Indices() - shape.pages) {
        EarlyRefusal(shape, before, pages);
        return;
      }
      BelowTopOrder(shape, before, size);
      address, b := Grant(order, pages);
      ValidIsConsistent();
      if address == 0 {
        LateRefusal(shape, before, pages);
      } else {
        GrantStep(shape, before, pages, b, State());
      }
    }

    /** buddy_allocate from the search on. */
    method Grant(order: nat, pages: nat) returns (address: nat, ghost b: Block)
      requires Valid() && order < shape.top && pages <= Pow2(order)
      modifies this`lists, this`live, this`freePages, this`maxOrderFree, blocks
      ensures Valid()
      ensures address == 0 ==> unchanged(this) && unchanged(blocks)
      ensures address == 0 ==> forall x :: !Suitable(shape, live, order, pages, x)
      ensures address != 0 ==> address == Address(b.index) && b.order == order
      ensures address != 0 ==> b !in old(live) && live == old(live) + {b}
      ensures address != 0 ==> Chosen(shape, old(live), pages, b)
    {
      hide Files, Tight, Suitable, Chosen, WellPlaced, OrdersSet, Below, Shrunk, Newest, FreeCount, Wrap;
      var found, block;
      ghost var e;
      found, block, e := FindBlock(order, pages);
      if !found {
        return 0, Block(0, 0);
      }
      SuitableIsFree(shape, live, order, pages, e);
      b := SplitDown(block, order, e);
      BelowAfterGrant(shape, live, e, b, maxOrderFree);
      ChosenFrom(shape, live, pages, e, b);
      FreeNotLive(live, b);
      hide Free, MaxFree;
      GrantedCount(shape, live, b);
      live := live + {b};
      LowerBound();
      freePages := Wrap(freePages - Pow2(blocks[block].order));
      address := Address(block);
    }

    /** buddy_deallocate: gives back a live block; any pointer it does not accept is ignored. */
    method Deallocate(pointer: nat, ghost b: Block)
      requires Valid() && (Accepts(pointer) ==> b in live && b.index == IndexOf(pointer))
      modifies this`lists, this`live, this`freePages, this`maxOrderFree, blocks
      ensures Valid() && shape.Indices() <= blocks.Length
      ensures !Accepts(pointer) ==> unchanged(this) && unchanged(blocks)
      ensures Accepts(pointer) ==> Step(shape, old(State()), Freed(b), State())
    {
      hide Represents, Tight, Step, Consistent, ListedBlocks;
      ValidIsConsistent();
      if pointer == 0 || pointer % PAGE_SIZE != 0 {
        return;
      }
      if pointer < pagesStart || pointer >= Address(shape.pages) {
        return;
      }
      ghost var before := State();
      Release(IndexOf(pointer), b);
      ValidIsConsistent();
      FreeStep(shape, before, b, State());
    }

    /** buddy_deallocate from the block on. */
    method Release(block: nat, ghost b: Block)
      requires Valid() && b in live && b.index == block
      modifies this`lists, this`live, this`freePages, this`maxOrderFree, blocks
      ensures Valid() && live == old(live) - {b}
    {
      hide InHand, Represents, Tight, FreeCount, Wrap;
      LiveInHand(shape, blocks[..], lists, live, b);
      FreedCount(shape, live, b);
      assert live - {b} + {b} == live;
      freePages := Wrap(freePages + Pow2(blocks[block].order));
      live := live - {b};
      FreeBlock(block, b);
    }
  }
}
