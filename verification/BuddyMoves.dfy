/** The three moves of the allocator's table, on its contents: splitting the block in hand,
    merging it with its listed buddy, and taking a block off or putting it on its list. */
module BuddyMoves {
  import opened Powers
  import opened BuddySpec
  import opened BlockLists
  import opened BuddyTable

  // ---- Split ----

  /** The table once split_block has stored the two halves' order. */
  ghost function HalvedOrders(t: seq<Record>, whole: Block): seq<Record>
    requires whole.order > 0 && whole.End() <= |t|
  {
    var left, right := whole.LeftHalf(), whole.RightHalf();
    t[left.index := t[left.index].(order := left.order)][right.index := t[right.index].(order := right.order)]
  }

  /** A block in hand: live blocks elsewhere, the table holding what both leave free. */
  ghost predicate InHand(sh: Shape, t: seq<Record>, lists: Lists, live: set<Block>, c: Block) {
    Represents(sh, t, lists, live + {c}) && Free(live, c)
  }

  /** A live block, taken out of the live set, is in hand. */
  lemma LiveInHand(sh: Shape, t: seq<Record>, lists: Lists, live: set<Block>, b: Block)
    requires Represents(sh, t, lists, live) && b in live
    ensures b.index < |t| && t[b.index].order == b.order && InHand(sh, t, lists, live - {b}, b)
  {
    hide Files;
    assert live - {b} + {b} == live;
  }

  lemma InHandUnlisted(sh: Shape, t: seq<Record>, lists: Lists, live: set<Block>, c: Block)
    requires InHand(sh, t, lists, live, c)
    ensures InPool(sh.top, c) && Free(live, c) && c.index < sh.Boundary() && c.End() <= sh.Indices() <= |t|
    ensures forall x: nat | c.Has(x) :: !t[x].inList
  {
    assert c in live + {c};
    forall x: nat | c.Has(x)
      ensures !t[x].inList
    {
      LiveNotListed(sh, t, lists, live + {c}, c, x);
    }
  }

  lemma InHandOrder(sh: Shape, t: seq<Record>, lists: Lists, live: set<Block>, c: Block)
    requires InHand(sh, t, lists, live, c)
    ensures c.index < |t| && t[c.index].order == c.order
  {
    assert c in live + {c};
  }

  lemma SplitReady(sh: Shape, t: seq<Record>, lists: Lists, live: set<Block>, whole: Block)
    requires InHand(sh, t, lists, live, whole) && whole.order > 0
    ensures var right := whole.RightHalf();
      && whole.End() <= sh.Indices() <= |t|
      && right.index == Xor(whole.index, Pow2(right.order))
      && !t[whole.index].inList && !t[right.index].inList
      && (t[right.index].isWaste <==> sh.Boundary() <= right.index)
      && var head := sh.Head(HomeList(sh, right.index, right.order));
      head < |t| && t[head].prev < |t| && right.index != t[head].prev && right.index != head
  {
    hide WellLinked, Sorted, ListsAre, OrdersSet, WellPlaced, MaxFree, Free;
    InHandUnlisted(sh, t, lists, live, whole);
    var right := whole.RightHalf();
    Halves(sh.top, whole);
    RightHalfHasRecord(sh, whole);
    assert t[right.index].isWaste <==> sh.Boundary() <= right.index;
    assert whole.Has(right.index);
    hide Files, InPool, HomeList;
    HomeReady(sh, t, lists, live + {whole}, right.index, right.order);
  }

  /** The list a block belongs on can take it. */
  lemma HomeReady(sh: Shape, t: seq<Record>, lists: Lists, live: set<Block>, x: nat, order: nat)
    requires Files(sh, t, lists, live) && x < sh.Indices() && order <= sh.top && !t[x].inList
    ensures var head := sh.Head(HomeList(sh, x, order));
      head < |t| && t[head].prev < |t| && x != t[head].prev && x != head
  {
    hide WellLinked, Sorted, ListsAre, WasteMarked;
    MayPush(t, sh.Base(), lists, HomeList(sh, x, order), x);
  }

  lemma SplitKeeps(sh: Shape, t: seq<Record>, u: seq<Record>, lists: Lists, live: set<Block>, whole: Block)
    requires InHand(sh, t, lists, live, whole) && whole.order > 0 && whole.End() <= |t|
    requires var right := whole.RightHalf();
      Pushed(HalvedOrders(t, whole), u, sh.Head(HomeList(sh, right.index, right.order)), right.index)
    ensures var right := whole.RightHalf(); var l := HomeList(sh, right.index, right.order);
      l < |lists| && InHand(sh, u, Appended(lists, l, right.index), live, whole.LeftHalf())
  {
    hide WellLinked;
    var left, right := whole.LeftHalf(), whole.RightHalf();
    InHandUnlisted(sh, t, lists, live, whole);
    SplitFiles(sh, t, u, lists, live, whole);
    LeftInHand(sh.top, live, whole);
    OrdersKept(sh, t, u, live, whole, left);
  }

  lemma SplitFiles(sh: Shape, t: seq<Record>, u: seq<Record>, lists: Lists, live: set<Block>, whole: Block)
    requires Files(sh, t, lists, live + {whole}) && Free(live, whole) && InPool(sh.top, whole)
    requires whole.order > 0 && whole.End() <= |t| && whole.index < sh.Boundary()
    requires forall x: nat | whole.Has(x) :: !t[x].inList
    requires var right := whole.RightHalf();
      Pushed(HalvedOrders(t, whole), u, sh.Head(HomeList(sh, right.index, right.order)), right.index)
    ensures var right := whole.RightHalf(); var l := HomeList(sh, right.index, right.order);
      l < |lists| && Files(sh, u, Appended(lists, l, right.index), live + {whole.LeftHalf()})
  {
    hide WellLinked, Sorted, ListsAre, WasteMarked;
    var left, right := whole.LeftHalf(), whole.RightHalf();
    Halves(sh.top, whole);
    ReorderFiles(sh, t, HalvedOrders(t, whole), lists, live + {whole});
    forall x {
      SplitMaxFree(sh.top, live, left, x);
    }
    PushFiles(sh, HalvedOrders(t, whole), u, lists, live + {whole}, live + {left}, right);
  }

  lemma LeftInHand(top: nat, live: set<Block>, whole: Block)
    requires WellPlaced(top, live + {whole}) && Free(live, whole) && whole.order > 0
    ensures WellPlaced(top, live + {whole.LeftHalf()}) && Free(live, whole.LeftHalf())
  {
    assert whole in live + {whole};
    Halves(top, whole);
    Family(top, whole.LeftHalf());
    assert forall x <- live :: x in live + {whole};
  }

  /** Live blocks keep their orders while records inside the block in hand change. */
  lemma OrdersKept(sh: Shape, t: seq<Record>, u: seq<Record>, live: set<Block>, whole: Block, c: Block)
    requires OrdersSet(sh, t, live) && Free(live, whole) && |t| == |u|
    requires forall i | 0 <= i < |t| && !whole.Has(i) :: u[i].order == t[i].order
    requires c.index < |u| && c.index < sh.Boundary() && u[c.index].order == c.order
    ensures OrdersSet(sh, u, live + {c})
  {
    forall b | b in live
      ensures u[b.index].order == b.order
    {
      assert !whole.Has(b.index);
    }
  }

  // ---- Merge ----

  /** The test of try_merge_buddy finds the buddy exactly when it is a free block of the same
      order; for a block of the whole pool it meets the sentinel record. */
  lemma MergeReady(sh: Shape, t: seq<Record>, lists: Lists, live: set<Block>, c: Block)
    requires InHand(sh, t, lists, live, c)
    ensures var b := Xor(c.index, Pow2(c.order));
      && b == c.Buddy().index <= sh.Indices() < |t|
      && (t[b].order == c.order && t[b].inList <==> c.order < sh.top && MaxFree(sh.top, live + {c}, c.Buddy()))
  {
    assert c in live + {c};
    var b := c.Buddy().index;
    XorOneBit(c.index, c.order);
    if c.order < sh.top {
      Family(sh.top, c);
      assert Listed(sh, t, c.Buddy()) <==> MaxFree(sh.top, live + {c}, c.Buddy());
    } else {
      WholePool(sh.top, c);
      SentinelUnlisted(sh, t, lists, live + {c});
    }
  }

  /** Where the free buddy is linked, and the lower of the two halves. */
  lemma MergePlace(sh: Shape, t: seq<Record>, lists: Lists, live: set<Block>, c: Block) returns (l: nat, i: nat)
    requires InHand(sh, t, lists, live, c) && c.order < sh.top && MaxFree(sh.top, live + {c}, c.Buddy())
    ensures l < |lists| && i < |lists[l]| && lists[l][i] == c.Buddy().index
    ensures var b := c.Buddy().index;
      b < |t| && t[b].order == c.order && t[b].prev < |t| && t[b].next < |t| && b != t[b].prev && b != t[b].next
    ensures c.Parent().index == if c.index <= c.Buddy().index then c.index else c.Buddy().index
  {
    assert c in live + {c};
    Family(sh.top, c);
    l, i := MaxFreeHasPlace(sh, t, lists, live + {c}, c.Buddy());
    MayRemove(t, sh.Base(), lists, l, i);
  }

  lemma WholePool(top: nat, c: Block)
    requires InPool(top, c) && c.order == top
    ensures c.index == 0 && Xor(c.index, Pow2(c.order)) == Pow2(top)
  {
    XorOneBit(0, top);
    BitZero(top);
  }

  lemma SentinelUnlisted(sh: Shape, t: seq<Record>, lists: Lists, live: set<Block>)
    requires Files(sh, t, lists, live)
    ensures !t[sh.Indices()].inList
  {
    assert !Linked(lists, sh.Indices());
  }

  /** The table once the buddy is off its list and the lower half carries the higher order. */
  ghost predicate Merged(t: seq<Record>, m: seq<Record>, u: seq<Record>, b: nat, buddy: nat) {
    && Unlinked(t, m, buddy)
    && b < |m|
    && var lower := if b <= buddy then b else buddy;
    u == m[lower := m[lower].(order := m[lower].order + 1)]
  }

  lemma MergeKeeps(sh: Shape, t: seq<Record>, m: seq<Record>, u: seq<Record>, lists: Lists, live: set<Block>, c: Block,
                   l: nat, i: nat)
    requires InHand(sh, t, lists, live, c) && c.order < sh.top && MaxFree(sh.top, live + {c}, c.Buddy())
    requires l < |lists| && i < |lists[l]| && lists[l][i] == c.Buddy().index && t[c.Buddy().index].order == c.order
    requires Merged(t, m, u, c.index, c.Buddy().index) && t[c.index].order == c.order
    ensures InHand(sh, u, Removed(lists, l, i), live, c.Parent())
  {
    hide Files;
    InHandUnlisted(sh, t, lists, live, c);
    Family(sh.top, c);
    ParentInHand(sh.top, live, c);
    MergeFiles(sh, t, m, u, lists, live, c, l, i);
    assert OrdersSet(sh, t, live) by {
      assert forall b <- live :: b in live + {c};
    }
    OrdersKept(sh, t, u, live, c.Parent(), c.Parent());
  }

  lemma MergeFiles(sh: Shape, t: seq<Record>, m: seq<Record>, u: seq<Record>, lists: Lists, live: set<Block>, c: Block,
                   l: nat, i: nat)
    requires Files(sh, t, lists, live + {c}) && InPool(sh.top, c) && c.order < sh.top
    requires c.index < |t| && !t[c.index].inList
    requires Free(live, c.Parent()) && !MaxFree(sh.top, live + {c.Parent()}, c.Buddy())
    requires l < |lists| && i < |lists[l]| && lists[l][i] == c.Buddy().index
    requires c.Buddy().index < |t| && t[c.Buddy().index].order == c.order
    requires Merged(t, m, u, c.index, c.Buddy().index) && t[c.index].order == c.order
    ensures Files(sh, u, Removed(lists, l, i), live + {c.Parent()})
  {
    hide WellLinked, Sorted, ListsAre, WasteMarked;
    Family(sh.top, c);
    forall x {
      SplitMaxFree(sh.top, live, c, x);
    }
    RemoveFiles(sh, t, m, lists, live + {c}, live + {c.Parent()}, l, i, c.Buddy());
    ReorderFiles(sh, m, u, Removed(lists, l, i), live + {c.Parent()});
  }

  lemma ParentInHand(top: nat, live: set<Block>, c: Block)
    requires WellPlaced(top, live + {c}) && Free(live, c) && c.order < top && MaxFree(top, live + {c}, c.Buddy())
    ensures WellPlaced(top, live + {c.Parent()}) && Free(live, c.Parent())
    ensures !MaxFree(top, live + {c.Parent()}, c.Buddy())
  {
    assert c in live + {c};
    Family(top, c);
    forall x | x in live
      ensures !x.Overlaps(c.Parent())
    {
      assert x in live + {c};
      if x.Overlaps(c.Parent()) {
        MeetsParent(top, x, c);
      }
    }
    assert forall x <- live :: x in live + {c};
    assert c.Parent().Overlaps(c.Buddy());
  }

  // ---- Take and put ----

  lemma TakeKeeps(sh: Shape, t: seq<Record>, u: seq<Record>, lists: Lists, live: set<Block>, l: nat, i: nat, e: Block)
    requires Represents(sh, t, lists, live)
    requires l <= sh.top && i < |lists[l]| && lists[l][i] == e.index && e.index < |t| && t[e.index].order == e.order
    requires Unlinked(t, u, e.index)
    ensures l == e.order && e.index < sh.Boundary() && MaxFree(sh.top, live, e)
    ensures InHand(sh, u, Removed(lists, l, i), live, e)
  {
    hide WellLinked;
    ListedIsMaxFree(sh, t, lists, live, l, i);
    forall x {
      GrantMaxFree(sh.top, live, e, x);
    }
    RemoveFiles(sh, t, u, lists, live, live + {e}, l, i, e);
    WellPlacedWith(sh.top, live, e);
  }

  lemma WellPlacedWith(top: nat, live: set<Block>, e: Block)
    requires WellPlaced(top, live) && InPool(top, e) && Free(live, e)
    ensures WellPlaced(top, live + {e})
  {
  }

  lemma PutReady(sh: Shape, t: seq<Record>, lists: Lists, live: set<Block>, c: Block)
    requires InHand(sh, t, lists, live, c)
    ensures c.order <= sh.top && c.index < sh.Boundary() && c.index < |t| && !t[c.index].isWaste && !t[c.index].inList
    ensures sh.Head(c.order) < |t| && t[sh.Head(c.order)].prev < |t| && c.index != t[sh.Head(c.order)].prev
    ensures c.index != sh.Head(c.order)
  {
    InHandUnlisted(sh, t, lists, live, c);
    assert c.Has(c.index);
    MayPush(t, sh.Base(), lists, c.order, c.index);
  }

  lemma PutKeeps(sh: Shape, t: seq<Record>, u: seq<Record>, lists: Lists, live: set<Block>, c: Block)
    requires InHand(sh, t, lists, live, c) && c.order <= sh.top && c.index < |t|
    requires c.order < sh.top ==> !MaxFree(sh.top, live + {c}, c.Buddy())
    requires Pushed(t, u, sh.Head(c.order), c.index)
    ensures c.order < |lists| && Represents(sh, u, Appended(lists, c.order, c.index), live)
  {
    hide WellLinked;
    PutReady(sh, t, lists, live, c);
    assert c in live + {c};
    StopMerging(sh.top, live, c);
    forall x {
      GrantMaxFree(sh.top, live, c, x);
    }
    PushFiles(sh, t, u, lists, live + {c}, live, c);
    assert forall x <- live :: x in live + {c};
  }

  /** The entry before place j of a list, read from the record at place j. */
  lemma PreviousEntry(t: seq<Record>, base: nat, lists: Lists, l: nat, j: nat)
    requires WellLinked(t, base, lists) && l < |lists| && j <= |lists[l]|
    ensures var c := lists[l]; var at := if j == |c| then base + l else c[j];
      at < |t| && t[at].prev == Before(base + l, c, j)
      && (j > 0 ==> c[j - 1] < base && t[at].prev != base + l)
  {
    var c := lists[l];
    assert Ring(t, base + l, c);
    if j < |c| {
      assert t[c[j]].prev == Before(base + l, c, j);
    }
  }

  // ---- What a request may be given ----

  /** A listed block large enough for the order and that passes the waste test. */
  ghost predicate Suitable(sh: Shape, live: set<Block>, order: nat, p: nat, m: Block) {
    && MaxFree(sh.top, live, m) && order <= m.order && m.index < sh.Boundary()
    && !sh.Fails(m.index, p)
  }

  lemma SuitableIsFree(sh: Shape, live: set<Block>, order: nat, p: nat, m: Block)
    requires Suitable(sh, live, order, p, m)
    ensures MaxFree(sh.top, live, m) && m.index < sh.Boundary() && order <= m.order
  {
  }

  /** b is on the list and every entry pushed after it fails the waste test. */
  ghost predicate Newest(sh: Shape, c: seq<nat>, p: nat, b: nat) {
    exists i :: 0 <= i < |c| && c[i] == b && forall j :: i < j < |c| ==> sh.Fails(c[j], p)
  }

  lemma FitsPool(sh: Shape, m: Block, order: nat, p: nat)
    requires InPool(sh.top, m) && order <= m.order && p <= Pow2(order)
    ensures m.index + p <= sh.Indices()
  {
    Pow2Order(m.order, order);
  }

  /** What one look at entry i of a free list finds. */
  lemma LookAt(sh: Shape, t: seq<Record>, lists: Lists, live: set<Block>, a: nat, i: nat, p: nat)
    requires Files(sh, t, lists, live) && a <= sh.top && i < |lists[a]| && p <= Pow2(a)
    ensures var n := lists[a][i] + p; n < |t| && (n > 0 && t[n - 1].isWaste <==> sh.Fails(lists[a][i], p))
  {
    var b := lists[a][i];
    ListedIsMaxFree(sh, t, lists, live, a, i);
    FitsPool(sh, Block(b, t[b].order), a, p);
  }

  /** A list whose every block fails the waste test has no suitable block of its order. */
  lemma NoneSuitable(sh: Shape, t: seq<Record>, lists: Lists, live: set<Block>, order: nat, p: nat, a: nat)
    requires Files(sh, t, lists, live) && a <= sh.top
    requires forall k :: 0 <= k < |lists[a]| ==> sh.Fails(lists[a][k], p)
    ensures forall x :: Suitable(sh, live, order, p, x) ==> x.order != a
  {
    forall x | Suitable(sh, live, order, p, x)
      ensures x.order != a
    {
      var l, i := MaxFreeHasPlace(sh, t, lists, live, x);
    }
  }

  lemma SuitableOrders(sh: Shape, live: set<Block>, order: nat, p: nat)
    ensures forall x :: Suitable(sh, live, order, p, x) ==> order <= x.order
  {
  }

  lemma NoneAboveTop(sh: Shape, live: set<Block>, order: nat, p: nat)
    requires forall x :: Suitable(sh, live, order, p, x) ==> sh.top + 1 <= x.order
    ensures forall x :: !Suitable(sh, live, order, p, x)
  {
  }

  lemma FilesShape(sh: Shape, t: seq<Record>, lists: Lists, live: set<Block>)
    requires Files(sh, t, lists, live)
    ensures |lists| == sh.top + 2 && |t| == sh.Base() + |lists|
  {
  }

  /** The entry a scan stops at is a suitable block, ready to come off its list. */
  lemma ChosenEntry(sh: Shape, t: seq<Record>, lists: Lists, live: set<Block>, a: nat, i: nat, order: nat, p: nat)
    requires Files(sh, t, lists, live) && order <= a <= sh.top && i < |lists[a]|
    requires !sh.Fails(lists[a][i], p)
    requires forall j :: i < j < |lists[a]| ==> sh.Fails(lists[a][j], p)
    ensures var b := lists[a][i];
      && b < |t| && t[b].order == a && Suitable(sh, live, order, p, Block(b, a)) && Newest(sh, lists[a], p, b)
      && t[b].prev < |t| && t[b].next < |t| && b != t[b].prev && b != t[b].next
  {
    hide WellLinked;
    ListedIsMaxFree(sh, t, lists, live, a, i);
    MayRemove(t, sh.Base(), lists, a, i);
  }

  // ---- The cached bound ----

  /** The highest order with a block on its free list, or 0 when all lists are empty. */
  ghost predicate Tight(sh: Shape, live: set<Block>, bound: nat) {
    && bound <= sh.top
    && (forall x :: MaxFree(sh.top, live, x) && x.index < sh.Boundary() ==> x.order <= bound)
    && (bound == 0 || exists x :: MaxFree(sh.top, live, x) && x.index < sh.Boundary() && x.order == bound)
  }

  /** While c shrinks to m by splitting, free blocks appear only below c's order. */
  ghost predicate Shrunk(sh: Shape, live: set<Block>, c: Block, m: Block) {
    forall x :: MaxFree(sh.top, live + {m}, x) ==> MaxFree(sh.top, live + {c}, x) || x.order < c.order
  }

  lemma ShrunkFromStart(sh: Shape, live: set<Block>, c: Block)
    ensures Shrunk(sh, live, c, c)
  {
  }

  lemma ShrunkBySplit(sh: Shape, live: set<Block>, c: Block, m: Block)
    requires Shrunk(sh, live, c, m) && InPool(sh.top, m) && 0 < m.order <= c.order && Free(live, m)
    ensures Shrunk(sh, live, c, m.LeftHalf())
  {
    Halves(sh.top, m);
    forall x {
      SplitMaxFree(sh.top, live, m.LeftHalf(), x);
    }
  }

  ghost predicate Below(sh: Shape, live: set<Block>, bound: nat) {
    forall x :: MaxFree(sh.top, live, x) && x.index < sh.Boundary() ==> x.order <= bound
  }

  lemma BelowAfterGrant(sh: Shape, live: set<Block>, c: Block, m: Block, bound: nat)
    requires Tight(sh, live, bound) && MaxFree(sh.top, live, c) && c.index < sh.Boundary() && Shrunk(sh, live, c, m)
    ensures bound <= sh.top && Below(sh, live + {m}, bound)
  {
    forall x {
      GrantMaxFree(sh.top, live, c, x);
    }
  }

  /** An empty free list lets the bound drop; any other makes it tight. */
  lemma BoundFromList(sh: Shape, t: seq<Record>, lists: Lists, live: set<Block>, bound: nat)
    requires Files(sh, t, lists, live) && bound <= sh.top && Below(sh, live, bound)
    ensures sh.Head(bound) < |t|
    ensures bound > 0 && t[sh.Head(bound)].prev == sh.Head(bound) ==> Below(sh, live, bound - 1)
    ensures bound == 0 || t[sh.Head(bound)].prev != sh.Head(bound) ==> Tight(sh, live, bound)
  {
    hide WellLinked, MaxFree;
    EmptyList(t, sh.Base(), lists, bound);
    if lists[bound] == [] {
      forall x | MaxFree(sh.top, live, x) && x.index < sh.Boundary()
        ensures x.order != bound
      {
        var l, i := MaxFreeHasPlace(sh, t, lists, live, x);
      }
    } else {
      ListedIsMaxFree(sh, t, lists, live, bound, 0);
      var x := lists[bound][0];
      assert MaxFree(sh.top, live, Block(x, t[x].order));
      assert x < sh.Boundary() && t[x].order == bound by {
        assert bound == HomeList(sh, x, t[x].order);
      }
    }
  }

  /** While c grows to m by merging, free blocks disappear only below m's order. */
  ghost predicate Grown(sh: Shape, live: set<Block>, c: Block, m: Block) {
    && (forall x :: MaxFree(sh.top, live + {m}, x) ==> MaxFree(sh.top, live + {c}, x))
    && (forall x :: MaxFree(sh.top, live + {c}, x) ==> MaxFree(sh.top, live + {m}, x) || x.order < m.order)
  }

  lemma GrownFromStart(sh: Shape, live: set<Block>, c: Block)
    ensures Grown(sh, live, c, c)
  {
  }

  lemma GrownByMerge(sh: Shape, live: set<Block>, c: Block, m: Block)
    requires Grown(sh, live, c, m) && InPool(sh.top, m) && m.order < sh.top && Free(live, m.Parent())
    ensures Grown(sh, live, c, m.Parent())
  {
    forall x {
      SplitMaxFree(sh.top, live, m, x);
    }
  }

  lemma TightAfterFree(sh: Shape, live: set<Block>, c: Block, m: Block, bound: nat)
    requires Tight(sh, live + {c}, bound) && Grown(sh, live, c, m)
    requires MaxFree(sh.top, live, m) && m.index < sh.Boundary()
    ensures Tight(sh, live, if bound > m.order then bound else m.order)
  {
    forall x {
      GrantMaxFree(sh.top, live, m, x);
    }
    if bound > m.order {
      var w :| MaxFree(sh.top, live + {c}, w) && w.index < sh.Boundary() && w.order == bound;
      assert MaxFree(sh.top, live, w);
    } else {
      assert MaxFree(sh.top, live, m);
    }
  }
}
