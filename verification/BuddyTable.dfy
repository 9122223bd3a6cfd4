/** How the allocator's record table represents a set of live blocks: each maximal free block
    is linked on the list of its order, or on the waste list when it starts past the waste
    boundary. The lemmas show that one push or one removal moves the table from one live set
    to the next. */
module BuddyTable {
  import opened Powers
  import opened BuddySpec
  import opened BlockLists

  /** A pool of 2^top page indices, of which the first `pages` exist and `total` have a record
      in the original table. */
  datatype Shape = Shape(top: nat, pages: nat, total: nat) {
    function Indices(): nat {
      Pow2(top)
    }

    /** Records 0..Indices() are blocks, the last a sentinel; then the list heads. */
    function Base(): nat {
      Indices() + 1
    }

    function Head(l: nat): nat {
      Base() + l
    }

    function WasteList(): nat {
      top + 1
    }

    /** The first index marked as waste. */
    function Boundary(): int {
      2 * pages - Indices()
    }

    predicate Waste(i: nat) {
      Boundary() <= i < total
    }

    /** The waste test for a block at b: the record of its p-th page is marked. A request whose
        page count wrapped to zero looks one record back, and before block 0 at cleared memory. */
    predicate Fails(b: nat, p: nat) {
      b + p > 0 && Waste(b + p - 1)
    }

    predicate Valid() {
      && 0 < top <= 16
      && pages <= total <= Indices() < 2 * total
      && Boundary() > 0
    }
  }

  predicate Listed(sh: Shape, t: seq<Record>, b: Block) {
    b.index < sh.Indices() && b.index < |t| && t[b.index].inList && t[b.index].order == b.order
  }

  /** Where a block starting at x with the given order belongs. */
  function HomeList(sh: Shape, x: nat, order: nat): nat {
    if x < sh.Boundary() then order else sh.WasteList()
  }

  ghost predicate Sorted(sh: Shape, t: seq<Record>, lists: Lists) {
    forall l, i | 0 <= l < |lists| && 0 <= i < |lists[l]| ::
      var x := lists[l][i];
      x < sh.Indices() && x < |t| && l == HomeList(sh, x, t[x].order)
  }

  ghost predicate OrdersSet(sh: Shape, t: seq<Record>, live: set<Block>) {
    forall b <- live :: b.index < |t| && b.index < sh.Boundary() && t[b.index].order == b.order
  }

  ghost predicate ListsAre(sh: Shape, t: seq<Record>, live: set<Block>) {
    forall b: Block :: Listed(sh, t, b) <==> MaxFree(sh.top, live, b)
  }

  ghost predicate WasteMarked(sh: Shape, t: seq<Record>) {
    sh.Base() <= |t| && forall i | 0 <= i < sh.Base() :: t[i].isWaste <==> sh.Waste(i)
  }

  /** The lists hold exactly the blocks that live leaves free. */
  ghost predicate Files(sh: Shape, t: seq<Record>, lists: Lists, live: set<Block>) {
    && sh.Valid()
    && |lists| == sh.top + 2
    && |t| == sh.Base() + |lists|
    && WellLinked(t, sh.Base(), lists)
    && Sorted(sh, t, lists)
    && WasteMarked(sh, t)
    && ListsAre(sh, t, live)
  }

  ghost predicate Represents(sh: Shape, t: seq<Record>, lists: Lists, live: set<Block>) {
    && Files(sh, t, lists, live)
    && WellPlaced(sh.top, live)
    && OrdersSet(sh, t, live)
  }

  /** No free block starts inside a live one. */
  lemma LiveNotListed(sh: Shape, t: seq<Record>, lists: Lists, live: set<Block>, c: Block, x: nat)
    requires Files(sh, t, lists, live) && c in live && InPool(sh.top, c) && c.Has(x)
    ensures x < sh.Indices() && !t[x].inList
  {
    var b := Block(x, t[x].order);
    assert c.Overlaps(b);
    assert !MaxFree(sh.top, live, b);
    assert !Listed(sh, t, b);
  }

  /** Only blocks ahead of the boundary are split, so a new right half has a record, and its
      waste mark tells on which side of the boundary it starts. */
  lemma RightHalfHasRecord(sh: Shape, b: Block)
    requires sh.Valid() && InPool(sh.top, b) && b.order > 0 && b.index < sh.Boundary()
    ensures b.RightHalf().index < sh.total
    ensures sh.Waste(b.RightHalf().index) <==> sh.Boundary() <= b.RightHalf().index
  {
  }

  // ---- A new order ----

  /** Only the orders of records on no list differ. */
  ghost predicate Reordered(t: seq<Record>, u: seq<Record>) {
    && |t| == |u|
    && forall i | 0 <= i < |t| :: u[i] == t[i] || (!t[i].inList && u[i] == t[i].(order := u[i].order))
  }

  /** The order of a record on no list is of no account to the lists. */
  lemma ReorderFiles(sh: Shape, t: seq<Record>, u: seq<Record>, lists: Lists, live: set<Block>)
    requires Files(sh, t, lists, live) && Reordered(t, u)
    ensures Files(sh, u, lists, live)
  {
    forall l | 0 <= l < |lists|
      ensures Ring(u, sh.Base() + l, lists[l])
    {
      SameRing(t, u, sh.Base() + l, lists[l]);
    }
    forall l, i | 0 <= l < |lists| && 0 <= i < |lists[l]|
      ensures u[lists[l][i]] == t[lists[l][i]]
    {
      assert Linked(lists, lists[l][i]);
    }
    forall b: Block
      ensures Listed(sh, u, b) <==> Listed(sh, t, b)
    {
    }
  }

  lemma SameRing(t: seq<Record>, u: seq<Record>, head: nat, c: seq<nat>)
    requires Ring(t, head, c) && |t| == |u|
    requires forall i | 0 <= i < |t| :: u[i].prev == t[i].prev && u[i].next == t[i].next
    ensures Ring(u, head, c)
  {
    forall i | 0 <= i < |c|
      ensures u[c[i]].next == After(head, c, i) && u[c[i]].prev == Before(head, c, i)
    {
      assert t[c[i]].next == After(head, c, i) && t[c[i]].prev == Before(head, c, i);
    }
  }

  // ---- A push ----

  /** Linking a maximal free block where it belongs: from `before` live to `after` live. */
  lemma PushFiles(sh: Shape, t: seq<Record>, u: seq<Record>, lists: Lists, before: set<Block>, after: set<Block>,
                  e: Block)
    requires Files(sh, t, lists, before)
    requires e.index < sh.Indices() && !t[e.index].inList && t[e.index].order == e.order <= sh.top
    requires Pushed(t, u, sh.Head(HomeList(sh, e.index, e.order)), e.index)
    requires forall x :: MaxFree(sh.top, after, x) <==> MaxFree(sh.top, before, x) || x == e
    ensures Files(sh, u, Appended(lists, HomeList(sh, e.index, e.order), e.index), after)
  {
    var l := HomeList(sh, e.index, e.order);
    PushKeeps(t, u, sh.Base(), lists, l, e.index);
    SortedAfterPush(sh, t, u, lists, e);
    ListsAfterPush(sh, t, u, before, after, e);
    WasteKept(sh, t, u);
  }

  lemma SortedAfterPush(sh: Shape, t: seq<Record>, u: seq<Record>, lists: Lists, e: Block)
    requires Sorted(sh, t, lists) && SameBlocks(t, u)
    requires e.index < sh.Indices() && e.index < |t| && t[e.index].order == e.order
    requires HomeList(sh, e.index, e.order) < |lists|
    ensures Sorted(sh, u, Appended(lists, HomeList(sh, e.index, e.order), e.index))
  {
    var l := HomeList(sh, e.index, e.order);
    var next := Appended(lists, l, e.index);
    forall m, j | 0 <= m < |next| && 0 <= j < |next[m]|
      ensures var x := next[m][j]; x < sh.Indices() && x < |u| && m == HomeList(sh, x, u[x].order)
    {
      if m != l || j < |lists[l]| {
        assert next[m][j] == lists[m][j];
      }
    }
  }

  lemma ListsAfterPush(sh: Shape, t: seq<Record>, u: seq<Record>, before: set<Block>, after: set<Block>, e: Block)
    requires ListsAre(sh, t, before) && SameBlocks(t, u)
    requires e.index < sh.Indices() && e.index < |t| && !t[e.index].inList && t[e.index].order == e.order
    requires u[e.index].inList && forall i | 0 <= i < |t| && i != e.index :: u[i].inList == t[i].inList
    requires forall x :: MaxFree(sh.top, after, x) <==> MaxFree(sh.top, before, x) || x == e
    ensures ListsAre(sh, u, after)
  {
    forall b: Block
      ensures Listed(sh, u, b) <==> MaxFree(sh.top, after, b)
    {
      assert Listed(sh, t, b) <==> MaxFree(sh.top, before, b);
    }
  }

  lemma WasteKept(sh: Shape, t: seq<Record>, u: seq<Record>)
    requires WasteMarked(sh, t) && SameBlocks(t, u)
    ensures WasteMarked(sh, u)
  {
  }

  // ---- A removal ----

  lemma RemoveFiles(sh: Shape, t: seq<Record>, u: seq<Record>, lists: Lists, before: set<Block>, after: set<Block>,
                    l: nat, i: nat, e: Block)
    requires Files(sh, t, lists, before)
    requires l < |lists| && i < |lists[l]| && lists[l][i] == e.index && t[e.index].order == e.order
    requires Unlinked(t, u, e.index)
    requires forall x :: MaxFree(sh.top, after, x) <==> MaxFree(sh.top, before, x) && x != e
    ensures Files(sh, u, Removed(lists, l, i), after)
  {
    RemoveKeeps(t, u, sh.Base(), lists, l, i);
    SortedAfterRemove(sh, t, u, lists, l, i);
    ListsAfterRemove(sh, t, u, before, after, e);
    WasteKept(sh, t, u);
  }

  lemma ListsAfterRemove(sh: Shape, t: seq<Record>, u: seq<Record>, before: set<Block>, after: set<Block>, e: Block)
    requires ListsAre(sh, t, before) && SameBlocks(t, u)
    requires e.index < |t| && t[e.index].order == e.order
    requires !u[e.index].inList && forall i | 0 <= i < |t| && i != e.index :: u[i].inList == t[i].inList
    requires forall x :: MaxFree(sh.top, after, x) <==> MaxFree(sh.top, before, x) && x != e
    ensures ListsAre(sh, u, after)
  {
    forall b: Block
      ensures Listed(sh, u, b) <==> MaxFree(sh.top, after, b)
    {
      assert Listed(sh, t, b) <==> MaxFree(sh.top, before, b);
    }
  }

  lemma SortedAfterRemove(sh: Shape, t: seq<Record>, u: seq<Record>, lists: Lists, l: nat, i: nat)
    requires Sorted(sh, t, lists) && l < |lists| && i < |lists[l]| && SameBlocks(t, u)
    ensures Sorted(sh, u, Removed(lists, l, i))
  {
    var next := Removed(lists, l, i);
    forall m, j | 0 <= m < |next| && 0 <= j < |next[m]|
      ensures var x := next[m][j]; x < sh.Indices() && x < |u| && m == HomeList(sh, x, u[x].order)
    {
      assert next[m][j] == lists[m][if m == l && j >= i then j + 1 else j];
    }
  }

  /** A record on a list stands for a maximal free block; every such block has its place. */
  lemma ListedIsMaxFree(sh: Shape, t: seq<Record>, lists: Lists, live: set<Block>, l: nat, i: nat)
    requires Files(sh, t, lists, live) && l < |lists| && i < |lists[l]|
    ensures var x := lists[l][i];
      x < sh.Indices() && MaxFree(sh.top, live, Block(x, t[x].order)) && l == HomeList(sh, x, t[x].order)
  {
    var x := lists[l][i];
    assert Linked(lists, x);
    assert Listed(sh, t, Block(x, t[x].order));
  }

  lemma MaxFreeHasPlace(sh: Shape, t: seq<Record>, lists: Lists, live: set<Block>, b: Block) returns (l: nat, i: nat)
    requires Files(sh, t, lists, live) && MaxFree(sh.top, live, b)
    ensures l < |lists| && i < |lists[l]| && lists[l][i] == b.index && l == HomeList(sh, b.index, b.order)
    ensures b.index < sh.Indices() && t[b.index].order == b.order && t[b.index].inList
  {
    assert Listed(sh, t, b);
    assert Linked(lists, b.index);
    l, i :| 0 <= l < |lists| && 0 <= i < |lists[l]| && lists[l][i] == b.index;
  }
}
