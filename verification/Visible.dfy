/** The visible part of a window: its content area less every window in front of it. */
module Visible {
  import opened Rects
  import opened Merging

  const BORDER_PX := 2
  const BORDER_TOP_PX := 25

  /** A window of the stack; the stack is a ring in front-to-back order. */
  class Window {
    var rect: Rect
    var fullscreen: bool
    const visible: RectArray
    var next: Window?
    var prev: Window?

    constructor (rect: Rect, fullscreen: bool)
      ensures this.rect == rect && this.fullscreen == fullscreen && fresh(visible) && fresh(visible.rects)
      ensures visible.Valid()
    {
      this.rect := rect;
      this.fullscreen := fullscreen;
      visible := new RectArray();
      next, prev := null, null;
    }

    /** Where the window draws its own content. */
    function ContentArea(): Rect
      reads this
    {
      if fullscreen then rect else rect.(x := rect.x + BORDER_PX, y := rect.y + BORDER_TOP_PX)
    }

    /** What the window hides of others, decorations included. */
    function OuterArea(): Rect
      reads this
    {
      if fullscreen then rect else rect.(w := rect.w + 2 * BORDER_PX, h := rect.h + BORDER_TOP_PX + BORDER_PX)
    }
  }

  // ---- Clipping, as a function of the occluding rectangles ----

  function SubtractAll(s: seq<Rect>, b: Rect): seq<Rect> {
    if s == [] then [] else SubtractAll(s[..|s| - 1], b) + Subtract(s[|s| - 1], b)
  }

  /** The rectangles left after each occluder in turn, never more than the buffer holds. */
  function Clipped(area: Rect, occluders: seq<Rect>): seq<Rect> {
    if occluders == [] then [area]
    else Capped(SubtractAll(Clipped(area, occluders[..|occluders| - 1]), occluders[|occluders| - 1]))
  }

  /** No piece was dropped for want of room. */
  ghost predicate NeverCapped(area: Rect, occluders: seq<Rect>) {
    forall k | 0 <= k < |occluders| ::
      |SubtractAll(Clipped(area, occluders[..k]), occluders[k])| <= MAX_VISIBLE_RECTS
  }

  ghost predicate InDifference(area: Rect, occluders: seq<Rect>, px: int, py: int) {
    area.Covers(px, py) && forall o <- occluders :: !o.Covers(px, py)
  }

  lemma {:induction false} SubtractAllExact(s: seq<Rect>, b: Rect)
    requires PairwiseApart(s) && AllSized(s) && b.Sized()
    ensures PairwiseApart(SubtractAll(s, b)) && AllSized(SubtractAll(s, b))
    ensures forall px, py :: Union(SubtractAll(s, b), px, py) <==> Union(s, px, py) && !b.Covers(px, py)
  {
    if s != [] {
      var front, last := s[..|s| - 1], s[|s| - 1];
      SubtractAllExact(front, b);
      SubtractExact(last, b);
      assert s == front + [last];
      forall px, py
        ensures Union(s, px, py) <==> Union(front, px, py) || last.Covers(px, py)
        ensures Union(front, px, py) ==> !last.Covers(px, py)
      {
        UnionPut(front, last, px, py);
        if i :| 0 <= i < |front| && front[i].Covers(px, py) {
          assert Apart(s[i], s[|s| - 1]);
        }
      }
      AppendApart(SubtractAll(front, b), Subtract(last, b));
    }
  }

  lemma AppendApart(s: seq<Rect>, t: seq<Rect>)
    requires PairwiseApart(s) && PairwiseApart(t)
    requires forall px, py :: Union(s, px, py) ==> !Union(t, px, py)
    ensures PairwiseApart(s + t)
    ensures forall px, py :: Union(s + t, px, py) <==> Union(s, px, py) || Union(t, px, py)
  {
    forall i, j | 0 <= i < |s| && 0 <= j < |t|
      ensures Apart(s[i], t[j])
    {
      assert forall px, py :: s[i].Covers(px, py) ==> Union(s, px, py);
      assert forall px, py :: t[j].Covers(px, py) ==> Union(t, px, py);
    }
    forall px, py
      ensures Union(s + t, px, py) <==> Union(s, px, py) || Union(t, px, py)
    {
      UnionAppend(s, t, px, py);
    }
  }

  lemma UnionAppend(s: seq<Rect>, t: seq<Rect>, px: int, py: int)
    ensures Union(s + t, px, py) <==> Union(s, px, py) || Union(t, px, py)
  {
    if i :| 0 <= i < |s| && s[i].Covers(px, py) {
      assert (s + t)[i].Covers(px, py);
    }
    if i :| 0 <= i < |t| && t[i].Covers(px, py) {
      assert (s + t)[|s| + i].Covers(px, py);
    }
  }

  lemma CappedWithin(s: seq<Rect>)
    requires PairwiseApart(s) && AllSized(s)
    ensures PairwiseApart(Capped(s)) && AllSized(Capped(s))
    ensures forall px, py :: Union(Capped(s), px, py) ==> Union(s, px, py)
  {
    forall px, py | Union(Capped(s), px, py)
      ensures Union(s, px, py)
    {
      var i :| 0 <= i < |Capped(s)| && Capped(s)[i].Covers(px, py);
      assert s[i].Covers(px, py);
    }
  }

  /** The clipped rectangles are apart and inside the difference; they fill it unless a piece was dropped. */
  lemma {:induction false} ClippedExact(area: Rect, occluders: seq<Rect>)
    requires area.Sized() && AllSized(occluders)
    ensures PairwiseApart(Clipped(area, occluders)) && AllSized(Clipped(area, occluders))
    ensures forall px, py :: Union(Clipped(area, occluders), px, py) ==> InDifference(area, occluders, px, py)
    ensures NeverCapped(area, occluders) ==>
              forall px, py :: InDifference(area, occluders, px, py) ==> Union(Clipped(area, occluders), px, py)
  {
    if occluders == [] {
      forall px, py
        ensures Union([area], px, py) <==> area.Covers(px, py)
      {
        assert [area][0] == area;
      }
    } else {
      var n := |occluders| - 1;
      var front, last := occluders[..n], occluders[n];
      assert occluders == front + [last];
      ClippedExact(area, front);
      var pieces := SubtractAll(Clipped(area, front), last);
      SubtractAllExact(Clipped(area, front), last);
      CappedWithin(pieces);
      assert forall px, py :: InDifference(area, occluders, px, py) <==>
                                InDifference(area, front, px, py) && !last.Covers(px, py);
      if NeverCapped(area, occluders) {
        assert Capped(pieces) == pieces;
        forall k | 0 <= k < n
          ensures |SubtractAll(Clipped(area, front[..k]), front[k])| <= MAX_VISIBLE_RECTS
        {
          assert front[..k] == occluders[..k];
        }
      }
    }
  }

  lemma {:induction false} NothingLeft(area: Rect, occluders: seq<Rect>, k: nat)
    requires k <= |occluders| && Clipped(area, occluders[..k]) == []
    ensures Clipped(area, occluders) == []
    decreases |occluders| - k
  {
    if k < |occluders| {
      assert occluders[..k + 1][..k] == occluders[..k];
      NothingLeft(area, occluders, k + 1);
    } else {
      assert occluders[..k] == occluders;
    }
  }

  // ---- Clipping in place ----

  lemma CappedAppend(s: seq<Rect>, r: Rect)
    ensures Capped(Capped(s) + [r]) == Capped(s + [r])
  {
  }

  method AppendPieces(arr: RectArray, pieces: seq<Rect>)
    requires arr.Valid()
    modifies arr, arr.rects
    ensures arr.Valid() && arr.Contents() == Capped(old(arr.Contents()) + pieces)
  {
    ghost var s := arr.Contents();
    assert s + pieces[..0] == s;
    for k := 0 to |pieces|
      invariant arr.Valid() && arr.Contents() == Capped(s + pieces[..k])
    {
      arr.Append(pieces[k]);
      CappedAppend(s + pieces[..k], pieces[k]);
      assert s + pieces[..k] + [pieces[k]] == s + pieces[..k + 1];
    }
    assert pieces[..|pieces|] == pieces;
  }

  lemma CappedAppendAll(s: seq<Rect>, t: seq<Rect>)
    ensures Capped(Capped(s) + t) == Capped(s + t)
  {
  }

  /** One turn of the occlusion loop: every visible rectangle loses b, pieces past the end of
      the buffer are dropped. */
  method ClipBy(arr: RectArray, b: Rect)
    requires arr.Valid()
    modifies arr, arr.rects
    ensures arr.Valid() && arr.Contents() == Capped(SubtractAll(old(arr.Contents()), b))
  {
    hide Subtract;
    var newVisible := new RectArray();
    ghost var s := arr.Contents();
    for j := 0 to arr.count
      invariant arr.Valid() && arr.Contents() == s && fresh(newVisible) && fresh(newVisible.rects)
      invariant newVisible.Valid() && newVisible.Contents() == Capped(SubtractAll(s[..j], b))
    {
      assert s[..j + 1][..j] == s[..j] && s[j] == arr.rects[j];
      CappedAppendAll(SubtractAll(s[..j], b), Subtract(s[j], b));
      AppendPieces(newVisible, Subtract(arr.rects[j], b));
    }
    assert s[..|s|] == s;
    arr.Assign(newVisible);
  }

  // ---- The 65-pixel workaround ----

  /** At unit scale: a height of 32 n + 1 above 32. */
  predicate IsProblematicHeight(h: int) {
    h > 32 && h % 32 == 1
  }

  function Upper(r: Rect): Rect {
    Rect(r.x, r.y, r.w, r.h / 2 - 1)
  }

  function Lower(r: Rect): Rect {
    Rect(r.x, r.y + (r.h / 2 - 1), r.w, r.h - (r.h / 2 - 1))
  }

  function Parts(r: Rect): seq<Rect> {
    if IsProblematicHeight(r.h) then [Upper(r), Lower(r)] else [r]
  }

  /** Each problematic rectangle replaced by its two parts. */
  function SplitAll(s: seq<Rect>): seq<Rect> {
    if s == [] then [] else SplitAll(s[..|s| - 1]) + Parts(s[|s| - 1])
  }

  /** A rectangle that needs splitting comes when the parts before it have filled the buffer. */
  predicate Overflows(s: seq<Rect>) {
    exists i | 0 <= i < |s| :: IsProblematicHeight(s[i].h) && |SplitAll(s[..i])| >= MAX_VISIBLE_RECTS
  }

  predicate NoProblems(s: seq<Rect>) {
    forall i | 0 <= i < |s| :: !IsProblematicHeight(s[i].h)
  }

  /** Neither part of a split rectangle needs splitting again, and together they are the whole. */
  lemma PartsExact(r: Rect)
    requires r.Sized() && IsProblematicHeight(r.h)
    ensures !IsProblematicHeight(Upper(r).h) && !IsProblematicHeight(Lower(r).h)
    ensures Upper(r).Sized() && Lower(r).Sized() && Apart(Upper(r), Lower(r))
    ensures forall px, py :: r.Covers(px, py) <==> Upper(r).Covers(px, py) || Lower(r).Covers(px, py)
  {
  }

  /** Splitting keeps the pixels and leaves nothing to split. */
  lemma {:induction false} SplitAllExact(s: seq<Rect>)
    requires PairwiseApart(s) && AllSized(s)
    ensures PairwiseApart(SplitAll(s)) && AllSized(SplitAll(s)) && SamePixels(s, SplitAll(s))
    ensures NoProblems(SplitAll(s)) && |SplitAll(s)| >= |s|
    ensures NoProblems(s) <==> SplitAll(s) == s
  {
    if s != [] {
      var front, last := s[..|s| - 1], s[|s| - 1];
      assert s == front + [last];
      SplitAllExact(front);
      var parts := Parts(last);
      PartsOf(last, parts);
      forall px, py
        ensures Union(s, px, py) <==> Union(front, px, py) || last.Covers(px, py)
        ensures Union(front, px, py) ==> !last.Covers(px, py)
      {
        UnionPut(front, last, px, py);
        if i :| 0 <= i < |front| && front[i].Covers(px, py) {
          assert Apart(s[i], s[|s| - 1]);
        }
      }
      AppendApart(SplitAll(front), parts);
      assert SplitAll(s) == SplitAll(front) + parts;
      if NoProblems(s) {
        assert NoProblems(front);
      }
    }
  }

  lemma PartsOf(r: Rect, parts: seq<Rect>)
    requires r.Sized() && parts == Parts(r)
    ensures PairwiseApart(parts) && AllSized(parts) && NoProblems(parts)
    ensures forall px, py :: Union(parts, px, py) <==> r.Covers(px, py)
  {
    if IsProblematicHeight(r.h) {
      PartsExact(r);
      forall px, py
        ensures Union(parts, px, py) <==> r.Covers(px, py)
      {
        assert parts[0] == Upper(r) && parts[1] == Lower(r);
      }
    } else {
      forall px, py
        ensures Union(parts, px, py) <==> r.Covers(px, py)
      {
        assert parts[0] == r;
      }
    }
  }

  /** ppa_workaround_split_rects. The first half is stored without a capacity check, which in a
      full buffer would write past its end: the model stops there with overflow set. */
  method SplitRects(visible: RectArray) returns (split: bool, overflow: bool)
    requires visible.Valid()
    modifies visible, visible.rects
    ensures visible.Valid()
    ensures overflow <==> Overflows(old(visible.Contents()))
    ensures overflow ==> visible.Contents() == old(visible.Contents())
    ensures !overflow ==> visible.Contents() == Capped(SplitAll(old(visible.Contents())))
    ensures !overflow ==> (split <==> !NoProblems(old(visible.Contents())))
  {
    hide Parts, Capped, SplitAll, IsProblematicHeight;
    var newVisible := new RectArray();
    ghost var s := visible.Contents();
    split, overflow := false, false;
    SplitNone(s);
    for i := 0 to visible.count
      invariant visible.Valid() && visible.Contents() == s && fresh(newVisible) && fresh(newVisible.rects)
      invariant newVisible.Valid() && newVisible.Contents() == Capped(SplitAll(s[..i])) && !overflow
      invariant split <==> !NoProblems(s[..i])
      invariant forall j | 0 <= j < i :: !(IsProblematicHeight(s[j].h) && |SplitAll(s[..j])| >= MAX_VISIBLE_RECTS)
    {
      assert s[..i + 1][..i] == s[..i] && s[..i + 1][i] == s[i] == visible.rects[i];
      SplitNext(s, i);
      CappedAppendAll(SplitAll(s[..i]), Parts(s[i]));
      CappedFull(SplitAll(s[..i]));
      var again;
      again, overflow := AppendParts(newVisible, visible.rects[i]);
      if overflow {
        return;
      }
      split := split || again;
    }
    assert s[..|s|] == s;
    visible.Assign(newVisible);
  }

  lemma SplitNone(s: seq<Rect>)
    ensures Capped(SplitAll(s[..0])) == [] && NoProblems(s[..0])
  {
  }

  lemma SplitNext(s: seq<Rect>, i: nat)
    requires i < |s|
    ensures SplitAll(s[..i + 1]) == SplitAll(s[..i]) + Parts(s[i])
  {
    assert s[..i + 1][..i] == s[..i];
  }

  lemma CappedFull(s: seq<Rect>)
    ensures |Capped(s)| == MAX_VISIBLE_RECTS <==> |s| >= MAX_VISIBLE_RECTS
  {
  }

  method AppendParts(arr: RectArray, rect: Rect) returns (split: bool, overflow: bool)
    requires arr.Valid()
    modifies arr, arr.rects
    ensures arr.Valid() && split == IsProblematicHeight(rect.h)
    ensures overflow <==> split && old(arr.count) == MAX_VISIBLE_RECTS
    ensures !overflow ==> arr.Contents() == Capped(old(arr.Contents()) + Parts(rect))
  {
    split, overflow := false, false;
    if IsProblematicHeight(rect.h) {
      split := true;
      var firstHalf := rect.h / 2 - 1;
      if arr.count == MAX_VISIBLE_RECTS {
        overflow := true;
        return;
      }
      arr.Append(Rect(rect.x, rect.y, rect.w, firstHalf));
      arr.Append(Rect(rect.x, rect.y + firstHalf, rect.w, rect.h - firstHalf));
    } else {
      arr.Append(rect);
    }
  }

  lemma {:induction false} SplitGrows(s: seq<Rect>, i: nat)
    requires i <= |s|
    ensures |SplitAll(s[..i])| <= |SplitAll(s)|
    decreases |s|
  {
    if i < |s| {
      assert s[..|s| - 1][..i] == s[..i];
      SplitGrows(s[..|s| - 1], i);
    } else {
      assert s[..i] == s;
    }
  }

  /** Overflow takes more parts than the buffer holds; with nothing to split there is none. */
  lemma OverflowNeedsParts(s: seq<Rect>)
    requires Overflows(s)
    ensures |SplitAll(s)| > MAX_VISIBLE_RECTS && !NoProblems(s)
  {
    hide SplitAll;
    var i :| 0 <= i < |s| && IsProblematicHeight(s[i].h) && |SplitAll(s[..i])| >= MAX_VISIBLE_RECTS;
    SplitNext(s, i);
    SplitGrows(s, i + 1);
  }

  // ---- window_calculate_visible_regions ----

  /** The ring of windows from the head of the stack, front to back. */
  ghost predicate Ring(head: Window, ring: seq<Window>)
    reads ring
  {
    && |ring| > 0 && ring[0] == head
    && forall i | 0 <= i < |ring| :: ring[i].next == ring[if i + 1 == |ring| then 0 else i + 1]
  }

  /** The same ring, back to front. */
  ghost predicate Backwards(ring: seq<Window>)
    reads ring
  {
    forall i | 0 <= i < |ring| :: ring[i].prev == ring[if i == 0 then |ring| - 1 else i - 1]
  }

  ghost function OuterAreas(windows: seq<Window>): (s: seq<Rect>)
    reads windows
    ensures |s| == |windows| && forall i | 0 <= i < |s| :: s[i] == windows[i].OuterArea()
  {
    if windows == [] then [] else OuterAreas(windows[..|windows| - 1]) + [windows[|windows| - 1].OuterArea()]
  }

  /** The occlusion loop. */
  method ClipByWindowsInFront(window: Window, head: Window, ghost ring: seq<Window>, ghost n: nat)
    requires Ring(head, ring) && n < |ring| && ring[n] == window && window !in ring[..n]
    requires window.visible.Valid() && window.visible.Contents() == [window.ContentArea()]
    modifies window.visible, window.visible.rects
    ensures window.visible.Valid()
    ensures window.visible.Contents() == Clipped(window.ContentArea(), OuterAreas(ring[..n]))
  {
    hide SubtractAll, Capped, Clipped, Ring, OuterAreas;
    RingStarts(head, ring);
    var occluder: Window? := head;
    ghost var k, area, all := 0, window.ContentArea(), OuterAreas(ring[..n]);
    ClippedNone(area, all);
    while occluder != null && occluder != window
      invariant k <= n && occluder == ring[k] && Ring(head, ring) && OuterAreas(ring[..n]) == all
      invariant window.visible.Valid() && window.visible.Contents() == Clipped(area, all[..k])
      decreases n - k
    {
      RingNext(head, ring, n, k);
      ClippedStep(area, all, k);
      ClipBy(window.visible, occluder.OuterArea());
      if window.visible.count == 0 {
        NothingLeft(area, all, k + 1);
        return;
      }
      occluder := occluder.next;
      k := k + 1;
    }
    assert all[..n] == all;
  }

  lemma RingStarts(head: Window, ring: seq<Window>)
    requires Ring(head, ring)
    ensures ring != [] && ring[0] == head
  {
  }

  lemma RingNext(head: Window, ring: seq<Window>, n: nat, k: nat)
    requires Ring(head, ring) && k < n < |ring|
    ensures ring[k].next == ring[k + 1] && OuterAreas(ring[..n])[k] == ring[k].OuterArea()
  {
  }

  lemma ClippedNone(area: Rect, all: seq<Rect>)
    ensures Clipped(area, all[..0]) == [area]
  {
  }

  lemma ClippedStep(area: Rect, all: seq<Rect>, k: nat)
    requires k < |all|
    ensures Clipped(area, all[..k + 1]) == Capped(SubtractAll(Clipped(area, all[..k]), all[k]))
  {
    assert all[..k + 1][..k] == all[..k];
  }

  /** The rectangles of an area that occluders leave visible: clipped, merged, and split. */
  function VisibleParts(area: Rect, occluders: seq<Rect>): seq<Rect> {
    Capped(SplitAll(Merged(Clipped(area, occluders))))
  }

  /** Splitting them writes past the buffer. */
  predicate Spills(area: Rect, occluders: seq<Rect>) {
    Overflows(Merged(Clipped(area, occluders)))
  }

  /** They are apart, of no awkward height, and inside the area less every occluder; they fill it
      when no piece was dropped and the split pieces fit. */
  lemma VisibleExact(area: Rect, occluders: seq<Rect>)
    requires area.Sized() && AllSized(occluders)
    ensures var s := VisibleParts(area, occluders);
      && PairwiseApart(s) && NoProblems(s)
      && forall px, py :: Union(s, px, py) ==> InDifference(area, occluders, px, py)
    ensures NeverCapped(area, occluders) && |SplitAll(Merged(Clipped(area, occluders)))| <= MAX_VISIBLE_RECTS ==>
              forall px, py :: Union(VisibleParts(area, occluders), px, py) <==> InDifference(area, occluders, px, py)
  {
    hide Clipped, NeverCapped, InDifference, Union, PairwiseApart, SplitAll, NoSharedEdges, Merged;
    ClippedExact(area, occluders);
    MergedExact(Clipped(area, occluders));
    SplitAllExact(Merged(Clipped(area, occluders)));
    CappedWithin(SplitAll(Merged(Clipped(area, occluders))));
  }

  /** Rectangles covering exactly the area less every occluder. */
  ghost predicate Fill(s: seq<Rect>, area: Rect, occluders: seq<Rect>) {
    forall px, py :: Union(s, px, py) <==> InDifference(area, occluders, px, py)
  }

  /** Clipping drops nothing and leaves at most half a buffer. */
  ghost predicate FewParts(area: Rect, occluders: seq<Rect>) {
    NeverCapped(area, occluders) && 2 * |Clipped(area, occluders)| <= MAX_VISIBLE_RECTS
  }

  /** With few enough clipped rectangles the visible ones fill the difference and none overflows. */
  lemma FewPartsFill(area: Rect, occluders: seq<Rect>)
    requires area.Sized() && AllSized(occluders) && FewParts(area, occluders)
    ensures !Spills(area, occluders) && Fill(VisibleParts(area, occluders), area, occluders)
  {
    hide Clipped, NeverCapped, InDifference, Union, PairwiseApart, SplitAll, NoSharedEdges, Merged, VisibleParts,
      Overflows;
    ClippedExact(area, occluders);
    MergedExact(Clipped(area, occluders));
    AtMostDoubled(Merged(Clipped(area, occluders)));
    if Overflows(Merged(Clipped(area, occluders))) {
      OverflowNeedsParts(Merged(Clipped(area, occluders)));
    }
    VisibleExact(area, occluders);
  }

  /** A window with nothing in front shows its whole content area. */
  lemma NothingInFront(area: Rect)
    requires area.Sized()
    ensures FewParts(area, []) && !Spills(area, [])
    ensures forall px, py :: Union(VisibleParts(area, []), px, py) <==> area.Covers(px, py)
  {
    hide VisibleParts, Union, Spills;
    assert Clipped(area, []) == [area];
    FewPartsFill(area, []);
  }

  method CalculateVisibleRegions(window: Window, head: Window, ghost ring: seq<Window>, ghost n: nat)
      returns (overflow: bool)
    requires Ring(head, ring) && n < |ring| && ring[n] == window && window !in ring[..n]
    requires window.visible.Valid() && forall w <- ring :: w.rect.Sized()
    modifies window.visible, window.visible.rects
    ensures window.visible.Valid()
    ensures overflow <==> Spills(window.ContentArea(), OuterAreas(ring[..n]))
    ensures !overflow ==> window.visible.Contents() == VisibleParts(window.ContentArea(), OuterAreas(ring[..n]))
  {
    hide Clipped, NeverCapped, InDifference, Union, PairwiseApart, SplitAll, NoSharedEdges, OuterAreas, Ring,
      NoProblems, Overflows, Merged;
    ghost var area, occluders := window.ContentArea(), OuterAreas(ring[..n]);
    SizedAreas(window, ring, n);
    ShowContent(window);
    ClipByWindowsInFront(window, head, ring, n);
    ClippedExact(area, occluders);
    MergeRectangles(window.visible);
    overflow := SplitUntilDone(window.visible);
  }

  lemma {:induction false} AtMostDoubled(s: seq<Rect>)
    ensures |SplitAll(s)| <= 2 * |s|
  {
    if s != [] {
      AtMostDoubled(s[..|s| - 1]);
    }
  }

  // ---- All windows of the stack ----

  /** Every window has a buffer of its own. */
  ghost predicate OwnBuffers(ring: seq<Window>) {
    forall i, j | 0 <= i < j < |ring| :: ring[i] != ring[j]
      && ring[i].visible != ring[j].visible && ring[i].visible.rects != ring[j].visible.rects
  }

  /** The buffers and their arrays. */
  ghost function Cells(ring: seq<Window>): (s: set<object>)
    ensures forall w <- ring :: w !in s
  {
    (set w <- ring :: w.visible) + (set w <- ring :: w.visible.rects)
  }

  ghost predicate ValidBuffers(ring: seq<Window>)
    reads Cells(ring)
  {
    forall w <- ring :: w.visible.Valid()
  }

  ghost predicate SizedWindows(ring: seq<Window>)
    reads ring
  {
    forall w <- ring :: w.rect.Sized()
  }

  /** The visible rectangles each window has. */
  ghost function Buffers(ring: seq<Window>): (s: seq<seq<Rect>>)
    requires ValidBuffers(ring)
    reads Cells(ring)
    ensures |s| == |ring| && forall i | 0 <= i < |s| :: s[i] == ring[i].visible.Contents()
  {
    if ring == [] then [] else Buffers(ring[..|ring| - 1]) + [ring[|ring| - 1].visible.Contents()]
  }

  /** What window i of the stack shows when it is drawn. */
  ghost function ShownBy(ring: seq<Window>, i: nat): seq<Rect>
    requires i < |ring|
    reads ring
  {
    VisibleParts(ring[i].ContentArea(), OuterAreas(ring[..i]))
  }

  ghost predicate SpillsAt(ring: seq<Window>, i: nat)
    requires i < |ring|
    reads ring
  {
    Spills(ring[i].ContentArea(), OuterAreas(ring[..i]))
  }

  ghost predicate FewPartsAt(ring: seq<Window>, i: nat)
    requires i < |ring|
    reads ring
  {
    FewParts(ring[i].ContentArea(), OuterAreas(ring[..i]))
  }

  /** The windows drawn: all behind a full-screen head, else the head alone. */
  ghost predicate Drawn(ring: seq<Window>, i: nat)
    requires ring != []
    reads ring
  {
    i == 0 || ring[0].fullscreen
  }

  /** No pixel is in the rectangles two windows show: what a window shows lies inside what it hides
      of the windows behind it. */
  lemma VisiblePartsApart(ring: seq<Window>, i: nat, j: nat, px: int, py: int)
    requires i < j < |ring| && forall w <- ring :: w.rect.Sized()
    requires Union(ShownBy(ring, j), px, py)
    ensures !Union(ShownBy(ring, i), px, py)
  {
    hide VisibleParts, Union, PairwiseApart, NoProblems, OuterAreas;
    SizedAreas(ring[i], ring, i);
    SizedAreas(ring[j], ring, j);
    VisibleExact(ring[i].ContentArea(), OuterAreas(ring[..i]));
    VisibleExact(ring[j].ContentArea(), OuterAreas(ring[..j]));
    assert InDifference(ring[j].ContentArea(), OuterAreas(ring[..j]), px, py);
    assert OuterAreas(ring[..j])[i] == ring[i].OuterArea();
    assert !ring[i].OuterArea().Covers(px, py);
  }

  /** The head shows its whole content area, and never overflows. */
  lemma HeadShown(ring: seq<Window>)
    requires ring != [] && ring[0].rect.Sized()
    ensures !SpillsAt(ring, 0)
    ensures forall px, py :: Union(ShownBy(ring, 0), px, py) <==> ring[0].ContentArea().Covers(px, py)
  {
    hide VisibleParts, Union, Spills;
    assert OuterAreas(ring[..0]) == [];
    NothingInFront(ring[0].ContentArea());
  }

  /** What each window shows when it is drawn. */
  ghost function Shown(ring: seq<Window>): (s: seq<seq<Rect>>)
    reads ring
    ensures |s| == |ring| && forall i | 0 <= i < |s| :: s[i] == ShownBy(ring, i)
  {
    seq(|ring|, i requires 0 <= i < |ring| reads ring => ShownBy(ring, i))
  }

  ghost function Spilling(ring: seq<Window>): (s: set<nat>)
    reads ring
    ensures forall i: nat :: i in s <==> i < |ring| && SpillsAt(ring, i)
  {
    set i: nat | i < |ring| && SpillsAt(ring, i)
  }

  /** The turn has been over the windows from number k on. */
  ghost predicate DrawnFrom(now: seq<seq<Rect>>, shown: seq<seq<Rect>>, before: seq<seq<Rect>>, all: bool, k: nat) {
    && |now| == |shown| == |before|
    && forall i | 0 <= i < |now| :: now[i] == if k <= i && (i == 0 || all) then shown[i] else before[i]
  }

  lemma DrawnNext(now: seq<seq<Rect>>, shown: seq<seq<Rect>>, before: seq<seq<Rect>>, all: bool, n: nat)
    requires DrawnFrom(now, shown, before, all, n + 1) && n < |now|
    ensures DrawnFrom(if n == 0 || all then now[n := shown[n]] else now, shown, before, all, n)
  {
  }

  lemma RingEnds(head: Window, ring: seq<Window>)
    requires Ring(head, ring) && Backwards(ring)
    ensures ring != [] && ring[0] == head && head.prev == ring[|ring| - 1]
  {
  }

  lemma RingBack(ring: seq<Window>, n: nat)
    requires Backwards(ring) && n < |ring| && ring[n] != ring[0]
    ensures n > 0 && ring[n].prev == ring[n - 1]
  {
  }

  lemma OnlyHead(ring: seq<Window>, n: nat)
    requires OwnBuffers(ring) && n < |ring| && ring[n] == ring[0]
    ensures n == 0
  {
  }

  /** One window of the turn over the stack; the buffers of the others are left alone. */
  method CalculateOne(window: Window, head: Window, ghost ring: seq<Window>, ghost n: nat) returns (overflow: bool)
    requires Ring(head, ring) && OwnBuffers(ring) && SizedWindows(ring) && ValidBuffers(ring)
    requires n < |ring| && ring[n] == window
    modifies Cells(ring)
    ensures ValidBuffers(ring)
    ensures Shown(ring) == old(Shown(ring)) && Spilling(ring) == old(Spilling(ring))
    ensures overflow <==> n in Spilling(ring)
    ensures !overflow ==> Buffers(ring) == old(Buffers(ring))[n := Shown(ring)[n]]
  {
    hide VisibleParts, Spills, OuterAreas, Shown, Spilling, Buffers;
    overflow := CalculateVisibleRegions(window, head, ring, n);
  }

  /** The compositor's turn over the stack, from the back window to the head; behind a head that is
      not full screen nothing is drawn. */
  method CalculateStack(head: Window, ghost ring: seq<Window>) returns (overflow: bool)
    requires Ring(head, ring) && Backwards(ring) && OwnBuffers(ring)
    requires SizedWindows(ring) && ValidBuffers(ring)
    modifies Cells(ring)
    ensures ValidBuffers(ring)
    ensures overflow <==> exists i | 0 <= i < |ring| :: Drawn(ring, i) && SpillsAt(ring, i)
    ensures !overflow ==> forall i | 0 <= i < |ring| ::
              Buffers(ring)[i] == if Drawn(ring, i) then ShownBy(ring, i) else old(Buffers(ring))[i]
    ensures !overflow ==> forall px, py :: Union(Buffers(ring)[0], px, py) <==> head.ContentArea().Covers(px, py)
    ensures !overflow ==> forall i | 0 <= i < |ring| && Drawn(ring, i) && FewPartsAt(ring, i) ::
              Fill(Buffers(ring)[i], ring[i].ContentArea(), OuterAreas(ring[..i]))
  {
    hide ShownBy, SpillsAt, OwnBuffers, Buffers, Ring, Backwards, Shown, Spilling, DrawnFrom, NoneFrom, Drawn,
      SizedWindows, ValidBuffers, Cells, Fill, FewPartsAt, Union;
    RingEnds(head, ring);
    HeadFits(ring);
    ghost var before, shown, spilling := Buffers(ring), Shown(ring), Spilling(ring);
    NoneDrawn(before, shown, head.fullscreen);
    NoneAtAll(spilling, |ring|);
    var window := head.prev;
    ghost var n := |ring| - 1;
    overflow := false;
    while window != head
      invariant 0 <= n < |ring| && window == ring[n] && !overflow
      invariant ValidBuffers(ring) && Shown(ring) == shown && Spilling(ring) == spilling
      invariant head.fullscreen ==> NoneFrom(spilling, n + 1, |ring|)
      invariant DrawnFrom(Buffers(ring), shown, before, head.fullscreen, n + 1)
      decreases n
    {
      RingBack(ring, n);
      DrawnNext(Buffers(ring), shown, before, head.fullscreen, n);
      if head.fullscreen {
        overflow := CalculateOne(window, head, ring, n);
        if overflow {
          DrawnSpills(ring);
          return;
        }
        NoneNext(spilling, n, |ring|);
      }
      window := window.prev;
      n := n - 1;
    }
    OnlyHead(ring, n);
    DrawnNext(Buffers(ring), shown, before, head.fullscreen, n);
    overflow := CalculateOne(window, head, ring, n);
    NoneSpills(ring);
    AllDrawn(ring, Buffers(ring), before);
    AllFilled(ring, Buffers(ring));
  }

  lemma AllFilled(ring: seq<Window>, now: seq<seq<Rect>>)
    requires ring != [] && SizedWindows(ring) && |now| == |ring|
    requires forall i | 0 <= i < |ring| && Drawn(ring, i) :: now[i] == ShownBy(ring, i)
    ensures forall px, py :: Union(now[0], px, py) <==> ring[0].ContentArea().Covers(px, py)
    ensures forall i | 0 <= i < |ring| && Drawn(ring, i) && FewPartsAt(ring, i) ::
              Fill(now[i], ring[i].ContentArea(), OuterAreas(ring[..i]))
  {
    hide Fill, VisibleParts, Union, OuterAreas, FewParts;
    HeadShown(ring);
    assert Drawn(ring, 0);
    forall i | 0 <= i < |ring| && Drawn(ring, i) && FewPartsAt(ring, i)
      ensures Fill(now[i], ring[i].ContentArea(), OuterAreas(ring[..i]))
    {
      SizedAreas(ring[i], ring, i);
      FewPartsFill(ring[i].ContentArea(), OuterAreas(ring[..i]));
    }
  }

  lemma HeadFits(ring: seq<Window>)
    requires ring != [] && SizedWindows(ring)
    ensures 0 !in Spilling(ring)
  {
    hide SpillsAt, Spilling;
    HeadShown(ring);
  }

  lemma DrawnSpills(ring: seq<Window>)
    requires ring != [] && ring[0].fullscreen && exists n: nat :: n in Spilling(ring)
    ensures exists i | 0 <= i < |ring| :: Drawn(ring, i) && SpillsAt(ring, i)
  {
    hide SpillsAt, Spilling;
    var n: nat :| n in Spilling(ring);
    assert Drawn(ring, n);
  }

  lemma NoneSpills(ring: seq<Window>)
    requires ring != [] && 0 !in Spilling(ring)
    requires ring[0].fullscreen ==> NoneFrom(Spilling(ring), 1, |ring|)
    ensures forall i | 0 <= i < |ring| && Drawn(ring, i) :: !SpillsAt(ring, i)
  {
    hide SpillsAt, Spilling;
  }

  ghost predicate NoneFrom(spilling: set<nat>, n: nat, m: nat) {
    forall i: nat | n <= i < m :: i !in spilling
  }

  lemma NoneNext(spilling: set<nat>, n: nat, m: nat)
    requires NoneFrom(spilling, n + 1, m) && n !in spilling
    ensures NoneFrom(spilling, n, m)
  {
  }

  lemma NoneAtAll(spilling: set<nat>, m: nat)
    ensures NoneFrom(spilling, m, m)
  {
  }

  lemma NoneDrawn(before: seq<seq<Rect>>, shown: seq<seq<Rect>>, all: bool)
    requires |before| == |shown|
    ensures DrawnFrom(before, shown, before, all, |before|)
  {
  }

  lemma AllDrawn(ring: seq<Window>, now: seq<seq<Rect>>, before: seq<seq<Rect>>)
    requires ring != [] && |now| == |ring| && DrawnFrom(now, Shown(ring), before, ring[0].fullscreen, 0)
    ensures |before| == |ring|
    ensures forall i | 0 <= i < |ring| :: now[i] == if Drawn(ring, i) then ShownBy(ring, i) else before[i]
  {
    hide ShownBy;
  }

  lemma SizedAreas(window: Window, ring: seq<Window>, n: nat)
    requires n < |ring| && ring[n] == window && forall w <- ring :: w.rect.Sized()
    ensures window.ContentArea().Sized() && AllSized(OuterAreas(ring[..n]))
  {
  }

  /** Before occlusion the window shows its whole content area. */
  method ShowContent(window: Window)
    requires window.visible.Valid()
    modifies window.visible, window.visible.rects
    ensures window.visible.Valid() && window.visible.Contents() == [window.ContentArea()]
  {
    var visible := window.visible;
    visible.count := 1;
    visible.rects[0] := window.rect;
    if !window.fullscreen {
      visible.rects[0] := visible.rects[0].(x := visible.rects[0].x + BORDER_PX);
      visible.rects[0] := visible.rects[0].(y := visible.rects[0].y + BORDER_TOP_PX);
    }
  }

  /** The loop round ppa_workaround_split_rects: a second pass finds nothing to split. */
  method SplitUntilDone(visible: RectArray) returns (overflow: bool)
    requires visible.Valid() && PairwiseApart(visible.Contents()) && AllSized(visible.Contents())
    modifies visible, visible.rects
    ensures visible.Valid() && PairwiseApart(visible.Contents())
    ensures overflow <==> Overflows(old(visible.Contents()))
    ensures overflow ==> |SplitAll(old(visible.Contents()))| > MAX_VISIBLE_RECTS
    ensures forall px, py :: Union(visible.Contents(), px, py) ==> Union(old(visible.Contents()), px, py)
    ensures !overflow ==> NoProblems(visible.Contents())
    ensures !overflow ==> visible.Contents() == Capped(SplitAll(old(visible.Contents())))
    ensures |SplitAll(old(visible.Contents()))| <= MAX_VISIBLE_RECTS ==>
              SamePixels(old(visible.Contents()), visible.Contents())
  {
    ghost var s := visible.Contents();
    SplitAllExact(s);
    CappedWithin(SplitAll(s));
    var split;
    split, overflow := SplitRects(visible);
    if overflow {
      OverflowNeedsParts(s);
    }
    while !overflow && split
      invariant visible.Valid()
      invariant (overflow <==> Overflows(s)) && (overflow ==> visible.Contents() == s)
      invariant !overflow ==> visible.Contents() == Capped(SplitAll(s))
      decreases split
    {
      ghost var t := visible.Contents();
      SplitAllExact(t);
      assert NoProblems(t);
      if Overflows(t) {
        OverflowNeedsParts(t);
      }
      split, overflow := SplitRects(visible);
    }
  }
}
