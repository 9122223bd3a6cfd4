/** merge_rectangles: joins rectangles that share a full edge, in place, until none do. */
module Merging {
  import opened Rects

  const MAX_VISIBLE_RECTS: nat := 64

  /** A fixed buffer of rectangles and how many of them count. */
  class RectArray {
    const rects: array<Rect>
    var count: nat

    constructor ()
      ensures Valid() && fresh(rects) && Contents() == []
    {
      rects := new Rect[MAX_VISIBLE_RECTS](_ => Rect(0, 0, 0, 0));
      count := 0;
    }

    ghost predicate Valid()
      reads this
    {
      rects.Length == MAX_VISIBLE_RECTS && count <= MAX_VISIBLE_RECTS
    }

    ghost function Contents(): (s: seq<Rect>)
      requires Valid()
      reads this, rects
      ensures |s| == count
    {
      rects[..count]
    }

    /** Appends a rectangle when there is room. */
    method Append(r: Rect)
      requires Valid()
      modifies this, rects
      ensures Valid() && Contents() == Capped(old(Contents()) + [r])
    {
      if count < MAX_VISIBLE_RECTS {
        rects[count] := r;
        count := count + 1;
      }
    }

    /** Structure assignment. */
    method Assign(other: RectArray)
      requires Valid() && other.Valid() && other != this && other.rects != rects
      modifies this, rects
      ensures Valid() && Contents() == other.Contents()
    {
      forall k | 0 <= k < MAX_VISIBLE_RECTS {
        rects[k] := other.rects[k];
      }
      count := other.count;
    }

    /** memmove of the rectangles after d one place down. */
    method Drop(d: nat)
      requires Valid() && d < count
      modifies this, rects
      ensures Valid() && Contents() == Dropped(old(Contents()), d)
    {
      forall k | d <= k < count - 1 {
        rects[k] := rects[k + 1];
      }
      count := count - 1;
    }
  }

  /** As many rectangles as the buffer holds. */
  function Capped(s: seq<Rect>): seq<Rect> {
    if |s| <= MAX_VISIBLE_RECTS then s else s[..MAX_VISIBLE_RECTS]
  }

  datatype Axis = Horizontal | Vertical

  /** b lies against the far edge of a, with the same extent across the axis. */
  predicate Adjoins(axis: Axis, a: Rect, b: Rect) {
    match axis
    case Horizontal => a.y == b.y && a.h == b.h && a.x + a.w == b.x
    case Vertical => a.x == b.x && a.w == b.w && a.y + a.h == b.y
  }

  function Joined(axis: Axis, a: Rect, b: Rect): Rect {
    match axis
    case Horizontal => a.(w := a.w + b.w)
    case Vertical => a.(h := a.h + b.h)
  }

  predicate SharesEdge(a: Rect, b: Rect) {
    exists axis :: Adjoins(axis, a, b) || Adjoins(axis, b, a)
  }

  ghost predicate NoSharedEdges(s: seq<Rect>) {
    forall i, j :: 0 <= i < j < |s| ==> !SharesEdge(s[i], s[j])
  }

  function Dropped(s: seq<Rect>, d: nat): seq<Rect>
    requires d < |s|
  {
    s[..d] + s[d + 1..]
  }

  ghost predicate SamePixels(s: seq<Rect>, t: seq<Rect>) {
    forall px, py :: Union(s, px, py) <==> Union(t, px, py)
  }

  /** What one join keeps. */
  ghost predicate OneFewer(s: seq<Rect>, t: seq<Rect>) {
    && |t| == |s| - 1
    && AllSized(t)
    && SamePixels(s, t)
    && (PairwiseApart(s) ==> PairwiseApart(t))
  }

  lemma JoinedPixels(axis: Axis, a: Rect, b: Rect)
    requires a.Sized() && b.Sized() && Adjoins(axis, a, b)
    ensures Joined(axis, a, b).Sized()
    ensures forall px, py :: Joined(axis, a, b).Covers(px, py) <==> a.Covers(px, py) || b.Covers(px, py)
  {
  }

  /** Rectangle k takes over the pixels of d, and d goes. */
  lemma TakeOver(s: seq<Rect>, k: nat, d: nat, j: Rect)
    requires k < |s| && d < |s| && k != d && AllSized(s) && j.Sized()
    requires forall px, py :: j.Covers(px, py) <==> s[k].Covers(px, py) || s[d].Covers(px, py)
    ensures OneFewer(s, Dropped(s[k := j], d))
  {
    var t := Dropped(s[k := j], d);
    assert forall i | 0 <= i < |t| :: t[i] == s[k := j][if i < d then i else i + 1];
    forall px, py
      ensures Union(s, px, py) <==> Union(t, px, py)
    {
      TakeOverPixel(s, k, d, j, px, py);
    }
    if PairwiseApart(s) {
      forall a, b | 0 <= a < b < |t|
        ensures Apart(t[a], t[b])
      {
        var a', b' := if a < d then a else a + 1, if b < d then b else b + 1;
        assert Apart(s[a'], s[b']);
        if a' == k {
          assert if d < b' then Apart(s[d], s[b']) else Apart(s[b'], s[d]);
        }
        if b' == k {
          assert if d < a' then Apart(s[d], s[a']) else Apart(s[a'], s[d]);
        }
      }
    }
  }

  lemma TakeOverPixel(s: seq<Rect>, k: nat, d: nat, j: Rect, px: int, py: int)
    requires k < |s| && d < |s| && k != d
    requires j.Covers(px, py) <==> s[k].Covers(px, py) || s[d].Covers(px, py)
    ensures Union(s, px, py) <==> Union(Dropped(s[k := j], d), px, py)
  {
    var t := Dropped(s[k := j], d);
    assert forall i | 0 <= i < |t| :: t[i] == s[k := j][if i < d then i else i + 1];
    var k' := if k < d then k else k - 1;
    assert t[k'] == j;
    if i :| 0 <= i < |s| && s[i].Covers(px, py) {
      var i' := if i == d then k' else if i < d then i else i - 1;
      assert t[i'].Covers(px, py);
    }
    if i :| 0 <= i < |t| && t[i].Covers(px, py) {
      var i' := if i < d then i else i + 1;
      assert i' != k ==> s[i'].Covers(px, py);
    }
  }

  // ---- One pass ----

  /** A pass over the pairs from (i, j) on: the first that shares an edge along the axis is joined. */
  function PassFrom(axis: Axis, s: seq<Rect>, i: nat, j: nat): seq<Rect>
    requires i < j
    decreases if i < |s| then |s| - i else 0, if j < |s| then |s| - j else 0
  {
    if i >= |s| then s
    else if j >= |s| then PassFrom(axis, s, i + 1, i + 2)
    else if Adjoins(axis, s[i], s[j]) then Dropped(s[i := Joined(axis, s[i], s[j])], j)
    else if Adjoins(axis, s[j], s[i]) then Dropped(s[j := Joined(axis, s[j], s[i])], i)
    else PassFrom(axis, s, i, j + 1)
  }

  function Passed(axis: Axis, s: seq<Rect>): seq<Rect> {
    PassFrom(axis, s, 0, 1)
  }

  /** A pass joins one pair, or meets none. */
  lemma {:induction false} PassExact(axis: Axis, s: seq<Rect>, i: nat, j: nat)
    requires i < j && AllSized(s)
    ensures var t := PassFrom(axis, s, i, j);
      || (OneFewer(s, t) && !NoSharedEdges(s))
      || (t == s && forall a, b :: i <= a < b < |s| && (a == i ==> j <= b) ==>
                      !Adjoins(axis, s[a], s[b]) && !Adjoins(axis, s[b], s[a]))
    decreases if i < |s| then |s| - i else 0, if j < |s| then |s| - j else 0
  {
    hide OneFewer, NoSharedEdges, Adjoins, Joined;
    if i < |s| <= j {
      PassExact(axis, s, i + 1, i + 2);
    } else if i < |s| {
      if Adjoins(axis, s[i], s[j]) {
        JoinExact(axis, s, i, j);
      } else if Adjoins(axis, s[j], s[i]) {
        JoinExact(axis, s, j, i);
      } else {
        PassExact(axis, s, i, j + 1);
      }
    }
  }

  lemma JoinExact(axis: Axis, s: seq<Rect>, k: nat, d: nat)
    requires k < |s| && d < |s| && k != d && AllSized(s) && Adjoins(axis, s[k], s[d])
    ensures OneFewer(s, Dropped(s[k := Joined(axis, s[k], s[d])], d)) && !NoSharedEdges(s)
  {
    JoinedPixels(axis, s[k], s[d]);
    TakeOver(s, k, d, Joined(axis, s[k], s[d]));
    assert SharesEdge(s[k], s[d]) && SharesEdge(s[d], s[k]);
  }

  method Pass(arr: RectArray, axis: Axis) returns (merged: bool)
    requires arr.Valid()
    modifies arr, arr.rects
    ensures arr.Valid() && arr.Contents() == Passed(axis, old(arr.Contents()))
    ensures merged <==> arr.count < old(arr.count)
    ensures !merged ==> arr.Contents() == old(arr.Contents())
  {
    merged := false;
    ghost var s := arr.Contents();
    var i := 0;
    while i < arr.count && !merged
      invariant arr.Valid()
      invariant !merged ==> arr.Contents() == s && i <= arr.count && PassFrom(axis, s, i, i + 1) == Passed(axis, s)
      invariant merged ==> arr.Contents() == Passed(axis, s) && arr.count == |s| - 1
      decreases !merged, arr.count - i
    {
      var j := i + 1;
      while j < arr.count
        invariant i + 1 <= j <= arr.count && arr.Valid() && arr.Contents() == s
        invariant PassFrom(axis, s, i, j) == Passed(axis, s)
      {
        var a, b := arr.rects[i], arr.rects[j];
        assert a == s[i] && b == s[j];
        if Adjoins(axis, a, b) {
          arr.rects[i] := Joined(axis, a, b);
          assert arr.Contents() == s[i := Joined(axis, a, b)];
          arr.Drop(j);
          merged := true;
          break;
        } else if Adjoins(axis, b, a) {
          arr.rects[j] := Joined(axis, b, a);
          assert arr.Contents() == s[j := Joined(axis, b, a)];
          arr.Drop(i);
          merged := true;
          break;
        }
        j := j + 1;
      }
      i := i + 1;
    }
  }

  // ---- Passes until nothing is left to join ----

  lemma {:induction false} PassNoLonger(axis: Axis, s: seq<Rect>, i: nat, j: nat)
    requires i < j
    ensures |PassFrom(axis, s, i, j)| <= |s|
    ensures |PassFrom(axis, s, i, j)| == |s| ==> PassFrom(axis, s, i, j) == s
    decreases if i < |s| then |s| - i else 0, if j < |s| then |s| - j else 0
  {
    if i < |s| <= j {
      PassNoLonger(axis, s, i + 1, i + 2);
    } else if i < |s| && !Adjoins(axis, s[i], s[j]) && !Adjoins(axis, s[j], s[i]) {
      PassNoLonger(axis, s, i, j + 1);
    }
  }

  /** Horizontal passes while they join, then a vertical one, and again. */
  function Merged(s: seq<Rect>): seq<Rect>
    decreases |s|
  {
    var h, v := Passed(Horizontal, s), Passed(Vertical, s);
    if |h| < |s| then Merged(h) else if |v| < |s| then Merged(v) else s
  }

  /** The same pixels in no more rectangles, still apart if they were, and no two of those left
      share a full edge; what has no shared edges stays. */
  lemma {:induction false} MergedExact(s: seq<Rect>)
    requires AllSized(s)
    ensures AllSized(Merged(s)) && SamePixels(s, Merged(s)) && |Merged(s)| <= |s|
    ensures PairwiseApart(s) ==> PairwiseApart(Merged(s))
    ensures NoSharedEdges(Merged(s)) && (NoSharedEdges(s) ==> Merged(s) == s)
    decreases |s|
  {
    hide PassFrom, Adjoins, Union, PairwiseApart;
    var h, v := Passed(Horizontal, s), Passed(Vertical, s);
    PassExact(Horizontal, s, 0, 1);
    PassExact(Vertical, s, 0, 1);
    if |h| < |s| {
      MergedExact(h);
    } else if |v| < |s| {
      MergedExact(v);
    } else {
      forall i, j | 0 <= i < j < |s|
        ensures !SharesEdge(s[i], s[j])
      {
        NeitherAxis(s[i], s[j]);
      }
    }
  }

  lemma NeitherAxis(a: Rect, b: Rect)
    requires !Adjoins(Horizontal, a, b) && !Adjoins(Horizontal, b, a)
    requires !Adjoins(Vertical, a, b) && !Adjoins(Vertical, b, a)
    ensures !SharesEdge(a, b)
  {
  }

  /** merge_rectangles: the same pixels in no more rectangles, still apart if they were, and no
      two of those left share a full edge. */
  method MergeRectangles(arr: RectArray)
    requires arr.Valid() && AllSized(arr.Contents())
    modifies arr, arr.rects
    ensures arr.Valid() && AllSized(arr.Contents())
    ensures arr.Contents() == Merged(old(arr.Contents()))
    ensures SamePixels(old(arr.Contents()), arr.Contents()) && arr.count <= old(arr.count)
    ensures PairwiseApart(old(arr.Contents())) ==> PairwiseApart(arr.Contents())
    ensures NoSharedEdges(arr.Contents())
    ensures NoSharedEdges(old(arr.Contents())) ==> arr.Contents() == old(arr.Contents())
  {
    MergedExact(arr.Contents());
    hide SamePixels, PairwiseApart, NoSharedEdges, PassFrom, AllSized;
    var mergedAny := true;
    while mergedAny
      invariant arr.Valid() && Merged(arr.Contents()) == Merged(old(arr.Contents()))
      invariant !mergedAny ==> arr.Contents() == Merged(arr.Contents())
      decreases arr.count, mergedAny
    {
      PassNoLonger(Horizontal, arr.Contents(), 0, 1);
      PassNoLonger(Vertical, arr.Contents(), 0, 1);
      mergedAny := Pass(arr, Horizontal);
      if !mergedAny {
        mergedAny := Pass(arr, Vertical);
      }
    }
  }
}
