/** Window rectangles as sets of pixels: intersection, subtraction, rotation. */
module Rects {

  const FRAMEBUFFER_MAX_W := 720
  const FRAMEBUFFER_MAX_H := 720

  datatype Rect = Rect(x: int, y: int, w: int, h: int) {
    /** The pixels of the rectangle. */
    predicate Covers(px: int, py: int) {
      x <= px < x + w && y <= py < y + h
    }

    predicate Sized() {
      w >= 0 && h >= 0
    }
  }

  ghost predicate Apart(a: Rect, b: Rect) {
    forall px, py :: !(a.Covers(px, py) && b.Covers(px, py))
  }

  /** A pixel of one of the rectangles. */
  ghost predicate Union(s: seq<Rect>, px: int, py: int) {
    exists i :: 0 <= i < |s| && s[i].Covers(px, py)
  }

  ghost predicate PairwiseApart(s: seq<Rect>) {
    forall i, j :: 0 <= i < j < |s| ==> Apart(s[i], s[j])
  }

  predicate AllSized(s: seq<Rect>) {
    forall i :: 0 <= i < |s| ==> s[i].Sized()
  }

  predicate Intersects(a: Rect, b: Rect) {
    a.x < b.x + b.w && a.x + a.w > b.x && a.y < b.y + b.h && a.y + a.h > b.y
  }

  function Intersection(a: Rect, b: Rect): Rect {
    var left := if a.x > b.x then a.x else b.x;
    var top := if a.y > b.y then a.y else b.y;
    var right := if a.x + a.w < b.x + b.w then a.x + a.w else b.x + b.w;
    var bottom := if a.y + a.h < b.y + b.h then a.y + a.h else b.y + b.h;
    Rect(left, top, if right > left then right - left else 0, if bottom > top then bottom - top else 0)
  }

  /** rect_subtract: what b leaves of a, in at most four strips round the overlap. */
  function Subtract(a: Rect, b: Rect): (r: seq<Rect>)
    ensures |r| <= 4
  {
    if !Intersects(a, b) then [a]
    else
      var o := Intersection(a, b);
      if o == a then []
      else
        var left := Put([], o.x > a.x, Rect(a.x, a.y, o.x - a.x, a.h));
        var right := Put(left, o.x + o.w < a.x + a.w, Rect(o.x + o.w, a.y, a.x + a.w - (o.x + o.w), a.h));
        var top := Put(right, o.y > a.y, Rect(o.x, a.y, o.w, o.y - a.y));
        Put(top, o.y + o.h < a.y + a.h, Rect(o.x, o.y + o.h, o.w, a.y + a.h - (o.y + o.h)))
  }

  /** One strip more, when there is one. */
  function Put(s: seq<Rect>, present: bool, r: Rect): (t: seq<Rect>)
    ensures |t| <= |s| + 1
  {
    if present then s + [r] else s
  }

  /** rect_intersection holds exactly the common pixels, and rect_intersects sees whether rectangles
      that are not empty have one. */
  lemma IntersectionExact(a: Rect, b: Rect, px: int, py: int)
    ensures Intersection(a, b).Covers(px, py) <==> a.Covers(px, py) && b.Covers(px, py)
    ensures a.Covers(px, py) && b.Covers(px, py) ==> Intersects(a, b)
    ensures Intersects(a, b) && a.w > 0 && a.h > 0 && b.w > 0 && b.h > 0 ==>
              var o := Intersection(a, b); a.Covers(o.x, o.y) && b.Covers(o.x, o.y)
  {
  }

  /** The strips are disjoint and cover exactly the pixels of a outside b. */
  lemma SubtractExact(a: Rect, b: Rect)
    requires a.Sized() && b.Sized()
    ensures forall px, py :: Union(Subtract(a, b), px, py) <==> a.Covers(px, py) && !b.Covers(px, py)
    ensures PairwiseApart(Subtract(a, b)) && AllSized(Subtract(a, b))
  {
    if !Intersects(a, b) {
      PutUnion([], true, a);
      assert Subtract(a, b) == Put([], true, a);
    } else if Intersection(a, b) != a {
      StripsExact(a, b, Intersection(a, b));
    }
  }

  lemma OverlapWithin(a: Rect, b: Rect, o: Rect)
    requires a.Sized() && b.Sized() && Intersects(a, b) && o == Intersection(a, b)
    ensures a.x <= o.x && o.x + o.w <= a.x + a.w && a.y <= o.y && o.y + o.h <= a.y + a.h && o.Sized()
    ensures forall px, py :: o.Covers(px, py) <==> a.Covers(px, py) && b.Covers(px, py)
  {
  }

  lemma SubtractIs(a: Rect, b: Rect, o: Rect)
    requires Intersects(a, b) && o == Intersection(a, b) != a
    ensures var left := Rect(a.x, a.y, o.x - a.x, a.h);
      var right := Rect(o.x + o.w, a.y, a.x + a.w - (o.x + o.w), a.h);
      var top := Rect(o.x, a.y, o.w, o.y - a.y);
      var bottom := Rect(o.x, o.y + o.h, o.w, a.y + a.h - (o.y + o.h));
      Subtract(a, b) == Put(Put(Put(Put([], o.x > a.x, left), o.x + o.w < a.x + a.w, right), o.y > a.y, top),
                            o.y + o.h < a.y + a.h, bottom)
  {
  }

  /** The four strips round an overlap o that lies within a. */
  lemma StripsExact(a: Rect, b: Rect, o: Rect)
    requires a.Sized() && b.Sized() && Intersects(a, b) && o == Intersection(a, b) != a
    ensures forall px, py :: Union(Subtract(a, b), px, py) <==> a.Covers(px, py) && !o.Covers(px, py)
    ensures forall px, py :: o.Covers(px, py) <==> a.Covers(px, py) && b.Covers(px, py)
    ensures PairwiseApart(Subtract(a, b)) && AllSized(Subtract(a, b))
  {
    hide Union, PairwiseApart, AllSized, Subtract, Put, Intersection, Intersects;
    OverlapWithin(a, b, o);
    assert a.x <= o.x && o.x + o.w <= a.x + a.w && a.y <= o.y && o.y + o.h <= a.y + a.h && o.Sized();
    var left := Rect(a.x, a.y, o.x - a.x, a.h);
    var right := Rect(o.x + o.w, a.y, a.x + a.w - (o.x + o.w), a.h);
    var top := Rect(o.x, a.y, o.w, o.y - a.y);
    var bottom := Rect(o.x, o.y + o.h, o.w, a.y + a.h - (o.y + o.h));
    var r := Subtract(a, b);
    SubtractIs(a, b, o);
    NoneYet();
    PutUnion([], o.x > a.x, left);
    var s1 := Put([], o.x > a.x, left);
    PutUnion(s1, o.x + o.w < a.x + a.w, right);
    var s2 := Put(s1, o.x + o.w < a.x + a.w, right);
    PutUnion(s2, o.y > a.y, top);
    var s3 := Put(s2, o.y > a.y, top);
    PutUnion(s3, o.y + o.h < a.y + a.h, bottom);
  }

  lemma NoneYet()
    ensures PairwiseApart([]) && AllSized([]) && forall px, py :: !Union([], px, py)
  {
  }

  /** A strip away from the others adds its pixels and keeps them apart. */
  lemma PutUnion(s: seq<Rect>, present: bool, r: Rect)
    requires PairwiseApart(s) && AllSized(s) && (present ==> r.Sized())
    requires present ==> forall px, py :: Union(s, px, py) ==> !r.Covers(px, py)
    ensures PairwiseApart(Put(s, present, r)) && AllSized(Put(s, present, r))
    ensures forall px, py :: Union(Put(s, present, r), px, py) <==> Union(s, px, py) || (present && r.Covers(px, py))
  {
    if present {
      forall px, py
        ensures Union(s + [r], px, py) <==> Union(s, px, py) || r.Covers(px, py)
      {
        UnionPut(s, r, px, py);
      }
      forall i | 0 <= i < |s|
        ensures Apart(s[i], r)
      {
        assert forall px, py :: s[i].Covers(px, py) ==> Union(s, px, py);
      }
    }
  }

  lemma UnionPut(s: seq<Rect>, r: Rect, px: int, py: int)
    ensures Union(s + [r], px, py) <==> Union(s, px, py) || r.Covers(px, py)
  {
    if i :| 0 <= i < |s| && s[i].Covers(px, py) {
      assert (s + [r])[i].Covers(px, py);
    }
    assert (s + [r])[|s|] == r;
  }

  // ---- Rotation ----

  datatype Rotation = Angle0 | Angle90 | Angle180 | Angle270

  function RotateCoordinates(x: int, y: int, rot: Rotation): (int, int) {
    match rot
    case Angle0 => (x, y)
    case Angle90 => (FRAMEBUFFER_MAX_H - 1 - y, x)
    case Angle180 => (FRAMEBUFFER_MAX_W - 1 - x, FRAMEBUFFER_MAX_H - 1 - y)
    case Angle270 => (y, FRAMEBUFFER_MAX_W - 1 - x)
  }

  function RotateRect(r: Rect, rot: Rotation): Rect {
    match rot
    case Angle0 => r
    case Angle90 => Rect(FRAMEBUFFER_MAX_H - 1 - (r.y + r.h - 1), r.x, r.h, r.w)
    case Angle180 => Rect(FRAMEBUFFER_MAX_W - 1 - (r.x + r.w - 1), FRAMEBUFFER_MAX_H - 1 - (r.y + r.h - 1), r.w, r.h)
    case Angle270 => Rect(r.y, FRAMEBUFFER_MAX_W - 1 - (r.x + r.w - 1), r.h, r.w)
  }

  function Opposite(rot: Rotation): Rotation {
    match rot
    case Angle0 => Angle0
    case Angle90 => Angle270
    case Angle180 => Angle180
    case Angle270 => Angle90
  }

  /** A right angle turns the top left corner to the top right and the top right to the bottom right;
      the other angles are two and three right angles. */
  lemma RotationDirection(x: int, y: int)
    ensures RotateCoordinates(0, 0, Angle90) == (FRAMEBUFFER_MAX_W - 1, 0)
    ensures RotateCoordinates(FRAMEBUFFER_MAX_W - 1, 0, Angle90) == (FRAMEBUFFER_MAX_W - 1, FRAMEBUFFER_MAX_H - 1)
    ensures RotateCoordinates(x, y, Angle0) == (x, y)
    ensures var p := RotateCoordinates(x, y, Angle90);
      var q := RotateCoordinates(p.0, p.1, Angle90);
      q == RotateCoordinates(x, y, Angle180)
      && RotateCoordinates(q.0, q.1, Angle90) == RotateCoordinates(x, y, Angle270)
  {
  }

  /** Turning back by the opposite angle returns every pixel, so no two pixels collide; a
      rotated rectangle holds exactly the rotated pixels. */
  lemma RotationExact(r: Rect, rot: Rotation, x: int, y: int)
    ensures var p := RotateCoordinates(x, y, rot); RotateCoordinates(p.0, p.1, Opposite(rot)) == (x, y)
    ensures var p := RotateCoordinates(x, y, rot); RotateRect(r, rot).Covers(p.0, p.1) <==> r.Covers(x, y)
    ensures RotateRect(RotateRect(r, rot), Opposite(rot)) == r
  {
  }
}
