/** A full stack of windows whose visible regions overflow the buffer when they are split: the
    nine windows in front cut the last one into 33 rectangles, all of a height to be split and no
    two of which can be merged. */
module CrowdedStack {
  import opened Rects
  import opened Merging
  import opened Visible
  import opened WindowStack

  /** Positions and sizes, front to back; the first window is full screen. */
  function Crowd(): (s: seq<Rect>)
    ensures |s| == MAX_WINDOWS
  {
    [Rect(0, 0, 1, 1), Rect(38, 282, 574, 4), Rect(273, 90, 58, 516), Rect(66, 410, 467, 4), Rect(217, 250, 4, 292),
     Rect(271, 186, 258, 36), Rect(60, 442, 0, 36), Rect(488, 58, 38, 4), Rect(338, 58, 78, 548), Rect(0, 0, 616, 641)]
  }

  /** What the windows in front hide, decorations included. */
  function Hidden(): (s: seq<Rect>)
    ensures |s| == MAX_WINDOWS - 1
  {
    [Rect(0, 0, 1, 1), Rect(38, 282, 578, 31), Rect(273, 90, 62, 543), Rect(66, 410, 471, 31),
     Rect(217, 250, 8, 319), Rect(271, 186, 262, 63), Rect(60, 442, 4, 63), Rect(488, 58, 42, 31),
     Rect(338, 58, 82, 575)]
  }

  /** Where the last window draws. */
  const CONTENT := Rect(2, 25, 616, 641)

  /** What is left of it. */
  function Remains(): (s: seq<Rect>)
    ensures |s| == 33
  {
    [Rect(2, 25, 36, 641), Rect(616, 25, 2, 641), Rect(38, 25, 179, 257), Rect(225, 25, 46, 257),
     Rect(271, 25, 2, 161), Rect(271, 249, 2, 33), Rect(217, 25, 8, 225), Rect(533, 25, 83, 257),
     Rect(335, 25, 3, 161), Rect(420, 25, 68, 161), Rect(338, 25, 82, 33), Rect(530, 25, 3, 161),
     Rect(488, 25, 42, 33), Rect(488, 89, 42, 97), Rect(335, 249, 3, 33), Rect(420, 249, 113, 33),
     Rect(273, 25, 62, 65), Rect(38, 313, 22, 353), Rect(64, 313, 2, 353), Rect(60, 313, 4, 129),
     Rect(60, 505, 4, 161), Rect(66, 313, 151, 97), Rect(225, 313, 48, 97), Rect(66, 441, 151, 225),
     Rect(225, 441, 48, 225), Rect(217, 569, 8, 97), Rect(537, 313, 79, 353), Rect(335, 313, 3, 97),
     Rect(420, 313, 117, 97), Rect(335, 441, 3, 225), Rect(420, 441, 117, 225), Rect(338, 633, 82, 33),
     Rect(273, 633, 62, 33)]
  }

  // ---- Clipping rectangle by rectangle ----

  /** Rectangles clipped by the windows from number k on. */
  function ClipFrom(s: seq<Rect>, k: nat): seq<Rect>
    requires k <= |Hidden()|
    decreases |Hidden()| - k
  {
    if k == |Hidden()| then s else ClipFrom(SubtractAll(s, Hidden()[k]), k + 1)
  }

  /** There are never more than n rectangles on the way. */
  predicate Fits(s: seq<Rect>, k: nat, n: nat)
    requires k <= |Hidden()|
    decreases |Hidden()| - k
  {
    |s| <= n && (k == |Hidden()| || Fits(SubtractAll(s, Hidden()[k]), k + 1, n))
  }

  ghost predicate Becomes(s: seq<Rect>, k: nat, t: seq<Rect>) {
    k <= |Hidden()| && ClipFrom(s, k) == t && Fits(s, k, |t|)
  }

  lemma {:induction false} FitsMore(s: seq<Rect>, k: nat, n: nat, m: nat)
    requires k <= |Hidden()| && Fits(s, k, n) && n <= m
    ensures Fits(s, k, m)
    decreases |Hidden()| - k
  {
    if k < |Hidden()| {
      FitsMore(SubtractAll(s, Hidden()[k]), k + 1, n, m);
    }
  }

  lemma {:induction false} SubtractAppend(s: seq<Rect>, t: seq<Rect>, b: Rect)
    ensures SubtractAll(s + t, b) == SubtractAll(s, b) + SubtractAll(t, b)
    decreases |t|
  {
    hide Subtract;
    if t == [] {
      assert s + t == s;
    } else {
      var n := |t| - 1;
      assert (s + t)[..|s + t| - 1] == s + t[..n];
      SubtractAppend(s, t[..n], b);
    }
  }

  lemma SubtractOne(r: Rect, b: Rect)
    ensures SubtractAll([r], b) == Subtract(r, b)
  {
    assert SubtractAll([r][..0], b) == [];
  }

  /** Rectangles are clipped independently of each other. */
  lemma {:induction false} Beside(s: seq<Rect>, t: seq<Rect>, k: nat, s': seq<Rect>, t': seq<Rect>)
    requires Becomes(s, k, s') && Becomes(t, k, t')
    ensures Becomes(s + t, k, s' + t')
    decreases |Hidden()| - k
  {
    hide SubtractAll;
    if k < |Hidden()| {
      var b := Hidden()[k];
      SubtractAppend(s, t, b);
      Beside(SubtractAll(s, b), SubtractAll(t, b), k + 1, s', t');
    }
  }

  /** Window i, if it is one of those from k to j - 1, does not touch the rectangle. */
  predicate Misses(i: nat, r: Rect, k: nat, j: nat)
    requires i < |Hidden()|
  {
    k <= i < j ==> !Intersects(r, Hidden()[i])
  }

  /** Windows k to j - 1 do not touch the rectangle. */
  predicate MissedUntil(r: Rect, k: nat, j: nat) {
    && k <= j <= |Hidden()|
    && Misses(0, r, k, j) && Misses(1, r, k, j) && Misses(2, r, k, j) && Misses(3, r, k, j) && Misses(4, r, k, j)
    && Misses(5, r, k, j) && Misses(6, r, k, j) && Misses(7, r, k, j) && Misses(8, r, k, j)
  }

  lemma NextMissed(r: Rect, k: nat, j: nat)
    requires MissedUntil(r, k, j) && k < j
    ensures !Intersects(r, Hidden()[k]) && MissedUntil(r, k + 1, j)
  {
    hide Hidden, Intersects;
  }

  /** What becomes of a rectangle is what becomes of the pieces the first window to touch it leaves. */
  lemma {:induction false} Pieces(r: Rect, k: nat, j: nat, t: seq<Rect>)
    requires MissedUntil(r, k, j) && j < |Hidden()| && t != [] && Becomes(Subtract(r, Hidden()[j]), j + 1, t)
    ensures Becomes([r], k, t)
    decreases j - k
  {
    hide SubtractAll, Subtract;
    SubtractOne(r, Hidden()[k]);
    if k < j {
      NextMissed(r, k, j);
      Untouched(r, Hidden()[k]);
      Pieces(r, k + 1, j, t);
    }
  }

  lemma Untouched(r: Rect, b: Rect)
    requires !Intersects(r, b)
    ensures Subtract(r, b) == [r]
  {
  }

  /** A rectangle no further window touches. */
  lemma {:induction false} WholeStays(r: Rect, k: nat)
    requires MissedUntil(r, k, |Hidden()|)
    ensures Becomes([r], k, [r])
    decreases |Hidden()| - k
  {
    hide SubtractAll, Subtract;
    if k < |Hidden()| {
      NextMissed(r, k, |Hidden()|);
      SubtractOne(r, Hidden()[k]);
      Untouched(r, Hidden()[k]);
      WholeStays(r, k + 1);
    }
  }

  /** Window j cuts a rectangle in two, three or four. */
  lemma Split2(r: Rect, k: nat, j: nat, p1: Rect, t1: seq<Rect>, p2: Rect, t2: seq<Rect>)
    requires MissedUntil(r, k, j) && j < |Hidden()| && Subtract(r, Hidden()[j]) == [p1, p2] && t1 != []
    requires Becomes([p1], j + 1, t1) && Becomes([p2], j + 1, t2)
    ensures Becomes([r], k, t1 + t2)
  {
    hide Becomes, MissedUntil, Subtract, Hidden;
    Beside([p1], [p2], j + 1, t1, t2);
    assert [p1] + [p2] == [p1, p2];
    Pieces(r, k, j, t1 + t2);
  }

  lemma Split3(r: Rect, k: nat, j: nat, p1: Rect, t1: seq<Rect>, p2: Rect, t2: seq<Rect>, p3: Rect, t3: seq<Rect>)
    requires MissedUntil(r, k, j) && j < |Hidden()| && Subtract(r, Hidden()[j]) == [p1, p2, p3] && t1 != []
    requires Becomes([p1], j + 1, t1) && Becomes([p2], j + 1, t2) && Becomes([p3], j + 1, t3)
    ensures Becomes([r], k, t1 + t2 + t3)
  {
    hide Becomes, MissedUntil, Subtract, Hidden;
    Beside([p1], [p2], j + 1, t1, t2);
    Beside([p1] + [p2], [p3], j + 1, t1 + t2, t3);
    assert [p1] + [p2] + [p3] == [p1, p2, p3];
    Pieces(r, k, j, t1 + t2 + t3);
  }

  lemma Split4(r: Rect, k: nat, j: nat, p1: Rect, t1: seq<Rect>, p2: Rect, t2: seq<Rect>, p3: Rect, t3: seq<Rect>,
               p4: Rect, t4: seq<Rect>)
    requires MissedUntil(r, k, j) && j < |Hidden()| && Subtract(r, Hidden()[j]) == [p1, p2, p3, p4] && t1 != []
    requires Becomes([p1], j + 1, t1) && Becomes([p2], j + 1, t2)
    requires Becomes([p3], j + 1, t3) && Becomes([p4], j + 1, t4)
    ensures Becomes([r], k, t1 + t2 + t3 + t4)
  {
    hide Becomes, MissedUntil, Subtract, Hidden;
    Beside([p1], [p2], j + 1, t1, t2);
    Beside([p1] + [p2], [p3], j + 1, t1 + t2, t3);
    Beside([p1] + [p2] + [p3], [p4], j + 1, t1 + t2 + t3, t4);
    assert [p1] + [p2] + [p3] + [p4] == [p1, p2, p3, p4];
    Pieces(r, k, j, t1 + t2 + t3 + t4);
  }

  // ---- The last window, cut ----

  /** Cut by window 1. */
  function Cut1(): seq<Rect> {
    [Rect(2, 25, 36, 641)] + [Rect(616, 25, 2, 641)] + Cut2() + Cut9()
  }

  lemma Cut1Is()
    ensures Becomes([Rect(2, 25, 616, 641)], 0, Cut1())
  {
    hide Becomes;
    WholeStays(Rect(2, 25, 36, 641), 2);
    WholeStays(Rect(616, 25, 2, 641), 2);
    Cut2Is();
    Cut9Is();
    Split4(Rect(2, 25, 616, 641), 0, 1,
           Rect(2, 25, 36, 641), [Rect(2, 25, 36, 641)],
           Rect(616, 25, 2, 641), [Rect(616, 25, 2, 641)],
           Rect(38, 25, 578, 257), Cut2(),
           Rect(38, 313, 578, 353), Cut9());
  }

  /** Cut by window 2. */
  function Cut2(): seq<Rect> {
    Cut3() + Cut5() + [Rect(273, 25, 62, 65)]
  }

  lemma Cut2Is()
    ensures Becomes([Rect(38, 25, 578, 257)], 2, Cut2())
  {
    hide Becomes;
    Cut3Is();
    Cut5Is();
    WholeStays(Rect(273, 25, 62, 65), 3);
    Split3(Rect(38, 25, 578, 257), 2, 2,
           Rect(38, 25, 235, 257), Cut3(),
           Rect(335, 25, 281, 257), Cut5(),
           Rect(273, 25, 62, 65), [Rect(273, 25, 62, 65)]);
  }

  /** Cut by window 4. */
  function Cut3(): seq<Rect> {
    [Rect(38, 25, 179, 257)] + Cut4() + [Rect(217, 25, 8, 225)]
  }

  lemma Cut3Is()
    ensures Becomes([Rect(38, 25, 235, 257)], 3, Cut3())
  {
    hide Becomes;
    WholeStays(Rect(38, 25, 179, 257), 5);
    Cut4Is();
    WholeStays(Rect(217, 25, 8, 225), 5);
    Split3(Rect(38, 25, 235, 257), 3, 4,
           Rect(38, 25, 179, 257), [Rect(38, 25, 179, 257)],
           Rect(225, 25, 48, 257), Cut4(),
           Rect(217, 25, 8, 225), [Rect(217, 25, 8, 225)]);
  }

  /** Cut by window 5. */
  function Cut4(): seq<Rect> {
    [Rect(225, 25, 46, 257)] + [Rect(271, 25, 2, 161)] + [Rect(271, 249, 2, 33)]
  }

  lemma Cut4Is()
    ensures Becomes([Rect(225, 25, 48, 257)], 5, Cut4())
  {
    hide Becomes;
    WholeStays(Rect(225, 25, 46, 257), 6);
    WholeStays(Rect(271, 25, 2, 161), 6);
    WholeStays(Rect(271, 249, 2, 33), 6);
    Split3(Rect(225, 25, 48, 257), 5, 5,
           Rect(225, 25, 46, 257), [Rect(225, 25, 46, 257)],
           Rect(271, 25, 2, 161), [Rect(271, 25, 2, 161)],
           Rect(271, 249, 2, 33), [Rect(271, 249, 2, 33)]);
  }

  /** Cut by window 5. */
  function Cut5(): seq<Rect> {
    [Rect(533, 25, 83, 257)] + Cut6() + Cut8()
  }

  lemma Cut5Is()
    ensures Becomes([Rect(335, 25, 281, 257)], 3, Cut5())
  {
    hide Becomes;
    WholeStays(Rect(533, 25, 83, 257), 6);
    Cut6Is();
    Cut8Is();
    Split3(Rect(335, 25, 281, 257), 3, 5,
           Rect(533, 25, 83, 257), [Rect(533, 25, 83, 257)],
           Rect(335, 25, 198, 161), Cut6(),
           Rect(335, 249, 198, 33), Cut8());
  }

  /** Cut by window 7. */
  function Cut6(): seq<Rect> {
    Cut7() + [Rect(530, 25, 3, 161)] + [Rect(488, 25, 42, 33)] + [Rect(488, 89, 42, 97)]
  }

  lemma Cut6Is()
    ensures Becomes([Rect(335, 25, 198, 161)], 6, Cut6())
  {
    hide Becomes;
    Cut7Is();
    WholeStays(Rect(530, 25, 3, 161), 8);
    WholeStays(Rect(488, 25, 42, 33), 8);
    WholeStays(Rect(488, 89, 42, 97), 8);
    Split4(Rect(335, 25, 198, 161), 6, 7,
           Rect(335, 25, 153, 161), Cut7(),
           Rect(530, 25, 3, 161), [Rect(530, 25, 3, 161)],
           Rect(488, 25, 42, 33), [Rect(488, 25, 42, 33)],
           Rect(488, 89, 42, 97), [Rect(488, 89, 42, 97)]);
  }

  /** Cut by window 8. */
  function Cut7(): seq<Rect> {
    [Rect(335, 25, 3, 161)] + [Rect(420, 25, 68, 161)] + [Rect(338, 25, 82, 33)]
  }

  lemma Cut7Is()
    ensures Becomes([Rect(335, 25, 153, 161)], 8, Cut7())
  {
    hide Becomes;
    WholeStays(Rect(335, 25, 3, 161), 9);
    WholeStays(Rect(420, 25, 68, 161), 9);
    WholeStays(Rect(338, 25, 82, 33), 9);
    Split3(Rect(335, 25, 153, 161), 8, 8,
           Rect(335, 25, 3, 161), [Rect(335, 25, 3, 161)],
           Rect(420, 25, 68, 161), [Rect(420, 25, 68, 161)],
           Rect(338, 25, 82, 33), [Rect(338, 25, 82, 33)]);
  }

  /** Cut by window 8. */
  function Cut8(): seq<Rect> {
    [Rect(335, 249, 3, 33)] + [Rect(420, 249, 113, 33)]
  }

  lemma Cut8Is()
    ensures Becomes([Rect(335, 249, 198, 33)], 6, Cut8())
  {
    hide Becomes;
    WholeStays(Rect(335, 249, 3, 33), 9);
    WholeStays(Rect(420, 249, 113, 33), 9);
    Split2(Rect(335, 249, 198, 33), 6, 8,
           Rect(335, 249, 3, 33), [Rect(335, 249, 3, 33)],
           Rect(420, 249, 113, 33), [Rect(420, 249, 113, 33)]);
  }

  /** Cut by window 2. */
  function Cut9(): seq<Rect> {
    Cut10() + Cut14() + [Rect(273, 633, 62, 33)]
  }

  lemma Cut9Is()
    ensures Becomes([Rect(38, 313, 578, 353)], 2, Cut9())
  {
    hide Becomes;
    Cut10Is();
    Cut14Is();
    WholeStays(Rect(273, 633, 62, 33), 3);
    Split3(Rect(38, 313, 578, 353), 2, 2,
           Rect(38, 313, 235, 353), Cut10(),
           Rect(335, 313, 281, 353), Cut14(),
           Rect(273, 633, 62, 33), [Rect(273, 633, 62, 33)]);
  }

  /** Cut by window 3. */
  function Cut10(): seq<Rect> {
    Cut11() + Cut12() + Cut13()
  }

  lemma Cut10Is()
    ensures Becomes([Rect(38, 313, 235, 353)], 3, Cut10())
  {
    hide Becomes;
    Cut11Is();
    Cut12Is();
    Cut13Is();
    Split3(Rect(38, 313, 235, 353), 3, 3,
           Rect(38, 313, 28, 353), Cut11(),
           Rect(66, 313, 207, 97), Cut12(),
           Rect(66, 441, 207, 225), Cut13());
  }

  /** Cut by window 6. */
  function Cut11(): seq<Rect> {
    [Rect(38, 313, 22, 353)] + [Rect(64, 313, 2, 353)] + [Rect(60, 313, 4, 129)] + [Rect(60, 505, 4, 161)]
  }

  lemma Cut11Is()
    ensures Becomes([Rect(38, 313, 28, 353)], 4, Cut11())
  {
    hide Becomes;
    WholeStays(Rect(38, 313, 22, 353), 7);
    WholeStays(Rect(64, 313, 2, 353), 7);
    WholeStays(Rect(60, 313, 4, 129), 7);
    WholeStays(Rect(60, 505, 4, 161), 7);
    Split4(Rect(38, 313, 28, 353), 4, 6,
           Rect(38, 313, 22, 353), [Rect(38, 313, 22, 353)],
           Rect(64, 313, 2, 353), [Rect(64, 313, 2, 353)],
           Rect(60, 313, 4, 129), [Rect(60, 313, 4, 129)],
           Rect(60, 505, 4, 161), [Rect(60, 505, 4, 161)]);
  }

  /** Cut by window 4. */
  function Cut12(): seq<Rect> {
    [Rect(66, 313, 151, 97)] + [Rect(225, 313, 48, 97)]
  }

  lemma Cut12Is()
    ensures Becomes([Rect(66, 313, 207, 97)], 4, Cut12())
  {
    hide Becomes;
    WholeStays(Rect(66, 313, 151, 97), 5);
    WholeStays(Rect(225, 313, 48, 97), 5);
    Split2(Rect(66, 313, 207, 97), 4, 4,
           Rect(66, 313, 151, 97), [Rect(66, 313, 151, 97)],
           Rect(225, 313, 48, 97), [Rect(225, 313, 48, 97)]);
  }

  /** Cut by window 4. */
  function Cut13(): seq<Rect> {
    [Rect(66, 441, 151, 225)] + [Rect(225, 441, 48, 225)] + [Rect(217, 569, 8, 97)]
  }

  lemma Cut13Is()
    ensures Becomes([Rect(66, 441, 207, 225)], 4, Cut13())
  {
    hide Becomes;
    WholeStays(Rect(66, 441, 151, 225), 5);
    WholeStays(Rect(225, 441, 48, 225), 5);
    WholeStays(Rect(217, 569, 8, 97), 5);
    Split3(Rect(66, 441, 207, 225), 4, 4,
           Rect(66, 441, 151, 225), [Rect(66, 441, 151, 225)],
           Rect(225, 441, 48, 225), [Rect(225, 441, 48, 225)],
           Rect(217, 569, 8, 97), [Rect(217, 569, 8, 97)]);
  }

  /** Cut by window 3. */
  function Cut14(): seq<Rect> {
    [Rect(537, 313, 79, 353)] + Cut15() + Cut16()
  }

  lemma Cut14Is()
    ensures Becomes([Rect(335, 313, 281, 353)], 3, Cut14())
  {
    hide Becomes;
    WholeStays(Rect(537, 313, 79, 353), 4);
    Cut15Is();
    Cut16Is();
    Split3(Rect(335, 313, 281, 353), 3, 3,
           Rect(537, 313, 79, 353), [Rect(537, 313, 79, 353)],
           Rect(335, 313, 202, 97), Cut15(),
           Rect(335, 441, 202, 225), Cut16());
  }

  /** Cut by window 8. */
  function Cut15(): seq<Rect> {
    [Rect(335, 313, 3, 97)] + [Rect(420, 313, 117, 97)]
  }

  lemma Cut15Is()
    ensures Becomes([Rect(335, 313, 202, 97)], 4, Cut15())
  {
    hide Becomes;
    WholeStays(Rect(335, 313, 3, 97), 9);
    WholeStays(Rect(420, 313, 117, 97), 9);
    Split2(Rect(335, 313, 202, 97), 4, 8,
           Rect(335, 313, 3, 97), [Rect(335, 313, 3, 97)],
           Rect(420, 313, 117, 97), [Rect(420, 313, 117, 97)]);
  }

  /** Cut by window 8. */
  function Cut16(): seq<Rect> {
    [Rect(335, 441, 3, 225)] + [Rect(420, 441, 117, 225)] + [Rect(338, 633, 82, 33)]
  }

  lemma Cut16Is()
    ensures Becomes([Rect(335, 441, 202, 225)], 4, Cut16())
  {
    hide Becomes;
    WholeStays(Rect(335, 441, 3, 225), 9);
    WholeStays(Rect(420, 441, 117, 225), 9);
    WholeStays(Rect(338, 633, 82, 33), 9);
    Split3(Rect(335, 441, 202, 225), 4, 8,
           Rect(335, 441, 3, 225), [Rect(335, 441, 3, 225)],
           Rect(420, 441, 117, 225), [Rect(420, 441, 117, 225)],
           Rect(338, 633, 82, 33), [Rect(338, 633, 82, 33)]);
  }

  lemma CutIsRemains()
    ensures Becomes([CONTENT], 0, Remains())
  {
    Cut1Is();
    hide Becomes;
    assert Cut1() == Remains();
  }

  /** Clipping with room for 64 rectangles is clipping without a bound. */
  lemma {:induction false} ClippedFrom(k: nat)
    requires k <= |Hidden()| && Fits(Clipped(CONTENT, Hidden()[..k]), k, MAX_VISIBLE_RECTS)
    ensures Clipped(CONTENT, Hidden()) == ClipFrom(Clipped(CONTENT, Hidden()[..k]), k)
    decreases |Hidden()| - k
  {
    hide SubtractAll, Clipped, Hidden;
    if k < |Hidden()| {
      ClippedStep(CONTENT, Hidden(), k);
      ClippedFrom(k + 1);
    } else {
      assert Hidden()[..k] == Hidden();
    }
  }

  lemma CrowdClipped()
    ensures Clipped(CONTENT, Hidden()) == Remains()
  {
    hide SubtractAll, Clipped, Fits, ClipFrom;
    CutIsRemains();
    ClippedNone(CONTENT, Hidden());
    FitsMore([CONTENT], 0, 33, MAX_VISIBLE_RECTS);
    ClippedFrom(0);
  }

  // ---- What is left cannot be merged and must be split ----

  /** Where x falls among five columns that shift with the top and height of the rectangle. */
  function Column(x: int, r: Rect): int {
    (32 * x + r.y - r.h) % 160
  }

  /** A rectangle of awkward height that shares no full edge with another: tops and bottoms fall in
      different rows of 32, left and right edges in different columns. */
  predicate Uneven(r: Rect) {
    InRows(r) && InColumns(r)
  }

  predicate InRows(r: Rect) {
    r.y % 32 == 25 && r.h % 32 == 1 && r.h > 32
  }

  predicate InColumns(r: Rect) {
    StartsIn(r) && EndsIn(r)
  }

  predicate StartsIn(r: Rect) {
    Column(r.x, r) < 96
  }

  predicate EndsIn(r: Rect) {
    Column(r.x + r.w, r) >= 96
  }

  lemma RemainsUneven()
    ensures forall i | 0 <= i < |Remains()| :: Uneven(Remains()[i])
  {
    hide InRows, InColumns;
    RemainsInRows();
    RemainsInColumns();
    hide Remains;
  }

  lemma RemainsInRows()
    ensures forall i | 0 <= i < |Remains()| :: InRows(Remains()[i])
  {
  }

  lemma RemainsInColumns()
    ensures forall i | 0 <= i < |Remains()| :: InColumns(Remains()[i])
  {
    hide StartsIn, EndsIn;
    RemainsStart();
    RemainsEnd();
    hide Remains;
  }

  lemma RemainsStart()
    ensures forall i | 0 <= i < |Remains()| :: StartsIn(Remains()[i])
  {
  }

  lemma RemainsEnd()
    ensures forall i | 0 <= i < |Remains()| :: EndsIn(Remains()[i])
  {
  }

  lemma UnevenUnmerged(s: seq<Rect>)
    requires forall i | 0 <= i < |s| :: Uneven(s[i])
    ensures NoSharedEdges(s)
  {
    hide Uneven;
    forall i, j | 0 <= i < j < |s|
      ensures !SharesEdge(s[i], s[j])
    {
      NeverAdjoin(s[i], s[j]);
      NeverAdjoin(s[j], s[i]);
    }
  }

  lemma NeverAdjoin(a: Rect, b: Rect)
    requires Uneven(a) && Uneven(b)
    ensures !Adjoins(Horizontal, a, b) && !Adjoins(Vertical, a, b)
  {
    if a.y == b.y && a.h == b.h {
      SameColumn(b.x, a, b);
    }
    hide Column;
    BottomRow(a);
  }

  lemma SameColumn(x: int, a: Rect, b: Rect)
    requires a.y == b.y && a.h == b.h
    ensures Column(x, a) == Column(x, b)
  {
  }

  lemma BottomRow(r: Rect)
    requires InRows(r)
    ensures (r.y + r.h) % 32 == 26
  {
  }

  lemma {:induction false} AllSplit(s: seq<Rect>)
    requires forall i | 0 <= i < |s| :: IsProblematicHeight(s[i].h)
    ensures |SplitAll(s)| == 2 * |s|
  {
    if s != [] {
      AllSplit(s[..|s| - 1]);
    }
  }

  lemma RemainsSized()
    ensures AllSized(Remains())
  {
  }

  /** Merging leaves the visible regions of the last window as they are, and splitting them
      overflows the buffer. */
  lemma CrowdSpills()
    ensures Merged(Clipped(CONTENT, Hidden())) == Remains() && Spills(CONTENT, Hidden())
  {
    hide Remains, Clipped, SplitAll, NoSharedEdges, Merged;
    CrowdClipped();
    RemainsUneven();
    UnevenUnmerged(Remains());
    RemainsSized();
    MergedExact(Remains());
    AllSplit(Remains()[..32]);
    assert IsProblematicHeight(Remains()[32].h);
  }

  // ---- The stack ----

  /** The ring holds the last windows of the crowd, from number n on. */
  ghost predicate Stacked(head: Window, ring: seq<Window>, n: nat)
    reads ring
  {
    && n + |ring| == MAX_WINDOWS && Ring(head, ring) && Backwards(ring) && OwnBuffers(ring)
    && forall i | 0 <= i < |ring| ::
         ring[i].rect == Crowd()[n + i] && (ring[i].fullscreen <==> n + i == 0)
  }

  /** Ten windows, opened back to front where the compositor allows them. */
  method FillStack() returns (head: Window, ghost ring: seq<Window>)
    ensures Stacked(head, ring, 0)
    ensures fresh(set w <- ring) && fresh(Cells(ring)) && ValidBuffers(ring)
  {
    hide Crowd, Ring, Backwards, OwnBuffers, Cells, ValidBuffers, Stacked, Placed;
    CrowdPlaced();
    var n := MAX_WINDOWS - 1;
    head := LastWindow();
    ring := [head];
    while n > 0
      invariant 0 <= n < MAX_WINDOWS && Stacked(head, ring, n)
      invariant fresh(set w <- ring) && fresh(Cells(ring)) && ValidBuffers(ring)
    {
      n := n - 1;
      ghost var rest := ring;
      head := StackWindow(head, rest, n);
      ring := [head] + rest;
    }
  }

  method LastWindow() returns (head: Window)
    ensures Stacked(head, [head], MAX_WINDOWS - 1)
    ensures fresh(head) && fresh(Cells([head])) && ValidBuffers([head])
  {
    hide Ring, Backwards;
    head := OpenWindow(null, Crowd()[MAX_WINDOWS - 1], false, []);
    assert [head] + [] == [head];
    OneMoreCells(head, []);
  }

  /** Window n on top of those behind it. */
  method StackWindow(head: Window, ghost rest: seq<Window>, n: nat) returns (newHead: Window)
    requires n + 1 < MAX_WINDOWS && Stacked(head, rest, n + 1) && Placed(Crowd()[n], n == 0) == Crowd()[n]
    requires ValidBuffers(rest)
    modifies set w <- rest
    ensures Stacked(newHead, [newHead] + rest, n) && ValidBuffers([newHead] + rest)
    ensures fresh(newHead) && fresh(newHead.visible) && fresh(newHead.visible.rects)
    ensures Cells([newHead] + rest) == Cells(rest) + {newHead.visible, newHead.visible.rects}
    ensures (set w <- [newHead] + rest) == (set w <- rest) + {newHead}
  {
    hide Crowd, Ring, Backwards, OwnBuffers;
    newHead := OpenWindow(head, Crowd()[n], n == 0, rest);
    OneMore(newHead, rest, n);
    OneMoreCells(newHead, rest);
  }

  lemma OneMoreCells(head: Window, rest: seq<Window>)
    requires ValidBuffers(rest) && head.visible.Valid()
    ensures Cells([head] + rest) == Cells(rest) + {head.visible, head.visible.rects}
    ensures (set w <- [head] + rest) == (set w <- rest) + {head}
    ensures ValidBuffers([head] + rest)
  {
  }

  lemma OneMore(head: Window, rest: seq<Window>, n: nat)
    requires n + 1 + |rest| == MAX_WINDOWS && head.rect == Crowd()[n] && (head.fullscreen <==> n == 0)
    requires forall i | 0 <= i < |rest| :: rest[i].rect == Crowd()[n + 1 + i] && !rest[i].fullscreen
    requires var ring := [head] + rest; Ring(head, ring) && Backwards(ring) && OwnBuffers(ring)
    ensures Stacked(head, [head] + rest, n)
  {
    hide Crowd, Ring, Backwards, OwnBuffers;
    var ring := [head] + rest;
    forall i | 0 <= i < |ring|
      ensures ring[i].rect == Crowd()[n + i] && (ring[i].fullscreen <==> n + i == 0)
    {
      if i > 0 {
        assert ring[i] == rest[i - 1] && rest[i - 1].rect == Crowd()[n + 1 + (i - 1)];
      }
    }
  }

  lemma CrowdPlaced()
    ensures forall i | 0 <= i < MAX_WINDOWS :: Placed(Crowd()[i], i == 0) == Crowd()[i]
  {
  }

  lemma CrowdSized()
    ensures AllSized(Crowd())
  {
  }

  lemma CrowdHides(ring: seq<Window>)
    requires |ring| == MAX_WINDOWS
    requires forall i | 0 <= i < |ring| :: ring[i].rect == Crowd()[i] && (ring[i].fullscreen <==> i == 0)
    ensures OuterAreas(ring[..MAX_WINDOWS - 1]) == Hidden() && ring[MAX_WINDOWS - 1].ContentArea() == CONTENT
  {
  }

  /** Drawing the stack of ten windows overflows a buffer. */
  method StackOverflows() returns (overflow: bool)
    ensures overflow
  {
    hide Hidden, Remains, Clipped, Merged, Spills, OuterAreas, Backwards, OwnBuffers, Buffers, ShownBy;
    var head;
    ghost var ring;
    head, ring := FillStack();
    CrowdSized();
    CrowdHides(ring);
    hide Crowd;
    CrowdSpills();
    assert SpillsAt(ring, MAX_WINDOWS - 1);
    hide SpillsAt;
    assert Drawn(ring, MAX_WINDOWS - 1);
    overflow := CalculateStack(head, ring);
  }
}
