/** Windows as the compositor admits them: clamped to the screen and pushed on the head of a ring. */
module WindowStack {
  import opened Rects
  import opened Merging
  import opened Visible

  const MAX_WINDOWS: nat := 10
  const WINDOW_MAX_W := FRAMEBUFFER_MAX_W - 2 * BORDER_PX
  const WINDOW_MAX_H := FRAMEBUFFER_MAX_H - BORDER_TOP_PX - BORDER_PX

  function AtLeast(low: int, x: int): int {
    if x < low then low else x
  }

  function AtMost(high: int, x: int): int {
    if x > high then high else x
  }

  /** window_clamp_size. */
  function ClampSize(r: Rect, fullscreen: bool): Rect {
    if fullscreen then
      r.(w := AtMost(FRAMEBUFFER_MAX_W, AtLeast(0, r.w)), h := AtMost(FRAMEBUFFER_MAX_H, AtLeast(0, r.h)))
    else r.(w := AtMost(WINDOW_MAX_W, AtLeast(0, r.w)), h := AtMost(WINDOW_MAX_H, AtLeast(0, r.h)))
  }

  /** window_clamp_position, for a rectangle of clamped size. */
  function ClampPosition(r: Rect, fullscreen: bool): Rect {
    if fullscreen then r.(x := 0, y := 0)
    else
      r.(x := AtMost(FRAMEBUFFER_MAX_W - (r.w + 2 * BORDER_PX), AtLeast(0, r.x)),
         y := AtMost(FRAMEBUFFER_MAX_H - (r.h + BORDER_TOP_PX + BORDER_PX), AtLeast(0, r.y)))
  }

  function Placed(request: Rect, fullscreen: bool): Rect {
    ClampPosition(ClampSize(request, fullscreen), fullscreen)
  }

  /** A window on the screen, decorations included; full-screen windows start at the corner. */
  predicate OnScreen(r: Rect, fullscreen: bool) {
    && r.Sized()
    && if fullscreen then r.x == r.y == 0 && r.w <= FRAMEBUFFER_MAX_W && r.h <= FRAMEBUFFER_MAX_H
       else && 0 <= r.x && r.x + r.w + 2 * BORDER_PX <= FRAMEBUFFER_MAX_W
            && 0 <= r.y && r.y + r.h + BORDER_TOP_PX + BORDER_PX <= FRAMEBUFFER_MAX_H
  }

  function Distance(a: int, b: int): nat {
    if a < b then b - a else a - b
  }

  /** A window is placed on the screen, where it was asked for exactly if that is on the screen;
      no size on the screen is closer to the one asked for, and no place for a window of that size. */
  lemma PlacedOnScreen(request: Rect, fullscreen: bool)
    ensures var r := Placed(request, fullscreen);
      && OnScreen(r, fullscreen) && (r == request <==> OnScreen(request, fullscreen))
      && forall q: Rect | OnScreen(q, fullscreen) ::
           && Distance(r.w, request.w) <= Distance(q.w, request.w)
           && Distance(r.h, request.h) <= Distance(q.h, request.h)
           && (q.w == r.w ==> Distance(r.x, request.x) <= Distance(q.x, request.x))
           && (q.h == r.h ==> Distance(r.y, request.y) <= Distance(q.y, request.y))
  {
    hide Distance;
    var r := Placed(request, fullscreen);
    forall q: Rect | OnScreen(q, fullscreen)
      ensures Distance(r.w, request.w) <= Distance(q.w, request.w)
      ensures Distance(r.h, request.h) <= Distance(q.h, request.h)
      ensures q.w == r.w ==> Distance(r.x, request.x) <= Distance(q.x, request.x)
      ensures q.h == r.h ==> Distance(r.y, request.y) <= Distance(q.y, request.y)
    {
      var maxW := if fullscreen then FRAMEBUFFER_MAX_W else WINDOW_MAX_W;
      var maxH := if fullscreen then FRAMEBUFFER_MAX_H else WINDOW_MAX_H;
      ClampedNearest(maxW, request.w, q.w);
      ClampedNearest(maxH, request.h, q.h);
      if q.w == r.w {
        ClampedNearest(if fullscreen then 0 else FRAMEBUFFER_MAX_W - (r.w + 2 * BORDER_PX), request.x, q.x);
      }
      if q.h == r.h {
        ClampedNearest(if fullscreen then 0 else FRAMEBUFFER_MAX_H - (r.h + BORDER_TOP_PX + BORDER_PX), request.y, q.y);
      }
    }
  }

  /** Nothing from 0 to high is closer to x than x clamped. */
  lemma ClampedNearest(high: int, x: int, y: int)
    requires 0 <= y <= high
    ensures Distance(AtMost(high, AtLeast(0, x)), x) <= Distance(y, x)
  {
  }

  /** window_create, with the size and position asked for. */
  method CreateWindow(request: Rect, fullscreen: bool) returns (window: Window)
    ensures fresh(window) && fresh(window.visible) && fresh(window.visible.rects) && window.visible.Valid()
    ensures window.rect == Placed(request, fullscreen) && window.fullscreen == fullscreen
  {
    window := new Window(Placed(request, fullscreen), fullscreen);
  }

  /** push_window: the window becomes the head of the ring. */
  method PushWindow(head: Window?, window: Window, ghost ring: seq<Window>) returns (newHead: Window)
    requires if head == null then ring == [] else Ring(head, ring) && Backwards(ring)
    requires window !in ring && forall i, j | 0 <= i < j < |ring| :: ring[i] != ring[j]
    modifies window`next, window`prev, set w <- ring
    ensures newHead == window && Ring(window, [window] + ring) && Backwards([window] + ring)
    ensures forall w <- ring :: w.rect == old(w.rect) && w.fullscreen == old(w.fullscreen)
  {
    if head != null {
      assert ring[0].prev == ring[|ring| - 1] && ring[|ring| - 1].next == ring[0];
      var tail := head.prev;
      window.next := head;
      window.prev := tail;
      head.prev := window;
      tail.next := window;
    } else {
      window.prev := window;
      window.next := window;
    }
    newHead := window;
  }

  /** A window created and pushed, with a buffer of its own; there may be ten. */
  method OpenWindow(head: Window?, request: Rect, fullscreen: bool, ghost ring: seq<Window>) returns (newHead: Window)
    requires if head == null then ring == [] else Ring(head, ring) && Backwards(ring)
    requires OwnBuffers(ring) && |ring| < MAX_WINDOWS
    modifies set w <- ring
    ensures fresh(newHead) && fresh(newHead.visible) && fresh(newHead.visible.rects) && newHead.visible.Valid()
    ensures newHead.rect == Placed(request, fullscreen) && newHead.fullscreen == fullscreen
    ensures Ring(newHead, [newHead] + ring) && Backwards([newHead] + ring) && OwnBuffers([newHead] + ring)
    ensures forall w <- ring :: w.rect == old(w.rect) && w.fullscreen == old(w.fullscreen)
  {
    hide Ring, Backwards;
    var window := CreateWindow(request, fullscreen);
    newHead := PushWindow(head, window, ring);
  }
}
