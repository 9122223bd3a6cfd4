/** Framebuffers and the virtual windows they are mapped in: one window apiece, its last page
    left unmapped as a guard. */
module FrameWindows {
  import opened BuddySpec
  import opened PageLists
  import opened PhysicalPages
  import opened Ownership

  type Places = map<nat, Block>

  ghost predicate Injective(m: Places) {
    forall f <- m, g <- m :: m[f] == m[g] ==> f == g
  }

  ghost predicate Apart(m: Places) {
    forall f <- m, g <- m :: f != g ==> !m[f].Overlaps(m[g])
  }

  /** All pages of a framebuffer, the guard included, lie in the block and inside the pool. */
  predicate Fits(m: FrameMem, at: Block, limit: nat) {
    m.numPages <= at.Size() && at.index + m.numPages <= limit
  }

  /** One framebuffer: its pages fill its window but for the guard page at the end. */
  ghost predicate FrameOk(m: FrameMem, at: Block, home: Block, first: nat, limit: nat) {
    && m.numPages >= 2 && |m.pages| == m.numPages - 1
    && m.pixels == first + home.index
    && Fits(m, at, limit)
    && Descending(m.pages, first + at.index) && NoDuplicates(m.pages)
  }

  /** The windows the framebuffers were allocated with are the live ones; those they are mapped in
      do not overlap. */
  ghost predicate FrameWindowsOk(frames: map<nat, FrameMem>, at: Places, home: Places, live: set<Block>, first: nat,
                                 limit: nat) {
    && at.Keys == frames.Keys && home.Keys == frames.Keys
    && Apart(at) && Injective(home) && home.Values == live
    && (forall f <- frames :: FrameOk(frames[f], at[f], home[f], first, limit))
  }

  ghost function FrameWindow(frames: map<nat, FrameMem>, at: Places, first: nat, f: nat): PageMap
    requires f in frames && f in at
  {
    Window(frames[f].pages, first + at[f].index)
  }

  /** Every framebuffer's window. */
  ghost function FrameMaps(frames: map<nat, FrameMem>, at: Places, first: nat): (r: map<nat, PageMap>)
    requires frames.Keys == at.Keys
    ensures r.Keys == frames.Keys
  {
    map f | f in frames :: FrameWindow(frames, at, first, f)
  }

  /** m maps what the parts map, and nothing else. */
  ghost predicate UnionOf(m: PageMap, parts: map<nat, PageMap>) {
    && (forall v <- m :: exists f :: f in parts && v in parts[f])
    && (forall f <- parts, v <- parts[f] :: v in m && m[v] == parts[f][v])
  }

  ghost predicate FrameMapIs(m: PageMap, frames: map<nat, FrameMem>, at: Places, first: nat) {
    at.Keys == frames.Keys && UnionOf(m, FrameMaps(frames, at, first))
  }

  lemma PartAdded(m: PageMap, parts: map<nat, PageMap>, f: nat, w: PageMap)
    requires UnionOf(m, parts) && f !in parts && m.Keys !! w.Keys
    ensures UnionOf(m + w, parts[f := w])
  {
    var parts' := parts[f := w];
    forall v | v in m + w
      ensures exists g :: g in parts' && v in parts'[g]
    {
      if v in w {
        assert f in parts' && v in parts'[f];
      } else {
        var g :| g in parts && v in parts[g];
        assert g in parts' && v in parts'[g];
      }
    }
  }

  lemma PartRemoved(m: PageMap, parts: map<nat, PageMap>, f: nat)
    requires UnionOf(m, parts) && f in parts
    requires forall g <- parts :: g != f ==> parts[g].Keys !! parts[f].Keys
    ensures UnionOf(m - parts[f].Keys, parts - {f}) && parts[f].Keys <= m.Keys
  {
    var parts' := parts - {f};
    forall v | v in m - parts[f].Keys
      ensures exists g :: g in parts' && v in parts'[g]
    {
      var g :| g in parts && v in parts[g];
      assert g in parts' && v in parts'[g];
    }
  }

  ghost predicate Between(m: PageMap, low: nat, high: nat) {
    forall v <- m :: low <= v < high
  }

  lemma NoFrames(first: nat, limit: nat)
    ensures FrameWindowsOk(map[], map[], map[], {}, first, limit)
    ensures FrameMapIs(map[], map[], map[], first)
  {
  }

  lemma FrameShape(frames: map<nat, FrameMem>, at: Places, home: Places, live: set<Block>, first: nat, limit: nat,
                   f: nat)
    requires FrameWindowsOk(frames, at, home, live, first, limit) && f in frames
    ensures f in at && f in home && home[f] in live && FrameOk(frames[f], at[f], home[f], first, limit)
  {
  }

  /** Windows of different framebuffers share no page, the guard pages included. */
  lemma WindowsApart(frames: map<nat, FrameMem>, at: Places, home: Places, live: set<Block>, first: nat, limit: nat,
                     f: nat, g: nat)
    requires FrameWindowsOk(frames, at, home, live, first, limit) && f in frames && g in frames && f != g
    ensures FrameWindow(frames, at, first, f).Keys !! FrameWindow(frames, at, first, g).Keys
    ensures first + at[f].index + frames[f].numPages - 1 !in FrameWindow(frames, at, first, g)
  {
    assert !at[f].Overlaps(at[g]);
    assert FrameOk(frames[f], at[f], home[f], first, limit) && FrameOk(frames[g], at[g], home[g], first, limit);
  }

  lemma MapsApart(frames: map<nat, FrameMem>, at: Places, home: Places, live: set<Block>, first: nat, limit: nat)
    requires FrameWindowsOk(frames, at, home, live, first, limit)
    ensures forall f, g | f in frames && g in frames && f != g ::
              FrameMaps(frames, at, first)[f].Keys !! FrameMaps(frames, at, first)[g].Keys
  {
    hide FrameOk, Window;
    forall f, g | f in frames && g in frames && f != g
      ensures FrameMaps(frames, at, first)[f].Keys !! FrameMaps(frames, at, first)[g].Keys
    {
      WindowsApart(frames, at, home, live, first, limit, f, g);
    }
  }

  /** Everything the framebuffers map lies in the window area. */
  lemma FrameMapBetween(m: PageMap, frames: map<nat, FrameMem>, at: Places, home: Places, live: set<Block>, first: nat,
                        limit: nat)
    requires FrameWindowsOk(frames, at, home, live, first, limit) && FrameMapIs(m, frames, at, first)
    ensures Between(m, first, first + limit)
  {
    forall v | v in m
      ensures first <= v < first + limit
    {
      var f :| f in frames && v in FrameWindow(frames, at, first, f);
      assert FrameOk(frames[f], at[f], home[f], first, limit);
    }
  }

  /** The last page of every window stays unmapped. */
  lemma GuardUnmapped(m: PageMap, frames: map<nat, FrameMem>, at: Places, home: Places, live: set<Block>, first: nat,
                      limit: nat, f: nat)
    requires FrameWindowsOk(frames, at, home, live, first, limit) && FrameMapIs(m, frames, at, first) && f in frames
    ensures first + at[f].index + frames[f].numPages - 1 !in m
  {
    hide FrameWindowsOk;
    var guard := first + at[f].index + frames[f].numPages - 1;
    FrameShape(frames, at, home, live, first, limit, f);
    if guard in m {
      var g :| g in frames && guard in FrameWindow(frames, at, first, g);
      if g != f {
        WindowsApart(frames, at, home, live, first, limit, f, g);
      }
    }
  }

  // ---- One framebuffer more, one fewer ----

  lemma FrameAdded(m: PageMap, frames: map<nat, FrameMem>, at: Places, home: Places, live: set<Block>, first: nat,
                   limit: nat, f: nat, next: FrameMem, b: Block, h: Block)
    requires FrameWindowsOk(frames, at, home, live, first, limit) && FrameMapIs(m, frames, at, first) && f !in frames
    requires FrameOk(next, b, h, first, limit) && h !in live && forall g <- at :: !at[g].Overlaps(b)
    ensures FrameWindowsOk(frames[f := next], at[f := b], home[f := h], live + {h}, first, limit)
    ensures FrameMapIs(m + Window(next.pages, first + b.index), frames[f := next], at[f := b], first)
    ensures m.Keys !! Window(next.pages, first + b.index).Keys
    ensures Between(Window(next.pages, first + b.index), first, first + limit)
  {
    hide FrameWindowsOk, FrameOk, Window, UnionOf;
    var w := Window(next.pages, first + b.index);
    PlaceAdded(frames, at, home, live, first, limit, f, next, b, h);
    WindowFree(m, frames, at, home, live, first, limit, next, b, h);
    PartAdded(m, FrameMaps(frames, at, first), f, w);
    MapsAdded(frames, at, first, f, next, b);
  }

  lemma MapsAdded(frames: map<nat, FrameMem>, at: Places, first: nat, f: nat, next: FrameMem, b: Block)
    requires frames.Keys == at.Keys && f !in frames
    ensures FrameMaps(frames, at, first)[f := Window(next.pages, first + b.index)]
         == FrameMaps(frames[f := next], at[f := b], first)
  {
    hide Window;
  }

  /** A window overlapping no other is free and inside the window area. */
  lemma WindowFree(m: PageMap, frames: map<nat, FrameMem>, at: Places, home: Places, live: set<Block>, first: nat,
                   limit: nat, next: FrameMem, b: Block, h: Block)
    requires FrameWindowsOk(frames, at, home, live, first, limit) && FrameMapIs(m, frames, at, first)
    requires FrameOk(next, b, h, first, limit) && forall g <- at :: !at[g].Overlaps(b)
    ensures m.Keys !! Window(next.pages, first + b.index).Keys
    ensures Between(Window(next.pages, first + b.index), first, first + limit)
  {
    hide FrameWindowsOk, Descending, NoDuplicates;
    forall v | v in m
      ensures v !in Window(next.pages, first + b.index)
    {
      var g :| g in frames && v in FrameWindow(frames, at, first, g);
      FrameShape(frames, at, home, live, first, limit, g);
      assert !at[g].Overlaps(b);
    }
  }

  lemma PlaceAdded(frames: map<nat, FrameMem>, at: Places, home: Places, live: set<Block>, first: nat, limit: nat,
                   f: nat, next: FrameMem, b: Block, h: Block)
    requires FrameWindowsOk(frames, at, home, live, first, limit) && f !in frames
    requires FrameOk(next, b, h, first, limit) && h !in live && forall g <- at :: !at[g].Overlaps(b)
    ensures FrameWindowsOk(frames[f := next], at[f := b], home[f := h], live + {h}, first, limit)
  {
    hide FrameOk;
    PlacesAdded(home, f, h);
  }

  lemma PlacesAdded(m: Places, f: nat, b: Block)
    requires f !in m
    ensures m[f := b].Values == m.Values + {b}
  {
    var m' := m[f := b];
    assert f in m' && m'[f] == b;
    forall x | x in m.Values + {b}
      ensures x in m'.Values
    {
      if x in m.Values {
        var g :| g in m && m[g] == x;
        assert m'[g] == x;
      }
    }
  }

  lemma PlacesRemoved(m: Places, f: nat)
    requires f in m
    ensures (m - {f}).Values <= m.Values <= (m - {f}).Values + {m[f]}
    ensures Injective(m) ==> (m - {f}).Values == m.Values - {m[f]}
  {
    var m' := m - {f};
    forall x | x in m.Values && x != m[f]
      ensures x in m'.Values
    {
      var g :| g in m && m[g] == x;
      assert m'[g] == x;
    }
  }

  lemma FrameRemoved(m: PageMap, frames: map<nat, FrameMem>, at: Places, home: Places, live: set<Block>, first: nat,
                     limit: nat, f: nat)
    requires FrameWindowsOk(frames, at, home, live, first, limit) && FrameMapIs(m, frames, at, first) && f in frames
    ensures var w := FrameWindow(frames, at, first, f);
      && w.Keys <= m.Keys
      && FrameWindowsOk(frames - {f}, at - {f}, home - {f}, live - {home[f]}, first, limit)
      && FrameMapIs(m - w.Keys, frames - {f}, at - {f}, first)
  {
    hide FrameWindowsOk, UnionOf, Window;
    var parts := FrameMaps(frames, at, first);
    PlaceRemoved(frames, at, home, live, first, limit, f);
    MapsApart(frames, at, home, live, first, limit);
    PartRemoved(m, parts, f);
    assert parts - {f} == FrameMaps(frames - {f}, at - {f}, first);
  }

  lemma PlaceRemoved(frames: map<nat, FrameMem>, at: Places, home: Places, live: set<Block>, first: nat, limit: nat,
                     f: nat)
    requires FrameWindowsOk(frames, at, home, live, first, limit) && f in frames
    ensures f in at && f in home && frames.Keys == at.Keys
    ensures FrameWindowsOk(frames - {f}, at - {f}, home - {f}, live - {home[f]}, first, limit)
  {
    hide FrameOk;
    PlacesRemoved(home, f);
  }

  // ---- Exchanging two windows ----

  ghost function SwapFrames(frames: map<nat, FrameMem>, at: Places, first: nat, a: nat, b: nat): map<nat, FrameMem>
    requires a in frames && b in frames && a in at && b in at
  {
    frames[a := frames[a].(pages := Moved(frames[a].pages, first + at[b].index))]
          [b := frames[b].(pages := Moved(frames[b].pages, first + at[a].index))]
  }

  ghost function SwapPlaces(at: Places, a: nat, b: nat): Places
    requires a in at && b in at
  {
    at[a := at[b]][b := at[a]]
  }

  /** The pages of f, as they are mapped in the window of g. */
  ghost function MovedTo(frames: map<nat, FrameMem>, at: Places, first: nat, f: nat, g: nat): PageMap
    requires f in frames && g in at
  {
    Window(Moved(frames[f].pages, first + at[g].index), first + at[g].index)
  }

  /** Two windows can be unmapped and two others mapped, one after the other. */
  ghost predicate Swappable(entries: PageMap, wa: PageMap, wb: PageMap, wa': PageMap, wb': PageMap) {
    && wa.Keys <= entries.Keys && wb.Keys <= (entries - wa.Keys).Keys
    && wa'.Keys !! (entries - wa.Keys - wb.Keys).Keys
    && wb'.Keys !! (entries - wa.Keys - wb.Keys + wa').Keys
  }

  /** The map with a and b taken out and mapped again in each other's window. */
  ghost function SwapMap(m: PageMap, frames: map<nat, FrameMem>, at: Places, first: nat, a: nat, b: nat): PageMap
    requires a in frames && b in frames && a in at && b in at
  {
    m - FrameWindow(frames, at, first, a).Keys - FrameWindow(frames, at, first, b).Keys
      + MovedTo(frames, at, first, a, b) + MovedTo(frames, at, first, b, a)
  }

  /** Two framebuffers that fit each other's windows, exchanged: both are taken out and put back. */
  lemma FramesSwapped(m: PageMap, frames: map<nat, FrameMem>, at: Places, home: Places, live: set<Block>, first: nat,
                      limit: nat, a: nat, b: nat)
    requires FrameWindowsOk(frames, at, home, live, first, limit) && FrameMapIs(m, frames, at, first)
    requires a in frames && b in frames && a != b && Fits(frames[a], at[b], limit) && Fits(frames[b], at[a], limit)
    ensures FrameWindowsOk(SwapFrames(frames, at, first, a, b), SwapPlaces(at, a, b), home, live, first, limit)
    ensures FrameMapIs(SwapMap(m, frames, at, first, a, b),
                       SwapFrames(frames, at, first, a, b), SwapPlaces(at, a, b), first)
    ensures Swappable(m, FrameWindow(frames, at, first, a), FrameWindow(frames, at, first, b),
                      MovedTo(frames, at, first, a, b), MovedTo(frames, at, first, b, a))
    ensures Between(MovedTo(frames, at, first, a, b), first, first + limit)
    ensures Between(MovedTo(frames, at, first, b, a), first, first + limit)
  {
    hide UnionOf, FrameWindowsOk, Window, Moved, FrameMapIs, FrameOk;
    FrameShape(frames, at, home, live, first, limit, a);
    FrameShape(frames, at, home, live, first, limit, b);
    var nextA := frames[a].(pages := Moved(frames[a].pages, first + at[b].index));
    var nextB := frames[b].(pages := Moved(frames[b].pages, first + at[a].index));
    TwoFrames(frames, at, home, live, first, limit, a, b);
    FrameRemoved(m, frames, at, home, live, first, limit, a);
    var m1 := m - FrameWindow(frames, at, first, a).Keys;
    FrameRemoved(m1, frames - {a}, at - {a}, home - {a}, live - {home[a]}, first, limit, b);
    var m2 := m1 - FrameWindow(frames, at, first, b).Keys;
    var frames2: map<nat, FrameMem>, at2: Places, home2: Places := frames - {a} - {b}, at - {a} - {b}, home - {a} - {b};
    var live2 := live - {home[a]} - {home[b]};
    FrameAdded(m2, frames2, at2, home2, live2, first, limit, a, nextA, at[b], home[a]);
    FrameAdded(m2 + MovedTo(frames, at, first, a, b), frames2[a := nextA], at2[a := at[b]], home2[a := home[a]],
               live2 + {home[a]}, first, limit, b, nextB, at[a], home[b]);
    assert frames2[a := nextA][b := nextB] == SwapFrames(frames, at, first, a, b);
    assert at2[a := at[b]][b := at[a]] == SwapPlaces(at, a, b);
    assert home2[a := home[a]][b := home[b]] == home;
    assert live2 + {home[a]} + {home[b]} == live;
  }

  lemma TwoFrames(frames: map<nat, FrameMem>, at: Places, home: Places, live: set<Block>, first: nat, limit: nat,
                  a: nat, b: nat)
    requires FrameWindowsOk(frames, at, home, live, first, limit)
    requires a in frames && b in frames && a != b && a in at && b in at
    requires Fits(frames[a], at[b], limit) && Fits(frames[b], at[a], limit)
    ensures a in home && b in home && {home[a], home[b]} <= live && home[a] != home[b] && !at[b].Overlaps(at[a])
    ensures forall g <- at :: g != a && g != b ==> !at[g].Overlaps(at[a]) && !at[g].Overlaps(at[b])
    ensures FrameOk(frames[a].(pages := Moved(frames[a].pages, first + at[b].index)), at[b], home[a], first, limit)
    ensures FrameOk(frames[b].(pages := Moved(frames[b].pages, first + at[a].index)), at[a], home[b], first, limit)
  {
    hide FrameOk, Moved, Fits;
    FrameShape(frames, at, home, live, first, limit, a);
    FrameShape(frames, at, home, live, first, limit, b);
    MovedOk(frames[a], at[a], home[a], at[b], first, limit);
    MovedOk(frames[b], at[b], home[b], at[a], first, limit);
    TwoPlaces(frames, at, home, live, first, limit, a, b);
    hide FrameWindowsOk, Block.Overlaps;
  }

  lemma TwoPlaces(frames: map<nat, FrameMem>, at: Places, home: Places, live: set<Block>, first: nat, limit: nat,
                  a: nat, b: nat)
    requires FrameWindowsOk(frames, at, home, live, first, limit)
    requires a in frames && b in frames && a != b && a in at && b in at && a in home && b in home
    ensures home[a] != home[b] && !at[b].Overlaps(at[a])
    ensures forall g <- at :: g != a && g != b ==> !at[g].Overlaps(at[a]) && !at[g].Overlaps(at[b])
  {
    hide FrameOk;
  }

  /** One framebuffer, remapped in another block it fits. */
  lemma MovedOk(m: FrameMem, at: Block, home: Block, there: Block, first: nat, limit: nat)
    requires FrameOk(m, at, home, first, limit) && Fits(m, there, limit)
    ensures FrameOk(m.(pages := Moved(m.pages, first + there.index)), there, home, first, limit)
  {
    hide Moved;
    MovedWindow(m.pages, first + at.index, first + there.index);
  }

  /** And in no other. */
  lemma MovedNeedsRoom(frames: map<nat, FrameMem>, at: Places, home: Places, live: set<Block>, first: nat, limit: nat,
                       a: nat, b: nat)
    requires a in frames && b in frames && a in at && b in at && a != b
    requires FrameWindowsOk(SwapFrames(frames, at, first, a, b), SwapPlaces(at, a, b), home, live, first, limit)
    ensures Fits(frames[a], at[b], limit) && Fits(frames[b], at[a], limit)
  {
    hide Moved;
    var frames', at' := SwapFrames(frames, at, first, a, b), SwapPlaces(at, a, b);
    FrameShape(frames', at', home, live, first, limit, a);
    FrameShape(frames', at', home, live, first, limit, b);
  }

  ghost function Other(a: nat, b: nat, g: nat): nat {
    if g == a then b else if g == b then a else g
  }

  lemma SwapIs(at: Places, a: nat, b: nat)
    requires a in at && b in at
    ensures SwapPlaces(at, a, b).Keys == at.Keys
    ensures forall g <- at {:trigger SwapPlaces(at, a, b)[g]} :: SwapPlaces(at, a, b)[g] == at[Other(a, b, g)]
  {
  }

  lemma SwapValues(at: Places, a: nat, b: nat)
    requires a in at && b in at
    ensures SwapPlaces(at, a, b).Values == at.Values
  {
    hide SwapPlaces;
    var at' := SwapPlaces(at, a, b);
    SwapIs(at, a, b);
    forall x | x in at.Values
      ensures x in at'.Values
    {
      var g :| g in at && at[g] == x;
      assert at'[Other(a, b, g)] == x;
    }
    forall x | x in at'.Values
      ensures x in at.Values
    {
      var g :| g in at' && at'[g] == x;
      assert at[Other(a, b, g)] == x;
    }
  }
}
