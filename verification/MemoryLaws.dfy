/** What the memory manager guarantees across operations: isolation of address spaces, growing
    undone by shrinking, and the life of a window with two framebuffers. */
module MemoryLaws {
  import opened Powers
  import opened BuddySpec
  import opened BuddyTable
  import opened BuddyRuns
  import opened BuddyPool
  import opened PageLists
  import opened Mmu
  import opened PhysicalPages
  import opened Ownership
  import opened FrameWindows
  import opened AddressSpaces
  import opened Framebuffers
  import opened Bits
  import opened BuddyState
  import opened BuddyBounds

  // ---- Isolation ----

  /** A page reached through the user region belongs to the address space of the mapped task, and
      is on no other list. */
  lemma UserPagesIsolated(mem: Memory, v: nat, other: Owner)
    requires mem.Valid() && v in mem.mmu.entries && v >= mem.userLow
    ensures mem.mappedTask in mem.tasks
    ensures var owner, page := Thread(mem.tasks[mem.mappedTask].thread), mem.mmu.entries[v];
      && page in ListOf(mem.threads, mem.frames, owner) && page in mem.pages.inUse
      && (page in ListOf(mem.threads, mem.frames, other) ==> other == owner)
  {
    hide FrameWindowsOk, FrameMapIs, Balanced;
    assert v in UserMap(mem.tasks, mem.threads, mem.mappedTask);
    var t := mem.tasks[mem.mappedTask].thread;
    var m := mem.threads[t];
    MappedPageListed(m.pages, m.start, v);
    OwnPages(mem.ledger, mem.threads, mem.frames, t);
    if mem.mmu.entries[v] in ListOf(mem.threads, mem.frames, other) {
      PagesOnOneList(mem.ledger, mem.threads, mem.frames, Thread(t), other, mem.mmu.entries[v]);
    }
  }

  lemma MappedPageListed(list: seq<Range>, low: nat, v: nat)
    requires v in Window(list, low)
    ensures Window(list, low)[v] in PagesIn(list)
  {
    assert list[low + |list| - 1 - v].ppage == Window(list, low)[v];
  }

  /** Nothing is mapped in the user region while no task is. */
  lemma NothingMapped(mem: Memory, v: nat)
    requires mem.Valid() && mem.mappedTask == 0 && v >= mem.userLow
    ensures v !in mem.mmu.entries
  {
    hide FrameWindowsOk, FrameMapIs, Balanced, ThreadsOk;
  }

  /** The page after a framebuffer's last is never mapped, in the window it has by now. */
  lemma GuardPageUnmapped(mem: Memory, f: nat)
    requires mem.Valid() && f in mem.frames && f in mem.at
    ensures mem.windowFirst + mem.at[f].index + mem.frames[f].numPages - 1 !in mem.mmu.entries
  {
    hide FrameWindowsOk, FrameMapIs, Balanced, UserMap, FrameOk, Pool.Valid, Pages.Valid, ThreadsOk;
    GuardInside(mem.frames, mem.at, mem.home, mem.windows.live, mem.windowFirst, mem.windows.shape.pages, f);
    GuardUnmapped(mem.frameMap, mem.frames, mem.at, mem.home, mem.windows.live, mem.windowFirst,
                  mem.windows.shape.pages, f);
    UserAbove(mem);
  }

  lemma GuardInside(frames: map<nat, FrameMem>, at: Places, home: Places, live: set<Block>, first: nat, limit: nat,
                    f: nat)
    requires FrameWindowsOk(frames, at, home, live, first, limit) && f in frames
    ensures f in at && first <= first + at[f].index + frames[f].numPages - 1 < first + limit
  {
    hide FrameWindowsOk;
    FrameShape(frames, at, home, live, first, limit, f);
  }

  // ---- sbrk ----

  /** Growing by n pages and then giving n pages back changes nothing. */
  method GrowThenShrink(mem: Memory, pid: nat, n: nat, entries: nat) returns (grown: bool)
    requires mem.Valid() && mem.mappedTask == pid != 0 && n > 0
    modifies mem`tasks, mem`threads, mem`ledger, mem.mmu, mem.pages, mem.pages.pool, mem.pages.pool.blocks
    ensures mem.Valid()
    ensures mem.threads == old(mem.threads) && mem.pages.inUse == old(mem.pages.inUse)
    ensures mem.mmu.entries == old(mem.mmu.entries)
    ensures grown ==> mem.tasks == old(mem.tasks)
    ensures grown <==> old(mem.threads[mem.tasks[pid].thread].end) + n <= mem.userHigh
                       && n <= |old(mem.pages.Spare())| && n <= entries
  {
    hide Memory.PagesAccounted, Memory.FramesOk, ThreadsOk, ThreadOk, AllBelow, PagesIn, Resized, Pages.Valid,
      Pages.Spare, Window;
    ghost var t := mem.tasks[pid].thread;
    ghost var m := mem.threads[t];
    mem.RunningThread(pid);
    var result, aborted;
    ghost var added, ignored;
    result, aborted, added := mem.Sbrk(pid, n, entries);
    grown := result != -1;
    if grown {
      ResizedIs(m, added, n);
      result, aborted, ignored := mem.Sbrk(pid, -(n as int), entries);
      Restored(m, added, n, ignored);
    }
    ErrnoUnmapped(mem.tasks, old(mem.tasks), mem.threads, pid);
  }

  lemma Restored(m: ThreadMem, added: seq<Range>, n: nat, ignored: seq<Range>)
    requires n > 0 && |added| == n && m.size == |m.pages| && m.end >= m.size
    ensures Resized(Resized(m, added, n), ignored, -(n as int)) == m
    ensures Resized(m, added, n).pages[..n] == added
  {
  }

  /** The last error of a task has no part in what is mapped. */
  lemma ErrnoUnmapped(a: map<nat, TaskInfo>, b: map<nat, TaskInfo>, threads: map<nat, ThreadMem>, pid: nat)
    requires pid in a && pid in b && a[pid].thread == b[pid].thread
    ensures UserMap(a, threads, pid) == UserMap(b, threads, pid)
  {
  }

  // ---- Swapping ----

  /** Swapping twice changes nothing. */
  method SwapTwice(mem: Memory, a: nat, b: nat)
    requires mem.Valid() && a != b && FitEachOther(mem, a, b)
    modifies mem`frames, mem`frameMap, mem`at, mem.mmu
    ensures mem.Valid() && mem.frames == old(mem.frames) && mem.at == old(mem.at)
    ensures mem.mmu.entries == old(mem.mmu.entries)
  {
    hide Memory.PagesAccounted, Memory.SpacesOk, Pool.Valid, Pages.Valid, FrameWindowsOk, FrameMapIs, Fits, Window,
      Moved, Memory.MmuCoherent, Descending, NoDuplicates, SwapFrames, SwapPlaces;
    FrameFacts(mem, a);
    FrameFacts(mem, b);
    WindowMapped(mem, a);
    WindowMapped(mem, b);
    SwapAllowed(mem, a, b);
    SwappedBack(mem.frames, mem.at, mem.windowFirst, a, b);
    SwapUndone(mem.mmu.entries, mem.frames, mem.at, mem.windowFirst, a, b);
    StillFit(mem, a, b);
    var aborted := FramebufferSwap(mem, a, b);
    aborted := FramebufferSwap(mem, a, b);
  }

  lemma SwapAllowed(mem: Memory, a: nat, b: nat)
    requires mem.Valid() && a != b && FitEachOther(mem, a, b)
    ensures TargetsFree(mem, a, b)
  {
    hide Memory.Valid, Swappable;
    RestAfterSwap(mem, a, b);
  }

  lemma SwappedBack(frames: map<nat, FrameMem>, at: Places, first: nat, a: nat, b: nat)
    requires a in frames && b in frames && a in at && b in at && a != b
    requires Descending(frames[a].pages, first + at[a].index) && Descending(frames[b].pages, first + at[b].index)
    ensures var frames', at' := SwapFrames(frames, at, first, a, b), SwapPlaces(at, a, b);
      && SwapFrames(frames', at', first, a, b) == frames && SwapPlaces(at', a, b) == at
  {
    hide Moved;
    MovedWindow(frames[a].pages, first + at[a].index, first + at[b].index);
    MovedWindow(frames[b].pages, first + at[b].index, first + at[a].index);
  }

  /** Swapped framebuffers fit the windows they came from. */
  lemma StillFit(mem: Memory, a: nat, b: nat)
    requires mem.Valid() && a != b && FitEachOther(mem, a, b)
    ensures var limit := mem.windows.shape.pages;
      && var frames', at' := SwapFrames(mem.frames, mem.at, mem.windowFirst, a, b), SwapPlaces(mem.at, a, b);
      && a in frames' && b in frames' && a in at' && b in at'
      && Fits(frames'[a], at'[b], limit) && Fits(frames'[b], at'[a], limit)
  {
    hide Memory.PagesAccounted, Memory.SpacesOk, Pool.Valid, FrameWindowsOk, FrameMapIs, Memory.MmuCoherent, Moved;
    FrameShape(mem.frames, mem.at, mem.home, mem.windows.live, mem.windowFirst, mem.windows.shape.pages, a);
    FrameShape(mem.frames, mem.at, mem.home, mem.windows.live, mem.windowFirst, mem.windows.shape.pages, b);
  }

  /** Where a swap has put two windows, a second one takes them away and puts the first two back. */
  lemma SwapUndone(m: PageMap, frames: map<nat, FrameMem>, at: Places, first: nat, a: nat, b: nat)
    requires a in frames && b in frames && a in at && b in at && a != b
    requires Descending(frames[a].pages, first + at[a].index) && Descending(frames[b].pages, first + at[b].index)
    requires forall v <- FrameWindow(frames, at, first, a) :: v in m && m[v] == FrameWindow(frames, at, first, a)[v]
    requires forall v <- FrameWindow(frames, at, first, b) :: v in m && m[v] == FrameWindow(frames, at, first, b)[v]
    requires Swappable(m, FrameWindow(frames, at, first, a), FrameWindow(frames, at, first, b),
                       MovedTo(frames, at, first, a, b), MovedTo(frames, at, first, b, a))
    ensures SwapMap(SwapMap(m, frames, at, first, a, b),
                    SwapFrames(frames, at, first, a, b), SwapPlaces(at, a, b), first, a, b) == m
  {
    hide Window, Moved, Descending, SwapFrames, SwapPlaces;
    SwapLeaves(m, frames, at, first, a, b);
    MovedBack(frames, at, first, a, b);
    hide FrameWindow, MovedTo;
    MapsUndone(m, FrameWindow(frames, at, first, a), FrameWindow(frames, at, first, b));
  }

  lemma MovedBack(frames: map<nat, FrameMem>, at: Places, first: nat, a: nat, b: nat)
    requires a in frames && b in frames && a in at && b in at && a != b
    requires Descending(frames[a].pages, first + at[a].index) && Descending(frames[b].pages, first + at[b].index)
    ensures var frames', at' := SwapFrames(frames, at, first, a, b), SwapPlaces(at, a, b);
      && a in frames' && b in frames' && a in at' && b in at'
      && MovedTo(frames', at', first, a, b) == FrameWindow(frames, at, first, a)
      && MovedTo(frames', at', first, b, a) == FrameWindow(frames, at, first, b)
  {
    hide Window, Moved, Descending;
    MovedWindow(frames[a].pages, first + at[a].index, first + at[b].index);
    MovedWindow(frames[b].pages, first + at[b].index, first + at[a].index);
  }

  lemma MapsUndone(m: PageMap, wa: PageMap, wb: PageMap)
    requires (forall v <- wa :: v in m && m[v] == wa[v]) && (forall v <- wb :: v in m && m[v] == wb[v])
    ensures m - wa.Keys - wb.Keys + wa + wb == m
  {
  }

  /** All else of the map is left as it was. */
  lemma SwapLeaves(m: PageMap, frames: map<nat, FrameMem>, at: Places, first: nat, a: nat, b: nat)
    requires a in frames && b in frames && a in at && b in at && a != b
    requires Swappable(m, FrameWindow(frames, at, first, a), FrameWindow(frames, at, first, b),
                       MovedTo(frames, at, first, a, b), MovedTo(frames, at, first, b, a))
    ensures var frames', at' := SwapFrames(frames, at, first, a, b), SwapPlaces(at, a, b);
      && a in frames' && b in frames' && a in at' && b in at'
      && SwapMap(m, frames, at, first, a, b)
           - FrameWindow(frames', at', first, a).Keys - FrameWindow(frames', at', first, b).Keys
         == m - FrameWindow(frames, at, first, a).Keys - FrameWindow(frames, at, first, b).Keys
  {
    hide Window, Moved;
    var m2 := m - FrameWindow(frames, at, first, a).Keys - FrameWindow(frames, at, first, b).Keys;
    MapsTaken(m2, MovedTo(frames, at, first, a, b), MovedTo(frames, at, first, b, a));
  }

  lemma MapsTaken(m: PageMap, wa: PageMap, wb: PageMap)
    requires wa.Keys !! m.Keys && wb.Keys !! (m + wa).Keys
    ensures m + wa + wb - wa.Keys - wb.Keys == m
  {
  }

  /** The page that was the guard of one framebuffer's window is mapped after a swap exactly if the
      framebuffer that came is the larger one. */
  lemma GuardMoves(mem: Memory, a: nat, b: nat)
    requires mem.Valid() && a != b && FitEachOther(mem, a, b)
    ensures mem.windowFirst + mem.at[b].index + mem.frames[b].numPages - 1
              in SwapMap(mem.mmu.entries, mem.frames, mem.at, mem.windowFirst, a, b)
            <==> mem.frames[a].numPages > mem.frames[b].numPages
  {
    hide Memory.PagesAccounted, Memory.SpacesOk, Pool.Valid, Pages.Valid, FrameMapIs, Memory.MmuCoherent, Descending,
      NoDuplicates;
    FrameFacts(mem, a);
    FrameFacts(mem, b);
    GuardPageUnmapped(mem, b);
    assert !mem.at[a].Overlaps(mem.at[b]);
  }

  // ---- Two framebuffers of a window ----

  /** Two framebuffers of one size, each mapped in the window one of them was allocated with: what
      swapping them keeps, and what freeing both needs. */
  ghost predicate Paired(mem: Memory, a: nat, b: nat)
    reads mem`frames, mem`at, mem`home
  {
    && a != b && a in mem.frames && b in mem.frames && mem.frames[a].numPages == mem.frames[b].numPages
    && a in mem.at && b in mem.at && a in mem.home && b in mem.home
    && {mem.at[a], mem.at[b]} == {mem.home[a], mem.home[b]}
  }

  /** The MMU's entries but for those of two framebuffers. */
  ghost function EntriesBeside(mem: Memory, a: nat, b: nat): PageMap
    requires Paired(mem, a, b)
    reads mem`frames, mem`at, mem`home, mem.mmu
  {
    mem.mmu.entries - FrameWindow(mem.frames, mem.at, mem.windowFirst, a).Keys
      - FrameWindow(mem.frames, mem.at, mem.windowFirst, b).Keys
  }

  /** Swapping a pair keeps it one, and its windows, its pages and all other mappings. */
  method SwapPair(mem: Memory, a: nat, b: nat)
    requires mem.Valid() && mem.WindowsHeld() && Paired(mem, a, b)
    modifies mem`frames, mem`frameMap, mem`at, mem.mmu
    ensures mem.Valid() && mem.WindowsHeld() && Paired(mem, a, b)
    ensures EntriesBeside(mem, a, b) == old(EntriesBeside(mem, a, b))
    ensures mem.at == old(SwapPlaces(mem.at, a, b))
    ensures mem.frames - {a, b} == old(mem.frames) - {a, b}
    ensures PagesIn(mem.frames[a].pages) == old(PagesIn(mem.frames[a].pages))
    ensures PagesIn(mem.frames[b].pages) == old(PagesIn(mem.frames[b].pages))
  {
    hide Memory.PagesAccounted, Memory.SpacesOk, Pool.Valid, Pages.Valid, FrameWindowsOk, FrameMapIs, Fits, Window,
      Moved, Memory.MmuCoherent, Descending, NoDuplicates, Exchanged, PagesIn;
    FrameFacts(mem, a);
    FrameFacts(mem, b);
    EqualSizesExchange(mem, a, b);
    SamePages(mem.frames[a].pages, mem.windowFirst + mem.at[a].index, mem.windowFirst + mem.at[b].index);
    SamePages(mem.frames[b].pages, mem.windowFirst + mem.at[b].index, mem.windowFirst + mem.at[a].index);
    SwapAllowed(mem, a, b);
    SwapLeaves(mem.mmu.entries, mem.frames, mem.at, mem.windowFirst, a, b);
    var aborted := FramebufferSwap(mem, a, b);
  }

  /** Two framebuffers of a size can be had: windows, pages and kernel memory suffice for both. */
  ghost predicate PairFits(mem: Memory, size: Word, first: KernelMemory, second: KernelMemory)
    requires mem.pages.Valid()
    reads mem.pages, mem.pages.pool, mem.pages.pool.blocks, mem.windows, mem.windows.blocks
  {
    var n := PagesFor(size) - 1;
    && n > 0 && first.record && second.record && n <= first.entries && n <= second.entries
    && 2 * n <= |mem.pages.Spare()| && CanGrantTwice(mem.windows, size)
  }

  /** window_framebuffer_create of a double-buffered window: two framebuffers of one size, or none. */
  method CreatePair(mem: Memory, a: nat, b: nat, w: Word, h: Word, fullColour: bool, first: KernelMemory,
                    second: KernelMemory) returns (ok: bool, aborted: bool)
    requires mem.Valid() && mem.WindowsHeld() && a !in mem.frames && b !in mem.frames && a != b
    requires StaysInside(mem.windows.shape, PagesFor(PictureSize(w, h, fullColour)))
    modifies mem`frames, mem`frameMap, mem`ledger, mem`at, mem`home, mem.mmu
    modifies mem.pages, mem.pages.pool, mem.pages.pool.blocks, mem.windows, mem.windows.blocks
    ensures aborted <==>
            PagesFor(PictureSize(w, h, fullColour)) == 1 && first.record
            && old(CanGrant(mem.windows, PictureSize(w, h, fullColour)))
    ensures ok <==> old(PairFits(mem, PictureSize(w, h, fullColour), first, second))
    ensures !aborted ==> mem.Valid() && mem.WindowsHeld() && mem.frames - {a, b} == old(mem.frames)
    ensures !aborted && !ok ==>
              && mem.frames == old(mem.frames) && mem.windows.live == old(mem.windows.live)
              && mem.pages.inUse == old(mem.pages.inUse) && mem.mmu.entries == old(mem.mmu.entries)
    ensures ok ==>
              && Paired(mem, a, b) && EntriesBeside(mem, a, b) == old(mem.mmu.entries)
              && mem.home[a] == mem.at[a] && mem.home[b] == mem.at[b]
              && mem.windows.live - {mem.home[a], mem.home[b]} == old(mem.windows.live)
              && mem.pages.inUse - PagesIn(mem.frames[a].pages) - PagesIn(mem.frames[b].pages) == old(mem.pages.inUse)
  {
    hide Memory.Valid, FrameWindow, PagesIn, CanGrant, PictureSize, PagesFor, StaysInside, Pages.Spare, TwoSlots,
      GetOrder;
    ok, aborted := CreateFirst(mem, a, w, h, fullColour, first);
    if ok {
      ok := CreateSecond(mem, a, b, w, h, fullColour, second);
    }
  }

  /** The first framebuffer, and whether a window is left for the second. */
  method CreateFirst(mem: Memory, a: nat, w: Word, h: Word, fullColour: bool, memory: KernelMemory)
      returns (ok: bool, aborted: bool)
    requires mem.Valid() && mem.WindowsHeld() && a !in mem.frames
    requires StaysInside(mem.windows.shape, PagesFor(PictureSize(w, h, fullColour)))
    modifies mem`frames, mem`frameMap, mem`ledger, mem`at, mem`home, mem.mmu
    modifies mem.pages, mem.pages.pool, mem.pages.pool.blocks, mem.windows, mem.windows.blocks
    ensures aborted <==>
            PagesFor(PictureSize(w, h, fullColour)) == 1 && memory.record
            && old(CanGrant(mem.windows, PictureSize(w, h, fullColour)))
    ensures ok <==>
            var n := PagesFor(PictureSize(w, h, fullColour)) - 1;
            n > 0 && memory.record && n <= memory.entries && n <= |old(mem.pages.Spare())|
            && old(CanGrant(mem.windows, PictureSize(w, h, fullColour)))
    ensures !aborted ==> mem.Valid() && mem.WindowsHeld()
    ensures !aborted && !ok ==>
              && mem.frames == old(mem.frames) && mem.windows.live == old(mem.windows.live)
              && mem.pages.inUse == old(mem.pages.inUse) && mem.mmu.entries == old(mem.mmu.entries)
    ensures ok ==>
              && a in mem.frames && a in mem.at && a in mem.home && mem.home[a] == mem.at[a]
              && mem.at[a] in mem.windows.live
              && mem.frames[a].numPages == PagesFor(PictureSize(w, h, fullColour))
              && mem.frames - {a} == old(mem.frames) && mem.windows.live - {mem.at[a]} == old(mem.windows.live)
              && mem.pages.inUse - PagesIn(mem.frames[a].pages) == old(mem.pages.inUse)
              && mem.mmu.entries - FrameWindow(mem.frames, mem.at, mem.windowFirst, a).Keys == old(mem.mmu.entries)
              && |mem.pages.Spare()| == |old(mem.pages.Spare())| - (mem.frames[a].numPages - 1)
              && (CanGrant(mem.windows, PictureSize(w, h, fullColour))
                  <==> old(CanGrantTwice(mem.windows, PictureSize(w, h, fullColour))))
  {
    hide Memory.Valid, Window, FrameWindow, FrameIsNew, Descending, PagesIn, CanGrant, PictureSize, PagesFor,
      StaysInside, Pages.Spare, TwoSlots, Slot, GetOrder;
    WindowsConsistent(mem);
    ghost var size, before := PictureSize(w, h, fullColour), mem.windows.State();
    ghost var room := SecondFits(mem.windows.shape, before, PagesFor(size));
    assert CanGrantTwice(mem.windows, size) <==> CanGrant(mem.windows, size) && room;
    hide CanGrantTwice, SecondFits;
    ok, aborted := FramebufferAllocate(mem, a, w, h, fullColour, memory);
    if ok {
      WindowsConsistent(mem);
      CanGrantNext(mem.windows, size, before, mem.at[a]);
      ghost var window := Window(mem.frames[a].pages, mem.frames[a].pixels);
      NewWindow(mem.frames, mem.at, mem.windowFirst, a);
      PutAndTaken(old(mem.frames), a, mem.frames[a]);
      MapTaken(old(mem.mmu.entries), window, mem.mmu.entries);
    }
  }

  lemma NewWindow(frames: map<nat, FrameMem>, at: Places, first: nat, f: nat)
    requires f in frames && f in at && FrameIsNew(frames[f], at[f], first)
    ensures FrameWindow(frames, at, first, f) == Window(frames[f].pages, frames[f].pixels)
  {
  }

  lemma MapTaken(m: PageMap, w: PageMap, n: PageMap)
    requires w.Keys !! m.Keys && n == m + w
    ensures n - w.Keys == m
  {
  }

  lemma PutAndTaken(m: map<nat, FrameMem>, a: nat, x: FrameMem)
    requires a !in m
    ensures m[a := x] - {a} == m
  {
  }

  lemma WindowsConsistent(mem: Memory)
    requires mem.Valid()
    ensures mem.pages.Valid() && mem.windows.shape.Indices() <= mem.windows.blocks.Length
    ensures Consistent(mem.windows.shape, mem.windows.State())
  {
    hide Pool.Valid, Pages.Valid, Memory.SpacesOk, Memory.MmuCoherent, ListedBlocks, Consistent;
    mem.windows.ValidIsConsistent();
  }

  /** What a granted window leaves for one of the same size. */
  lemma CanGrantNext(windows: Pool, size: Word, before: PoolState, b: Block)
    requires windows.shape.Indices() <= windows.blocks.Length && StaysInside(windows.shape, PagesFor(size))
    requires Consistent(windows.shape, before) && Consistent(windows.shape, windows.State()) && PagesFor(size) > 0
    requires Slot(windows.shape, before.live, PagesFor(size), b.index) && b.order == GetOrder(PagesFor(size))
    requires b !in before.live && windows.live == before.live + {b}
    ensures CanGrant(windows, size) <==> SecondFits(windows.shape, before, PagesFor(size))
  {
    hide Consistent, StaysInside, Slot, TwoSlots, GetOrder, PagesFor, Grantable, ListedBlocks;
    SecondGrant(windows.shape, before, PagesFor(size), b, windows.State());
  }

  /** The second framebuffer; without it the first one goes again. */
  method CreateSecond(mem: Memory, a: nat, b: nat, w: Word, h: Word, fullColour: bool, memory: KernelMemory)
      returns (ok: bool)
    requires mem.Valid() && mem.WindowsHeld() && a in mem.frames && b !in mem.frames
    requires a in mem.at && a in mem.home && mem.home[a] == mem.at[a] && mem.at[a] in mem.windows.live
    requires mem.frames[a].numPages == PagesFor(PictureSize(w, h, fullColour)) > 1
    requires StaysInside(mem.windows.shape, PagesFor(PictureSize(w, h, fullColour)))
    modifies mem`frames, mem`frameMap, mem`ledger, mem`at, mem`home, mem.mmu
    modifies mem.pages, mem.pages.pool, mem.pages.pool.blocks, mem.windows, mem.windows.blocks
    ensures ok <==>
            var n := PagesFor(PictureSize(w, h, fullColour)) - 1;
            memory.record && n <= memory.entries && n <= |old(mem.pages.Spare())|
            && old(CanGrant(mem.windows, PictureSize(w, h, fullColour)))
    ensures mem.Valid() && mem.WindowsHeld() && mem.frames - {a, b} == old(mem.frames) - {a}
    ensures !ok ==>
              && mem.frames == old(mem.frames) - {a} && mem.windows.live == old(mem.windows.live) - {old(mem.at)[a]}
              && mem.pages.inUse == old(mem.pages.inUse) - PagesIn(old(mem.frames)[a].pages)
              && mem.mmu.entries == old(mem.mmu.entries) - old(FrameWindow(mem.frames, mem.at, mem.windowFirst, a)).Keys
    ensures ok ==>
              && Paired(mem, a, b) && mem.home[a] == mem.at[a] && mem.home[b] == mem.at[b]
              && EntriesBeside(mem, a, b)
                   == old(mem.mmu.entries) - old(FrameWindow(mem.frames, mem.at, mem.windowFirst, a)).Keys
              && mem.windows.live - {mem.home[a], mem.home[b]} == old(mem.windows.live) - {old(mem.at)[a]}
              && mem.frames[a] == old(mem.frames)[a]
              && mem.pages.inUse - PagesIn(mem.frames[b].pages) == old(mem.pages.inUse)
  {
    hide Memory.Valid, Window, Descending, PagesIn, CanGrant, PictureSize, PagesFor, StaysInside, Pages.Spare, Slot,
      GetOrder;
    var aborted;
    ok, aborted := FramebufferAllocate(mem, b, w, h, fullColour, memory);
    if !ok {
      aborted := FramebufferFree(mem, a);
    }
  }

  /** WINDOW_DESTROY: both framebuffers of a pair are freed. */
  method DestroyPair(mem: Memory, a: nat, b: nat)
    requires mem.Valid() && mem.WindowsHeld() && Paired(mem, a, b)
    modifies mem`frames, mem`frameMap, mem`ledger, mem`at, mem`home, mem.mmu
    modifies mem.pages, mem.pages.pool, mem.pages.pool.blocks, mem.windows, mem.windows.blocks
    ensures mem.Valid() && mem.WindowsHeld() && mem.frames == old(mem.frames) - {a, b}
    ensures mem.windows.live == old(mem.windows.live) - {old(mem.home)[a], old(mem.home)[b]}
    ensures mem.pages.inUse
         == old(mem.pages.inUse) - PagesIn(old(mem.frames)[a].pages) - PagesIn(old(mem.frames)[b].pages)
    ensures mem.mmu.entries == old(EntriesBeside(mem, a, b))
  {
    hide Memory.PagesAccounted, Memory.SpacesOk, Pool.Valid, Pages.Valid, FrameWindowsOk, FrameMapIs, PagesIn, Window,
      Memory.MmuCoherent, Descending, NoDuplicates;
    PlacesApart(mem);
    PlacesRemoved(mem.at, a);
    PlacesRemoved(mem.at - {a}, b);
    var aborted := FramebufferFree(mem, a);
    aborted := FramebufferFree(mem, b);
    assert mem.at == old(mem.at) - {a} - {b};
    assert mem.frames == old(mem.frames) - {a, b};
  }

  /** The life of a double-buffered window: created, shown with its buffers swapped any number of
      times, and destroyed, it leaves windows, pages and mappings as it found them. */
  method LifeOfPair(mem: Memory, a: nat, b: nat, w: Word, h: Word, fullColour: bool, first: KernelMemory,
                    second: KernelMemory, swaps: nat) returns (created: bool, aborted: bool)
    requires mem.Valid() && mem.WindowsHeld() && a !in mem.frames && b !in mem.frames && a != b
    requires StaysInside(mem.windows.shape, PagesFor(PictureSize(w, h, fullColour)))
    modifies mem`frames, mem`frameMap, mem`ledger, mem`at, mem`home, mem.mmu
    modifies mem.pages, mem.pages.pool, mem.pages.pool.blocks, mem.windows, mem.windows.blocks
    ensures aborted <==>
            PagesFor(PictureSize(w, h, fullColour)) == 1 && first.record
            && old(CanGrant(mem.windows, PictureSize(w, h, fullColour)))
    ensures created <==> old(PairFits(mem, PictureSize(w, h, fullColour), first, second))
    ensures !aborted ==>
              && mem.Valid() && mem.WindowsHeld() && mem.frames == old(mem.frames)
              && mem.windows.live == old(mem.windows.live) && mem.pages.inUse == old(mem.pages.inUse)
              && mem.mmu.entries == old(mem.mmu.entries)
  {
    hide Memory.Valid, FrameWindow, PagesIn, PictureSize, PagesFor, StaysInside, PairFits, CanGrant;
    created, aborted := CreatePair(mem, a, b, w, h, fullColour, first, second);
    if aborted || !created {
      return;
    }
    label Created:
    for i := 0 to swaps
      modifies mem`frames, mem`frameMap, mem`at, mem.mmu
      invariant mem.Valid() && mem.WindowsHeld() && Paired(mem, a, b)
      invariant EntriesBeside(mem, a, b) == old(mem.mmu.entries) && mem.frames - {a, b} == old(mem.frames)
      invariant PagesIn(mem.frames[a].pages) == old@Created(PagesIn(mem.frames[a].pages))
      invariant PagesIn(mem.frames[b].pages) == old@Created(PagesIn(mem.frames[b].pages))
    {
      SwapPair(mem, a, b);
    }
    DestroyPair(mem, a, b);
  }

  /** Freeing only one buffer of a pair after one swap gives back the window the other is mapped in. */
  method FreeOneOfSwapped(mem: Memory, a: nat, b: nat, w: Word, h: Word, fullColour: bool, first: KernelMemory,
                          second: KernelMemory)
    requires mem.Valid() && mem.WindowsHeld() && a !in mem.frames && b !in mem.frames && a != b
    requires StaysInside(mem.windows.shape, PagesFor(PictureSize(w, h, fullColour)))
    requires PairFits(mem, PictureSize(w, h, fullColour), first, second)
    modifies mem`frames, mem`frameMap, mem`ledger, mem`at, mem`home, mem.mmu
    modifies mem.pages, mem.pages.pool, mem.pages.pool.blocks, mem.windows, mem.windows.blocks
    ensures mem.Valid() && !mem.WindowsHeld()
    ensures b in mem.frames && b in mem.at && mem.at[b] !in mem.windows.live
  {
    hide Memory.Valid, FrameWindow, PagesIn, PictureSize, PagesFor, StaysInside, CanGrant, CanGrantTwice;
    var ok, aborted := CreatePair(mem, a, b, w, h, fullColour, first, second);
    SwapPair(mem, a, b);
    aborted := FramebufferFree(mem, a);
  }

  /** A fresh window pool of the system has two windows for every size up to 128 pages. */
  lemma FreshPoolFitsPair(s: PoolState, p: Word)
    requires Consistent(Shape(9, 399, 400), s) && s.live == {} && 0 < p <= 128
    ensures Grantable(Shape(9, 399, 400), s, p) && SecondFits(Shape(9, 399, 400), s, p)
  {
    hide GetOrder, Consistent, Grantable, Slot, StaysInside;
    var sh, k := Shape(9, 399, 400), GetOrder(p);
    AllFreed(sh, s);
    GetOrderBound(p);
    SmallOrders(p, k);
    FreshSlots(p, k);
    WindowPoolStaysInside(p);
    GrantableBySlot(sh, s, p);
  }

  lemma FreshSlots(p: Word, k: nat)
    requires p <= Pow2(k) && k == GetOrder(p) <= 7 && p <= 128
    ensures Slot(Shape(9, 399, 400), {}, p, 0) && Slot(Shape(9, 399, 400), {}, p, Pow2(k)) && Pow2(k) <= 128
  {
    hide GetOrder;
    PairOfSlots(k);
  }

  lemma PairOfSlots(k: nat)
    requires k <= 7
    ensures InPool(9, Block(0, k)) && InPool(9, Block(Pow2(k), k)) && 2 * Pow2(k) <= 256 && Pow2(9) == 512
  {
    assert Pow2(9) == 512 && Pow2(8) == 256;
    Pow2Monotone(k, 8);
    ZeroAligned(k);
    Pow2Aligned(k, k);
  }

  lemma PlacesApart(mem: Memory)
    requires mem.Valid()
    ensures Injective(mem.at) && Injective(mem.home)
  {
    hide Memory.PagesAccounted, Memory.SpacesOk, Pool.Valid, Pages.Valid, FrameMapIs, Memory.MmuCoherent, FrameOk;
    assert forall g <- mem.at :: mem.at[g].Overlaps(mem.at[g]);
  }
}
