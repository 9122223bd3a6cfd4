/** Framebuffers: allocated with a window and pages of their own, freed, and swapped so that each
    of two owners sees the other's picture. */
module Framebuffers {
  import opened Powers
  import opened Bits
  import opened BuddySpec
  import opened BuddyTable
  import opened BuddyState
  import opened BuddyRuns
  import opened BuddyBounds
  import opened BuddyPool
  import opened PageLists
  import opened Mmu
  import opened PhysicalPages
  import opened Ownership
  import opened FrameWindows
  import opened AddressSpaces
  import Rects

  // ---- Windows ----

  /** framebuffer_vaddr_allocate: a window free so far for a size in bytes. It lies inside the pool
      when the page count is one that always does. */
  method VaddrAllocate(windows: Pool, first: nat, size: Word) returns (address: nat, numPages: nat, ghost b: Block)
    requires windows.Valid() && windows.pagesStart == first * PAGE_SIZE
    modifies windows, windows.blocks
    ensures windows.Valid()
    ensures address == 0 <==> !old(CanGrant(windows, size))
    ensures address == 0 ==> numPages == 0 && windows.live == old(windows.live)
    ensures address != 0 ==> b !in old(windows.live) && windows.live == old(windows.live) + {b}
    ensures address != 0 ==> address == (first + b.index) * PAGE_SIZE && address / PAGE_SIZE == first + b.index
    ensures address != 0 ==> 0 < numPages == PagesFor(size) <= b.Size()
    ensures address != 0 ==> b.order == GetOrder(PagesFor(size))
    ensures address != 0 && StaysInside(windows.shape, PagesFor(size)) ==>
              && b.index + numPages <= windows.shape.pages
              && Slot(windows.shape, old(windows.live), PagesFor(size), b.index)
    ensures address != 0 ==> forall x <- old(windows.live) :: !x.Overlaps(b)
  {
    hide Pool.Valid, Step, ListedBlocks, Grantable, Consistent, Chosen, PagesFor, StaysInside, Slot, GetOrder;
    windows.ValidIsConsistent();
    ghost var before := windows.State();
    var alignedSize := AlignDown(Wrap(size + PAGE_SIZE - 1), PAGE_SIZE);
    SameRequest(size);
    address, b := windows.Allocate(alignedSize);
    numPages := 0;
    if address != 0 {
      numPages := alignedSize / PAGE_SIZE;
      WindowGranted(windows.shape, before, numPages, b, windows.State());
      WindowAddress(first, b.index);
    } else if alignedSize > 0 {
      StepLive(windows.shape, before, Refused(PagesFor(size)), windows.State());
    }
  }

  /** The window pool can meet a request of so many bytes. */
  ghost predicate CanGrant(windows: Pool, size: Word)
    reads windows, windows.blocks
  {
    PagesFor(size) > 0 && windows.shape.Indices() <= windows.blocks.Length
        && Grantable(windows.shape, windows.State(), PagesFor(size))
  }

  /** And then another of as many. */
  ghost predicate CanGrantTwice(windows: Pool, size: Word)
    reads windows, windows.blocks
  {
    CanGrant(windows, size) && SecondFits(windows.shape, windows.State(), PagesFor(size))
  }

  /** Rounding the size up first asks for the same pages. */
  lemma SameRequest(size: Word)
    ensures var aligned := AlignDown(Wrap(size + PAGE_SIZE - 1), PAGE_SIZE);
      && aligned < WORD && aligned / PAGE_SIZE == PagesFor(size) == PagesFor(aligned) < WORD
      && (aligned > 0 <==> PagesFor(size) > 0)
  {
  }

  lemma WindowAddress(first: nat, i: nat)
    ensures first * PAGE_SIZE + i * PAGE_SIZE == (first + i) * PAGE_SIZE
        && (first + i) * PAGE_SIZE / PAGE_SIZE == first + i
  {
  }

  lemma WindowGranted(sh: Shape, s: PoolState, p: nat, b: Block, s': PoolState)
    requires Consistent(sh, s) && Step(sh, s, Granted(p, b), s')
    ensures Grantable(sh, s, p) && b !in s.live && s'.live == s.live + {b}
    ensures p <= b.Size() && p <= PAGE_SIZE && b.order == GetOrder(p)
    ensures StaysInside(sh, p) ==> b.index + p <= sh.pages && Slot(sh, s.live, p, b.index)
    ensures forall x <- s.live :: !x.Overlaps(b)
  {
    hide Chosen, StaysInside, GetOrder, Consistent;
    GrantIsSound(sh, s, p, b, s');
    if StaysInside(sh, p) {
      GrantInside(sh, s, p, b, s');
      ChosenStart(sh, s.live, p, b);
      assert b == Block(b.index, GetOrder(p));
    }
    InsidePages(sh, s);
  }

  lemma InsidePages(sh: Shape, s: PoolState)
    requires Consistent(sh, s)
    ensures sh.Boundary() <= sh.pages
  {
  }

  /** framebuffer_vaddr_deallocate of a live window, or of none. */
  method VaddrDeallocate(windows: Pool, first: nat, address: nat, ghost b: Block)
    requires windows.Valid() && windows.pagesStart == first * PAGE_SIZE
    requires address != 0 ==> b in windows.live && address == (first + b.index) * PAGE_SIZE
    modifies windows, windows.blocks
    ensures windows.Valid() && windows.live == if address == 0 then old(windows.live) else old(windows.live) - {b}
  {
    hide Pool.Valid, Step, ListedBlocks, Consistent, Pool.Accepts, Pool.IndexOf;
    if address != 0 {
      windows.LiveAccepted(b);
      windows.ValidIsConsistent();
      ghost var before := windows.State();
      WindowAddress(first, b.index);
      windows.Deallocate(address, b);
      StepLive(windows.shape, before, Freed(b), windows.State());
    }
  }

  // ---- The user's and the kernel's share of the MMU ----

  /** The user part of the MMU lies above every window. */
  lemma UserAbove(mem: Memory)
    requires mem.SpacesOk()
    ensures forall v <- UserMap(mem.tasks, mem.threads, mem.mappedTask) :: mem.userLow <= v
  {
  }

  /** Part of the framebuffers' share unmapped. */
  lemma ShareUnmapped(kernel: PageMap, share: PageMap, user: PageMap, w: PageMap, first: nat, low: nat)
    requires AllBelow(kernel, first) && Between(share, first, low) && (forall v <- user :: low <= v)
        && w.Keys <= share.Keys
    ensures w.Keys <= (kernel + share + user).Keys
    ensures kernel + share + user - w.Keys == kernel + (share - w.Keys) + user
  {
  }

  /** More of the window area mapped for framebuffers. */
  lemma ShareMapped(kernel: PageMap, share: PageMap, user: PageMap, w: PageMap, first: nat, low: nat)
    requires AllBelow(kernel, first) && (forall v <- user :: low <= v) && Between(w, first, low) && w.Keys !! share.Keys
    ensures w.Keys !! (kernel + share + user).Keys
    ensures kernel + share + user + w == kernel + (share + w) + user
  {
  }

  // ---- Freeing ----

  /** framebuffer_free: the pages go back, and so does the window the framebuffer was allocated
      with, wherever it is mapped by now. */
  method FramebufferFree(mem: Memory, f: nat) returns (aborted: bool)
    requires mem.Valid() && f in mem.frames
    modifies mem`frames, mem`frameMap, mem`ledger, mem`at, mem`home, mem.mmu
    modifies mem.pages, mem.pages.pool, mem.pages.pool.blocks, mem.windows, mem.windows.blocks
    ensures mem.Valid() && !aborted
    ensures mem.frames == old(mem.frames) - {f} && mem.at == old(mem.at) - {f} && mem.home == old(mem.home) - {f}
    ensures mem.windows.live == old(mem.windows.live) - {old(mem.home)[f]}
    ensures mem.pages.inUse == old(mem.pages.inUse) - PagesIn(old(mem.frames)[f].pages)
    ensures mem.mmu.entries == old(mem.mmu.entries) - old(FrameWindow(mem.frames, mem.at, mem.windowFirst, f)).Keys
    ensures old(mem.WindowsHeld()) ==> (mem.WindowsHeld() <==> old(mem.at)[f] == old(mem.home)[f])
  {
    hide Pool.Valid, Pages.Valid, FrameWindowsOk, FrameMapIs, Balanced, UserMap, Window, ThreadsOk, TasksOk, FrameOk,
      AllBelow, Descending, NoDuplicates, PagesIn, Memory.SpacesOk;
    FrameFacts(mem, f);
    RestAfterFree(mem, f);
    HeldAfterFree(mem, f);
    ghost var w := FrameWindow(mem.frames, mem.at, mem.windowFirst, f);
    var list, pixels := mem.frames[f].pages, mem.frames[f].pixels;
    aborted := mem.mmu.UnmapRanges(list, mem.windowFirst + mem.at[f].index);
    if aborted {
      return;
    }
    mem.pages.PagesDeallocate(list);
    VaddrDeallocate(mem.windows, mem.windowFirst, pixels * PAGE_SIZE, mem.home[f]);
    FramebufferForget(mem, f, list, w);
  }

  method FramebufferForget(mem: Memory, f: nat, ghost list: seq<Range>, ghost w: PageMap)
    modifies mem`frames, mem`frameMap, mem`ledger, mem`at, mem`home
    ensures mem.frames == old(mem.frames) - {f} && mem.at == old(mem.at) - {f} && mem.home == old(mem.home) - {f}
    ensures mem.ledger == old(mem.ledger) - PagesIn(list) && mem.frameMap == old(mem.frameMap) - w.Keys
  {
    mem.ledger := mem.ledger - PagesIn(list);
    mem.frameMap := mem.frameMap - w.Keys;
    mem.frames, mem.at, mem.home := mem.frames - {f}, mem.at - {f}, mem.home - {f};
  }

  /** What a framebuffer holds. */
  lemma FrameFacts(mem: Memory, f: nat)
    requires mem.Valid() && f in mem.frames
    ensures f in mem.at && f in mem.home && mem.home[f] in mem.windows.live
    ensures mem.frames[f].pixels == mem.windowFirst + mem.home[f].index && mem.frames[f].pixels > 0
    ensures |mem.frames[f].pages| == mem.frames[f].numPages - 1 >= 1
    ensures Descending(mem.frames[f].pages, mem.windowFirst + mem.at[f].index)
    ensures NoDuplicates(mem.frames[f].pages) && PagesIn(mem.frames[f].pages) <= mem.pages.inUse
  {
    hide FrameWindowsOk, FrameMapIs, UserMap;
    FrameShape(mem.frames, mem.at, mem.home, mem.windows.live, mem.windowFirst, mem.windows.shape.pages, f);
    TakeFromFrame(mem.ledger, mem.threads, mem.frames, f);
  }

  /** What is left when a framebuffer goes. */
  lemma RestAfterFree(mem: Memory, f: nat)
    requires mem.Valid() && f in mem.frames && f in mem.at && f in mem.home
    ensures var w := FrameWindow(mem.frames, mem.at, mem.windowFirst, f);
      && var rest := mem.frameMap - w.Keys;
      && w.Keys <= mem.mmu.entries.Keys
      && mem.mmu.entries - w.Keys == mem.kernel + rest + UserMap(mem.tasks, mem.threads, mem.mappedTask)
      && Between(rest, mem.windowFirst, mem.userLow) && AllBelow(rest, mem.userLow) && mem.kernel.Keys !! rest.Keys
      && FrameWindowsOk(mem.frames - {f}, mem.at - {f}, mem.home - {f}, mem.windows.live - {mem.home[f]},
                        mem.windowFirst, mem.windows.shape.pages)
      && FrameMapIs(rest, mem.frames - {f}, mem.at - {f}, mem.windowFirst)
    ensures Balanced(mem.ledger - PagesIn(mem.frames[f].pages), mem.threads, mem.frames - {f})
  {
    hide Pool.Valid, Pages.Valid, FrameWindowsOk, FrameMapIs, Balanced, UserMap, Window, ThreadsOk;
    var first, limit := mem.windowFirst, mem.windows.shape.pages;
    FrameRemoved(mem.frameMap, mem.frames, mem.at, mem.home, mem.windows.live, first, limit, f);
    FrameMapBetween(mem.frameMap, mem.frames, mem.at, mem.home, mem.windows.live, first, limit);
    UserAbove(mem);
    ShareUnmapped(mem.kernel, mem.frameMap, UserMap(mem.tasks, mem.threads, mem.mappedTask),
                  FrameWindow(mem.frames, mem.at, first, f), first, mem.userLow);
    TakeFromFrame(mem.ledger, mem.threads, mem.frames, f);
  }

  /** Freeing one framebuffer leaves the windows in use held exactly if it was mapped where it was
      allocated: otherwise it gives back the window another one is mapped in. */
  lemma HeldAfterFree(mem: Memory, f: nat)
    requires mem.Valid() && f in mem.frames && f in mem.at && f in mem.home
    ensures mem.WindowsHeld() ==>
              ((mem.at - {f}).Values == mem.windows.live - {mem.home[f]} <==> mem.at[f] == mem.home[f])
  {
    hide Pool.Valid, Pages.Valid, FrameMapIs, UserMap, ThreadsOk, FrameOk;
    assert Injective(mem.at) by {
      assert forall g <- mem.at :: mem.at[g].Overlaps(mem.at[g]);
    }
    PlacesRemoved(mem.at, f);
    assert mem.at[f] in mem.at.Values && mem.home[f] in mem.home.Values;
  }

  // ---- Allocating ----

  /** Bytes asked for a picture, four a pixel in the 32-bit formats and two in the others, and a
      page more; the product and the sum wrap. */
  function PictureSize(w: Word, h: Word, fullColour: bool): Word {
    Wrap(w * h * (if fullColour then 4 else 2) + PAGE_SIZE)
  }

  /** A picture no larger than the screen asks for its pages and one more, at most 33. */
  lemma PicturePages(w: Word, h: Word, fullColour: bool)
    requires 0 < w <= Rects.FRAMEBUFFER_MAX_W && 0 < h <= Rects.FRAMEBUFFER_MAX_H
    ensures var bytes, pages := w * h * (if fullColour then 4 else 2), PagesFor(PictureSize(w, h, fullColour));
      2 <= pages <= 33 && bytes <= (pages - 1) * PAGE_SIZE < bytes + PAGE_SIZE
  {
    Product(w, h, Rects.FRAMEBUFFER_MAX_W, Rects.FRAMEBUFFER_MAX_H);
    PagesOfBytes(w * h * (if fullColour then 4 else 2));
  }

  /** Among pictures of at most screen size, just those without pixels leave no page to map. */
  lemma EmptyPictures(w: Word, h: Word, fullColour: bool)
    requires w <= Rects.FRAMEBUFFER_MAX_W && h <= Rects.FRAMEBUFFER_MAX_H
    ensures PagesFor(PictureSize(w, h, fullColour)) == 1 <==> w == 0 || h == 0
  {
    if w > 0 && h > 0 {
      PicturePages(w, h, fullColour);
    } else {
      assert w * h == 0;
    }
  }

  lemma Product(w: nat, h: nat, maxW: nat, maxH: nat)
    requires 0 < w <= maxW && 0 < h <= maxH
    ensures 0 < w * h <= maxW * maxH
  {
    assert w * h <= maxW * h <= maxW * maxH;
  }

  lemma PagesOfBytes(bytes: nat)
    requires 0 < bytes <= 4 * Rects.FRAMEBUFFER_MAX_W * Rects.FRAMEBUFFER_MAX_H
    ensures var pages := PagesFor(Wrap(bytes + PAGE_SIZE));
      2 <= pages <= 33 && bytes <= (pages - 1) * PAGE_SIZE < bytes + PAGE_SIZE
  {
  }

  /** In the system's window pool every such picture gets a window inside. */
  lemma PicturesStayInside(w: Word, h: Word, fullColour: bool)
    requires 0 < w <= Rects.FRAMEBUFFER_MAX_W && 0 < h <= Rects.FRAMEBUFFER_MAX_H
    ensures StaysInside(Shape(9, 399, 400), PagesFor(PictureSize(w, h, fullColour)))
  {
    hide StaysInside, PictureSize, PagesFor;
    PicturePages(w, h, fullColour);
    WindowPoolStaysInside(PagesFor(PictureSize(w, h, fullColour)));
  }

  /** framebuffer_allocate: a window, kernel memory for the record, and a page for every page of
      the window but the last; a step that fails undoes those before it. With no page to map the
      original follows a null list. */
  method FramebufferAllocate(mem: Memory, f: nat, w: Word, h: Word, fullColour: bool, memory: KernelMemory)
      returns (ok: bool, aborted: bool)
    requires mem.Valid() && mem.WindowsHeld() && f !in mem.frames
    requires StaysInside(mem.windows.shape, PagesFor(PictureSize(w, h, fullColour)))
    modifies mem`frames, mem`frameMap, mem`ledger, mem`at, mem`home, mem.mmu
    modifies mem.pages, mem.pages.pool, mem.pages.pool.blocks, mem.windows, mem.windows.blocks
    ensures !aborted ==> mem.Valid() && mem.WindowsHeld()
    ensures aborted <==>
            PagesFor(PictureSize(w, h, fullColour)) == 1 && memory.record
            && old(CanGrant(mem.windows, PictureSize(w, h, fullColour)))
    ensures ok <==>
            var n := PagesFor(PictureSize(w, h, fullColour)) - 1;
            n > 0 && memory.record && n <= memory.entries && n <= |old(mem.pages.Spare())|
            && old(CanGrant(mem.windows, PictureSize(w, h, fullColour)))
    ensures !ok && !aborted ==>
              && mem.frames == old(mem.frames) && mem.windows.live == old(mem.windows.live)
              && mem.at == old(mem.at) && mem.home == old(mem.home)
              && mem.pages.inUse == old(mem.pages.inUse) && mem.mmu.entries == old(mem.mmu.entries)
    ensures ok ==> f in mem.frames && f in mem.at && FrameIsNew(mem.frames[f], mem.at[f], mem.windowFirst)
    ensures ok ==> mem.frames == old(mem.frames)[f := mem.frames[f]]
    ensures ok ==> mem.windows.live == old(mem.windows.live) + {mem.at[f]}
    ensures ok ==> mem.at == old(mem.at)[f := mem.at[f]] && mem.home == old(mem.home)[f := mem.at[f]]
    ensures ok ==> mem.at[f] !in old(mem.windows.live)
    ensures ok ==> mem.at[f].order == GetOrder(PagesFor(PictureSize(w, h, fullColour)))
                   && Slot(mem.windows.shape, old(mem.windows.live), PagesFor(PictureSize(w, h, fullColour)),
                           mem.at[f].index)
    ensures ok ==> |mem.pages.Spare()| == |old(mem.pages.Spare())| - (mem.frames[f].numPages - 1)
    ensures ok ==> mem.frames[f].numPages == PagesFor(PictureSize(w, h, fullColour)) >= 2
    ensures ok ==> PagesIn(mem.frames[f].pages) !! old(mem.pages.inUse)
                   && mem.pages.inUse == old(mem.pages.inUse) + PagesIn(mem.frames[f].pages)
    ensures ok ==> mem.mmu.entries == old(mem.mmu.entries) + Window(mem.frames[f].pages, mem.frames[f].pixels)
                   && Window(mem.frames[f].pages, mem.frames[f].pixels).Keys !! old(mem.mmu.entries).Keys
  {
    hide Pool.Valid, Pages.Valid, FrameWindowsOk, FrameMapIs, Balanced, UserMap, Window, ThreadsOk, TasksOk, FrameOk,
      AllBelow, Descending, NoDuplicates, PagesIn, CanGrant, Pages.Spare, PictureSize, PagesFor, StaysInside,
      Slot, GetOrder;
    ok, aborted := false, false;
    var size := PictureSize(w, h, fullColour);
    var address, numPages;
    ghost var b;
    address, numPages, b := VaddrAllocate(mem.windows, mem.windowFirst, size);
    if address == 0 {
      return;
    }
    if !memory.record {
      VaddrDeallocate(mem.windows, mem.windowFirst, address, b);
      return;
    }
    var list;
    ok, list := mem.pages.PagesAllocate(address / PAGE_SIZE, numPages - 1, memory.entries);
    if !ok {
      VaddrDeallocate(mem.windows, mem.windowFirst, address, b);
      return;
    }
    if list == [] {
      return false, true;
    }
    var next := FrameMem(address / PAGE_SIZE, numPages, list);
    NewFrameOk(next, b, mem.windowFirst, mem.windows.shape.pages);
    assert mem.windows.live - {b} == old(mem.windows.live);
    aborted := FramebufferAttach(mem, f, next, b);
  }

  lemma NewFrameOk(next: FrameMem, b: Block, first: nat, limit: nat)
    requires next.numPages >= 2 && |next.pages| == next.numPages - 1 && next.pixels == first + b.index
    requires Descending(next.pages, next.pixels) && NoDuplicates(next.pages)
    requires next.numPages <= b.Size() && b.index + next.numPages <= limit
    ensures FrameOk(next, b, b, first, limit)
  {
  }

  ghost predicate FrameIsNew(m: FrameMem, at: Block, first: nat) {
    m.pixels == first + at.index && |m.pages| == m.numPages - 1 && Descending(m.pages, m.pixels)
  }

  /** framebuffer_allocate from the mapping on. */
  method FramebufferAttach(mem: Memory, f: nat, next: FrameMem, ghost b: Block) returns (aborted: bool)
    requires mem.Separate() && mem.SpacesOk() && mem.MmuCoherent() && mem.pages.Valid() && mem.windows.Valid()
    requires b in mem.windows.live && mem.at.Values == mem.windows.live - {b}
    requires mem.windowFirst + mem.windows.shape.pages <= mem.userLow
        && mem.windows.pagesStart == mem.windowFirst * PAGE_SIZE
    requires FrameWindowsOk(mem.frames, mem.at, mem.home, mem.windows.live - {b}, mem.windowFirst,
                            mem.windows.shape.pages)
    requires FrameMapIs(mem.frameMap, mem.frames, mem.at, mem.windowFirst)
    requires Balanced(mem.ledger, mem.threads, mem.frames) && PagesIn(next.pages) !! mem.ledger.Keys
    requires mem.pages.inUse == mem.ledger.Keys + PagesIn(next.pages)
    requires f !in mem.frames && (forall x <- mem.windows.live - {b} :: !x.Overlaps(b))
    requires FrameOk(next, b, b, mem.windowFirst, mem.windows.shape.pages)
    modifies mem`frames, mem`frameMap, mem`ledger, mem`at, mem`home, mem.mmu
    ensures mem.Valid() && mem.WindowsHeld() && !aborted
    ensures mem.frames == old(mem.frames)[f := next]
    ensures mem.at == old(mem.at)[f := b] && mem.home == old(mem.home)[f := b]
    ensures mem.mmu.entries == old(mem.mmu.entries) + Window(next.pages, next.pixels)
    ensures Window(next.pages, next.pixels).Keys !! old(mem.mmu.entries).Keys
  {
    hide Pool.Valid, Pages.Valid, FrameWindowsOk, FrameMapIs, Balanced, UserMap, Window, ThreadsOk, TasksOk, FrameOk,
      AllBelow, Descending, NoDuplicates, PagesIn, Given, Memory.SpacesOk, Memory.Separate;
    RestAfterAllocate(mem, mem.windows.live - {b}, f, next, b);
    assert mem.windows.live - {b} + {b} == mem.windows.live;
    aborted := mem.mmu.MapRanges(next.pages, next.pixels);
    if aborted {
      return;
    }
    FramebufferRecord(mem, f, next, b);
    assert mem.PagesAccounted();
    assert mem.FramesOk();
    assert mem.MmuCoherent();
  }

  method FramebufferRecord(mem: Memory, f: nat, next: FrameMem, ghost b: Block)
    modifies mem`frames, mem`frameMap, mem`ledger, mem`at, mem`home
    ensures mem.frames == old(mem.frames)[f := next]
    ensures mem.at == old(mem.at)[f := b] && mem.home == old(mem.home)[f := b]
    ensures mem.ledger == Given(old(mem.ledger), PagesIn(next.pages), Frame(f))
    ensures mem.frameMap == old(mem.frameMap) + Window(next.pages, next.pixels)
  {
    mem.frameMap := mem.frameMap + Window(next.pages, next.pixels);
    mem.ledger := Given(mem.ledger, PagesIn(next.pages), Frame(f));
    mem.frames, mem.at, mem.home := mem.frames[f := next], mem.at[f := b], mem.home[f := b];
  }

  lemma SameKeys(frames: map<nat, FrameMem>, at: Places, home: Places, live: set<Block>, first: nat, limit: nat)
    requires FrameWindowsOk(frames, at, home, live, first, limit)
    ensures at.Keys == home.Keys == frames.Keys
  {
  }

  /** What a new framebuffer adds. */
  lemma RestAfterAllocate(mem: Memory, live: set<Block>, f: nat, next: FrameMem, b: Block)
    requires mem.SpacesOk() && mem.MmuCoherent() && mem.at.Values == live
    requires mem.windowFirst + mem.windows.shape.pages <= mem.userLow
    requires FrameWindowsOk(mem.frames, mem.at, mem.home, live, mem.windowFirst, mem.windows.shape.pages)
    requires FrameMapIs(mem.frameMap, mem.frames, mem.at, mem.windowFirst)
    requires Balanced(mem.ledger, mem.threads, mem.frames) && PagesIn(next.pages) !! mem.ledger.Keys
    requires f !in mem.frames && b !in live && (forall x <- live :: !x.Overlaps(b))
    requires FrameOk(next, b, b, mem.windowFirst, mem.windows.shape.pages)
    ensures var w := Window(next.pages, next.pixels);
      && var share := mem.frameMap + w;
      && w.Keys !! mem.mmu.entries.Keys
      && mem.mmu.entries + w == mem.kernel + share + UserMap(mem.tasks, mem.threads, mem.mappedTask)
      && AllBelow(share, mem.userLow) && mem.kernel.Keys !! share.Keys
      && FrameMapIs(share, mem.frames[f := next], mem.at[f := b], mem.windowFirst)
    ensures FrameWindowsOk(mem.frames[f := next], mem.at[f := b], mem.home[f := b], live + {b},
                           mem.windowFirst, mem.windows.shape.pages)
    ensures mem.at[f := b].Values == live + {b} && Descending(next.pages, next.pixels)
    ensures Given(mem.ledger, PagesIn(next.pages), Frame(f)).Keys == mem.ledger.Keys + PagesIn(next.pages)
    ensures Balanced(Given(mem.ledger, PagesIn(next.pages), Frame(f)), mem.threads, mem.frames[f := next])
  {
    hide Pool.Valid, Pages.Valid, FrameWindowsOk, FrameMapIs, Balanced, UserMap, Window, ThreadsOk;
    var first, limit := mem.windowFirst, mem.windows.shape.pages;
    assert forall g <- mem.at :: mem.at[g] in live;
    assert mem.at.Keys == mem.frames.Keys by {
      SameKeys(mem.frames, mem.at, mem.home, live, first, limit);
    }
    FrameAdded(mem.frameMap, mem.frames, mem.at, mem.home, live, first, limit, f, next, b, b);
    FrameMapBetween(mem.frameMap, mem.frames, mem.at, mem.home, live, first, limit);
    UserAbove(mem);
    ShareMapped(mem.kernel, mem.frameMap, UserMap(mem.tasks, mem.threads, mem.mappedTask),
                Window(next.pages, next.pixels), first, mem.userLow);
    PlacesAdded(mem.at, f, b);
    GiveToFrame(mem.ledger, mem.threads, mem.frames, f, next);
  }

  // ---- Swapping ----

  /** reassign_vaddr: a page list moved to another window, from its highest page down. */
  method ReassignVaddr(target: nat, numPages: nat, list: seq<Range>, ghost low: nat) returns (moved: seq<Range>)
    requires numPages == |list| + 1 && Descending(list, low)
    ensures moved == Moved(list, target) && Descending(moved, target)
  {
    var cur := target + (numPages - 1);
    moved := list;
    for i := 0 to |list|
      invariant |moved| == |list| && cur == target + |list| - i
      invariant moved[..i] == Moved(list, target)[..i] && moved[i..] == list[i..]
    {
      assert moved[i] == list[i];
      cur := cur - moved[i].size;
      moved := moved[i := moved[i].(vpage := cur)];
      assert moved[i] == Moved(list, target)[i];
    }
  }

  /** The same offset in the other of two windows of n pages. */
  function Counterpart(v: nat, lowA: nat, lowB: nat, n: nat): nat {
    if lowA <= v < lowA + n then v - lowA + lowB
    else if lowB <= v < lowB + n then v - lowB + lowA
    else v
  }

  /** m' is m with what two windows map exchanged offset by offset. */
  ghost predicate Exchanged(m: PageMap, m': PageMap, lowA: nat, lowB: nat, n: nat) {
    && (forall v :: v in m' <==> v in m)
    && (forall v <- m {:trigger m'[v]} ::
          Counterpart(v, lowA, lowB, n) in m && m'[v] == m[Counterpart(v, lowA, lowB, n)])
  }

  /** Each of two framebuffers fits the window the other is mapped in. */
  ghost predicate FitEachOther(mem: Memory, a: nat, b: nat)
    reads mem`frames, mem`at, mem.windows
  {
    && a in mem.frames && b in mem.frames && a in mem.at && b in mem.at
    && Fits(mem.frames[a], mem.at[b], mem.windows.shape.pages)
    && Fits(mem.frames[b], mem.at[a], mem.windows.shape.pages)
  }

  /** The page table allows both lists to be mapped where the other was. */
  ghost predicate TargetsFree(mem: Memory, a: nat, b: nat)
    requires a in mem.frames && b in mem.frames && a in mem.at && b in mem.at
    reads mem`frames, mem`at, mem.mmu
  {
    Swappable(mem.mmu.entries, FrameWindow(mem.frames, mem.at, mem.windowFirst, a),
              FrameWindow(mem.frames, mem.at, mem.windowFirst, b),
              MovedTo(mem.frames, mem.at, mem.windowFirst, a, b), MovedTo(mem.frames, mem.at, mem.windowFirst, b, a))
  }

  /** framebuffer_swap: both page lists are unmapped and mapped where the other's was, or the
      system stops on a page already mapped. Framebuffers that fit each other's windows never stop
      it, and only they leave a valid state. Without two framebuffers nothing happens. */
  method FramebufferSwap(mem: Memory, a: nat, b: nat) returns (aborted: bool)
    requires mem.Valid() && a != b
    modifies mem`frames, mem`frameMap, mem`at, mem.mmu
    ensures !(a in old(mem.frames) && b in old(mem.frames)) ==> !aborted && unchanged(mem) && unchanged(mem.mmu)
    ensures a in old(mem.frames) && b in old(mem.frames) ==> (aborted <==> !old(TargetsFree(mem, a, b)))
    ensures a in old(mem.frames) && b in old(mem.frames) && !aborted ==>
              && mem.frames == old(SwapFrames(mem.frames, mem.at, mem.windowFirst, a, b))
              && mem.at == old(SwapPlaces(mem.at, a, b)) && mem.at.Values == old(mem.at).Values
              && mem.mmu.entries == old(SwapMap(mem.mmu.entries, mem.frames, mem.at, mem.windowFirst, a, b))
              && (mem.Valid() <==> old(FitEachOther(mem, a, b)))
    ensures old(FitEachOther(mem, a, b)) ==> !aborted
  {
    hide Pool.Valid, Pages.Valid, FrameWindowsOk, FrameMapIs, Balanced, UserMap, Window, ThreadsOk, TasksOk, FrameOk,
      AllBelow, Descending, NoDuplicates, PagesIn, SwapMap, Moved, SwapFrames, SwapPlaces, Swappable, Fits,
      Memory.SpacesOk;
    if a !in mem.frames || b !in mem.frames {
      return false;
    }
    FrameFacts(mem, a);
    FrameFacts(mem, b);
    SwapValues(mem.at, a, b);
    ghost var share := SwapMap(mem.frameMap, mem.frames, mem.at, mem.windowFirst, a, b);
    if FitEachOther(mem, a, b) {
      RestAfterSwap(mem, a, b);
    }
    aborted := SwapMappings(mem, a, b);
    ghost var fits := old(FitEachOther(mem, a, b));
    mem.frameMap := share;
    mem.at := SwapPlaces(mem.at, a, b);
    if !fits && !aborted && mem.Valid() {
      MovedNeedsRoom(old(mem.frames), old(mem.at), mem.home, mem.windows.live, mem.windowFirst,
                     mem.windows.shape.pages, a, b);
    }
  }

  /** The body of framebuffer_swap: both lists unmapped, renumbered, and mapped again. */
  method SwapMappings(mem: Memory, a: nat, b: nat) returns (aborted: bool)
    requires a in mem.frames && b in mem.frames && a in mem.at && b in mem.at && a != b
    requires |mem.frames[a].pages| == mem.frames[a].numPages - 1 >= 1
        && Descending(mem.frames[a].pages, mem.windowFirst + mem.at[a].index)
    requires |mem.frames[b].pages| == mem.frames[b].numPages - 1 >= 1
        && Descending(mem.frames[b].pages, mem.windowFirst + mem.at[b].index)
    modifies mem`frames, mem.mmu
    ensures aborted <==> !old(TargetsFree(mem, a, b))
    ensures !aborted ==> mem.frames == old(SwapFrames(mem.frames, mem.at, mem.windowFirst, a, b))
    ensures !aborted ==> mem.mmu.entries == old(SwapMap(mem.mmu.entries, mem.frames, mem.at, mem.windowFirst, a, b))
  {
    hide Window, Moved, Descending;
    ghost var lowA, lowB := mem.windowFirst + mem.at[a].index, mem.windowFirst + mem.at[b].index;
    LastPage(mem.frames[a].pages, lowA);
    LastPage(mem.frames[b].pages, lowB);
    aborted := mem.mmu.UnmapRanges(mem.frames[a].pages, lowA);
    if aborted {
      return;
    }
    aborted := mem.mmu.UnmapRanges(mem.frames[b].pages, lowB);
    if aborted {
      return;
    }
    var vaddrA := mem.frames[a].pages[|mem.frames[a].pages| - 1].vpage;
    var vaddrB := mem.frames[b].pages[|mem.frames[b].pages| - 1].vpage;
    var movedA := ReassignVaddr(vaddrB, mem.frames[a].numPages, mem.frames[a].pages, lowA);
    var movedB := ReassignVaddr(vaddrA, mem.frames[b].numPages, mem.frames[b].pages, lowB);
    mem.frames := mem.frames[a := mem.frames[a].(pages := movedA)];
    mem.frames := mem.frames[b := mem.frames[b].(pages := movedB)];
    aborted := mem.mmu.MapRanges(movedA, lowB);
    if aborted {
      return;
    }
    aborted := mem.mmu.MapRanges(movedB, lowA);
  }

  lemma LastPage(list: seq<Range>, low: nat)
    requires Descending(list, low) && list != []
    ensures list[|list| - 1].vpage == low
  {
  }

  /** Two windows of a map, filled with each other's pages. */
  lemma RestAfterSwap(mem: Memory, a: nat, b: nat)
    requires mem.Valid() && a in mem.frames && b in mem.frames && a in mem.at && b in mem.at && a != b
    requires FitEachOther(mem, a, b)
    ensures var first := mem.windowFirst;
      && var share := SwapMap(mem.frameMap, mem.frames, mem.at, first, a, b);
      && TargetsFree(mem, a, b)
      && SwapMap(mem.mmu.entries, mem.frames, mem.at, first, a, b)
           == mem.kernel + share + UserMap(mem.tasks, mem.threads, mem.mappedTask)
      && AllBelow(share, mem.userLow) && mem.kernel.Keys !! share.Keys
      && FrameMapIs(share, SwapFrames(mem.frames, mem.at, first, a, b), SwapPlaces(mem.at, a, b), first)
      && FrameWindowsOk(SwapFrames(mem.frames, mem.at, first, a, b), SwapPlaces(mem.at, a, b), mem.home,
                        mem.windows.live, first, mem.windows.shape.pages)
      && Balanced(mem.ledger, mem.threads, SwapFrames(mem.frames, mem.at, first, a, b))
  {
    hide Pool.Valid, Pages.Valid, FrameWindowsOk, FrameMapIs, Balanced, UserMap, Window, ThreadsOk, Moved, MovedTo,
      SwapFrames, SwapPlaces, Swappable, Fits;
    var first, limit := mem.windowFirst, mem.windows.shape.pages;
    FramesSwapped(mem.frameMap, mem.frames, mem.at, mem.home, mem.windows.live, first, limit, a, b);
    BalancedSwap(mem, a, b);
    FrameMapBetween(mem.frameMap, mem.frames, mem.at, mem.home, mem.windows.live, first, limit);
    UserAbove(mem);
    SwapShare(mem.kernel, mem.frameMap, UserMap(mem.tasks, mem.threads, mem.mappedTask),
              FrameWindow(mem.frames, mem.at, first, a), FrameWindow(mem.frames, mem.at, first, b),
              MovedTo(mem.frames, mem.at, first, a, b), MovedTo(mem.frames, mem.at, first, b, a), first, mem.userLow);
  }

  lemma SwapShare(kernel: PageMap, share: PageMap, user: PageMap, wa: PageMap, wb: PageMap, wa': PageMap, wb': PageMap,
                  first: nat, low: nat)
    requires AllBelow(kernel, first) && Between(share, first, low) && (forall v <- user :: low <= v)
    requires Swappable(share, wa, wb, wa', wb') && Between(wa', first, low) && Between(wb', first, low)
    ensures Swappable(kernel + share + user, wa, wb, wa', wb')
    ensures kernel + share + user - wa.Keys - wb.Keys + wa' + wb'
         == kernel + (share - wa.Keys - wb.Keys + wa' + wb') + user
    ensures Between(share - wa.Keys - wb.Keys + wa' + wb', first, low)
  {
    ShareUnmapped(kernel, share, user, wa, first, low);
    ShareUnmapped(kernel, share - wa.Keys, user, wb, first, low);
    ShareMapped(kernel, share - wa.Keys - wb.Keys, user, wa', first, low);
    ShareMapped(kernel, share - wa.Keys - wb.Keys + wa', user, wb', first, low);
  }

  /** Framebuffers of one size fit each other's windows, and swapping exchanges what each offset of
      the two windows maps to and nothing else. */
  lemma EqualSizesExchange(mem: Memory, a: nat, b: nat)
    requires mem.Valid() && a in mem.frames && b in mem.frames && a in mem.at && b in mem.at && a != b
    requires mem.frames[a].numPages == mem.frames[b].numPages
    ensures FitEachOther(mem, a, b)
    ensures Exchanged(mem.mmu.entries, SwapMap(mem.mmu.entries, mem.frames, mem.at, mem.windowFirst, a, b),
                      mem.windowFirst + mem.at[a].index, mem.windowFirst + mem.at[b].index, mem.frames[a].numPages - 1)
  {
    hide Pool.Valid, Pages.Valid, FrameWindowsOk, FrameMapIs, Balanced, UserMap, Window, ThreadsOk, Moved, Exchanged,
      Descending, NoDuplicates, PagesIn;
    var first, limit := mem.windowFirst, mem.windows.shape.pages;
    FrameFacts(mem, a);
    FrameFacts(mem, b);
    FrameShape(mem.frames, mem.at, mem.home, mem.windows.live, first, limit, a);
    FrameShape(mem.frames, mem.at, mem.home, mem.windows.live, first, limit, b);
    WindowsApart(mem.frames, mem.at, mem.home, mem.windows.live, first, limit, a, b);
    WindowMapped(mem, a);
    WindowMapped(mem, b);
    ExchangedBySwap(mem.mmu.entries, mem.frames[a].pages, mem.frames[b].pages,
                    first + mem.at[a].index, first + mem.at[b].index);
  }

  /** A framebuffer's window is mapped to its pages. */
  lemma WindowMapped(mem: Memory, f: nat)
    requires mem.Valid() && f in mem.frames && f in mem.at
    ensures var w := FrameWindow(mem.frames, mem.at, mem.windowFirst, f);
      w.Keys <= mem.frameMap.Keys && forall v <- w :: v in mem.mmu.entries && mem.mmu.entries[v] == w[v]
  {
    hide Pool.Valid, Pages.Valid, FrameWindowsOk, UserMap, Window, FrameWindow, ThreadsOk, Balanced;
    UserAbove(mem);
    var w := FrameWindow(mem.frames, mem.at, mem.windowFirst, f);
    assert w == FrameMaps(mem.frames, mem.at, mem.windowFirst)[f];
  }

  lemma BalancedSwap(mem: Memory, a: nat, b: nat)
    requires mem.Valid() && a in mem.frames && b in mem.frames && a in mem.at && b in mem.at && a != b
    ensures Balanced(mem.ledger, mem.threads, SwapFrames(mem.frames, mem.at, mem.windowFirst, a, b))
  {
    hide Pool.Valid, Pages.Valid, FrameWindowsOk, FrameMapIs, UserMap, Window, ThreadsOk, Moved;
    FrameFacts(mem, a);
    FrameFacts(mem, b);
    SamePages(mem.frames[a].pages, mem.windowFirst + mem.at[a].index, mem.windowFirst + mem.at[b].index);
    SamePages(mem.frames[b].pages, mem.windowFirst + mem.at[b].index, mem.windowFirst + mem.at[a].index);
  }

  lemma SamePages(list: seq<Range>, low: nat, target: nat)
    requires Descending(list, low)
    ensures PagesIn(Moved(list, target)) == PagesIn(list)
  {
    MovedWindow(list, low, target);
    forall p
      ensures p in PagesIn(Moved(list, target)) <==> p in PagesIn(list)
    {
      assert Holds(Moved(list, target), p) <==> Holds(list, p);
    }
  }

  lemma ExchangedBySwap(m: PageMap, la: seq<Range>, lb: seq<Range>, lowA: nat, lowB: nat)
    requires |la| == |lb| && Descending(la, lowA) && Descending(lb, lowB)
    requires Window(la, lowA).Keys !! Window(lb, lowB).Keys
    requires forall v <- Window(la, lowA) :: v in m && m[v] == Window(la, lowA)[v]
    requires forall v <- Window(lb, lowB) :: v in m && m[v] == Window(lb, lowB)[v]
    ensures Exchanged(m, m - Window(la, lowA).Keys - Window(lb, lowB).Keys
                           + Window(Moved(la, lowB), lowB) + Window(Moved(lb, lowA), lowA), lowA, lowB, |la|)
  {
    hide Descending, Moved, Window, Exchanged;
    var wa, wb := Window(la, lowA), Window(lb, lowB);
    var wa', wb' := Window(Moved(la, lowB), lowB), Window(Moved(lb, lowA), lowA);
    assert wa'.Keys == wb.Keys && wb'.Keys == wa.Keys;
    forall v {:trigger wa'[v]} | v in wa'
      ensures Counterpart(v, lowA, lowB, |la|) in wa && wa'[v] == wa[Counterpart(v, lowA, lowB, |la|)]
    {
      assert v in wb && v !in wa;
      MovedEntry(la, lowA, lowB, v);
    }
    forall v {:trigger wb'[v]} | v in wb'
      ensures Counterpart(v, lowA, lowB, |la|) in wb && wb'[v] == wb[Counterpart(v, lowA, lowB, |la|)]
    {
      MovedEntry(lb, lowB, lowA, v);
    }
    Overlay(m, wa, wb, wa', wb');
    ExchangeWindows(m, wa, wb, wa', wb', m - wa.Keys - wb.Keys + wa' + wb', lowA, lowB, |la|);
  }

  lemma Overlay(m: PageMap, wa: PageMap, wb: PageMap, wa': PageMap, wb': PageMap)
    requires wa'.Keys == wb.Keys && wb'.Keys == wa.Keys && wa.Keys !! wb.Keys && wa.Keys <= m.Keys && wb.Keys <= m.Keys
    ensures var m' := m - wa.Keys - wb.Keys + wa' + wb';
      && m'.Keys == m.Keys
      && forall v <- m' :: m'[v] == if v in wb' then wb'[v] else if v in wa' then wa'[v] else m[v]
  {
  }

  lemma ExchangeWindows(m: PageMap, wa: PageMap, wb: PageMap, wa': PageMap, wb': PageMap, m': PageMap, lowA: nat,
                        lowB: nat, n: nat)
    requires wa'.Keys == wb.Keys && wb'.Keys == wa.Keys && wa.Keys !! wb.Keys
    requires (forall v <- wa :: v in m && m[v] == wa[v]) && (forall v <- wb :: v in m && m[v] == wb[v])
    requires forall v <- wa' {:trigger wa'[v]} ::
               Counterpart(v, lowA, lowB, n) in wa && wa'[v] == wa[Counterpart(v, lowA, lowB, n)]
    requires forall v <- wb' {:trigger wb'[v]} ::
               Counterpart(v, lowA, lowB, n) in wb && wb'[v] == wb[Counterpart(v, lowA, lowB, n)]
    requires forall v <- m {:trigger Counterpart(v, lowA, lowB, n)} ::
               v !in wa && v !in wb ==> Counterpart(v, lowA, lowB, n) == v
    requires m'.Keys == m.Keys
    requires forall v <- m' :: m'[v] == if v in wb' then wb'[v] else if v in wa' then wa'[v] else m[v]
    ensures Exchanged(m, m', lowA, lowB, n)
  {
    hide Counterpart;
    forall v | v in m
      ensures Counterpart(v, lowA, lowB, n) in m && m'[v] == m[Counterpart(v, lowA, lowB, n)]
    {
      var u := Counterpart(v, lowA, lowB, n);
      if v in wb' {
        assert wb'[v] == wb[u] == m[u];
      } else if v in wa' {
        assert wa'[v] == wa[u] == m[u];
      } else {
        assert u == v;
      }
    }
  }

  /** A list moved to another window shows each offset the same page. */
  lemma MovedEntry(list: seq<Range>, low: nat, target: nat, v: nat)
    requires Descending(list, low) && v in Window(Moved(list, target), target)
    ensures target <= v < target + |list| && v - target + low in Window(list, low)
    ensures Window(Moved(list, target), target)[v] == Window(list, low)[v - target + low]
  {
    assert Moved(list, target)[target + |list| - 1 - v].ppage == list[target + |list| - 1 - v].ppage;
  }
}
