/** The kernel's memory manager: task address spaces grown and shrunk by sbrk, mapped when a task
    is switched in and unmapped when it is switched out, beside the framebuffers. Each method is
    one atomic step; addresses and sizes are counted in pages. */
module AddressSpaces {
  import opened BuddySpec
  import opened BuddyState
  import opened BuddyPool
  import opened PageLists
  import opened Mmu
  import opened PhysicalPages
  import opened Ownership
  import opened FrameWindows

  const ENOMEM: nat := 12

  /** The memory side of a task: which address space it uses, and its last error. */
  datatype TaskInfo = TaskInfo(thread: nat, errno: nat)

  ghost predicate ThreadOk(m: ThreadMem, low: nat, high: nat) {
    && m.start == low && m.end == m.start + m.size && m.size == |m.pages| && m.end <= high
    && Descending(m.pages, m.start) && NoDuplicates(m.pages)
  }

  ghost predicate ThreadsOk(threads: map<nat, ThreadMem>, low: nat, high: nat) {
    forall t <- threads :: ThreadOk(threads[t], low, high)
  }

  ghost predicate TasksOk(tasks: map<nat, TaskInfo>, threads: map<nat, ThreadMem>) {
    0 !in tasks && forall p <- tasks :: tasks[p].thread in threads
  }

  /** The user part of the MMU: the page list of the mapped task's address space. */
  ghost function UserMap(tasks: map<nat, TaskInfo>, threads: map<nat, ThreadMem>, mapped: nat): PageMap {
    if mapped in tasks && tasks[mapped].thread in threads then
      var m := threads[tasks[mapped].thread];
      Window(m.pages, m.start)
    else map[]
  }

  ghost predicate AllBelow(m: PageMap, bound: nat) {
    forall v <- m :: v < bound
  }

  class Memory {
    const pages: Pages
    const windows: Pool
    const mmu: Table
    const userLow: nat
    const userHigh: nat
    const windowFirst: nat
    var mappedTask: nat
    var mappedRefs: int
    var tasks: map<nat, TaskInfo>
    var threads: map<nat, ThreadMem>
    var frames: map<nat, FrameMem>

    /** Mappings made at boot, and those of all framebuffers. */
    ghost const kernel: PageMap
    ghost var frameMap: PageMap
    ghost var ledger: Ledger
    /** Per framebuffer: the window its pages are mapped in, and the window it was allocated with. */
    ghost var at: map<nat, Block>
    ghost var home: map<nat, Block>

    ghost predicate Separate()
    {
      && pages.pool != windows && pages.pool.blocks != windows.blocks
    }

    ghost predicate PagesAccounted()
      reads this`ledger, this`threads, this`frames, pages, pages.pool, pages.pool.blocks
    {
      pages.Valid() && ledger.Keys == pages.inUse && Balanced(ledger, threads, frames)
    }

    ghost predicate SpacesOk()
      reads this`threads, this`tasks, this`mappedTask, this`mappedRefs
    {
      && ThreadsOk(threads, userLow, userHigh) && TasksOk(tasks, threads)
      && (mappedTask != 0 ==> mappedTask in tasks)
      && mappedRefs >= 0 && (mappedRefs > 0 <==> mappedTask != 0)
    }

    ghost predicate FramesOk()
      reads this`frames, this`at, this`home, this`frameMap, windows, windows.blocks
    {
      && windows.Valid() && windowFirst + windows.shape.pages <= userLow
      && windows.pagesStart == windowFirst * PAGE_SIZE
      && FrameWindowsOk(frames, at, home, windows.live, windowFirst, windows.shape.pages)
      && FrameMapIs(frameMap, frames, at, windowFirst)
      && AllBelow(kernel, windowFirst)
    }

    ghost predicate MmuCoherent()
      reads this`frameMap, this`tasks, this`threads, this`mappedTask, mmu
    {
      && AllBelow(kernel, windowFirst) && AllBelow(frameMap, userLow) && windowFirst <= userLow
      && kernel.Keys !! frameMap.Keys
      && mmu.entries == kernel + frameMap + UserMap(tasks, threads, mappedTask)
    }

    ghost predicate Valid()
      reads this, pages, pages.pool, pages.pool.blocks, windows, windows.blocks, mmu
    {
      Separate() && PagesAccounted() && SpacesOk() && FramesOk() && MmuCoherent()
    }

    /** The windows framebuffers are mapped in are the ones the window pool has handed out. */
    ghost predicate WindowsHeld()
      reads this`at, windows
    {
      at.Values == windows.live
    }

    /** After boot: the pages and mappings already in use belong to the kernel. */
    constructor (pages: Pages, windows: Pool, mmu: Table, windowFirst: nat, userLow: nat, userHigh: nat)
      requires pages.Valid() && windows.Valid() && windows.live == {}
      requires pages.pool != windows && pages.pool.blocks != windows.blocks
      requires windows.pagesStart == windowFirst * PAGE_SIZE && windowFirst + windows.shape.pages <= userLow
      requires AllBelow(mmu.entries, windowFirst)
      ensures Valid() && WindowsHeld() && tasks == map[] && threads == map[] && frames == map[] && mappedTask == 0
      ensures this.pages == pages && this.windows == windows && this.mmu == mmu && kernel == mmu.entries
      ensures this.windowFirst == windowFirst && this.userLow == userLow && this.userHigh == userHigh
    {
      this.pages := pages;
      this.windows := windows;
      this.mmu := mmu;
      this.windowFirst := windowFirst;
      this.userLow := userLow;
      this.userHigh := userHigh;
      mappedTask, mappedRefs := 0, 0;
      tasks, threads, frames := map[], map[], map[];
      kernel, frameMap := mmu.entries, map[];
      ledger := map p | p in pages.inUse :: Kernel;
      at, home := map[], map[];
      new;
      hide Pool.Valid, Pages.Valid, FrameWindowsOk, FrameMapIs;
      NoFrames(windowFirst, windows.shape.pages);
      assert mmu.entries == kernel + frameMap + UserMap(tasks, threads, mappedTask);
    }

    // ---- Context switches ----

    /** remap_task: maps the task's pages, unless it is mapped already. The system stops exactly if
        another task has not been switched out before. */
    method SwitchIn(pid: nat) returns (aborted: bool)
      requires Valid() && pid in tasks
      modifies this`mappedTask, this`mappedRefs, mmu
      ensures Valid() && (aborted <==> old(mappedTask) != 0 && old(mappedTask) != pid)
      ensures aborted ==> mappedTask == old(mappedTask) && mappedRefs == old(mappedRefs)
      ensures !aborted ==> mappedTask == pid && mappedRefs == old(mappedRefs) + 1
    {
      hide PagesAccounted, FramesOk, ThreadsOk;
      if mappedTask == pid {
        mappedRefs := mappedRefs + 1;
        return false;
      }
      if mappedTask != 0 {
        return true;
      }
      ghost var m := threads[tasks[pid].thread];
      ThreadShape(threads, userLow, userHigh, tasks[pid].thread);
      aborted := mmu.MapRanges(threads[tasks[pid].thread].pages, m.start);
      UserWindowFree(kernel, frameMap, m, windowFirst, userLow);
      if aborted {
        return;
      }
      mappedTask := pid;
      mappedRefs := 1;
    }

    /** unmap_task: the last switch-out of the mapped task unmaps its pages. The system stops exactly
        if another task is mapped, or none. */
    method SwitchOut(pid: nat) returns (aborted: bool)
      requires Valid() && pid in tasks
      modifies this`mappedTask, this`mappedRefs, mmu
      ensures Valid() && (aborted <==> old(mappedTask) != pid)
      ensures aborted ==> mappedTask == old(mappedTask) && mappedRefs == old(mappedRefs)
      ensures !aborted ==> mappedRefs == old(mappedRefs) - 1
      ensures !aborted ==> mappedTask == if old(mappedRefs) == 1 then 0 else pid
    {
      hide PagesAccounted, FramesOk, ThreadsOk;
      if mappedTask != pid {
        return true;
      }
      mappedRefs := mappedRefs - 1;
      if mappedRefs > 0 {
        return false;
      }
      ghost var m := threads[tasks[pid].thread];
      ThreadShape(threads, userLow, userHigh, tasks[pid].thread);
      aborted := mmu.UnmapRanges(threads[tasks[pid].thread].pages, m.start);
      UserWindowFree(kernel, frameMap, m, windowFirst, userLow);
      if aborted {
        return;
      }
      mappedTask := 0;
    }

    // ---- Tasks ----

    /** A new task with an address space of its own, empty so far. */
    method AddTask(pid: nat, thread: nat)
      requires Valid() && pid != 0 && pid !in tasks && thread !in threads && userLow <= userHigh
      modifies this`tasks, this`threads
      ensures Valid() && tasks == old(tasks)[pid := TaskInfo(thread, 0)]
      ensures threads == old(threads)[thread := ThreadMem(userLow, userLow, 0, [])]
    {
      hide FramesOk, Balanced, Pages.Valid, AllBelow;
      NewThread(ledger, threads, frames, thread, ThreadMem(userLow, userLow, 0, []));
      threads := threads[thread := ThreadMem(userLow, userLow, 0, [])];
      tasks := tasks[pid := TaskInfo(thread, 0)];
    }

    /** A new task sharing the address space of another. */
    method AddThread(pid: nat, parent: nat)
      requires Valid() && pid != 0 && pid !in tasks && parent in tasks
      modifies this`tasks
      ensures Valid() && tasks == old(tasks)[pid := TaskInfo(old(tasks)[parent].thread, 0)]
    {
      hide FramesOk, PagesAccounted;
      tasks := tasks[pid := TaskInfo(tasks[parent].thread, 0)];
    }

    /** A dead task goes; with the last task of an address space go its pages. */
    method RemoveTask(pid: nat)
      requires Valid() && pid in tasks && mappedTask != pid
      modifies this`tasks, this`threads, this`ledger, pages, pages.pool, pages.pool.blocks
      ensures Valid() && tasks == old(tasks) - {pid}
      ensures var t := old(tasks)[pid].thread;
        if exists p <- tasks :: tasks[p].thread == t then
          threads == old(threads) && pages.inUse == old(pages.inUse)
        else
          threads == old(threads) - {t} && pages.inUse == old(pages.inUse) - PagesIn(old(threads)[t].pages)
    {
      hide FramesOk, Balanced, Pages.Valid, ThreadOk;
      var t := tasks[pid].thread;
      tasks := tasks - {pid};
      if forall p <- tasks :: tasks[p].thread != t {
        ThreadShape(threads, userLow, userHigh, t);
        ReleaseThread(t);
      }
    }

    /** pages_deallocate of a whole address space. */
    method ReleaseThread(t: nat)
      requires Separate() && PagesAccounted() && t in threads && NoDuplicates(threads[t].pages)
      modifies this`threads, this`ledger, pages, pages.pool, pages.pool.blocks
      ensures PagesAccounted() && threads == old(threads) - {t}
      ensures pages.inUse == old(pages.inUse) - PagesIn(old(threads)[t].pages)
    {
      hide Pages.Valid, Balanced, NoDuplicates;
      var list := threads[t].pages;
      ghost var empty := threads[t].(pages := []);
      assert list[|list|..] == [] && list[..|list|] == list;
      TakeFromThread(ledger, threads, frames, t, |list|, empty);
      pages.PagesDeallocate(list);
      ledger := ledger - PagesIn(list);
      DropThread(ledger, threads[t := empty], frames, t);
      assert threads[t := empty] - {t} == threads - {t};
      threads := threads - {t};
    }

    // ---- sbrk ----

    /** why_sbrk by the running task: grows its address space at the end, or gives back its last
        pages. The old end, or -1 with ENOMEM: exactly past the end of user space, without enough
        pages, or without kernel memory for as many list entries. */
    method Sbrk(pid: nat, increment: int, entries: nat)
        returns (result: int, aborted: bool, ghost added: seq<Range>)
      requires Valid() && mappedTask == pid != 0 && -increment <= threads[tasks[pid].thread].size
      modifies this`tasks, this`threads, this`ledger, mmu, pages, pages.pool, pages.pool.blocks
      ensures Valid() && !aborted
      ensures var t := old(tasks)[pid].thread;
        var m := old(threads)[t];
        var refused := increment > 0 && !(m.end + increment <= userHigh && increment <= |old(pages.Spare())|
                                          && increment <= entries);
        && result == (if refused then -1 else m.end)
        && tasks == (if refused then old(tasks)[pid := TaskInfo(t, ENOMEM)] else old(tasks))
        && threads == (if refused then old(threads) else old(threads)[t := Resized(m, added, increment)])
        && (refused || increment == 0 ==> pages.inUse == old(pages.inUse))
        && (!refused && increment > 0 ==>
              |added| == increment && PagesIn(added) !! old(pages.inUse)
                  && pages.inUse == old(pages.inUse) + PagesIn(added))
        && (increment < 0 ==> pages.inUse == old(pages.inUse) - PagesIn(m.pages[..-increment]))
    {
      hide Valid, ThreadOk, PagesIn, Resized, Pages.Valid, Pages.Spare, PagesAccounted, SpacesOk, FramesOk, MmuCoherent;
      RunningThread(pid);
      ghost var m := threads[tasks[pid].thread];
      aborted, added := false, [];
      var oldEnd := threads[tasks[pid].thread].end;
      var ok := true;
      if increment > 0 {
        ok, aborted, added := Grow(pid, increment, entries);
      } else if increment < 0 {
        aborted := Shrink(pid, -increment);
      }
      ResizedIs(m, added, increment);
      if ok {
        result := oldEnd;
      } else {
        NoteError(pid);
        result := -1;
      }
    }

    lemma RunningThread(pid: nat)
      requires Valid() && mappedTask == pid != 0
      ensures pid in tasks && tasks[pid].thread in threads && pages.Valid()
      ensures var m := threads[tasks[pid].thread];
        m.end == m.start + m.size && m.size == |m.pages| && PagesIn(m.pages) <= pages.inUse
      ensures ThreadOk(threads[tasks[pid].thread], userLow, userHigh)
    {
    }

    method NoteError(pid: nat)
      requires Valid() && pid in tasks
      modifies this`tasks
      ensures Valid() && tasks == old(tasks)[pid := TaskInfo(old(tasks)[pid].thread, ENOMEM)]
    {
      hide PagesAccounted, FramesOk, ThreadsOk;
      tasks := tasks[pid := tasks[pid].(errno := ENOMEM)];
    }

    /** The growing half of why_sbrk: new pages on top of the list, mapped at the old end. */
    method Grow(pid: nat, n: nat, entries: nat) returns (ok: bool, aborted: bool, added: seq<Range>)
      requires Valid() && mappedTask == pid != 0 && n > 0
      modifies this`threads, this`ledger, mmu, pages, pages.pool, pages.pool.blocks
      ensures Valid() && !aborted
      ensures var t := tasks[pid].thread; var m := old(threads)[t];
        && (ok <==> m.end + n <= userHigh && n <= |old(pages.Spare())| && n <= entries)
        && (ok ==> threads == old(threads)[t := ThreadMem(m.start, m.end + n, m.size + n, added + m.pages)])
        && (ok ==> |added| == n && PagesIn(added) !! old(pages.inUse)
                   && pages.inUse == old(pages.inUse) + PagesIn(added))
        && (!ok ==> threads == old(threads) && pages.inUse == old(pages.inUse))
    {
      hide FramesOk, SpacesOk, MmuCoherent, Pages.Valid, Pages.Spare, Balanced, PagesIn, NoDuplicates, Descending;
      RunningThread(pid);
      var t := tasks[pid].thread;
      var m := threads[t];
      aborted, added := false, [];
      if m.end + n > userHigh {
        return false, false, [];
      }
      ok, added := pages.PagesAllocate(m.end, n, entries);
      if !ok {
        return;
      }
      aborted := AddPages(pid, added);
    }

    /** The locked section of why_sbrk: maps the new pages and links them before the list. */
    method AddPages(pid: nat, added: seq<Range>) returns (aborted: bool)
      requires Separate() && SpacesOk() && FramesOk() && MmuCoherent()
      requires pages.Valid() && Balanced(ledger, threads, frames) && ledger.Keys !! PagesIn(added)
      requires pages.inUse == ledger.Keys + PagesIn(added)
      requires mappedTask == pid != 0 && Descending(added, threads[tasks[pid].thread].end) && NoDuplicates(added)
      requires threads[tasks[pid].thread].end + |added| <= userHigh
      modifies this`threads, this`ledger, mmu
      ensures Valid() && !aborted
      ensures var t := tasks[pid].thread; var m := old(threads)[t];
        threads == old(threads)[t := ThreadMem(m.start, m.end + |added|, m.size + |added|, added + m.pages)]
    {
      hide FramesOk, Pages.Valid, Balanced, ThreadsOk, Window, PagesIn, NoDuplicates, Descending, AllBelow;
      var t := tasks[pid].thread;
      var m := threads[t];
      ThreadShape(threads, userLow, userHigh, t);
      OwnPages(ledger, threads, frames, t);
      GrowUserMap(kernel, frameMap, m, added, windowFirst, userLow);
      aborted := mmu.MapRanges(added, m.end);
      ghost var next := ThreadMem(m.start, m.end + |added|, m.size + |added|, added + m.pages);
      GrowThread(m, added, userLow, userHigh);
      GiveToThread(ledger, threads, frames, t, added, next);
      OneThread(threads, t, next, userLow, userHigh);
      threads := threads[t := ThreadMem(m.start, m.end + |added|, m.size + |added|, added + m.pages)];
      ledger := Given(ledger, PagesIn(added), Thread(t));
      assert PagesAccounted();
      assert SpacesOk();
      assert MmuCoherent();
    }

    /** The shrinking half of why_sbrk: the last n pages are unmapped and given back. */
    method Shrink(pid: nat, n: nat) returns (aborted: bool)
      requires Valid() && mappedTask == pid != 0 && 0 < n <= threads[tasks[pid].thread].size
      modifies this`threads, this`ledger, mmu, pages, pages.pool, pages.pool.blocks
      ensures Valid() && !aborted
      ensures var t := tasks[pid].thread; var m := old(threads)[t];
        && threads == old(threads)[t := ThreadMem(m.start, m.end - n, m.size - n, m.pages[n..])]
        && pages.inUse == old(pages.inUse) - PagesIn(m.pages[..n])
    {
      hide FramesOk, Pages.Valid, Balanced, ThreadsOk, Window, PagesIn, NoDuplicates, Descending, AllBelow;
      RunningThread(pid);
      var t := tasks[pid].thread;
      ghost var before := threads;
      ghost var m := threads[t];
      ghost var next := ThreadMem(m.start, m.end - n, m.size - n, m.pages[n..]);
      TakeFromThread(ledger, threads, frames, t, n, next);
      ShrinkThread(m, n, userLow, userHigh);
      OneThread(threads, t, next, userLow, userHigh);
      ShrinkUserMap(kernel, frameMap, m, n, windowFirst, userLow);
      aborted := FreeFromEnd(t, n);
      ledger := ledger - PagesIn(m.pages[..n]);
      LowerEnd(t, n);
      assert threads == before[t := next];
      assert PagesAccounted();
      assert SpacesOk();
      assert MmuCoherent();
    }

    method LowerEnd(t: nat, n: nat)
      requires t in threads && n <= threads[t].size && n <= threads[t].end
      modifies this`threads
      ensures var m := old(threads)[t];
        threads == old(threads)[t := ThreadMem(m.start, m.end - n, m.size - n, m.pages)]
    {
      threads := threads[t := threads[t].(size := threads[t].size - n)];
      threads := threads[t := threads[t].(end := threads[t].end - n)];
    }

    /** One turn of that loop: the highest page goes back, is unmapped, and leaves the list. */
    method FreeHighest(t: nat, r: seq<Range>) returns (aborted: bool)
      requires Separate() && pages.Valid() && t in threads && r != [] && r[0].size == 1
      requires r[0].ppage in pages.inUse && r[0].vpage in mmu.entries
      modifies this`threads, mmu, pages, pages.pool, pages.pool.blocks
      ensures !aborted && pages.Valid() && pages.inUse == old(pages.inUse) - {r[0].ppage}
      ensures mmu.entries == old(mmu.entries) - {r[0].vpage}
      ensures threads == old(threads)[t := old(threads)[t].(pages := r[1..])]
    {
      hide Pages.Valid;
      pages.PageDeallocate(r[0].ppage);
      var rest := r[1..];
      assert Region(r[0].vpage, 0, 1).Keys == {r[0].vpage};
      aborted := mmu.UnmapRegion(r[0].vpage, r[0].size);
      if aborted {
        return;
      }
      threads := threads[t := threads[t].(pages := rest)];
    }

    /** The loop of why_sbrk that frees from the end. A range longer than what is left to free
        would be split; ranges are one page long, so that branch is never taken. */
    method FreeFromEnd(t: nat, n: nat) returns (aborted: bool)
      requires Separate() && pages.Valid() && t in threads && n <= |threads[t].pages|
      requires Descending(threads[t].pages, threads[t].start) && NoDuplicates(threads[t].pages)
      requires threads[t].end == threads[t].start + |threads[t].pages|
      requires PagesIn(threads[t].pages[..n]) <= pages.inUse
      requires Window(threads[t].pages[..n], threads[t].end - n).Keys <= mmu.entries.Keys
      modifies this`threads, mmu, pages, pages.pool, pages.pool.blocks
      ensures !aborted && pages.Valid()
      ensures var m := old(threads)[t];
        && threads == old(threads)[t := m.(pages := m.pages[n..])]
        && pages.inUse == old(pages.inUse) - PagesIn(m.pages[..n])
        && mmu.entries == old(mmu.entries) - Window(m.pages[..n], m.end - n).Keys
    {
      hide Pages.Valid, Window, Descending, NoDuplicates, Region, PagesIn;
      ghost var m := threads[t];
      NothingFreed(m);
      var toDecrement := n;
      var r := threads[t].pages;
      assert r[0..] == r;
      while r != [] && toDecrement > 0
        invariant 0 <= toDecrement <= n && r == m.pages[n - toDecrement..]
        invariant pages.Valid() && pages.inUse == old(pages.inUse) - PagesIn(m.pages[..n - toDecrement])
        invariant threads == old(threads)[t := m.(pages := r)]
        invariant mmu.entries == old(mmu.entries) - Window(m.pages[..n - toDecrement], m.end - (n - toDecrement)).Keys
        decreases toDecrement
      {
        ghost var k := n - toDecrement;
        NextFreed(m, k, n);
        if r[0].size <= toDecrement {
          aborted := FreeHighest(t, r);
          if aborted {
            return;
          }
          toDecrement := toDecrement - r[0].size;
          r := r[1..];
        } else {
          assert false;
        }
      }
      return false;
    }
  }

  lemma NothingFreed(m: ThreadMem)
    ensures PagesIn(m.pages[..0]) == {} && Window(m.pages[..0], m.end).Keys == {}
  {
  }

  /** Range k of a list about to be freed: one page, still in use and still mapped. */
  lemma NextFreed(m: ThreadMem, k: nat, n: nat)
    requires k < n <= |m.pages| && Descending(m.pages, m.start) && NoDuplicates(m.pages) && m.end == m.start + |m.pages|
    ensures var r := m.pages[k];
      && r == m.pages[k..][0] && m.pages[k..][1..] == m.pages[k + 1..] && r.size == 1
      && PagesIn(m.pages[..k + 1]) == PagesIn(m.pages[..k]) + {r.ppage}
      && r.ppage !in PagesIn(m.pages[..k]) && r.ppage in PagesIn(m.pages[..n])
      && Region(r.vpage, 0, r.size).Keys == {r.vpage}
      && Window(m.pages[..k + 1], m.end - (k + 1)).Keys == Window(m.pages[..k], m.end - k).Keys + {r.vpage}
      && r.vpage !in Window(m.pages[..k], m.end - k) && r.vpage in Window(m.pages[..n], m.end - n)
  {
    PagesInNext(m.pages, k);
    WindowNext(m.pages, m.start, k);
    assert m.pages[..n][k] == m.pages[k];
  }

  lemma ShrinkThread(m: ThreadMem, n: nat, low: nat, high: nat)
    requires ThreadOk(m, low, high) && n <= m.size
    ensures ThreadOk(ThreadMem(m.start, m.end - n, m.size - n, m.pages[n..]), low, high)
  {
    WindowShrink(m.pages, m.start, n);
  }

  lemma ShrinkUserMap(kernel: PageMap, frameMap: PageMap, m: ThreadMem, n: nat, windowFirst: nat, low: nat)
    requires AllBelow(kernel, windowFirst) && AllBelow(frameMap, low) && windowFirst <= low <= m.start
    requires Descending(m.pages, m.start) && m.end == m.start + |m.pages| && n <= |m.pages|
    ensures var base := kernel + frameMap + Window(m.pages, m.start);
      var gone := Window(m.pages[..n], m.end - n).Keys;
      gone <= base.Keys && base - gone == kernel + frameMap + Window(m.pages[n..], m.start)
  {
    hide Window, Descending;
    WindowShrink(m.pages, m.start, n);
  }

  /** An address space after sbrk: fresh pages before its list, or its first pages gone. */
  ghost function Resized(m: ThreadMem, added: seq<Range>, increment: int): ThreadMem
    requires -increment <= m.size && m.end >= m.size && m.size == |m.pages|
  {
    if increment >= 0 then ThreadMem(m.start, m.end + increment, m.size + increment, added + m.pages)
    else ThreadMem(m.start, m.end + increment, m.size + increment, m.pages[-increment..])
  }

  lemma ResizedIs(m: ThreadMem, added: seq<Range>, increment: int)
    requires -increment <= m.size && m.end >= m.size && m.size == |m.pages|
    ensures var r := Resized(m, added, increment);
      && r.start == m.start && r.end == m.end + increment && r.size == m.size + increment
      && r.pages == (if increment >= 0 then added + m.pages else m.pages[-increment..])
    ensures increment == 0 && added == [] ==> Resized(m, added, increment) == m
  {
    assert [] + m.pages == m.pages;
  }

  lemma GrowThread(m: ThreadMem, added: seq<Range>, low: nat, high: nat)
    requires ThreadOk(m, low, high) && Descending(added, m.end) && NoDuplicates(added)
    requires m.end + |added| <= high && PagesIn(added) !! PagesIn(m.pages)
    ensures ThreadOk(ThreadMem(m.start, m.end + |added|, m.size + |added|, added + m.pages), low, high)
  {
    WindowGrow(added, m.pages, m.start);
    NoDuplicatesAppend(added, m.pages);
  }

  /** New pages above the user window collide with nothing, and extend the user map. */
  lemma GrowUserMap(kernel: PageMap, frameMap: PageMap, m: ThreadMem, added: seq<Range>, windowFirst: nat, low: nat)
    requires AllBelow(kernel, windowFirst) && AllBelow(frameMap, low) && windowFirst <= low <= m.start
    requires Descending(m.pages, m.start) && m.end == m.start + |m.pages| && Descending(added, m.end)
    ensures var base := kernel + frameMap + Window(m.pages, m.start);
      Window(added, m.end).Keys !! base.Keys
      && base + Window(added, m.end) == kernel + frameMap + Window(added + m.pages, m.start)
  {
    hide Window, Descending;
    WindowGrow(added, m.pages, m.start);
  }

  lemma OwnPages(ledger: Ledger, threads: map<nat, ThreadMem>, frames: map<nat, FrameMem>, t: nat)
    requires Balanced(ledger, threads, frames) && t in threads
    ensures PagesIn(threads[t].pages) <= ledger.Keys
  {
  }

  lemma OneThread(threads: map<nat, ThreadMem>, t: nat, next: ThreadMem, low: nat, high: nat)
    requires ThreadsOk(threads, low, high) && t in threads && ThreadOk(next, low, high)
    ensures ThreadsOk(threads[t := next], low, high)
  {
  }

  lemma ThreadShape(threads: map<nat, ThreadMem>, low: nat, high: nat, t: nat)
    requires ThreadsOk(threads, low, high) && t in threads
    ensures ThreadOk(threads[t], low, high)
  {
  }

  /** The user window lies above everything else that is mapped. */
  lemma UserWindowFree(kernel: PageMap, frameMap: PageMap, m: ThreadMem, windowFirst: nat, low: nat)
    requires AllBelow(kernel, windowFirst) && AllBelow(frameMap, low) && windowFirst <= low && m.start >= low
    ensures var w := Window(m.pages, m.start);
      w.Keys !! (kernel + frameMap).Keys && kernel + frameMap + w - w.Keys == kernel + frameMap
  {
  }
}
