# BadgeVMS kernel logic in Dafny

A model of the parts of BadgeVMS whose correctness rests on reasoning rather than on hardware, with
proofs of what they guarantee:

- **The buddy page allocator.** One pool of 2^k page indices: a table of block records threaded into
  circular lists, split on allocation and merged on release. `BuddySpec` says, without lists, what is
  free: the largest aligned runs that no live block touches. `BlockLists`, `BuddyTable` and
  `BuddyMoves` show that each store of the C code moves the table from one such state to the next,
  `BuddyPool` holds the code itself, `BuddyRuns` and `BuddyReach` draw the consequences for whole
  runs, and `BuddyBounds` decides which requests stay inside a pool.
- **Pages, address spaces and the MMU.** Page lists built with rollback, grown and shrunk by sbrk,
  mapped when a task is switched in and unmapped when it is switched out, beside the framebuffers,
  which have windows from a second buddy pool and swap them. The state of `AddressSpaces.Memory` ties
  together the allocator, every page list, a ledger of owners and the MMU table.
- **The compositor.** Rectangle subtraction and merging, the visible region of a window, the split of
  awkward heights, rotation and the software blit, all specified by sets of pixels; the ring of windows
  and a full one (`CrowdedStack`) whose visible regions overflow.
- **Names and paths.** The parsers and printers of logical names and of paths, alias resolution,
  and the functions that take paths apart and join them.
- **Tasks.** The ring of process identifiers, creation and reaping of tasks, and the counted address
  spaces that threads share.

Code that changes state in the original is a class or a method over arrays here, proved against
specification functions; by-value code is functions and lemmas. `dafny verify dfyconfig.toml` checks
everything.

## Where code and expectation part

- `buddy_alloc.c:327` starts the waste marks at pages minus the missing pages, not at pages: indices
  between the two exist but are never handed out as the start of a block (`Shape.Boundary`).
- `buddy_alloc.c:475` compares a size in bytes with a number of pages, so every request of the top
  order is refused (`BuddyState.BelowTopOrder`).
- `buddy_alloc.c:426` looks at the record of the last requested page, but the table has records only
  for the pages of the memory area. In a pool of 400 pages, indices run to 511: a request can be met with
  pages past the end of the pool (`BuddyRuns.ShortTableOverruns`, `ShortTableGrants`). Which requests
  cannot is decided by the shape and the page count: exactly those that fit from the last start of
  their order ahead of the boundary (`BuddyBounds.InsideExactly`), in that pool those of up to 144
  pages (`WindowPoolStaysInside`), which every picture of screen size satisfies
  (`Framebuffers.PicturesStayInside`).
- `buddy_alloc.c:96` compares the counter with the pages asked for, and `buddy_alloc.c:505` takes off
  those of the whole block: the counter wraps exactly when the block has more pages than it held
  (`BuddyRuns.CountStaysExact`), and a run gets there (`BuddyReach.WrapReached`).
- `buddy_alloc.c:457` rounds up in 32 bits: a size within a page of 2^32 is met with one page
  (`BuddyRuns.NearlyAllOfMemory`).
- `buddy_alloc.c:282` adds a size in bytes to a pointer to records, which scales it again: the block
  records start 16 times as far in as the list heads need (`BuddyState.PagesStart`).
- `compositor.c:303` stores the first half of a split rectangle without looking whether there is room.
  It overflows exactly when a rectangle to be split comes with 64 parts already stored
  (`Visible.SplitRects`), and a stack of ten windows on the screen, the most there may be, gets there:
  the last one is cut into 33 rectangles of awkward height (`CrowdedStack.StackOverflows`).
- Framebuffers swap windows but keep the address of the window they were allocated with, and
  `framebuffer_free` gives back that one. Freeing one of two swapped framebuffers alone gives back the
  window the other is mapped in (`Framebuffers.HeldAfterFree`, `MemoryLaws.FreeOneOfSwapped`); the
  compositor always frees both (`MemoryLaws.LifeOfPair`).
- `framebuffer_swap` does not compare sizes. Framebuffers that fit each other's windows are swapped
  without harm; any others stop the system or leave a window overfull (`Framebuffers.FramebufferSwap`).
- `compositor.c:478` follows the page list of a framebuffer without looking whether it is empty, which
  it is, at sizes of the screen, just for a picture of no pixels (`Framebuffers.FramebufferAllocate`,
  `EmptyPictures`).
- `path_dirconcat` and `path_fileconcat` do not check what they append; their results parse exactly
  when it has only path characters (`PathFunctions.PathDirconcat`, `PathFileconcat`).
- Of a chain of device aliases at most 14 are replaced, and a plain name more than 14 turns from the
  end of its chain resolves to itself (`AliasChains.AliasChainResolves`,
  `NameResolution.PlainNameResolves`). A directory or file name caught in a cycle does not stay but
  vanishes (`NameResolution.CyclicPartVanishes`).
- Only a list at the end of a chain of plain names counts: one whose first string is a name of its own
  does not, whatever place is asked for (`NameResolution.PlainNameResolves`). A terminal name that
  stands for a path does not stop there, as its path is parsed and resolved afresh
  (`AliasChains.AliasRound`).
- A path has room for 25 directories and nothing looks whether they fit: parsing overflows exactly on
  strings that hold more before anything is wrong with them (`LogicalNames.ParseString`), and resolving
  a chain of aliases exactly when all directories gathered are more
  (`AliasChains.AliasChainResolves`).
- The identifier ring starts with its tail one place early, so a free overwrites another identifier
  exactly when the place at the tail is taken; one allocation and one free on a fresh table do it
  (`PidRing.PidTable.PidFree`, `PidRing.LoseIdentifier`). It happens once, and allocation succeeds
  while fewer than 126 are held.
- `task.c:627` stops before identifier 127, so a child with that identifier outlives its parent
  (`Tasks.Kernel.Reap`, `Tasks.LastChildLeft`). `task.c:744` tells the caller an identifier even when the
  task could not be started, and a failed creation keeps its reference to the address space
  (`Tasks.Kernel.Spawn`, `DestroyedExactly`).
- The kernel's own address space is counted from zero (`task.c:50`), so the last thread of a kernel
  task to die would take it along (`Tasks.KernelThreadDies`). The interface allows such threads; no
  kernel code creates one.

## Model

| member | source | states |
|---|---|---|
| Bits.NextPowerOfTwoExact | badgevms/buddy_alloc.c:122-137 | Smearing and adding one gives the least power of two that is at least the argument, or zero when that is 2^32 |
| Bits.ClzCountsZeroes | badgevms/bitops.h:11-37 | The software clz32 agrees, on every word, with counting leading zeroes one bit at a time |
| Bits.GetOrderExact | badgevms/buddy_alloc.c:139-147 | get_order is the least order holding n pages exactly for n up to 2^31; above that it is 0 |
| BuddySpec.GrantMaxFree | badgevms/buddy_alloc.c:418-436 | Handing out a maximal free block removes that block and no other from the maximal free blocks |
| BuddySpec.SplitMaxFree | badgevms/buddy_alloc.c:179-198 | Keeping one half of an allocated block adds exactly the other half to the maximal free blocks |
| BuddySpec.StopMerging | badgevms/buddy_alloc.c:240-263 | A released block whose buddy is not a free block of its order is maximal, so merging may stop |
| BuddySpec.MaxFreeAround | badgevms/buddy_alloc.c:538-546 | Every free aligned block lies inside a maximal free one |
| BuddySpec.MaxFreeDisjoint | badgevms/buddy_alloc.c:538-546 | Two maximal free blocks that meet are one |
| BuddySpec.BuddiesMerged | badgevms/buddy_alloc.c:217-238 | Two buddies of the same order are never both maximal free |
| BuddySpec.TiledExactly | badgevms/buddy_alloc.c:331-343 | Live and maximal free blocks tile the index range: each index is in exactly one |
| BuddySpec.NothingLive | badgevms/buddy_alloc.c:331-343 | With nothing live the only maximal free block is index 0 at the top order |
| BlockLists.ListInit | badgevms/buddy_alloc.c:149-152 | The head points at itself both ways and no other record changes |
| BlockLists.ListPushBack | badgevms/buddy_alloc.c:154-161 | The entry stands between the old tail and the head; only the three records concerned change, and no order or waste mark |
| BlockLists.ListRemove | badgevms/buddy_alloc.c:163-169 | The neighbours of the entry are joined; only links and the entry's membership change |
| BlockLists.PushKeeps | badgevms/buddy_alloc.c:154-161 | After a push all lists are well-formed rings, the entry at the end of one, and membership marks agree with them |
| BlockLists.RemoveKeeps | badgevms/buddy_alloc.c:163-169 | After a removal all lists are well-formed rings without the entry, and membership marks agree with them |
| BlockLists.EmptyList | badgevms/buddy_alloc.c:171-177 | A head that is its own predecessor has an empty list, and only then |
| BuddyTable.PushFiles | badgevms/buddy_alloc.c:190-197 | Linking a newly free block where it belongs makes the lists hold exactly what the new live set leaves free |
| BuddyTable.RemoveFiles | badgevms/buddy_alloc.c:225-228 | Unlinking a block no longer free makes the lists hold exactly what the new live set leaves free |
| BuddyTable.ListedIsMaxFree | badgevms/buddy_alloc.c:193-197 | Every listed record stands for a maximal free block, on the list of its order or on the waste list |
| BuddyTable.MaxFreeHasPlace | badgevms/buddy_alloc.c:193-197 | Every maximal free block is on its list |
| BuddyTable.RightHalfHasRecord | badgevms/buddy_alloc.c:187-190 | The right half of a block that starts ahead of the boundary has a record in the original table |
| BuddyMoves.MergeReady | badgevms/buddy_alloc.c:218-226 | The test of try_merge_buddy succeeds exactly when the buddy is a maximal free block beside the one in hand |
| BuddyMoves.NoneSuitable | badgevms/buddy_alloc.c:424-432 | A list whose every entry fails the waste test has no block that could meet the request |
| BuddyMoves.BoundFromList | badgevms/buddy_alloc.c:498-501 | An empty list lets the cached bound drop by one; any other makes it tight |
| BuddyMoves.TightAfterFree | badgevms/buddy_alloc.c:256-258 | Raising the bound to the merged block's order keeps it tight |
| BuddyState.BelowTopOrder | badgevms/buddy_alloc.c:473-479 | A request the byte test lets through is below the top order, wrapped page counts included |
| BuddyState.PagesBytes | badgevms/buddy_alloc.c:457 | The page count is the least that holds the bytes, or zero exactly when rounding up leaves 32 bits |
| BuddyState.FreshRepresents | badgevms/buddy_alloc.c:317-343 | The table init_pool leaves represents a pool with nothing live |
| BuddyPool.Pool.constructor | badgevms/buddy_alloc.c:265-345 | The pool laid out in the given memory is valid, fresh, and starts where the metadata ends, the scaled size of the list heads included |
| BuddyPool.Pool.InitLists | badgevms/buddy_alloc.c:320-324 | Every list is empty and block records are untouched |
| BuddyPool.Pool.MarkWaste | badgevms/buddy_alloc.c:326-329 | Exactly the indices from the boundary to the end of the table are marked |
| BuddyPool.Pool.SplitBlock | badgevms/buddy_alloc.c:185-198 | With a block in hand, its left half is in hand afterwards and the lists hold what is free beside it |
| BuddyPool.Pool.TryMergeBuddy | badgevms/buddy_alloc.c:217-238 | Merges exactly when the buddy is maximal free; then the parent is in hand, otherwise nothing changed |
| BuddyPool.Pool.FreeBlock | badgevms/buddy_alloc.c:248-263 | The lists represent the live blocks without the freed one, and the bound is tight |
| BuddyPool.Pool.ListFree | badgevms/buddy_alloc.c:256-261 | The merged block goes on its list and the bound covers it; the waste branch is never taken |
| BuddyPool.Pool.ScanList | badgevms/buddy_alloc.c:421-432 | The newest entry whose last requested page is no waste, and none newer passes; or none passes |
| BuddyPool.Pool.FindBlock | badgevms/buddy_alloc.c:418-436 | The newest suitable block of the lowest order that has one is taken off its list; a failure means no suitable block exists at all |
| BuddyPool.Pool.SplitDown | badgevms/buddy_alloc.c:492-496 | The block in hand shrinks to its left part of the order asked for |
| BuddyPool.Pool.LowerBound | badgevms/buddy_alloc.c:498-501 | The bound ends on the highest non-empty list, or 0 |
| BuddyPool.Pool.Allocate | badgevms/buddy_alloc.c:450-511 | For every size: null exactly when it is zero or the request is not grantable, with nothing changed; otherwise the address of a block of the least sufficient order that was free, now live |
| BuddyPool.Pool.Grant | badgevms/buddy_alloc.c:481-511 | The search, split, bound and counter part of an allocation |
| BuddyPool.Pool.Deallocate | badgevms/buddy_alloc.c:548-561 | A pointer that is accepted frees its live block; any other changes nothing |
| BuddyPool.Pool.Release | badgevms/buddy_alloc.c:558-560 | The block is no longer live and the pool is valid, counter included |
| BuddyPool.Pool.ValidIsConsistent | badgevms/buddy_alloc.c:149-198 | The concrete representation implies the invariant on what callers observe: listed blocks are the maximal free ones, counter exact, bound tight |
| BuddyPool.Pool.LiveAccepted | badgevms/buddy_alloc.c:513-536 | The address of a live block is accepted and leads back to its index |
| BuddyRuns.SameLiveSameState | badgevms/buddy_alloc.c:217-263 | Two consistent states with the same live blocks are equal: listed blocks, counter and bound |
| BuddyRuns.AllocateThenFree | badgevms/buddy_alloc.c:450-561 | Freeing what was just allocated restores the state |
| BuddyRuns.FreesInAnyOrder | badgevms/buddy_alloc.c:538-561 | Freeing the same blocks in two orders reaches the same state |
| BuddyRuns.AllFreed | badgevms/buddy_alloc.c:331-343 | With nothing live the state is that of a fresh pool: one block, full counter, top bound |
| BuddyRuns.RefusalIsComplete | badgevms/buddy_alloc.c:418-511 | After a refusal of a request within the counter and below the top order, no aligned run of its order is free with its pages ahead of the boundary |
| BuddyRuns.GrantIsSound | badgevms/buddy_alloc.c:450-511 | A grant is aligned, was free, has the least sufficient order; its pages lie ahead of the boundary exactly when they have records |
| BuddyRuns.NearlyAllOfMemory | badgevms/buddy_alloc.c:457-481 | A size within a page of 2^32 is granted one page exactly if a free block starts ahead of the boundary |
| BuddyRuns.ShortTableOverruns | badgevms/buddy_alloc.c:277-329 | In a pool of 400 pages with page 0 live, a grant of 150 pages runs past the pool |
| BuddyRuns.ShortTableGrants | badgevms/buddy_alloc.c:418-436 | And that request is granted |
| BuddyRuns.MetadataPages | badgevms/buddy_alloc.c:271-285 | In memory that starts on a page the metadata takes the least number of pages that hold 256 bytes a list head and 16 a record |
| BuddyRuns.SystemPools | badgevms/memory.c:781-814 | The layout of the two pools of the system: 512 and 400 pages, one of them metadata |
| BuddyRuns.PagesConserved | badgevms/buddy_alloc.c:149-198 | Live and listed blocks together have exactly as many pages as there are indices |
| BuddyRuns.RunConsistent | badgevms/buddy_alloc.c:450-561 | Every state of every run is consistent |
| BuddyRuns.CountStaysExact | badgevms/buddy_alloc.c:87-100 | A grant leaves the counter exact if and only if the counter held as many pages as the whole block |
| BuddyRuns.PowerOfTwoRunsCount | badgevms/buddy_alloc.c:505-558 | When all requests are powers of two the 32-bit counter never wraps, in any pool: it is the pages less those of live blocks |
| BuddyRuns.CounterWraps | badgevms/buddy_alloc.c:505 | With 256 of 511 pages live a request for 200 is met and leaves the counter at 2^32 - 1 |
| BuddyRuns.LiveAheadOfBoundary | badgevms/buddy_alloc.c:418-436 | In such runs of a pool with a full table every live block ends ahead of the waste boundary |
| BuddyRuns.SinglePagesCount | badgevms/buddy_alloc.c:387-396 | With only single pages live the counter is at least the number of unused pages |
| BuddyRuns.SinglePageGrantable | badgevms/buddy_alloc.c:450-511 | With only single pages live, any unused page ahead of the boundary makes a request for one page succeed |
| BuddyReach.SinglePagesReached | badgevms/buddy_alloc.c:450-561 | Every set of single pages ahead of the boundary is what some run from a fresh pool ends with |
| BuddyReach.WrapReached | badgevms/buddy_alloc.c:505 | Two requests for 200 pages take a fresh pool of 511 pages to a counter of 2^32 - 1 |
| BuddyReach.SomeGrant | badgevms/buddy_alloc.c:450-511 | Every grantable request has a grant, and it leads to a consistent state |
| BuddyBounds.InsideExactly | badgevms/buddy_alloc.c:418-436 | For every shape and page count: the request is only ever met ahead of the waste boundary, over all consistent states and over all states of runs, exactly if it is too large to be met at all or fits in the table from the last start of its order ahead of the boundary |
| BuddyBounds.GrantOutside | badgevms/buddy_alloc.c:418-436 | Any other request is met past the end of the table from a state some run reaches |
| BuddyBounds.FullTableStaysInside | badgevms/buddy_alloc.c:277-278 | A table as long as the index range lets no request out |
| BuddyBounds.WindowPoolStaysInside | badgevms/memory.c:781-814 | In the pool of 400 window pages the requests that stay inside are those of up to 144 pages |
| BuddyBounds.GrantableBySlot | badgevms/buddy_alloc.c:418-436 | A request below the top order and within the counter is granted exactly if some aligned run of its order is free and starts where its last requested page passes the waste test |
| BuddyBounds.SecondGrant | badgevms/buddy_alloc.c:450-511 | After one grant another of the same size is met exactly if two such runs were there at first and the counter holds the request still |
| Rects.IntersectionExact | badgevms/compositor/pixel_functions.h:86-99 | The intersection covers exactly the common pixels, and rectangles that are not empty are seen to intersect exactly if they have one |
| Rects.SubtractExact | badgevms/compositor/pixel_functions.c:179-225 | The at most four pieces are disjoint and cover exactly the pixels of a outside b |
| Rects.RotationExact | badgevms/compositor/pixel_functions.h:31-84 | Rotations are undone by their opposites, for points and rectangles, and a rotated rectangle is the image of the rectangle |
| Rects.RotationDirection | badgevms/compositor/pixel_functions.h:31-84 | A turn by 90 degrees takes the top left corner to the top right and that to the bottom right; turns by 180 and 270 degrees are two and three of them |
| Merging.RectArray.Append | badgevms/compositor/compositor.c:346-350 | Adds at the end when there is room |
| Merging.RectArray.Drop | badgevms/compositor/pixel_functions.c:133-136 | Removes one rectangle, keeping the order of the others |
| Merging.TakeOver | badgevms/compositor/pixel_functions.c:131-146 | Replacing two rectangles by one that covers both keeps the pixel union and disjointness with one rectangle fewer |
| Merging.Pass | badgevms/compositor/pixel_functions.c:124-148 | One pass is the function Passed: the first pair sharing an edge along the axis is joined, or there is none |
| Merging.MergeRectangles | badgevms/compositor/pixel_functions.c:118-177 | Terminates with exactly Merged of the rectangles |
| Merging.MergedExact | badgevms/compositor/pixel_functions.c:118-177 | Merged rectangles have the same pixels in no more rectangles, still disjoint if they were; no two share a full edge, and what has no shared edges stays as it is |
| Visible.SubtractAllExact | badgevms/compositor/compositor.c:334-351 | Subtracting one occluder from disjoint rectangles leaves disjoint rectangles with exactly the remaining pixels |
| Visible.ClipBy | badgevms/compositor/compositor.c:334-353 | One turn of the occlusion loop, with pieces past the 64th dropped |
| Visible.ClippedExact | badgevms/compositor/compositor.c:331-360 | After all occluders: disjoint, inside the difference, and equal to it when nothing was dropped |
| Visible.ClipByWindowsInFront | badgevms/compositor/compositor.c:331-360 | The loop over the ring of windows, early exit included, clips by exactly the windows in front |
| Visible.PartsExact | badgevms/compositor/compositor.c:297-309 | The two parts of an awkward rectangle are disjoint, make it up, and need no further split |
| Visible.SplitAllExact | badgevms/compositor/compositor.c:290-319 | Splitting keeps pixels and disjointness and leaves nothing to split |
| Visible.SplitRects | badgevms/compositor/compositor.c:290-319 | One pass of the workaround; it overflows exactly when a rectangle to split comes with 64 parts stored |
| Visible.OverflowNeedsParts | badgevms/compositor/compositor.c:297-305 | Overflow takes more than 64 parts and something to split |
| Visible.SplitUntilDone | badgevms/compositor/compositor.c:363-364 | The loop ends after a second pass with nothing awkward left; it overflows exactly when the first pass does, and keeps the pixels when the parts fit |
| Visible.ShowContent | badgevms/compositor/compositor.c:322-329 | Before occlusion a window shows its content area without decorations |
| Visible.CalculateVisibleRegions | badgevms/compositor/compositor.c:321-365 | The visible rectangles are VisibleParts of the content area and the windows in front, clipped, merged and split; it overflows exactly when splitting the merged rectangles does |
| Visible.VisibleExact | badgevms/compositor/compositor.c:321-365 | VisibleParts are disjoint, of no awkward height, and inside the content area less every window in front; equal to it when no piece was dropped and the parts fit |
| Visible.FewPartsFill | badgevms/compositor/compositor.c:321-365 | When clipping drops nothing and leaves at most half a buffer, nothing overflows and the visible rectangles cover exactly the content area less every window in front |
| Visible.HeadShown | badgevms/compositor/compositor.c:331-339 | The head never overflows and shows exactly its content area |
| Visible.CalculateOne | badgevms/compositor/compositor.c:784-798 | One window of the turn: its buffer becomes what it shows, those of the others stay, and it overflows exactly when its rectangles spill |
| Visible.VisiblePartsApart | badgevms/compositor/compositor.c:321-365 | What two windows show shares no pixel |
| Visible.CalculateStack | badgevms/compositor/compositor.c:763-808 | The turn over the stack overflows exactly when a window drawn spills; otherwise every window drawn has exactly what it shows, all others what they had: the head its whole content area, and each with few parts all of its area less the windows in front. Behind a head that is not full screen no window is drawn |
| WindowStack.PlacedOnScreen | badgevms/compositor/compositor.c:195-230 | The clamps put every window on the screen, decorations included, where it was asked for exactly if that is on the screen; no size on the screen is closer to the one asked for, and no place for a window of that size |
| WindowStack.PushWindow | badgevms/compositor/compositor.c:232-249 | The window becomes the head of the ring, whose other windows keep their order both ways |
| CrowdedStack.CrowdClipped | badgevms/compositor/compositor.c:331-360 | Nine windows on the screen cut the one behind them into 33 rectangles |
| CrowdedStack.CrowdSpills | badgevms/compositor/compositor.c:297-309 | Merging leaves those rectangles as they are, and splitting them writes past the buffer |
| CrowdedStack.StackOverflows | badgevms/compositor/compositor.c:763-808 | Opened one after the other, those ten windows make drawing the stack overflow |
| Blit.SoftwareBlit | badgevms/compositor/compositor.c:113-182 | Every framebuffer pixel holds the source pixel drawn on it, or what it held before |
| Blit.BlitFollowsRotation | badgevms/compositor/compositor.c:128-181 | A block drawn at its rotated rectangle puts each pixel on its rotated coordinates and nothing elsewhere, for all four rotations |
| Blit.ConvertedArgb | badgevms/compositor/compositor.c:161-173 | For every 32-bit pixel: the top five bits of red, or of blue when swapped, the top six of green, and the top five of the other one, in this order |
| Blit.ConvertedRgb565 | badgevms/compositor/compositor.c:161-173 | A 16-bit pixel is copied; when swapped its outer fields change places and the middle one stays |
| Blit.SwappedTwice | badgevms/compositor/compositor.c:161-173 | Swapping a 16-bit pixel twice gives it back |
| Blit.OffsetInjective | badgevms/compositor/compositor.c:175-179 | Different framebuffer pixels have different positions |
| PageLists.WindowGrow | badgevms/memory.c:482-500 | New ranges before a list map new virtual pages above its window and change none of its mappings |
| PageLists.WindowShrink | badgevms/memory.c:510-536 | The highest ranges taken off a list take exactly their mappings with them |
| PageLists.MovedWindow | badgevms/compositor/compositor.c:390-402 | A list moved to another window shows the same page at each offset, holds the same pages, and moves back to itself |
| Mmu.Table.MapRegion | badgevms/memory.c:156-189 | Aborts exactly when an entry is already valid; otherwise adds exactly the region |
| Mmu.Table.UnmapRegion | badgevms/memory.c:200-220 | Aborts exactly when an entry is not valid; otherwise removes exactly the region |
| Mmu.Table.MapRanges | badgevms/memory.c:240-244 | Maps a whole list, or aborts exactly when one of its pages is mapped |
| Mmu.Table.UnmapRanges | badgevms/memory.c:281-288 | Unmaps a whole list, or aborts exactly when one of its pages is not mapped |
| PhysicalPages.Pages.PageAllocate | badgevms/memory.c:589-596 | A page nobody has, or 0 exactly when none is to be had |
| PhysicalPages.Pages.PageDeallocate | badgevms/memory.c:585-587 | The page is free again and no other changed |
| PhysicalPages.Pages.PagesDeallocate | badgevms/memory.c:294-309 | Every page of the list is free again and no other changed |
| PhysicalPages.Pages.PagesAllocate | badgevms/memory.c:311-393 | Contiguous virtual pages on fresh distinct physical pages, highest first; a failure gives everything back; succeeds exactly when so many pages are to be had and kernel memory holds so many list entries |
| PhysicalPages.Pages.SpareIs | badgevms/memory.c:317-319 | The pages still to be had are those ahead of the boundary and not in use, and the counter never refuses while there are enough |
| PhysicalPages.ExhaustPages | badgevms/memory.c:589-596 | Requests for one page succeed exactly as often as there are spare pages, and then no more |
| PhysicalPages.ExhaustFreshPool | badgevms/memory.c:781-800 | On a fresh pool that is as often as there are pages ahead of the waste boundary |
| PhysicalPages.ExhaustSystemPool | badgevms/memory.c:781-800 | The system pool of 512 pages meets exactly 510 requests for one page in a row |
| Ownership.PagesOnOneList | badgevms/memory.c:223-393 | A page on two page lists is on one: the lists are the same owner's |
| Ownership.GiveToThread | badgevms/memory.c:487-499 | Fresh pages linked to one address space keep ledger and lists in step |
| Ownership.TakeFromThread | badgevms/memory.c:510-536 | Pages taken off one address space keep ledger and lists in step |
| AddressSpaces.Memory.constructor | badgevms/memory.c:735-819 | After boot the state is valid, with no task, address space or framebuffer |
| AddressSpaces.Memory.SwitchIn | badgevms/memory.c:223-252 | Aborts exactly when another task is mapped still; otherwise the user part of the MMU is the task's page list, and the count goes up |
| AddressSpaces.Memory.SwitchOut | badgevms/memory.c:254-292 | Aborts exactly for a task that is not mapped; otherwise the count goes down, and the last switch-out leaves no user mapping |
| AddressSpaces.Memory.AddTask | badgevms/task.c:681-686 | A new task with an empty address space keeps every invariant |
| AddressSpaces.Memory.AddThread | badgevms/task.c:675-680 | A new task sharing an address space keeps every invariant |
| AddressSpaces.Memory.RemoveTask | badgevms/task.c:608-612 | The pages of an address space go back with its last task and not before |
| AddressSpaces.Memory.Sbrk | badgevms/memory.c:444-583 | The old end, or ENOMEM with nothing else changed; growing puts fresh pages on top, shrinking gives back the last pages; growing is refused exactly past the end of user space, without enough pages, or without kernel memory for an entry each |
| AddressSpaces.Memory.Grow | badgevms/memory.c:452-503 | Succeeds exactly when there is room, there are pages, and kernel memory holds an entry for each; never meets a mapped entry |
| AddressSpaces.Memory.AddPages | badgevms/memory.c:482-500 | The locked part of growing: mapped, linked and accounted for |
| AddressSpaces.Memory.Shrink | badgevms/memory.c:504-565 | Exactly the last n pages are unmapped and given back; never meets an unmapped entry |
| AddressSpaces.Memory.FreeFromEnd | badgevms/memory.c:510-562 | The loop that frees from the end; the partial-range branch is never entered |
| FrameWindows.WindowsApart | badgevms/memory.c:395-411 | Windows of different framebuffers share no page, guard pages included |
| FrameWindows.GuardUnmapped | badgevms/compositor/compositor.c:450-470 | The last page of every window is mapped by no framebuffer |
| FrameWindows.FrameAdded | badgevms/compositor/compositor.c:469-486 | A framebuffer put in a free block it fits keeps all windows apart and the map their union |
| FrameWindows.FrameRemoved | badgevms/compositor/compositor.c:511-519 | Removing a framebuffer takes exactly its mappings away |
| FrameWindows.FramesSwapped | badgevms/compositor/compositor.c:404-434 | Two framebuffers that fit each other's windows, exchanged, keep all windows apart and the map their union, and the four MMU steps meet no obstacle |
| Framebuffers.VaddrAllocate | badgevms/memory.c:395-405 | For every size: a window free so far, or 0 exactly when the pool cannot grant it; inside the pool for every page count that always is |
| Framebuffers.VaddrDeallocate | badgevms/memory.c:407-411 | The window is no longer live and no other changed; without an address nothing is |
| Framebuffers.PicturesStayInside | badgevms/badgevms_config.h:21-22 | Every picture of screen size gets a window inside the pool of 400 pages |
| Framebuffers.FramebufferAllocate | badgevms/compositor/compositor.c:436-509 | Succeeds exactly when a window and enough pages are to be had and kernel memory holds the record and an entry for each page, and aborts exactly if all that is so and there is no page to map; then one more framebuffer, mapped but for its guard page; otherwise nothing changed |
| Framebuffers.EmptyPictures | badgevms/compositor/compositor.c:455-478 | Of pictures up to the size of the screen, exactly those without pixels have no page to map |
| Framebuffers.FramebufferAttach | badgevms/compositor/compositor.c:483-494 | Mapping and recording a new framebuffer keeps every invariant and never meets a mapped entry |
| Framebuffers.FramebufferFree | badgevms/compositor/compositor.c:511-519 | Pages, mappings and a window go back; the windows in use stay held exactly if the framebuffer is mapped where it was allocated |
| Framebuffers.HeldAfterFree | badgevms/compositor/compositor.c:511-519 | Why: otherwise the window given back is one another framebuffer is mapped in |
| Framebuffers.ReassignVaddr | badgevms/compositor/compositor.c:390-402 | The list moved to the new window, from its highest page down |
| Framebuffers.FramebufferSwap | badgevms/compositor/compositor.c:404-434 | For any two sizes: aborts exactly when a target page is taken; otherwise both lists are mapped in each other's window, and the state stays valid exactly when each fits there; without two framebuffers nothing changes |
| Framebuffers.SwapMappings | badgevms/compositor/compositor.c:423-433 | The four MMU steps of a swap, which abort exactly when a target page is taken |
| Framebuffers.EqualSizesExchange | badgevms/compositor/compositor.c:404-434 | Framebuffers of one size fit, and what each offset of their windows maps to is exchanged and nothing else |
| MemoryLaws.UserPagesIsolated | badgevms/memory.c:223-393 | A page reached through the user region is on the list of the mapped task's address space and on no other owner's |
| MemoryLaws.NothingMapped | badgevms/memory.c:254-292 | While no task is mapped the user region is empty |
| MemoryLaws.GuardPageUnmapped | badgevms/compositor/compositor.c:450-470 | In every valid state the MMU has no entry for the guard page of a framebuffer |
| MemoryLaws.GrowThenShrink | badgevms/memory.c:444-583 | sbrk(n) succeeds exactly when there is room, pages and kernel memory; then sbrk(-n) restores lists, bounds, MMU table and free pages |
| MemoryLaws.SwapTwice | badgevms/compositor/compositor.c:404-434 | Swapping two framebuffers that fit twice restores framebuffers and MMU table |
| MemoryLaws.GuardMoves | badgevms/compositor/compositor.c:390-402 | The page that was a window's guard is mapped after a swap exactly if the larger framebuffer came |
| MemoryLaws.SwapPair | badgevms/compositor/compositor.c:404-434 | Swapping a pair of one size keeps it a pair, its pages, and every mapping outside the two windows |
| MemoryLaws.CreatePair | badgevms/compositor/compositor.c:966-1002 | Two framebuffers of one size exactly if windows, pages and kernel memory suffice for both (PairFits), or nothing changed |
| MemoryLaws.FreshPoolFitsPair | badgevms/compositor/compositor.c:966-1002 | In the fresh pool of windows there is room for two of any size up to 128 pages |
| MemoryLaws.DestroyPair | badgevms/compositor/compositor.c:596-607 | Destroying a pair gives back both windows, all pages and all mappings, and keeps windows in use held |
| MemoryLaws.LifeOfPair | badgevms/compositor/compositor.c:596-607 | Created exactly when the pair fits, swapped any number of times and destroyed, a double-buffered window leaves windows, pages and mappings as they were |
| MemoryLaws.FreeOneOfSwapped | badgevms/compositor/compositor.c:511-519 | Whenever a pair fits: freeing one of the two after a swap leaves the other mapped in a window that is free |
| Paths.ParsePath | badgevms/pathfuncs.c:38-115 | Accepts exactly the strings of the grammar and returns their one reading; every error names the first thing wrong |
| Paths.ReadingUnique | badgevms/pathfuncs.c:38-115 | A string reads as at most one path |
| Paths.RejectedOnce | badgevms/pathfuncs.c:38-115 | A string is rejected for one reason only |
| Paths.Unreadable | badgevms/pathfuncs.c:38-115 | Each kind of rejection excludes every reading |
| Paths.ParsedPath.PathToUnix | badgevms/pathfuncs.c:117-160 | The buffer of len + 3 characters holds the whole unix path and its end for every parsed path; a second call returns the first result |
| Paths.UnixInjective | badgevms/pathfuncs.c:117-160 | Different paths have different unix paths |
| Paths.UnixPieces | badgevms/pathfuncs.c:133-157 | Split at its slashes, the unix path is nothing, the device, the directory names between dots, and the file name, which may be empty |
| Paths.SplitExact | badgevms/pathfuncs.c:133-157 | What splitting is: stretches without the separator that joined by it give the string |
| Paths.UnixFits | badgevms/pathfuncs.c:122-123 | The unix path is shorter than the buffer |
| PathFunctions.PathConcat | badgevms/pathfuncs.c:425-565 | Succeeds exactly on a base without file name and a well-formed tail; the directories are joined |
| PathFunctions.ConcatReads | badgevms/pathfuncs.c:425-565 | Its result always parses again, to the joined parts |
| PathFunctions.ConcatAssociative | badgevms/pathfuncs.c:425-565 | Appending a directory and then a tail is appending the tail below that directory |
| PathFunctions.ParseTail | badgevms/pathfuncs.c:448-518 | The appended part is accepted exactly when it is a directory in brackets and a file name, or a file name |
| PathFunctions.PathDirconcat | badgevms/pathfuncs.c:360-394 | The directory goes below; the result parses exactly when it has only path characters |
| PathFunctions.PathFileconcat | badgevms/pathfuncs.c:396-423 | The file name is replaced; the result parses to that exactly when it has only path characters |
| PathFunctions.PathDirname | badgevms/pathfuncs.c:295-316 | The path without its file name, which parses |
| PathFunctions.PathBasename | badgevms/pathfuncs.c:318-337 | The file name, when there is one |
| PathFunctions.SplitAndJoin | badgevms/pathfuncs.c:295-423 | Dirname and basename joined again read as the path does |
| PathFunctions.JoinAndSplit | badgevms/pathfuncs.c:295-423 | A file name appended is the one taken off again, and the directory is unchanged |
| NameParts.PiecesOfJoin | badgevms/logical_names.c:262-284 | Splitting joined directory names gives the names |
| NameParts.JoinOfPieces | badgevms/logical_names.c:189-199 | Joining the pieces gives the text they came from |
| NameParts.PartsOfWritten | badgevms/logical_names.c:234-314 | Parsing what was written gives back device, directories and file name |
| NameParts.ReprintExactly | badgevms/logical_names.c:147-314 | Writing what was parsed reproduces a string with a device exactly when it does not parse or its directory opens right after the colon |
| LogicalNames.ParseString | badgevms/logical_names.c:234-314 | The scanning loop finds the parts given by where the separators are, and rejects repeated, missing and unclosed ones; it overflows exactly when a start of the string without a repeated separator holds more than 25 directories |
| LogicalNames.DeepPaths | badgevms/logical_names.c:264-284 | A string that parses overflows exactly when its path has more than 25 directories |
| LogicalNames.Serialize | badgevms/logical_names.c:147-206 | Null without a device; otherwise a buffer filled exactly, null character included |
| LogicalNames.LengthOf | badgevms/logical_names.c:161-176 | The length computed first is the length of what is written |
| LogicalNames.WriteComponents | badgevms/logical_names.c:178-205 | The buffer holds the written components and its end |
| LogicalNames.SerializeInvertsParse | badgevms/logical_names.c:147-314 | Exactly which strings serialize(parse(s)) returns unchanged |
| LogicalNames.ParseInvertsSerialize | badgevms/logical_names.c:147-314 | parse(serialize(p)) has the texts of p, for all names without separators |
| NameResolution.TargetChosen | badgevms/logical_names.c:341-351 | A defined name gives all of the string asked for in its list, or else of the first, and the length of the list |
| NameResolution.LookupChain | badgevms/logical_names.c:321-354 | Looking up the first name of a chain reaches its end when enough turns are left, the end of a terminal name included, and nothing otherwise |
| NameResolution.PlainNameResolves | badgevms/logical_names.c:388-413 | A plain name resolves to the end of its chain if that is at most 14 turns away, and to itself otherwise; the result count is the length of the list at the end of the chain of first strings, and only if that is a list is the chain of the place asked for taken |
| NameResolution.PlainListResolves | badgevms/logical_names.c:341-351 | A plain name with a list of plain names resolves to the one asked for, or else the first, with as many results as the list has strings |
| NameResolution.CycleResolvesToItself | badgevms/logical_names.c:403-407 | A plain name from which all ways stay in a set of plain names resolves to itself, with one result |
| NameResolution.EndOfChain | badgevms/logical_names.c:321-354 | EndOf follows the chain of first strings to its end, or gives nothing when there are too few turns |
| NameResolution.LookupEnd | badgevms/logical_names.c:464-467 | Looking up a directory or file name gives that end, which later rounds leave alone |
| NameResolution.CyclicPartVanishes | badgevms/logical_names.c:464-467 | A directory or file name caught in a cycle becomes nothing |
| AliasChains.LookupAlias | badgevms/logical_names.c:356-386 | A device alias, defined with or without its colon, gives the string it stands for if a turn is left |
| AliasChains.NewDeviceIs | badgevms/logical_names.c:418-429 | The place asked for is taken in the first list met only, whose length becomes the result count |
| AliasChains.AliasRound | badgevms/logical_names.c:418-472 | One round replaces an alias by what it stands for, puts its directories before those already there, lets its file name win, and follows all of them to their ends |
| AliasChains.NotTheSame | badgevms/logical_names.c:208-232 | What a round changes is seen by comparing places, even when texts are equal |
| AliasChains.CountOfFirstList | badgevms/logical_names.c:418-429 | The result count of a chain is 1 without lists, and the length of the first list met otherwise |
| AliasChains.ResolveChain | badgevms/logical_names.c:388-473 | From any point of a chain, what path is left and with what result count |
| AliasChains.WrittenDeep | badgevms/logical_names.c:262-284 | A path written with any directory names overflows the parser exactly when it has more than 25 of them |
| AliasChains.ChainFits | badgevms/logical_names.c:434-457 | From any point of a chain, resolving stays inside the arrays exactly if all directories gathered have room in one |
| AliasChains.ChainResolves | badgevms/logical_names.c:388-473 | Resolving any path on the last of a chain of aliases, from the first round or after a plain name, gives the outcome of the chain: the device reached after at most 14 aliases, their directories in order before its own, the last file name met |
| AliasChains.AliasChainResolves | badgevms/logical_names.c:558-572 | A string on the last of a chain of aliases resolves to that outcome; its count is the length of the first list met, or 1; no array overflows exactly if all directories are at most 25 |
| AliasChains.NameOfPathResolves | badgevms/logical_names.c:388-413 | So does a plain name whose chain ends in such a path |
| AliasChains.SearchListResolves | badgevms/logical_names.c:341-351 | A path on an alias for a list of n paths resolves to the place asked for, or else the first, with the directories and file name of that string, and count n |
| PidRing.PidTable.constructor | badgevms/task.c:847-852 | The ring holds 1 to 127 and identifier 0 is out for good |
| PidRing.PidTable.PidAllocate | badgevms/task.c:92-108 | The identifier at the head, from 1 to 127 and held by nobody; fails exactly when that place is empty, and only with 126 or more held |
| PidRing.PidTable.PidFree | badgevms/task.c:110-124 | The identifier is no longer held and the ring stays free of duplicates; another one is lost exactly when the place at the tail is taken, at most once |
| PidRing.LoseIdentifier | badgevms/task.c:847-852 | One allocation and one free on a fresh table lose identifier 127 |
| Tasks.AddressSpace.Ref | badgevms/task.c:271-289 | One user more, unless the count marks the space as dying |
| Tasks.AddressSpace.Destroy | badgevms/task.c:198-269 | One user fewer; destroyed when none is left |
| Tasks.Kernel.Spawn | badgevms/task.c:649-751 | Fails only for want of an identifier or of kernel memory, leaving the table as it was; a started task has an identifier no unreaped task holds, never 0, and a thread shares its parent's space, the kernel's included, where any other task gets a fresh one |
| Tasks.Kernel.Reap | badgevms/task.c:591-647 | The dead task leaves the table, exactly its children below identifier 127 are queued behind those that wait, in order, and its space is destroyed exactly when it has no user and no stray reference |
| Tasks.Kernel.Die | badgevms/task.c:152-171 | A death is queued once |
| Tasks.Kernel.SharedNotDestroyed | badgevms/task.c:198-269 | The address space of a task in the table is never destroyed, unless it is the kernel's |
| Tasks.Kernel.DestroyedExactly | badgevms/task.c:198-289 | A space is destroyed exactly when no task uses it and no failed creation kept a reference |
| Tasks.LastChildLeft | badgevms/task.c:626-632 | After 127 creations and the first task's death its child with identifier 127 is the one not killed |
| Tasks.KernelThreadDies | badgevms/task.c:50-57 | The first thread of a kernel task destroys the kernel's address space when it dies |

## Left out

- Locks, critical sections and several pools: each operation is one atomic step on one pool.
- BuddyPool.Pool.constructor: pools with at most half of the index range usable. With exactly half every index is marked waste; with less the start of the marks underflows in the original.
- BuddyPool.Pool.Allocate: the table has 2^k + 1 records, the last a sentinel; the original reads past its shorter table where the model finds unmarked, unlisted records. For block 0 and no pages it reads one record ahead of the table, which init_pool has cleared.
- BuddyPool.Pool.Deallocate: freeing an address inside the pool that no live block starts at, which the original does not notice.
- BuddyRuns.RefusalIsComplete: requests of the top order, which the original refuses whatever is free.
- Block types, pool flags, printing and the disabled reallocation code of the allocator.
- AddressSpaces.Memory: addresses and sizes are counted in pages, and a list of ranges is a sequence; sbrk increments are multiples of the page size.
- AddressSpaces.Memory.Sbrk: calls for kernel tasks, which have no entry in the task table, calls by a task that is not the mapped one, and giving back more than the task has.
- Caches, interrupts, the memory test, reserving bad pages and the boot mappings themselves.
- Framebuffers.FramebufferAllocate: requests that can leave the window pool (`BuddyBounds.InsideExactly` says which), after which windows and user memory are no longer apart.
- Kernel memory is an input: how many list entries and which records it still holds (`PhysicalPages.KernelMemory`, `Tasks.KernelMemory`).
- Framebuffers.FramebufferFree: a user who writes another address over `framebuffer.pixels`, which lies in the part open to users; the original gives back whatever is there.
- Visible.CalculateVisibleRegions: scales other than 1, and rectangles whose coordinates overflow 32 bits.
- Blit.SoftwareBlit: scales other than 1 and the hardware blitter.
- Visible.CalculateStack: drawing the windows, and windows whose task has gone.
- Window decorations, text, damage tracking, input, the window message queue and focus and removal of windows.
- ParsedPath: fields are values, not pointers into a copy of the string; strings have no null character inside.
- path_devname, mkdir_p and rm_rf, which only call the functions modelled or the file system.
- LogicalNames.ParseString: a closing bracket before any opening one gives an absent component, where the original measures from a null pointer.
- NameResolution.ResolveDevice: stored strings are immutable; the original writes a colon or a null character into them and, after a successful look-up with a colon, leaves the colon there.
- NameResolution.ResolvePath: by value and without an end to its arrays; `NameResolution.Fits` says when the original's do not overflow.
- AliasChains.AliasChainResolves: aliases of which a string is itself a name or the alias again, and a terminal alias met in the 15th round, after which the original has no turn left for the parts of the path.
- logical_name_set: splitting its target at commas and white space; the hash table is a map.
- Tasks.Kernel.Spawn: stack sizes, arguments and the process types' entry points.
- Tasks.Kernel.Reap: file handles and other resources of a task, and the message to its parent; a task dies once, and identifier 0 never.
- popcount32, ctz32, ffs32 and the 64-bit counts of bitops.h, which the modelled code does not call.
- Drivers, networking, updates, loading of programs, applications and the device registry.
