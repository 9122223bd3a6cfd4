/** Who owns each physical page: a ledger from pages to owners, kept in step with the page
    lists of address spaces and framebuffers. */
module Ownership {
  import opened PageLists
  import opened PhysicalPages

  datatype Owner = Kernel | Thread(id: nat) | Frame(id: nat)

  /** The memory part of a task's address space (task_thread_t). */
  datatype ThreadMem = ThreadMem(start: nat, end: nat, size: nat, pages: seq<Range>)

  /** A framebuffer: where its owner sees it, its pages with the guard page, and its page list. */
  datatype FrameMem = FrameMem(pixels: nat, numPages: nat, pages: seq<Range>)

  type Ledger = map<nat, Owner>

  ghost function OwnedBy(ledger: Ledger, o: Owner): set<nat> {
    set p | p in ledger && ledger[p] == o
  }

  /** Every list holds exactly the pages the ledger gives its owner, and there is no other owner. */
  ghost predicate Balanced(ledger: Ledger, threads: map<nat, ThreadMem>, frames: map<nat, FrameMem>) {
    && (forall t <- threads :: PagesIn(threads[t].pages) == OwnedBy(ledger, Thread(t)))
    && (forall f <- frames :: PagesIn(frames[f].pages) == OwnedBy(ledger, Frame(f)))
    && (forall p <- ledger :: ledger[p].Thread? ==> ledger[p].id in threads)
    && (forall p <- ledger :: ledger[p].Frame? ==> ledger[p].id in frames)
  }

  ghost function Given(ledger: Ledger, pages: set<nat>, o: Owner): Ledger {
    ledger + (map p | p in pages :: o)
  }

  lemma PagesInAppend(a: seq<Range>, b: seq<Range>)
    ensures PagesIn(a + b) == PagesIn(a) + PagesIn(b)
  {
    forall p | p in PagesIn(a) + PagesIn(b)
      ensures p in PagesIn(a + b)
    {
      if i :| 0 <= i < |a| && a[i].ppage == p {
        assert (a + b)[i].ppage == p;
      } else {
        var i :| 0 <= i < |b| && b[i].ppage == p;
        assert (a + b)[|a| + i].ppage == p;
      }
    }
    forall p | p in PagesIn(a + b)
      ensures p in PagesIn(a) + PagesIn(b)
    {
      var i :| 0 <= i < |a + b| && (a + b)[i].ppage == p;
      if i < |a| {
        assert a[i].ppage == p;
      } else {
        assert b[i - |a|].ppage == p;
      }
    }
  }

  lemma NoDuplicatesAppend(a: seq<Range>, b: seq<Range>)
    requires NoDuplicates(a) && NoDuplicates(b) && PagesIn(a) !! PagesIn(b)
    ensures NoDuplicates(a + b)
  {
    forall i, j | 0 <= i < |a| && 0 <= j < |b|
      ensures a[i].ppage != b[j].ppage
    {
      assert a[i].ppage in PagesIn(a) && b[j].ppage in PagesIn(b);
    }
  }

  lemma NoDuplicatesParts(list: seq<Range>, n: nat)
    requires NoDuplicates(list) && n <= |list|
    ensures NoDuplicates(list[..n]) && NoDuplicates(list[n..])
    ensures PagesIn(list[n..]) == PagesIn(list) - PagesIn(list[..n])
    ensures PagesIn(list[..n]) <= PagesIn(list)
  {
    assert list == list[..n] + list[n..];
    PagesInAppend(list[..n], list[n..]);
    forall p | p in PagesIn(list[..n])
      ensures p !in PagesIn(list[n..])
    {
      var i :| 0 <= i < n && list[..n][i].ppage == p;
      assert forall j | 0 <= j < |list[n..]| :: list[n..][j] == list[n + j];
    }
  }

  /** Fresh pages go to one thread's list; nobody else's changes. */
  lemma GiveToThread(ledger: Ledger, threads: map<nat, ThreadMem>, frames: map<nat, FrameMem>, t: nat, top: seq<Range>,
                     next: ThreadMem)
    requires Balanced(ledger, threads, frames) && t in threads && PagesIn(top) !! ledger.Keys
    requires next.pages == top + threads[t].pages
    ensures Balanced(Given(ledger, PagesIn(top), Thread(t)), threads[t := next], frames)
  {
    PagesInAppend(top, threads[t].pages);
    GivenOwners(ledger, PagesIn(top), Thread(t));
    hide OwnedBy, PagesIn, Given;
  }

  lemma GivenOwners(ledger: Ledger, pages: set<nat>, owner: Owner)
    requires pages !! ledger.Keys
    ensures forall o: Owner ::
              OwnedBy(Given(ledger, pages, owner), o) == OwnedBy(ledger, o) + (if o == owner then pages else {})
    ensures forall p <- Given(ledger, pages, owner) ::
              Given(ledger, pages, owner)[p] == if p in pages then owner else ledger[p]
    ensures Given(ledger, pages, owner).Keys == ledger.Keys + pages
  {
  }

  /** The first n pages of one thread's list come back. */
  lemma TakeFromThread(ledger: Ledger, threads: map<nat, ThreadMem>, frames: map<nat, FrameMem>, t: nat, n: nat,
                       next: ThreadMem)
    requires Balanced(ledger, threads, frames) && t in threads && n <= |threads[t].pages|
    requires NoDuplicates(threads[t].pages) && next.pages == threads[t].pages[n..]
    ensures Balanced(ledger - PagesIn(threads[t].pages[..n]), threads[t := next], frames)
    ensures PagesIn(threads[t].pages[..n]) <= OwnedBy(ledger, Thread(t)) <= ledger.Keys
  {
    var gone := PagesIn(threads[t].pages[..n]);
    NoDuplicatesParts(threads[t].pages, n);
    forall o: Owner
      ensures OwnedBy(ledger - gone, o) == OwnedBy(ledger, o) - (if o == Thread(t) then gone else {})
    {
      assert forall p <- gone :: p in OwnedBy(ledger, Thread(t));
    }
  }

  /** A thread whose list is empty owns nothing and may go. */
  lemma DropThread(ledger: Ledger, threads: map<nat, ThreadMem>, frames: map<nat, FrameMem>, t: nat)
    requires Balanced(ledger, threads, frames) && t in threads && threads[t].pages == []
    ensures Balanced(ledger, threads - {t}, frames)
  {
    forall p | p in ledger
      ensures ledger[p] != Thread(t)
    {
      assert p !in OwnedBy(ledger, Thread(t));
    }
  }

  lemma NewThread(ledger: Ledger, threads: map<nat, ThreadMem>, frames: map<nat, FrameMem>, t: nat, next: ThreadMem)
    requires Balanced(ledger, threads, frames) && t !in threads && next.pages == []
    ensures Balanced(ledger, threads[t := next], frames)
  {
    assert OwnedBy(ledger, Thread(t)) == {};
  }

  lemma GiveToFrame(ledger: Ledger, threads: map<nat, ThreadMem>, frames: map<nat, FrameMem>, f: nat, next: FrameMem)
    requires Balanced(ledger, threads, frames) && f !in frames && PagesIn(next.pages) !! ledger.Keys
    ensures Balanced(Given(ledger, PagesIn(next.pages), Frame(f)), threads, frames[f := next])
  {
    assert OwnedBy(ledger, Frame(f)) == {};
    GivenOwners(ledger, PagesIn(next.pages), Frame(f));
    hide OwnedBy, PagesIn, Given;
  }

  lemma TakeFromFrame(ledger: Ledger, threads: map<nat, ThreadMem>, frames: map<nat, FrameMem>, f: nat)
    requires Balanced(ledger, threads, frames) && f in frames
    ensures Balanced(ledger - PagesIn(frames[f].pages), threads, frames - {f})
    ensures PagesIn(frames[f].pages) <= ledger.Keys
  {
    var gone := PagesIn(frames[f].pages);
    forall o: Owner
      ensures OwnedBy(ledger - gone, o) == if o == Frame(f) then {} else OwnedBy(ledger, o)
    {
      assert forall p <- gone :: p in OwnedBy(ledger, Frame(f));
    }
    forall p | p in ledger - gone
      ensures ledger[p] != Frame(f)
    {
      assert p !in OwnedBy(ledger, Frame(f));
    }
  }

  /** A page on one list is on no other. */
  lemma PagesOnOneList(ledger: Ledger, threads: map<nat, ThreadMem>, frames: map<nat, FrameMem>, a: Owner, b: Owner,
                       p: nat)
    requires Balanced(ledger, threads, frames) && p in ListOf(threads, frames, a) && p in ListOf(threads, frames, b)
    ensures a == b && p in ledger && ledger[p] == a
  {
    assert p in OwnedBy(ledger, a) && p in OwnedBy(ledger, b);
  }

  /** The pages on an owner's list; the kernel keeps none. */
  ghost function ListOf(threads: map<nat, ThreadMem>, frames: map<nat, FrameMem>, o: Owner): set<nat> {
    match o
    case Kernel => {}
    case Thread(t) => if t in threads then PagesIn(threads[t].pages) else {}
    case Frame(f) => if f in frames then PagesIn(frames[f].pages) else {}
  }
}
