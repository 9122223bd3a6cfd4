/** The memory management unit's table and the loops that write it. */
module Mmu {
  import opened PageLists

  /** Virtual pages v to v + n - 1 mapped to consecutive physical pages from p. */
  ghost function Region(v: nat, p: nat, n: nat): (m: PageMap)
    ensures forall x :: x in m <==> v <= x < v + n
  {
    map x | v <= x < v + n :: Target(v, p, x)
  }

  ghost function Target(v: nat, p: nat, x: nat): nat
    requires v <= x
  {
    p + (x - v)
  }

  class Table {
    var entries: PageMap

    constructor (entries: PageMap)
      ensures this.entries == entries
    {
      this.entries := entries;
    }

    /** why_mmu_hal_map_region: writing over a valid entry aborts the system. */
    method MapRegion(v: nat, p: nat, n: nat) returns (aborted: bool)
      modifies this
      ensures aborted <==> !(Region(v, p, n).Keys !! old(entries).Keys)
      ensures !aborted ==> entries == old(entries) + Region(v, p, n)
    {
      var pageNum, vaddr, paddr := n, v, p;
      while pageNum > 0
        invariant 0 <= pageNum <= n && vaddr == v + (n - pageNum) && paddr == p + (n - pageNum)
        invariant Region(v, p, n - pageNum).Keys !! old(entries).Keys
        invariant entries == old(entries) + Region(v, p, n - pageNum)
      {
        if vaddr in entries {
          assert vaddr in Region(v, p, n) && vaddr in old(entries);
          return true;
        }
        entries := entries[vaddr := paddr];
        vaddr := vaddr + 1;
        paddr := paddr + 1;
        pageNum := pageNum - 1;
      }
      return false;
    }

    /** why_mmu_hal_unmap_region: clearing an invalid entry aborts the system. */
    method UnmapRegion(v: nat, n: nat) returns (aborted: bool)
      modifies this
      ensures aborted <==> !(Region(v, 0, n).Keys <= old(entries).Keys)
      ensures !aborted ==> entries == old(entries) - Region(v, 0, n).Keys
    {
      var pageNum, vaddr := n, v;
      while pageNum > 0
        invariant 0 <= pageNum <= n && vaddr == v + (n - pageNum)
        invariant Region(v, 0, n - pageNum).Keys <= old(entries).Keys
        invariant entries == old(entries) - Region(v, 0, n - pageNum).Keys
      {
        if vaddr !in entries {
          assert vaddr in Region(v, 0, n);
          return true;
        }
        entries := entries - {vaddr};
        vaddr := vaddr + 1;
        pageNum := pageNum - 1;
      }
      return false;
    }

    /** Maps every range of a list. */
    method MapRanges(list: seq<Range>, ghost low: nat) returns (aborted: bool)
      requires Descending(list, low)
      modifies this
      ensures aborted <==> !(Window(list, low).Keys !! old(entries).Keys)
      ensures !aborted ==> entries == old(entries) + Window(list, low)
    {
      hide Window, Region, Descending;
      for i := 0 to |list|
        invariant entries == old(entries) + Window(list[..i], low + |list| - i)
        invariant Window(list[..i], low + |list| - i).Keys !! old(entries).Keys
      {
        WindowNext(list, low, i);
        aborted := MapRegion(list[i].vpage, list[i].ppage, list[i].size);
        if aborted {
          return;
        }
      }
      assert list[..|list|] == list;
      return false;
    }

    /** Unmaps every range of a list. */
    method UnmapRanges(list: seq<Range>, ghost low: nat) returns (aborted: bool)
      requires Descending(list, low)
      modifies this
      ensures aborted <==> !(Window(list, low).Keys <= old(entries).Keys)
      ensures !aborted ==> entries == old(entries) - Window(list, low).Keys
    {
      hide Window, Region, Descending;
      for i := 0 to |list|
        invariant entries == old(entries) - Window(list[..i], low + |list| - i).Keys
        invariant Window(list[..i], low + |list| - i).Keys <= old(entries).Keys
      {
        WindowNext(list, low, i);
        aborted := UnmapRegion(list[i].vpage, list[i].size);
        if aborted {
          return;
        }
      }
      assert list[..|list|] == list;
      return false;
    }
  }

  /** One range more of a list: its page goes below those above it. */
  lemma WindowNext(list: seq<Range>, low: nat, i: nat)
    requires Descending(list, low) && i < |list|
    ensures list[i].size == 1 && list[i].vpage == low + |list| - 1 - i
    ensures Window(list[..i + 1], low + |list| - (i + 1))
         == Window(list[..i], low + |list| - i) + Region(list[i].vpage, list[i].ppage, 1)
    ensures Region(list[i].vpage, 0, 1).Keys == {list[i].vpage} == Region(list[i].vpage, list[i].ppage, 1).Keys
    ensures list[i].vpage in Window(list, low) && list[i].vpage !in Window(list[..i], low + |list| - i)
  {
  }
}
