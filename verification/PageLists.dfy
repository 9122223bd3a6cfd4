/** Lists of mapped page ranges as the kernel builds them: newest range first, so from the
    highest virtual page down, each one page long. Addresses are counted in pages. */
module PageLists {

  datatype Range = Range(vpage: nat, ppage: nat, size: nat)

  type PageMap = map<nat, nat>

  /** The ranges cover [low, low + |list|), highest first, one page each. */
  ghost predicate Descending(list: seq<Range>, low: nat) {
    forall i | 0 <= i < |list| :: list[i].size == 1 && list[i].vpage == low + |list| - 1 - i
  }

  /** What the list maps each virtual page to. */
  ghost function Window(list: seq<Range>, low: nat): (m: PageMap)
    ensures forall v :: v in m <==> low <= v < low + |list|
  {
    map v | low <= v < low + |list| :: Entry(list, low, v)
  }

  function Entry(list: seq<Range>, low: nat, v: nat): nat
    requires low <= v < low + |list|
  {
    list[low + |list| - 1 - v].ppage
  }

  ghost predicate NoDuplicates(list: seq<Range>) {
    forall i, j | 0 <= i < j < |list| :: list[i].ppage != list[j].ppage
  }

  ghost predicate Holds(list: seq<Range>, p: nat) {
    exists i :: 0 <= i < |list| && list[i].ppage == p
  }

  /** Ranges added above an existing list. */
  lemma WindowGrow(top: seq<Range>, list: seq<Range>, low: nat)
    requires Descending(list, low) && Descending(top, low + |list|)
    ensures Descending(top + list, low)
    ensures Window(top + list, low) == Window(list, low) + Window(top, low + |list|)
    ensures Window(list, low).Keys !! Window(top, low + |list|).Keys
  {
  }

  /** The highest n ranges taken off. */
  lemma WindowShrink(list: seq<Range>, low: nat, n: nat)
    requires Descending(list, low) && n <= |list|
    ensures Descending(list[n..], low)
    ensures Window(list[n..], low) == Window(list, low) - Window(list[..n], low + |list| - n).Keys
    ensures Window(list[..n], low + |list| - n).Keys <= Window(list, low).Keys
    ensures Descending(list[..n], low + |list| - n)
  {
  }

  /** A list moved to another window maps each offset to the same page. */
  function Moved(list: seq<Range>, low: nat): (r: seq<Range>)
    ensures |r| == |list|
  {
    seq(|list|, i requires 0 <= i < |list| => list[i].(vpage := low + |list| - 1 - i))
  }

  lemma MovedWindow(list: seq<Range>, low: nat, target: nat)
    requires Descending(list, low)
    ensures Descending(Moved(list, target), target)
    ensures forall v | low <= v < low + |list| ::
              Entry(Moved(list, target), target, v - low + target) == Entry(list, low, v)
    ensures forall p :: Holds(Moved(list, target), p) <==> Holds(list, p)
    ensures NoDuplicates(list) ==> NoDuplicates(Moved(list, target))
    ensures Moved(Moved(list, target), low) == list
  {
    var m := Moved(list, target);
    forall p
      ensures Holds(m, p) <==> Holds(list, p)
    {
      if i :| 0 <= i < |list| && list[i].ppage == p {
        assert m[i].ppage == p;
      }
      if i :| 0 <= i < |m| && m[i].ppage == p {
        assert list[i].ppage == p;
      }
    }
    assert forall i | 0 <= i < |list| :: Moved(m, low)[i] == list[i];
    assert Moved(m, low) == list;
  }
}
