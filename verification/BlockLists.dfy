/** The allocator's intrusive lists: block records linked into circular doubly linked lists
    through their own prev and next fields, each list closed by a head record. Records are
    numbered, heads after blocks; lists[l] is the ghost contents of the list whose head is
    record base + l, oldest entry first. */
module BlockLists {

  datatype Record = Record(order: nat, inList: bool, isWaste: bool, prev: nat, next: nat)

  type Lists = seq<seq<nat>>

  /** The neighbours of entry i in the ring; position |c| stands for the head. */
  function Before(head: nat, c: seq<nat>, i: nat): nat
    requires i <= |c|
  {
    if i == 0 then head else c[i - 1]
  }

  function After(head: nat, c: seq<nat>, i: nat): nat
    requires i < |c|
  {
    if i + 1 == |c| then head else c[i + 1]
  }

  ghost predicate Ring(t: seq<Record>, head: nat, c: seq<nat>) {
    && head < |t|
    && (forall i | 0 <= i < |c| :: c[i] < |t| && c[i] != head)
    && t[head].next == (if c == [] then head else c[0])
    && t[head].prev == Before(head, c, |c|)
    && (forall i {:trigger After(head, c, i)} | 0 <= i < |c| :: t[c[i]].next == After(head, c, i))
    && (forall i {:trigger Before(head, c, i)} | 0 <= i < |c| :: t[c[i]].prev == Before(head, c, i))
  }

  ghost predicate NoRepeats(c: seq<nat>) {
    forall i, j | 0 <= i < j < |c| :: c[i] != c[j]
  }

  /** Two lists share neither a head nor an entry. */
  ghost predicate Apart(head: nat, c: seq<nat>, other: nat, d: seq<nat>) {
    && head != other && head !in d && other !in c
    && forall i, j | 0 <= i < |c| && 0 <= j < |d| :: c[i] != d[j]
  }

  /** No record is linked twice, in one list or in two. */
  ghost predicate Distinct(lists: Lists) {
    forall l, i, m, j | 0 <= l < |lists| && 0 <= i < |lists[l]| && 0 <= m < |lists| && 0 <= j < |lists[m]| ::
      lists[l][i] == lists[m][j] ==> l == m && i == j
  }

  ghost predicate Linked(lists: Lists, e: nat) {
    exists l, i :: 0 <= l < |lists| && 0 <= i < |lists[l]| && lists[l][i] == e
  }

  ghost predicate WellLinked(t: seq<Record>, base: nat, lists: Lists) {
    && |t| == base + |lists|
    && (forall l, i | 0 <= l < |lists| && 0 <= i < |lists[l]| :: lists[l][i] < base)
    && Distinct(lists)
    && (forall l | 0 <= l < |lists| :: Ring(t, base + l, lists[l]))
    && (forall e {:trigger Linked(lists, e)} | 0 <= e < base :: t[e].inList <==> Linked(lists, e))
  }

  /** Only links and list membership changed. */
  ghost predicate SameBlocks(t: seq<Record>, u: seq<Record>) {
    && |t| == |u|
    && forall i | 0 <= i < |t| :: t[i].order == u[i].order && t[i].isWaste == u[i].isWaste
  }

  function Appended(lists: Lists, l: nat, e: nat): Lists
    requires l < |lists|
  {
    lists[l := lists[l] + [e]]
  }

  function Without(c: seq<nat>, i: nat): seq<nat>
    requires i < |c|
  {
    c[..i] + c[i + 1..]
  }

  function Removed(lists: Lists, l: nat, i: nat): Lists
    requires l < |lists| && i < |lists[l]|
  {
    lists[l := Without(lists[l], i)]
  }

  // ---- list_push_back ----

  /** What the five stores of list_push_back leave. */
  ghost predicate Pushed(t: seq<Record>, u: seq<Record>, head: nat, e: nat) {
    && |u| == |t| && head < |t| && e < |t| && t[head].prev < |t|
    && var prev := t[head].prev;
    && (forall i | 0 <= i < |t| && i != e && i != prev && i != head :: u[i] == t[i])
    && u[e].prev == prev && u[e].next == head && u[e].inList
    && u[prev].next == e && u[head].prev == e
    && (prev != head ==> u[prev].prev == t[prev].prev && u[head].next == t[head].next)
    && (forall i | 0 <= i < |t| && i != e :: u[i].inList == t[i].inList)
    && SameBlocks(t, u)
  }

  method ListInit(t: array<Record>, list: nat)
    requires list < t.Length
    modifies t
    ensures t[list] == old(t[list]).(prev := list, next := list)
    ensures forall i | 0 <= i < t.Length && i != list :: t[i] == old(t[i])
  {
    t[list] := t[list].(prev := list);
    t[list] := t[list].(next := list);
  }

  method ListPushBack(t: array<Record>, head: nat, entry: nat)
    requires head < t.Length && entry < t.Length && t[head].prev < t.Length
    requires entry != head && entry != t[head].prev
    modifies t
    ensures Pushed(old(t[..]), t[..], head, entry)
  {
    t[entry] := t[entry].(inList := true);
    var prev := t[head].prev;
    t[entry] := t[entry].(prev := prev);
    t[entry] := t[entry].(next := head);
    t[prev] := t[prev].(next := entry);
    t[head] := t[head].(prev := entry);
  }

  /** A record that is on no list may be pushed on any. */
  lemma MayPush(t: seq<Record>, base: nat, lists: Lists, l: nat, e: nat)
    requires WellLinked(t, base, lists) && l < |lists| && e < base && !t[e].inList
    ensures t[base + l].prev < |t| && e != t[base + l].prev
  {
    assert Ring(t, base + l, lists[l]);
    NotLinked(lists, e, l);
  }

  lemma PushKeeps(t: seq<Record>, u: seq<Record>, base: nat, lists: Lists, l: nat, e: nat)
    requires WellLinked(t, base, lists) && l < |lists| && e < base && !t[e].inList
    requires Pushed(t, u, base + l, e)
    ensures WellLinked(u, base, Appended(lists, l, e))
  {
    hide Ring, Distinct;
    LinkedAfterPush(lists, l, e);
    forall m | 0 <= m < |lists|
      ensures Ring(u, base + m, Appended(lists, l, e)[m])
    {
      NotLinked(lists, e, l);
      NotLinked(lists, e, m);
      ListsApart(t, base, lists, l, m);
      if m == l {
        PushRing(t, u, base + l, lists[l], e);
      } else {
        UntouchedByPush(t, u, base + l, lists[l], e, base + m, lists[m]);
      }
    }
  }

  lemma NotLinked(lists: Lists, e: nat, m: nat)
    requires m < |lists| && !Linked(lists, e)
    ensures e !in lists[m]
  {
    assert forall i | 0 <= i < |lists[m]| :: Linked(lists, lists[m][i]);
  }

  lemma ListsApart(t: seq<Record>, base: nat, lists: Lists, l: nat, m: nat)
    requires WellLinked(t, base, lists) && l < |lists| && m < |lists|
    ensures Ring(t, base + l, lists[l]) && Ring(t, base + m, lists[m]) && NoRepeats(lists[l])
    ensures l != m ==> Apart(base + l, lists[l], base + m, lists[m])
  {
  }

  lemma LinkedAfterPush(lists: Lists, l: nat, e: nat)
    requires l < |lists| && Distinct(lists) && !Linked(lists, e)
    ensures Distinct(Appended(lists, l, e))
    ensures forall x :: Linked(Appended(lists, l, e), x) <==> Linked(lists, x) || x == e
  {
    var next := Appended(lists, l, e);
    assert next[l][|lists[l]|] == e;
    forall x | Linked(lists, x)
      ensures Linked(next, x)
    {
      var m, i :| 0 <= m < |lists| && 0 <= i < |lists[m]| && lists[m][i] == x;
      assert next[m][i] == x;
    }
    forall x | Linked(next, x) && x != e
      ensures Linked(lists, x)
    {
      var m, i :| 0 <= m < |next| && 0 <= i < |next[m]| && next[m][i] == x;
      assert lists[m][i] == x;
    }
  }

  lemma PushRing(t: seq<Record>, u: seq<Record>, head: nat, c: seq<nat>, e: nat)
    requires Ring(t, head, c) && e !in c && e != head && Pushed(t, u, head, e)
    requires NoRepeats(c)
    ensures Ring(u, head, c + [e])
  {
    var d := c + [e];
    forall i | 0 <= i < |d|
      ensures u[d[i]].next == After(head, d, i) && u[d[i]].prev == Before(head, d, i)
    {
      if i < |c| {
        assert t[c[i]].next == After(head, c, i) && t[c[i]].prev == Before(head, c, i);
      }
    }
  }

  lemma UntouchedByPush(t: seq<Record>, u: seq<Record>, head: nat, c: seq<nat>, e: nat, other: nat, d: seq<nat>)
    requires Ring(t, head, c) && Ring(t, other, d) && Pushed(t, u, head, e)
    requires Apart(head, c, other, d) && e !in d && e != other
    ensures Ring(u, other, d)
  {
    assert t[head].prev !in d && t[head].prev != other;
    forall i | 0 <= i < |d|
      ensures u[d[i]].next == After(other, d, i) && u[d[i]].prev == Before(other, d, i)
    {
      assert t[d[i]].next == After(other, d, i) && t[d[i]].prev == Before(other, d, i);
    }
  }

  // ---- list_remove ----

  /** What the three stores of list_remove leave. */
  ghost predicate Unlinked(t: seq<Record>, u: seq<Record>, e: nat) {
    && |u| == |t| && e < |t| && t[e].prev < |t| && t[e].next < |t|
    && var prev, next := t[e].prev, t[e].next;
    && (forall i | 0 <= i < |t| && i != e && i != prev && i != next :: u[i] == t[i])
    && u[prev].next == next && u[next].prev == prev
    && (prev != next ==> u[prev].prev == t[prev].prev && u[next].next == t[next].next)
    && !u[e].inList
    && (forall i | 0 <= i < |t| && i != e :: u[i].inList == t[i].inList)
    && SameBlocks(t, u)
  }

  method ListRemove(t: array<Record>, entry: nat)
    requires entry < t.Length && t[entry].prev < t.Length && t[entry].next < t.Length
    requires entry != t[entry].prev && entry != t[entry].next
    modifies t
    ensures Unlinked(old(t[..]), t[..], entry)
  {
    t[entry] := t[entry].(inList := false);
    var prev := t[entry].prev;
    var next := t[entry].next;
    t[prev] := t[prev].(next := next);
    t[next] := t[next].(prev := prev);
  }

  /** A listed record has two neighbours to join. */
  lemma MayRemove(t: seq<Record>, base: nat, lists: Lists, l: nat, i: nat)
    requires WellLinked(t, base, lists) && l < |lists| && i < |lists[l]|
    ensures var e := lists[l][i];
      t[e].prev == Before(base + l, lists[l], i) && t[e].next == After(base + l, lists[l], i)
      && t[e].prev < |t| && t[e].next < |t| && e != t[e].prev && e != t[e].next
  {
    var c := lists[l];
    assert Ring(t, base + l, c);
    ListsApart(t, base, lists, l, l);
    assert t[c[i]].prev == Before(base + l, c, i) && t[c[i]].next == After(base + l, c, i);
  }

  lemma RemoveKeeps(t: seq<Record>, u: seq<Record>, base: nat, lists: Lists, l: nat, i: nat)
    requires WellLinked(t, base, lists) && l < |lists| && i < |lists[l]|
    requires Unlinked(t, u, lists[l][i])
    ensures WellLinked(u, base, Removed(lists, l, i))
  {
    hide Ring, Linked, Distinct;
    LinkedAfterRemove(lists, l, i);
    forall m | 0 <= m < |lists|
      ensures Ring(u, base + m, Removed(lists, l, i)[m])
    {
      ListsApart(t, base, lists, l, m);
      if m == l {
        RemoveRing(t, u, base + l, lists[l], i);
      } else {
        UntouchedByRemove(t, u, base + l, lists[l], i, base + m, lists[m]);
      }
    }
  }

  lemma LinkedAfterRemove(lists: Lists, l: nat, i: nat)
    requires l < |lists| && i < |lists[l]| && Distinct(lists)
    ensures Distinct(Removed(lists, l, i))
    ensures forall x :: Linked(Removed(lists, l, i), x) <==> Linked(lists, x) && x != lists[l][i]
  {
    var next, e := Removed(lists, l, i), lists[l][i];
    forall x | Linked(lists, x) && x != e
      ensures Linked(next, x)
    {
      var m, j :| 0 <= m < |lists| && 0 <= j < |lists[m]| && lists[m][j] == x;
      assert next[m][if m == l && j > i then j - 1 else j] == x;
    }
    forall x | Linked(next, x)
      ensures Linked(lists, x) && x != e
    {
      var m, j :| 0 <= m < |next| && 0 <= j < |next[m]| && next[m][j] == x;
      assert lists[m][if m == l && j >= i then j + 1 else j] == x;
    }
  }

  lemma RemoveRing(t: seq<Record>, u: seq<Record>, head: nat, c: seq<nat>, i: nat)
    requires Ring(t, head, c) && i < |c| && Unlinked(t, u, c[i])
    requires NoRepeats(c)
    ensures Ring(u, head, Without(c, i))
  {
    RemoveAtHead(t, u, head, c, i);
    hide Unlinked;
    var d := Without(c, i);
    forall j | 0 <= j < |d|
      ensures d[j] < |u| && d[j] != head
      ensures u[d[j]].next == After(head, d, j) && u[d[j]].prev == Before(head, d, j)
    {
      RemoveLinks(t, u, head, c, i, if j < i then j else j + 1);
    }
  }

  lemma RemoveAtHead(t: seq<Record>, u: seq<Record>, head: nat, c: seq<nat>, i: nat)
    requires Ring(t, head, c) && i < |c| && Unlinked(t, u, c[i])
    requires NoRepeats(c)
    ensures var d := Without(c, i);
      && head < |u| && u[head].next == (if d == [] then head else d[0]) && u[head].prev == Before(head, d, |d|)
  {
    hide SameBlocks;
    assert t[c[i]].next == After(head, c, i) && t[c[i]].prev == Before(head, c, i);
  }

  /** The links of another entry of the list. */
  lemma RemoveLinks(t: seq<Record>, u: seq<Record>, head: nat, c: seq<nat>, i: nat, k: nat)
    requires Ring(t, head, c) && i < |c| && Unlinked(t, u, c[i]) && k < |c| && k != i
    requires NoRepeats(c)
    ensures var d, j := Without(c, i), if k < i then k else k - 1;
      && j < |d| && d[j] == c[k] && d[j] < |u| && d[j] != head
      && u[d[j]].next == After(head, d, j) && u[d[j]].prev == Before(head, d, j)
  {
    hide SameBlocks;
    assert t[c[i]].next == After(head, c, i) && t[c[i]].prev == Before(head, c, i);
    assert t[c[k]].next == After(head, c, k) && t[c[k]].prev == Before(head, c, k);
  }

  lemma UntouchedByRemove(t: seq<Record>, u: seq<Record>, head: nat, c: seq<nat>, i: nat, other: nat, d: seq<nat>)
    requires Ring(t, head, c) && Ring(t, other, d) && i < |c| && Unlinked(t, u, c[i])
    requires Apart(head, c, other, d)
    ensures Ring(u, other, d)
  {
    assert t[c[i]].next == After(head, c, i) && t[c[i]].prev == Before(head, c, i);
    forall j | 0 <= j < |d|
      ensures u[d[j]].next == After(other, d, j) && u[d[j]].prev == Before(other, d, j)
    {
      assert t[d[j]].next == After(other, d, j) && t[d[j]].prev == Before(other, d, j);
    }
  }

  /** A list is empty exactly when its head is its own predecessor. */
  lemma EmptyList(t: seq<Record>, base: nat, lists: Lists, l: nat)
    requires WellLinked(t, base, lists) && l < |lists|
    ensures lists[l] == [] <==> t[base + l].prev == base + l
  {
    assert Ring(t, base + l, lists[l]);
  }
}
