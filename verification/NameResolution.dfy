/** Resolving logical names: each part of a name is looked up until it stays the same, at most a
    fixed number of times. */
module NameResolution {
  import opened Options
  import opened Paths
  import opened NameParts
  import opened LogicalNames

  // ---- Looking up one string ----

  /** The string a name stands for: the one asked for in a list of several, or else the first. */
  function Target(n: Names, e: Entry, idx: nat): View
    requires n.Valid() && e in n.table.Values
  {
    if |e.targets| > 1 then
      var i := if idx > |e.targets| - 1 then 0 else idx;
      View(e.targets[i], 0, |n.texts[e.targets[i]]|, e.terminal, |e.targets|, idx)
    else n.Whole(e.targets[0], e.terminal)
  }

  /** resolve_string of a view, looked up under key. */
  function Lookup(n: Names, key: string, v: View, idx: nat, depth: nat): View
    requires n.Valid()
    decreases if depth <= RESOLVE_MAX_DEPTH then RESOLVE_MAX_DEPTH + 1 - depth else 0
  {
    if v.terminal then v
    else if depth > RESOLVE_MAX_DEPTH || v.len == 0 then NULL_VIEW
    else if key !in n.table then v
    else
      var t := Target(n, n.table[key], idx);
      Lookup(n, n.Text(t), t, idx, depth + 1)
  }

  function ResolveString(n: Names, v: View, idx: nat, depth: nat): View
    requires n.Valid()
  {
    Lookup(n, n.Text(v), v, idx, depth)
  }

  /** resolve_device_string: the name with a colon is tried first. */
  function ResolveDevice(n: Names, v: View, idx: nat, depth: nat): View
    requires n.Valid()
  {
    if v.terminal then v
    else if depth > RESOLVE_MAX_DEPTH || v.len == 0 then NULL_VIEW
    else
      var named := v.(len := v.len + 1);
      var r := Lookup(n, n.Text(v) + ":", named, idx, depth);
      if Same(named, r) then ResolveString(n, v, idx, depth) else r
  }

  // ---- Resolving a path ----

  /** path_cmp of two paths. */
  predicate SamePath(l: Components, r: Components)
    requires l.Path? && r.Path?
  {
    && l.count == r.count && |l.dirs| == |r.dirs| && Same(l.device, r.device) && Same(l.filename, r.filename)
    && forall i | 0 <= i < |l.dirs| :: Same(l.dirs[i], r.dirs[i])
  }

  /** The device of a path replaced by what it resolved to, which may be a path itself: its
      directories go before those already there, and its file name wins. */
  function Expanded(n: Names, p: Components, device: View): Components
    requires p.Path?
  {
    match Parsed(n, device)
    case Plain(_, _) => p.(device := device)
    case Path(d, dirs, filename, _) =>
      p.(dirs := dirs + p.dirs,
         filename := if filename.len > 0 then filename else p.filename,
         device := if d.len > 0 then d else p.device)
  }

  function ResolveDirs(n: Names, dirs: seq<View>, depth: nat): (r: seq<View>)
    requires n.Valid()
    ensures |r| == |dirs|
  {
    seq(|dirs|, i requires 0 <= i < |dirs| => ResolveString(n, dirs[i], 0, depth))
  }

  /** _logical_name_resolve. The first list met decides the result count and is resolved again
      with the index asked for. */
  function ResolvePath(n: Names, p: Components, listIdx: nat, depth: nat): Components
    requires n.Valid()
    decreases if depth <= RESOLVE_MAX_DEPTH then RESOLVE_MAX_DEPTH + 1 - depth else 0
  {
    if depth > RESOLVE_MAX_DEPTH then NULL_COMPONENTS
    else
      match p
      case Plain(text, count) =>
        var first := ResolveString(n, text, 0, depth + 1);
        var list := first.count > 1 && count == 1;
        var res := if list then ResolveString(n, text, listIdx, depth + 1) else first;
        var next := if list then first.count else count;
        if res.len == 0 || Same(res, text) then Plain(text, next)
        else ResolvePath(n, Parsed(n, res).(count := next), 0, depth + 1)
      case Path(_, _, _, _) =>
        var q := ResolveParts(n, p, listIdx, depth);
        if SamePath(p, q) then q else ResolvePath(n, q, listIdx, depth + 1)
  }

  /** What the device of a path stands for; of the first list met, the one asked for. */
  function NewDevice(n: Names, p: Components, listIdx: nat, depth: nat): View
    requires n.Valid() && p.Path?
  {
    var first := ResolveDevice(n, p.device, 0, depth + 1);
    if first.count > 1 && p.count == 1 then ResolveDevice(n, p.device, listIdx, depth + 1) else first
  }

  /** One round over the parts of a path. */
  function ResolveParts(n: Names, p: Components, listIdx: nat, depth: nat): (q: Components)
    requires n.Valid() && p.Path?
    ensures q.Path?
  {
    var first := ResolveDevice(n, p.device, 0, depth + 1);
    var list := first.count > 1 && p.count == 1;
    var device := NewDevice(n, p, listIdx, depth);
    var counted := Components.Path(p.device, p.dirs, p.filename, if list then first.count else p.count);
    var q := if Same(device, p.device) then counted else Expanded(n, counted, device);
    q.(filename := ResolveString(n, q.filename, 0, depth + 1), dirs := ResolveDirs(n, q.dirs, depth + 1))
  }

  /** logical_name_result_t. */
  datatype Resolution = Resolution(result: Option<string>, count: nat)

  /** logical_name_resolve of a stored string. */
  function Resolved(n: Names, text: nat, idx: nat): Resolution
    requires n.Valid() && text in n.texts
  {
    if n.texts[text] == "" then Resolution(None, 0)
    else
      var c := ResolvePath(n, Parsed(n, n.Whole(text, false)), idx, 0);
      Resolution(Printed(n, c), c.count)
  }

  // ---- Room for directories ----

  ghost predicate ParseFits(n: Names, v: View) {
    v.len == 0 || !TooDeep(n.Text(v))
  }

  /** Resolving p never stores a directory past the end of a path's array: neither parsing what a
      name stands for, nor putting its directories before those already there. */
  ghost predicate Fits(n: Names, p: Components, listIdx: nat, depth: nat)
    requires n.Valid()
    decreases if depth <= RESOLVE_MAX_DEPTH then RESOLVE_MAX_DEPTH + 1 - depth else 0
  {
    depth > RESOLVE_MAX_DEPTH ||
    match p
    case Plain(text, count) =>
      var first := ResolveString(n, text, 0, depth + 1);
      var list := first.count > 1 && count == 1;
      var res := if list then ResolveString(n, text, listIdx, depth + 1) else first;
      var next := if list then first.count else count;
      res.len == 0 || Same(res, text) || (ParseFits(n, res) && Fits(n, Parsed(n, res).(count := next), 0, depth + 1))
    case Path(_, _, _, _) =>
      var device, q := NewDevice(n, p, listIdx, depth), ResolveParts(n, p, listIdx, depth);
      && (Same(device, p.device) || (ParseFits(n, device) && |q.dirs| <= MAX_DIR_DEPTH))
      && (SamePath(p, q) || Fits(n, q, listIdx, depth + 1))
  }

  /** logical_name_resolve of a stored string stays inside its arrays. */
  ghost predicate ResolvedFits(n: Names, text: nat, idx: nat)
    requires n.Valid() && text in n.texts
  {
    n.texts[text] == "" || (!TooDeep(n.texts[text]) && Fits(n, Parsed(n, n.Whole(text, false)), idx, 0))
  }

  // ---- Chains of names ----

  /** The place asked for in a list of that many: the first if there is none. */
  function Chosen(count: nat, idx: nat): nat {
    if idx < count then idx else 0
  }

  /** Asked for place idx of what it stands for, a name gives another string. */
  ghost predicate StandsFor(n: Names, name: string, other: string, idx: nat) {
    && name in n.table
    && var targets := n.table[name].targets;
      targets != [] && targets[Chosen(|targets|, idx)] in n.texts && n.texts[targets[Chosen(|targets|, idx)]] == other
  }

  predicate Terminal(n: Names, name: string) {
    name in n.table && n.table[name].terminal
  }

  /** The target of such a name is all of the string given, and knows how many there were. */
  lemma TargetChosen(n: Names, name: string, other: string, idx: nat)
    requires n.Valid() && StandsFor(n, name, other, idx)
    ensures var t := Target(n, n.table[name], idx);
      && n.Has(t) && n.Text(t) == other && t.offset == 0 && t.terminal == Terminal(n, name)
      && t.count == |n.table[name].targets| && other != ""
      && t.text == n.table[name].targets[Chosen(|n.table[name].targets|, idx)] && t.len == |n.texts[t.text]|
  {
    var t := Target(n, n.table[name], idx);
    WholeText(n, t);
  }

  lemma WholeText(n: Names, t: View)
    requires t.text in n.texts && t.offset == 0 && t.len == |n.texts[t.text]|
    ensures n.Has(t) && n.Text(t) == n.texts[t.text]
  {
  }

  /** Asked for place idx, names[i] stands for names[i + 1]; the last stands for nothing, or the
      name ahead of it is terminal. */
  ghost predicate NameChain(n: Names, names: seq<string>, idx: nat) {
    && n.Valid() && names != [] && names[0] != ""
    && (forall i | 0 <= i < |names| - 1 :: StandsFor(n, names[i], names[i + 1], idx))
    && (forall i | 0 <= i < |names| - 2 :: !Terminal(n, names[i]))
    && (EndsTerminal(n, names) || names[|names| - 1] !in n.table)
  }

  predicate EndsTerminal(n: Names, names: seq<string>) {
    |names| > 1 && Terminal(n, names[|names| - 2])
  }

  /** The turns it takes to follow a chain: stopping after a terminal name takes none. */
  function Turns(n: Names, names: seq<string>): nat
    requires names != []
  {
    if EndsTerminal(n, names) then |names| - 2 else |names| - 1
  }

  /** How many strings the last name of a chain that is followed stands for. */
  ghost function ListLength(n: Names, names: seq<string>): nat {
    if |names| > 1 && names[|names| - 2] in n.table then |n.table[names[|names| - 2]].targets| else 1
  }

  lemma NextLink(n: Names, names: seq<string>, idx: nat)
    requires NameChain(n, names, idx) && |names| > 1
    ensures StandsFor(n, names[0], names[1], idx) && names[1] != ""
    ensures if |names| == 2 && EndsTerminal(n, names) then Terminal(n, names[0])
            else !Terminal(n, names[0]) && NameChain(n, names[1..], idx)
                 && Turns(n, names[1..]) == Turns(n, names) - 1
                 && (|names| > 2 ==> EndsTerminal(n, names[1..]) == EndsTerminal(n, names)
                                     && ListLength(n, names[1..]) == ListLength(n, names))
  {
    hide Terminal;
    var rest := names[1..];
    assert StandsFor(n, names[0], names[1], idx);
    forall i | 0 <= i < |rest| - 1
      ensures StandsFor(n, rest[i], rest[i + 1], idx)
    {
      assert StandsFor(n, names[i + 1], names[i + 2], idx);
    }
  }

  /** Looking up the first name of a chain gives the end if enough turns are left, and nothing else. */
  lemma {:induction false} LookupChain(n: Names, names: seq<string>, idx: nat, v: View, depth: nat)
    requires NameChain(n, names, idx) && n.Has(v) && n.Text(v) == names[0] && !v.terminal
    ensures var r := ResolveString(n, v, idx, depth);
      if depth + Turns(n, names) > RESOLVE_MAX_DEPTH then r == NULL_VIEW
      else n.Has(r) && n.Text(r) == names[|names| - 1] && r.terminal == EndsTerminal(n, names)
           && r.count == (if |names| == 1 then v.count else ListLength(n, names)) && (|names| == 1 ==> r == v)
    decreases |names|
  {
    if |names| > 1 && depth <= RESOLVE_MAX_DEPTH {
      NextLink(n, names, idx);
      TargetChosen(n, names[0], names[1], idx);
      var t := Target(n, n.table[names[0]], idx);
      assert ResolveString(n, v, idx, depth) == ResolveString(n, t, idx, depth + 1);
      if !Terminal(n, names[0]) {
        LookupChain(n, names[1..], idx, t, depth + 1);
      }
    }
  }

  // ---- Plain names ----

  /** A chain of names from one that is no path to one that is none, or that is too far away. */
  ghost predicate PlainChain(n: Names, names: seq<string>, idx: nat) {
    && NameChain(n, names, idx) && PartsOf(names[0]).Unparsable?
    && (Turns(n, names) < RESOLVE_MAX_DEPTH ==> PartsOf(names[|names| - 1]).Unparsable?)
  }

  /** A plain name resolves to the end of its chain of plain names if that is at most 14 turns
      away, and to itself otherwise. The result count is the length of the list at the end of the
      chain of first strings; only if that is a list is the chain of the place asked for taken. */
  lemma PlainNameResolves(n: Names, firsts: seq<string>, chosen: seq<string>, text: nat, idx: nat)
    requires PlainChain(n, firsts, 0) && PlainChain(n, chosen, idx)
    requires text in n.texts && n.texts[text] == firsts[0] == chosen[0]
    ensures var count := if Turns(n, firsts) < RESOLVE_MAX_DEPTH then ListLength(n, firsts) else 1;
      var names := if count > 1 then chosen else firsts;
      Resolved(n, text, idx)
      == Resolution(Some(if Turns(n, names) < RESOLVE_MAX_DEPTH then names[|names| - 1] else names[0]), count)
  {
    hide PartsOf, Lookup;
    var v := n.Whole(text, false);
    WholeText(n, v);
    LookupChain(n, firsts, 0, v, 1);
    LookupChain(n, chosen, idx, v, 1);
    var count := if Turns(n, firsts) < RESOLVE_MAX_DEPTH then ListLength(n, firsts) else 1;
    var names := if count > 1 then chosen else firsts;
    var res := ResolveString(n, v, if count > 1 then idx else 0, 1);
    assert Parsed(n, v) == Plain(v, 1);
    ChainStarts(n, firsts, chosen, idx);
    hide PlainChain, NameChain, ListLength, Turns, EndsTerminal, ResolveString;
    if Turns(n, names) < RESOLVE_MAX_DEPTH && !Same(res, v) {
      PlainEnd(n, names[|names| - 1], res, count);
    }
  }

  lemma ChainStarts(n: Names, firsts: seq<string>, chosen: seq<string>, idx: nat)
    requires NameChain(n, firsts, 0) && NameChain(n, chosen, idx) && firsts[0] == chosen[0]
    ensures |firsts| == 1 <==> |chosen| == 1
    ensures |firsts| == 1 ==> ListLength(n, firsts) == 1
    ensures forall names: seq<string> | names == firsts || names == chosen ::
              EndsTerminal(n, names) || names[|names| - 1] !in n.table
  {
    if |firsts| > 1 { NextLink(n, firsts, 0); }
    if |chosen| > 1 { NextLink(n, chosen, idx); }
  }

  lemma PlainEnd(n: Names, name: string, res: View, count: nat)
    requires n.Valid() && n.Has(res) && n.Text(res) == name != "" && (res.terminal || name !in n.table)
    requires PartsOf(name).Unparsable? && (count == 1 ==> res.count <= 1)
    ensures ResolvePath(n, Parsed(n, res).(count := count), 0, 1) == Plain(res, count)
  {
    hide PartsOf;
    assert Parsed(n, res) == Plain(res, 1);
    assert ResolveString(n, res, 0, 2) == res;
  }

  /** A plain name that stands for a list of plain names: the one asked for, or else the first. */
  lemma PlainListResolves(n: Names, name: string, text: nat, idx: nat)
    requires n.Valid() && text in n.texts && n.texts[text] == name != "" && PartsOf(name).Unparsable?
    requires name in n.table
    requires forall t <- n.table[name].targets ::
               PartsOf(n.texts[t]).Unparsable? && (Terminal(n, name) || n.texts[t] !in n.table)
    ensures var targets := n.table[name].targets;
      Resolved(n, text, idx) == Resolution(Some(n.texts[targets[if idx < |targets| then idx else 0]]), |targets|)
  {
    hide PartsOf, Resolved;
    var targets := n.table[name].targets;
    var firsts, chosen := [name, n.texts[targets[0]]], [name, n.texts[targets[Chosen(|targets|, idx)]]];
    assert targets[0] in targets && targets[Chosen(|targets|, idx)] in targets;
    PlainNameResolves(n, firsts, chosen, text, idx);
  }

  /** Every name stands for plain names that stand for plain names, and so on. */
  ghost predicate PlainCycle(n: Names, names: set<string>) {
    && n.Valid()
    && forall s <- names :: s != "" && PartsOf(s).Unparsable? && s in n.table && !n.table[s].terminal
         && forall t <- n.table[s].targets :: t in n.texts && n.texts[t] in names
  }

  lemma NextInCycle(n: Names, names: set<string>, v: View, idx: nat)
    requires PlainCycle(n, names) && n.Has(v) && n.Text(v) in names
    ensures n.Valid() && n.Text(v) in n.table && v.len > 0
    ensures var t := Target(n, n.table[n.Text(v)], idx);
      n.Has(t) && n.Text(t) in names && !t.terminal
  {
    hide PartsOf;
    var t := Target(n, n.table[n.Text(v)], idx);
    assert t.text in n.table[n.Text(v)].targets;
    WholeText(n, t);
  }

  lemma {:induction false} LookupCycle(n: Names, names: set<string>, v: View, idx: nat, depth: nat)
    requires PlainCycle(n, names) && n.Has(v) && n.Text(v) in names && !v.terminal
    ensures ResolveString(n, v, idx, depth) == NULL_VIEW
    decreases if depth <= RESOLVE_MAX_DEPTH then RESOLVE_MAX_DEPTH + 1 - depth else 0
  {
    hide PlainCycle;
    if depth <= RESOLVE_MAX_DEPTH {
      NextInCycle(n, names, v, idx);
      LookupCycle(n, names, Target(n, n.table[n.Text(v)], idx), idx, depth + 1);
    }
  }

  /** A plain name from which there is no way out of a set of plain names resolves to itself. */
  lemma CycleResolvesToItself(n: Names, names: set<string>, text: nat, idx: nat)
    requires PlainCycle(n, names) && text in n.texts && n.texts[text] in names
    ensures Resolved(n, text, idx) == Resolution(Some(n.texts[text]), 1)
  {
    hide PartsOf;
    var v := n.Whole(text, false);
    assert n.Text(v) == n.texts[text];
    LookupCycle(n, names, v, 0, 1);
    assert Parsed(n, v) == Plain(v, 1);
  }

  // ---- Directories and file names ----

  /** Where following first strings from s ends: nowhere if it takes more turns than that. */
  function EndOf(n: Names, s: string, turns: nat): string
    requires n.Valid()
    decreases turns
  {
    if s == "" || s !in n.table then s
    else
      var t := n.texts[n.table[s].targets[0]];
      if n.table[s].terminal then t else if turns == 0 then "" else EndOf(n, t, turns - 1)
  }

  function EndsOf(n: Names, parts: seq<string>, turns: nat): (r: seq<string>)
    requires n.Valid()
    ensures |r| == |parts|
  {
    seq(|parts|, i requires 0 <= i < |parts| => EndOf(n, parts[i], turns))
  }

  /** That is the end of the chain of names, if there are turns enough. */
  lemma {:induction false} EndOfChain(n: Names, names: seq<string>, turns: nat)
    requires NameChain(n, names, 0)
    ensures EndOf(n, names[0], turns) == if Turns(n, names) <= turns then names[|names| - 1] else ""
    decreases |names|
  {
    if |names| > 1 {
      NextLink(n, names, 0);
      if !Terminal(n, names[0]) && turns > 0 {
        EndOfChain(n, names[1..], turns - 1);
      }
    }
  }

  /** A part that resolving leaves alone. */
  ghost predicate Settled(n: Names, v: View) {
    v == NULL_VIEW || (n.Has(v) && v.len > 0 && (v.terminal || n.Text(v) !in n.table))
  }

  /** What looking up a part gives. */
  lemma {:induction false} LookupEnd(n: Names, v: View, depth: nat)
    requires n.Valid() && n.Has(v) && !v.terminal && depth <= RESOLVE_MAX_DEPTH
    ensures var r := ResolveString(n, v, 0, depth);
      Settled(n, r) && n.Text(r) == EndOf(n, n.Text(v), RESOLVE_MAX_DEPTH - depth)
    decreases RESOLVE_MAX_DEPTH - depth
  {
    var s := n.Text(v);
    if s != "" && s in n.table {
      var t := Target(n, n.table[s], 0);
      WholeText(n, t);
      assert ResolveString(n, v, 0, depth) == ResolveString(n, t, 0, depth + 1);
      if !t.terminal && depth < RESOLVE_MAX_DEPTH {
        LookupEnd(n, t, depth + 1);
      }
    }
  }

  lemma SettledStays(n: Names, v: View, depth: nat)
    requires n.Valid() && Settled(n, v) && depth <= RESOLVE_MAX_DEPTH
    ensures ResolveString(n, v, 0, depth) == v
  {
  }

  /** A part that a round at this depth turns into this text, for good. */
  ghost predicate WillShow(n: Names, v: View, s: string, depth: nat)
    requires n.Valid()
  {
    var r := ResolveString(n, v, 0, depth + 1);
    Settled(n, r) && n.Text(r) == s
  }

  ghost predicate WillShowAll(n: Names, views: seq<View>, parts: seq<string>, depth: nat)
    requires n.Valid()
  {
    |views| == |parts| && forall i | 0 <= i < |views| :: WillShow(n, views[i], parts[i], depth)
  }

  ghost predicate AllSettled(n: Names, p: Components)
    requires p.Path?
  {
    Settled(n, p.filename) && forall i | 0 <= i < |p.dirs| :: Settled(n, p.dirs[i])
  }

  /** Once looked up, parts stay. */
  lemma ShownStays(n: Names, v: View, s: string, depth: nat)
    requires n.Valid() && WillShow(n, v, s, depth) && depth + 1 < RESOLVE_MAX_DEPTH
    ensures WillShow(n, ResolveString(n, v, 0, depth + 1), s, depth + 1)
  {
    hide ResolveString, Settled;
    SettledStays(n, ResolveString(n, v, 0, depth + 1), depth + 2);
  }

  lemma DirsStay(n: Names, views: seq<View>, parts: seq<string>, depth: nat)
    requires n.Valid() && WillShowAll(n, views, parts, depth) && depth + 1 < RESOLVE_MAX_DEPTH
    ensures WillShowAll(n, ResolveDirs(n, views, depth + 1), parts, depth + 1)
  {
    hide ResolveString, WillShow;
    forall i | 0 <= i < |views|
      ensures WillShow(n, ResolveDirs(n, views, depth + 1)[i], parts[i], depth + 1)
    {
      ShownStays(n, views[i], parts[i], depth);
    }
  }

  lemma DirsSettle(n: Names, views: seq<View>, parts: seq<string>, depth: nat)
    requires n.Valid() && WillShowAll(n, views, parts, depth)
    ensures var r := ResolveDirs(n, views, depth + 1);
      Texts(n, r) == parts && forall i | 0 <= i < |r| :: Settled(n, r[i])
  {
    hide ResolveString, Settled, Names.Text;
    var r := ResolveDirs(n, views, depth + 1);
    forall i | 0 <= i < |r|
      ensures n.Text(r[i]) == parts[i] && Settled(n, r[i])
    {
      assert WillShow(n, views[i], parts[i], depth);
    }
    assert Texts(n, r) == parts;
  }

  /** Parts of a string that was parsed show where following them ends. */
  lemma RawShow(n: Names, views: seq<View>, parts: seq<string>, depth: nat)
    requires n.Valid() && Texts(n, views) == parts && depth < RESOLVE_MAX_DEPTH
    requires forall i | 0 <= i < |views| :: n.Has(views[i]) && !views[i].terminal
    ensures WillShowAll(n, views, EndsOf(n, parts, RESOLVE_MAX_DEPTH - 1 - depth), depth)
  {
    hide ResolveString, Settled;
    forall i | 0 <= i < |views|
      ensures WillShow(n, views[i], EndsOf(n, parts, RESOLVE_MAX_DEPTH - 1 - depth)[i], depth)
    {
      assert n.Text(views[i]) == Texts(n, views)[i];
      LookupEnd(n, views[i], depth + 1);
    }
  }

  lemma ShowBoth(n: Names, a: seq<View>, b: seq<View>, s: seq<string>, t: seq<string>, depth: nat)
    requires n.Valid() && WillShowAll(n, a, s, depth) && WillShowAll(n, b, t, depth)
    ensures WillShowAll(n, a + b, s + t, depth)
  {
    hide WillShow;
  }

  /** A part caught in a cycle ends nowhere. */
  lemma {:induction false} CyclicPartVanishes(n: Names, names: set<string>, s: string, turns: nat)
    requires n.Valid() && s in names && "" !in names
    requires forall t <- names :: t in n.table && !n.table[t].terminal && n.texts[n.table[t].targets[0]] in names
    ensures EndOf(n, s, turns) == ""
    decreases turns
  {
    if turns > 0 {
      CyclicPartVanishes(n, names, n.texts[n.table[s].targets[0]], turns - 1);
    }
  }
}
