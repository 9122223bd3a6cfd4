/** What resolving makes of paths on devices that stand for paths on other devices, and so on: for
    one string or a list of them, with directories and file names that may be defined themselves. */
module AliasChains {
  import opened Options
  import opened Paths
  import opened NameParts
  import opened LogicalNames
  import opened NameResolution

  // ---- Chains of device aliases ----

  /** The key a device is found under: its name with a colon, if that is defined. */
  function DeviceKey(n: Names, device: string): string {
    if device + ":" in n.table then device + ":" else device
  }

  /** What an alias stands for besides a device: nothing at all if it is bare, or else a colon,
      directories and a file name that may be absent. */
  datatype Step = Step(bare: bool, dirs: seq<string>, file: string) {
    predicate Valid() {
      DirNames(dirs) && Unseparated(file) && (bare ==> dirs == [] && file == "")
    }

    function Text(device: string): string {
      if bare then device else Written(device, dirs, file)
    }
  }

  /** What an alias stands for, one string or a list: none of it is defined, or the alias itself. */
  ghost predicate DeviceAlias(n: Names, alias: string) {
    && DeviceKey(n, alias) in n.table
    && forall t <- n.table[DeviceKey(n, alias)].targets ::
         && t in n.texts && (Terminal(n, DeviceKey(n, alias)) || n.texts[t] !in n.table)
         && forall step: Step | step.dirs == [] :: n.texts[t] != step.Text(alias)
  }

  function Listed(n: Names, alias: string): nat {
    if DeviceKey(n, alias) in n.table then |n.table[DeviceKey(n, alias)].targets| else 1
  }

  ghost predicate AliasFor(n: Names, alias: string, device: string, step: Step, place: nat) {
    DeviceAlias(n, alias) && step.Valid() && StandsFor(n, DeviceKey(n, alias), step.Text(device), place)
  }

  /** A terminal name stops the chain only if it stands for a bare device: what it stands for is
      parsed afresh otherwise. */
  predicate Stops(n: Names, alias: string, step: Step) {
    step.bare && Terminal(n, DeviceKey(n, alias))
  }

  /** Aliases each of which stands for the one before it, with the directories and file name of its
      step. The last is met at depth start, when the result count is count, with place idx asked for. */
  datatype Chain = Chain(aliases: seq<string>, steps: seq<Step>, idx: nat, count: nat, start: nat) {
    predicate Sized() {
      aliases != [] && |steps| == |aliases| && start <= 1
    }

    function Last(): nat
      requires Sized()
    {
      |aliases| - 1
    }

    /** The depth at which alias i is met. */
    function Depth(i: nat): nat
      requires Sized() && i < |aliases|
    {
      start + Last() - i
    }

    /** The alias at which resolving stops: the first, or the one met when no turn is left for it. */
    function Reached(): (i: nat)
      requires Sized()
      ensures i < |aliases|
    {
      if Depth(0) < RESOLVE_MAX_DEPTH then 0 else Depth(0) - (RESOLVE_MAX_DEPTH - 1)
    }

    /** The turns left for the parts that alias i adds. */
    function Turns(i: nat): nat
      requires Sized() && i < |aliases|
    {
      if Depth(i) < RESOLVE_MAX_DEPTH then RESOLVE_MAX_DEPTH - 1 - Depth(i) else 0
    }

    /** The result count when alias i is met: unless it was not 1 before, the length of the first
        list met. */
    ghost function Counted(n: Names, i: nat): nat
      requires Sized() && i < |aliases|
      decreases |aliases| - i
    {
      if i == Last() then count
      else if Counted(n, i + 1) == 1 then Listed(n, aliases[i + 1])
      else Counted(n, i + 1)
    }

    /** The place taken in the list of alias i: that asked for in the first list met only. */
    ghost function PlaceAt(n: Names, i: nat): nat
      requires Sized() && i < |aliases|
    {
      if Counted(n, i) == 1 then idx else 0
    }

    ghost predicate Links(n: Names, i: nat)
      requires Sized() && 0 < i < |aliases|
    {
      AliasFor(n, aliases[i], aliases[i - 1], steps[i], PlaceAt(n, i)) && (i > 1 ==> !Stops(n, aliases[i], steps[i]))
    }

    /** Alias 0 stands for nothing, or is where the chain stops. */
    ghost predicate Valid(n: Names) {
      && n.Valid() && Sized() && (forall i | 0 <= i < |aliases| :: DeviceName(aliases[i]))
      && (forall i | 0 < i < |aliases| :: Links(n, i))
      && (DeviceKey(n, aliases[0]) !in n.table || (|aliases| > 1 && Stops(n, aliases[1], steps[1])))
    }

    /** The alias met in the last turn but one is not terminal. */
    predicate Ordinary(n: Names)
      requires Sized()
    {
      Reached() > 0 ==> !Terminal(n, DeviceKey(n, aliases[Reached()]))
    }

    /** Where the directories of aliases lo to hi - 1 end, in order. */
    ghost function Gathered(n: Names, lo: nat, hi: nat): seq<string>
      requires n.Valid() && Sized() && lo <= hi <= |aliases|
    {
      if lo == hi then [] else Gathered(n, lo, hi - 1) + EndsOf(n, steps[hi - 1].dirs, Turns(hi - 1))
    }

    /** The file name after alias i when it was f before. */
    ghost function NextFile(n: Names, i: nat, f: string): string
      requires n.Valid() && Sized() && i < |aliases|
    {
      if steps[i].file == "" then f else EndOf(n, steps[i].file, Turns(i))
    }

    /** The file name after aliases hi - 1 down to lo: that of the last of them to have one, or f. */
    ghost function FileAfter(n: Names, lo: nat, hi: nat, f: string): string
      requires n.Valid() && Sized() && lo <= hi <= |aliases|
      decreases hi
    {
      if lo == hi then f else FileAfter(n, lo, hi - 1, NextFile(n, hi - 1, f))
    }
  }

  // ---- Rounds of resolving a path ----

  /** A path as resolving meets it at some depth: with this device, and parts that this round turns
      into these directories and this file name. */
  ghost predicate Shows(n: Names, p: Components, device: string, dirs: seq<string>, filename: string, depth: nat)
    requires n.Valid()
  {
    && p.Path? && ShowsDevice(n, p.device, device) && (p.count == 1 ==> p.device.count <= 1)
    && WillShowAll(n, p.dirs, dirs, depth) && WillShow(n, p.filename, filename, depth)
  }

  /** A device name in its string: ahead of its colon, or up to the end. */
  ghost predicate ShowsDevice(n: Names, v: View, device: string) {
    && device != "" && n.Text(v) == device && |device| == v.len
    && n.Text(v.(len := v.len + 1)) in {device + ":", ""}
  }

  /** Looking up an alias gives the string it stands for, if a turn is left. */
  lemma LookupAlias(n: Names, alias: string, v: View, place: nat, depth: nat)
    requires n.Valid() && DeviceName(alias) && DeviceAlias(n, alias) && ShowsDevice(n, v, alias) && !v.terminal
    requires depth < RESOLVE_MAX_DEPTH || (depth == RESOLVE_MAX_DEPTH && !Terminal(n, DeviceKey(n, alias)))
    ensures ResolveDevice(n, v, place, depth)
         == if depth < RESOLVE_MAX_DEPTH then Target(n, n.table[DeviceKey(n, alias)], place) else NULL_VIEW
  {
    var key := DeviceKey(n, alias);
    var t := Target(n, n.table[key], place);
    assert t.text in n.table[key].targets;
    WholeText(n, t);
    assert Step(false, [], "").Text(alias) == alias + ":";
    assert Lookup(n, n.Text(t), t, place, depth + 1) == if depth < RESOLVE_MAX_DEPTH then t else NULL_VIEW;
  }

  /** The device of a path on an alias becomes the place asked for unless a list was met before. */
  lemma NewDeviceIs(n: Names, p: Components, alias: string, listIdx: nat, depth: nat)
    requires n.Valid() && DeviceName(alias) && DeviceAlias(n, alias) && p.Path?
    requires ShowsDevice(n, p.device, alias) && !p.device.terminal && depth + 1 < RESOLVE_MAX_DEPTH
    ensures NewDevice(n, p, listIdx, depth)
         == Target(n, n.table[DeviceKey(n, alias)], if p.count == 1 then listIdx else 0)
    ensures var first := ResolveDevice(n, p.device, 0, depth + 1);
      (if first.count > 1 && p.count == 1 then first.count else p.count)
      == if p.count == 1 then Listed(n, alias) else p.count
  {
    hide ShowsDevice, ResolveDevice;
    LookupAlias(n, alias, p.device, 0, depth + 1);
    LookupAlias(n, alias, p.device, listIdx, depth + 1);
  }

  /** A settled path whose device stands for nothing, or has no turn left, stays as it is. */
  lemma SettledRound(n: Names, p: Components, listIdx: nat, depth: nat)
    requires n.Valid() && p.Path? && AllSettled(n, p) && (p.count == 1 ==> p.device.count <= 1)
    requires depth < RESOLVE_MAX_DEPTH && ResolveDevice(n, p.device, 0, depth + 1) in {p.device, NULL_VIEW}
    ensures ResolvePath(n, p, listIdx, depth) == p && (|p.dirs| <= MAX_DIR_DEPTH ==> Fits(n, p, listIdx, depth))
  {
    hide Names.Text, PartsOf, Settled;
    SettledStays(n, p.filename, depth + 1);
    forall i | 0 <= i < |p.dirs|
      ensures ResolveString(n, p.dirs[i], 0, depth + 1) == p.dirs[i]
    {
      SettledStays(n, p.dirs[i], depth + 1);
    }
    assert ResolveDirs(n, p.dirs, depth + 1) == p.dirs;
    assert [] + p.dirs == p.dirs;
    assert NewDevice(n, p, listIdx, depth) == ResolveDevice(n, p.device, 0, depth + 1);
    hide ResolveDevice, Lookup, ResolveString;
    assert ResolveParts(n, p, listIdx, depth) == p;
  }

  /** The texts of a path. */
  ghost predicate Reads(n: Names, p: Components, device: string, dirs: seq<string>, filename: string) {
    && p.Path? && p.device.len > 0 && n.Text(p.device) == device
    && Texts(n, p.dirs) == dirs && n.Text(p.filename) == filename
  }

  lemma ShowsReads(n: Names, p: Components, device: string, dirs: seq<string>, filename: string, depth: nat)
    requires n.Valid() && Shows(n, p, device, dirs, filename, depth) && AllSettled(n, p) && depth < RESOLVE_MAX_DEPTH
    ensures Reads(n, p, device, dirs, filename) && |dirs| == |p.dirs|
  {
    hide Settled, ResolveString;
    SettledStays(n, p.filename, depth + 1);
    forall i | 0 <= i < |p.dirs|
      ensures n.Text(p.dirs[i]) == dirs[i]
    {
      assert WillShow(n, p.dirs[i], dirs[i], depth);
      SettledStays(n, p.dirs[i], depth + 1);
    }
    assert Texts(n, p.dirs) == dirs;
  }

  /** Resolving ends when the device stands for nothing, or when no turn is left for it. */
  lemma LastRound(n: Names, p: Components, device: string, dirs: seq<string>, f: string, listIdx: nat, depth: nat)
    requires n.Valid() && Shows(n, p, device, dirs, f, depth) && depth < RESOLVE_MAX_DEPTH
    requires ResolveDevice(n, p.device, 0, depth + 1) in {p.device, NULL_VIEW}
    requires AllSettled(n, p) || (depth + 1 < RESOLVE_MAX_DEPTH && DeviceStays(n, p.device, depth))
    ensures var q := ResolvePath(n, p, listIdx, depth); Reads(n, q, device, dirs, f) && q.count == p.count
    ensures |dirs| <= MAX_DIR_DEPTH ==> Fits(n, p, listIdx, depth)
  {
    hide Settled, ResolveString, ResolveDevice, WillShow, PartsOf, ShowsDevice, AllSettled;
    if AllSettled(n, p) {
      ShowsReads(n, p, device, dirs, f, depth);
      SettledRound(n, p, listIdx, depth);
    } else {
      var q := FirstRound(n, p, device, dirs, f, listIdx, depth);
      ShowsReads(n, q, device, dirs, f, depth + 1);
      SettledRound(n, q, listIdx, depth + 1);
    }
  }

  ghost predicate DeviceStays(n: Names, v: View, depth: nat)
    requires n.Valid()
  {
    ResolveDevice(n, v, 0, depth + 1) == v == ResolveDevice(n, v, 0, depth + 2)
  }

  /** A round of a path whose device stands for nothing settles its parts. */
  lemma FirstRound(n: Names, p: Components, device: string, dirs: seq<string>, f: string, listIdx: nat, depth: nat)
      returns (q: Components)
    requires n.Valid() && Shows(n, p, device, dirs, f, depth) && depth + 1 < RESOLVE_MAX_DEPTH
    requires DeviceStays(n, p.device, depth)
    ensures Shows(n, q, device, dirs, f, depth + 1) && AllSettled(n, q) && q.count == p.count && q.device == p.device
    ensures ResolvePath(n, p, listIdx, depth) == q
         || ResolvePath(n, p, listIdx, depth) == ResolvePath(n, q, listIdx, depth + 1)
    ensures Fits(n, q, listIdx, depth + 1) ==> Fits(n, p, listIdx, depth)
  {
    hide Settled, ResolveString, ResolveDevice, WillShow, ShowsDevice;
    q := Components.Path(p.device, ResolveDirs(n, p.dirs, depth + 1), ResolveString(n, p.filename, 0, depth + 1),
                         p.count);
    PartsShow(n, p, p, dirs, f, depth);
    assert NewDevice(n, p, listIdx, depth) == p.device;
    assert ResolveParts(n, p, listIdx, depth) == q;
  }

  /** A round turns the parts that its device brings in and those that were there alike. */
  lemma PartsShow(n: Names, p: Components, x: Components, dirs: seq<string>, f: string, depth: nat)
    requires n.Valid() && x.Path? && WillShowAll(n, x.dirs, dirs, depth) && WillShow(n, x.filename, f, depth)
    requires depth + 1 < RESOLVE_MAX_DEPTH
    ensures var dirViews, file := ResolveDirs(n, x.dirs, depth + 1), ResolveString(n, x.filename, 0, depth + 1);
      && WillShowAll(n, dirViews, dirs, depth + 1) && WillShow(n, file, f, depth + 1)
      && Settled(n, file) && forall i | 0 <= i < |dirViews| :: Settled(n, dirViews[i])
  {
    hide Settled, ResolveString;
    DirsStay(n, x.dirs, dirs, depth);
    DirsSettle(n, x.dirs, dirs, depth);
    ShownStays(n, x.filename, f, depth);
  }

  /** What an alias stands for, put into a path on it. */
  lemma ExpandedShows(n: Names, p: Components, t: View, alias: string, device: string, step: Step, dirs: seq<string>,
                      f: string, depth: nat)
    requires n.Valid() && Shows(n, p, alias, dirs, f, depth) && depth < RESOLVE_MAX_DEPTH
    requires DeviceName(device) && step.Valid() && n.Has(t) && n.Text(t) == step.Text(device)
    requires step.bare ==> t.offset == 0 && t.text in n.texts && t.len == |n.texts[t.text]|
    ensures var x, turns := Expanded(n, p, t), RESOLVE_MAX_DEPTH - 1 - depth;
      && x.Path? && x.count == p.count && x.device == (if step.bare then t else Sub(t, Span(0, |device|)))
      && ShowsDevice(n, x.device, device) && |x.dirs| == |step.dirs| + |dirs|
      && WillShowAll(n, x.dirs, EndsOf(n, step.dirs, turns) + dirs, depth)
      && WillShow(n, x.filename, if step.file == "" then f else EndOf(n, step.file, turns), depth)
  {
    hide Written, PartsOf, ResolveString, Settled, WillShow;
    if step.bare {
      BareUnparsable(device);
      assert Parsed(n, t) == Plain(t, 1);
      assert EndsOf(n, [], RESOLVE_MAX_DEPTH - 1 - depth) + dirs == dirs;
      assert n.Text(t.(len := t.len + 1)) == "";
    } else {
      ParseInvertsSerialize(n, t, device, step.dirs, step.file);
      ColonFollows(n, t, device, step.dirs, step.file);
      var c := Parsed(n, t);
      RawShow(n, c.dirs, step.dirs, depth);
      ShowBoth(n, c.dirs, p.dirs, EndsOf(n, step.dirs, RESOLVE_MAX_DEPTH - 1 - depth), dirs, depth);
      RawFile(n, c.filename, depth);
    }
  }

  lemma RawFile(n: Names, v: View, depth: nat)
    requires n.Valid() && n.Has(v) && !v.terminal && depth < RESOLVE_MAX_DEPTH
    ensures WillShow(n, v, EndOf(n, n.Text(v), RESOLVE_MAX_DEPTH - 1 - depth), depth)
  {
    hide ResolveString, Settled;
    LookupEnd(n, v, depth + 1);
  }

  lemma BareUnparsable(device: string)
    requires DeviceName(device)
    ensures PartsOf(device).Unparsable?
  {
    hide First, Repeated;
    FirstNone(device, ':');
  }

  lemma BareShallow(device: string)
    requires Unseparated(device)
    ensures !TooDeep(device)
  {
    hide DotPieces, Directories;
  }

  lemma ColonFollows(n: Names, v: View, device: string, dirs: seq<string>, filename: string)
    requires n.Has(v) && n.Text(v) == Written(device, dirs, filename) && DeviceName(device)
    ensures ShowsDevice(n, Sub(v, Span(0, |device|)), device)
  {
    hide Written, Names.Text;
    var d := Sub(v, Span(0, |device|));
    WrittenStart(device, dirs, filename);
    TextStart(n, v, d, |device|);
    TextStart(n, v, d.(len := d.len + 1), |device| + 1);
  }

  lemma WrittenStart(device: string, dirs: seq<string>, filename: string)
    requires DeviceName(device)
    ensures var s := Written(device, dirs, filename);
      |device| < |s| && s[..|device|] == device && s[..|device| + 1] == device + ":"
  {
  }

  /** The text of a view that starts where v does. */
  lemma TextStart(n: Names, v: View, d: View, k: nat)
    requires n.Has(v) && k <= |n.Text(v)| && d.text == v.text && d.offset == v.offset && d.len == k > 0
    ensures n.Text(d) == n.Text(v)[..k]
  {
    if v.text in n.texts {
      var s := n.texts[v.text];
      SliceStart(s, v.offset, v.len, k);
    }
  }

  lemma SliceStart(s: string, offset: nat, len: nat, k: nat)
    requires offset + len <= |s| && k <= len
    ensures s[offset..offset + k] == s[offset..offset + len][..k]
  {
  }

  lemma WrittenDeep(device: string, dirs: seq<string>, filename: string)
    requires DeviceName(device) && DirNames(dirs) && Unseparated(filename)
    ensures TooDeep(Written(device, dirs, filename)) <==> |dirs| > MAX_DIR_DEPTH
  {
    hide Written, PartsOf, TooDeep, Cuts, Cut;
    PartsOfWritten(device, dirs, filename);
    DeepPaths(Written(device, dirs, filename));
  }

  /** A round that replaces an alias by what it stands for. */
  lemma AliasRound(n: Names, alias: string, device: string, step: Step, p: Components, dirs: seq<string>, f: string,
                   listIdx: nat, depth: nat) returns (q: Components)
    requires n.Valid() && DeviceName(alias) && DeviceName(device) && depth + 1 < RESOLVE_MAX_DEPTH
    requires AliasFor(n, alias, device, step, if p.count == 1 then listIdx else 0)
    requires p.Path? && !p.device.terminal && Shows(n, p, alias, dirs, f, depth)
    ensures q.Path? && AllSettled(n, q) && q.count == (if p.count == 1 then Listed(n, alias) else p.count)
         && (q.device.terminal <==> Stops(n, alias, step))
    ensures var turns := RESOLVE_MAX_DEPTH - 1 - depth;
      Shows(n, q, device, EndsOf(n, step.dirs, turns) + dirs, if step.file == "" then f else EndOf(n, step.file, turns),
            depth + 1)
    ensures ResolvePath(n, p, listIdx, depth) == ResolvePath(n, q, listIdx, depth + 1)
    ensures Fits(n, p, listIdx, depth) <==> |step.dirs| + |dirs| <= MAX_DIR_DEPTH && Fits(n, q, listIdx, depth + 1)
  {
    hide PartsOf, TooDeep, ShowsDevice, Lookup, ResolveString, ResolveDevice, WillShow, Settled, EndOf, DeviceAlias,
      Written;
    var key, place := DeviceKey(n, alias), if p.count == 1 then listIdx else 0;
    TargetChosen(n, key, step.Text(device), place);
    var t := Target(n, n.table[key], place);
    NewDeviceIs(n, p, alias, listIdx, depth);
    var counted := Components.Path(p.device, p.dirs, p.filename, if p.count == 1 then Listed(n, alias) else p.count);
    ExpandedShows(n, counted, t, alias, device, step, dirs, f, depth);
    var x := Expanded(n, counted, t);
    var turns := RESOLVE_MAX_DEPTH - 1 - depth;
    var dirs', f' := EndsOf(n, step.dirs, turns) + dirs, if step.file == "" then f else EndOf(n, step.file, turns);
    PartsShow(n, p, x, dirs', f', depth);
    q := Components.Path(x.device, ResolveDirs(n, x.dirs, depth + 1), ResolveString(n, x.filename, 0, depth + 1),
                         x.count);
    StepFits(n, t, device, step);
    NotTheSame(n, p, alias, device, step, t);
    hide Names.Text, NewDevice, Expanded, WillShowAll, Target;
    assert ResolveParts(n, p, listIdx, depth) == q;
  }

  lemma StepFits(n: Names, t: View, device: string, step: Step)
    requires DeviceName(device) && step.Valid() && n.Has(t) && n.Text(t) == step.Text(device)
    ensures ParseFits(n, t) <==> |step.dirs| <= MAX_DIR_DEPTH
  {
    hide Written, TooDeep;
    if step.bare {
      BareShallow(device);
    } else {
      WrittenDeep(device, step.dirs, step.file);
      WrittenColon(device, step.dirs, step.file);
    }
  }

  lemma WrittenColon(device: string, dirs: seq<string>, filename: string)
    requires DeviceName(device)
    ensures Written(device, dirs, filename) != ""
  {
  }

  /** Replacing an alias changes a path, and not only in text: what it stands for is elsewhere. */
  lemma NotTheSame(n: Names, p: Components, alias: string, device: string, step: Step, t: View)
    requires n.Valid() && p.Path? && ShowsDevice(n, p.device, alias) && DeviceAlias(n, alias)
    requires DeviceName(device) && n.Has(t) && n.Text(t) == step.Text(device) && step.Valid()
    requires t.text in n.table[DeviceKey(n, alias)].targets && n.texts[t.text] == n.Text(t)
    ensures !Same(t, p.device)
    ensures step.dirs == [] ==> !Same(if step.bare then t else Sub(t, Span(0, |device|)), p.device)
  {
    hide Names.Text, Written;
    SameTexts(n, t, p.device);
    SameTexts(n, Sub(t, Span(0, |device|)), p.device);
    if !step.bare {
      ColonFollows(n, t, device, step.dirs, step.file);
    }
    assert Step(true, [], "").Text(alias) == alias;
  }

  lemma SameTexts(n: Names, a: View, b: View)
    ensures Same(a, b) ==> n.Text(a) == n.Text(b)
  {
  }

  // ---- The whole chain ----

  lemma ChainStep(n: Names, c: Chain, i: nat)
    requires c.Valid(n) && 0 < i < |c.aliases|
    ensures n.Valid() && DeviceName(c.aliases[i]) && DeviceName(c.aliases[i - 1])
    ensures i > 1 ==> !Stops(n, c.aliases[i], c.steps[i])
    ensures var before := c.Counted(n, i);
      && AliasFor(n, c.aliases[i], c.aliases[i - 1], c.steps[i], if before == 1 then c.idx else 0)
      && c.Counted(n, i - 1) == if before == 1 then Listed(n, c.aliases[i]) else before
  {
    hide AliasFor, DeviceName, Stops;
    assert c.Links(n, i);
  }

  lemma ChainEnds(n: Names, c: Chain)
    requires c.Valid(n)
    ensures n.Valid() && c.Sized() && DeviceName(c.aliases[0]) && DeviceName(c.aliases[c.Last()])
    ensures DeviceKey(n, c.aliases[0]) !in n.table || (|c.aliases| > 1 && Stops(n, c.aliases[1], c.steps[1]))
  {
    hide Chain.Links, DeviceName, Stops;
  }

  /** A device that stands for nothing stays. */
  lemma UndefinedDevice(n: Names, device: string, v: View, depth: nat)
    requires n.Valid() && DeviceKey(n, device) !in n.table && ShowsDevice(n, v, device) && depth <= RESOLVE_MAX_DEPTH
    ensures ResolveDevice(n, v, 0, depth) == v
  {
  }

  lemma TerminalStays(n: Names, v: View, depth: nat)
    requires n.Valid() && v.terminal
    ensures ResolveDevice(n, v, 0, depth) == v
  {
  }

  /** Resolving is under way: so many rounds have replaced the aliases from the last one down to i. */
  ghost predicate UnderWay(n: Names, c: Chain, i: nat, p: Components, dirs: seq<string>, f: string) {
    && c.Valid(n) && c.Ordinary(n) && c.Reached() <= i < |c.aliases| && p.Path?
    && Shows(n, p, c.aliases[i], dirs, f, c.Depth(i)) && (i < c.Last() ==> AllSettled(n, p))
    && p.count == c.Counted(n, i)
    && (p.device.terminal <==> i < c.Last() && Stops(n, c.aliases[i + 1], c.steps[i + 1]))
  }

  lemma UnderWayBounds(n: Names, c: Chain, i: nat, p: Components, dirs: seq<string>, f: string)
    requires UnderWay(n, c, i, p, dirs, f)
    ensures n.Valid() && c.Valid(n) && c.Sized() && c.Reached() <= i < |c.aliases|
  {
    hide Shows, AliasFor, Stops;
  }

  /** One alias replaced. */
  lemma NextAlias(n: Names, c: Chain, i: nat, p: Components, dirs: seq<string>, f: string) returns (q: Components)
    requires UnderWay(n, c, i, p, dirs, f) && i > c.Reached()
    ensures UnderWay(n, c, i - 1, q, EndsOf(n, c.steps[i].dirs, c.Turns(i)) + dirs, c.NextFile(n, i, f))
    ensures ResolvePath(n, p, c.idx, c.Depth(i)) == ResolvePath(n, q, c.idx, c.Depth(i - 1))
    ensures Fits(n, p, c.idx, c.Depth(i)) <==>
            |c.steps[i].dirs| + |dirs| <= MAX_DIR_DEPTH && Fits(n, q, c.idx, c.Depth(i - 1))
  {
    hide Shows, ResolvePath, Fits, AliasFor, Listed, Chain.Counted, EndOf, Stops, DeviceName, AllSettled;
    ChainStep(n, c, i);
    if i < c.Last() {
      ChainStep(n, c, i + 1);
    }
    q := AliasRound(n, c.aliases[i], c.aliases[i - 1], c.steps[i], p, dirs, f, c.idx, c.Depth(i));
  }

  /** No alias, or no turn, left. */
  lemma NoMoreAliases(n: Names, c: Chain, p: Components, dirs: seq<string>, f: string)
    requires c.Sized() && UnderWay(n, c, c.Reached(), p, dirs, f)
    ensures var lo := c.Reached();
      var q := ResolvePath(n, p, c.idx, c.Depth(lo));
      && Reads(n, q, c.aliases[lo], dirs, f) && q.count == c.Counted(n, lo)
      && (|dirs| <= MAX_DIR_DEPTH ==> Fits(n, p, c.idx, c.Depth(lo)))
  {
    hide ResolvePath, Fits, DeviceAlias, StandsFor, Chain.Valid, Chain.Counted, WillShow, WillShowAll, ResolveDevice,
      AllSettled, Stops, DeviceName, ShowsDevice;
    var lo := c.Reached();
    var device, depth := c.aliases[lo], c.Depth(lo);
    if lo == 0 {
      ChainEnds(n, c);
      if DeviceKey(n, device) !in n.table {
        UndefinedDevice(n, device, p.device, depth + 1);
        if depth + 1 < RESOLVE_MAX_DEPTH {
          UndefinedDevice(n, device, p.device, depth + 2);
        }
      } else {
        TerminalStays(n, p.device, depth + 1);
      }
    } else {
      ChainStep(n, c, lo);
      ChainStep(n, c, lo + 1);
      LookupAlias(n, device, p.device, 0, depth + 1);
    }
    LastRound(n, p, device, dirs, f, c.idx, depth);
  }

  /** From alias i on, each round replaces one alias, until none or no turn is left. */
  lemma {:induction false} ResolveChain(n: Names, c: Chain, i: nat, p: Components, dirs: seq<string>, f: string)
    requires UnderWay(n, c, i, p, dirs, f)
    ensures n.Valid() && c.Sized() && c.Reached() <= i < |c.aliases|
    ensures var lo, q := c.Reached(), ResolvePath(n, p, c.idx, c.Depth(i));
      && Reads(n, q, c.aliases[lo], c.Gathered(n, lo + 1, i + 1) + dirs, c.FileAfter(n, lo + 1, i + 1, f))
      && q.count == c.Counted(n, lo)
    decreases i
  {
    hide UnderWay, Reads, ResolvePath, Fits, Chain.Counted, Chain.Gathered, Chain.FileAfter, Chain.NextFile, EndsOf,
      Chain.Turns, Chain.Valid, Chain.Reached;
    UnderWayBounds(n, c, i, p, dirs, f);
    var lo := c.Reached();
    GatheredNone(n, c, lo, f);
    if i > lo {
      var q := NextAlias(n, c, i, p, dirs, f);
      ResolveChain(n, c, i - 1, q, EndsOf(n, c.steps[i].dirs, c.Turns(i)) + dirs, c.NextFile(n, i, f));
      GatheredOneMore(n, c, lo + 1, i, dirs, f);
    } else {
      NoMoreAliases(n, c, p, dirs, f);
      assert [] + dirs == dirs;
    }
  }

  /** On the way no array overflows exactly if all directories gathered have room in one. */
  lemma {:induction false} ChainFits(n: Names, c: Chain, i: nat, p: Components, dirs: seq<string>, f: string)
    requires UnderWay(n, c, i, p, dirs, f) && |dirs| <= MAX_DIR_DEPTH
    ensures n.Valid() && c.Sized() && c.Reached() <= i < |c.aliases|
    ensures Fits(n, p, c.idx, c.Depth(i)) <==>
            |c.Gathered(n, c.Reached() + 1, i + 1)| + |dirs| <= MAX_DIR_DEPTH
    decreases i
  {
    hide UnderWay, Reads, ResolvePath, Fits, Chain.Counted, Chain.Gathered, Chain.FileAfter, Chain.NextFile, EndsOf,
      Chain.Turns, Chain.Valid, Chain.Reached;
    UnderWayBounds(n, c, i, p, dirs, f);
    var lo := c.Reached();
    GatheredNone(n, c, lo, f);
    if i > lo {
      var q := NextAlias(n, c, i, p, dirs, f);
      GatheredOneMore(n, c, lo + 1, i, dirs, f);
      if |c.steps[i].dirs| + |dirs| <= MAX_DIR_DEPTH {
        ChainFits(n, c, i - 1, q, EndsOf(n, c.steps[i].dirs, c.Turns(i)) + dirs, c.NextFile(n, i, f));
      }
    } else {
      NoMoreAliases(n, c, p, dirs, f);
    }
  }

  lemma GatheredNone(n: Names, c: Chain, lo: nat, f: string)
    requires n.Valid() && c.Sized() && lo < |c.aliases|
    ensures c.Gathered(n, lo + 1, lo + 1) == [] && c.FileAfter(n, lo + 1, lo + 1, f) == f
  {
  }

  lemma GatheredOneMore(n: Names, c: Chain, lo: nat, i: nat, dirs: seq<string>, f: string)
    requires n.Valid() && c.Sized() && lo <= i < |c.aliases|
    ensures var ends := EndsOf(n, c.steps[i].dirs, c.Turns(i));
      && c.Gathered(n, lo, i) + (ends + dirs) == c.Gathered(n, lo, i + 1) + dirs
      && |c.Gathered(n, lo, i + 1)| == |c.Gathered(n, lo, i)| + |ends|
      && c.FileAfter(n, lo, i + 1, f) == c.FileAfter(n, lo, i, c.NextFile(n, i, f))
  {
  }

  /** The path that a path on the last alias of a chain, with directories e and file name f, ends as:
      on the device reached after at most 14 aliases, with the directories of these aliases before
      its own, and the file name of the last alias to bring one, or its own; each of them followed
      to the end of its chain of first strings. */
  ghost function Outcome(n: Names, c: Chain, e: seq<string>, f: string): string
    requires n.Valid() && c.Sized()
  {
    var lo, turns := c.Reached(), c.Turns(c.Last());
    Written(c.aliases[lo], c.Gathered(n, lo + 1, |c.aliases|) + EndsOf(n, e, turns),
            c.FileAfter(n, lo + 1, |c.aliases|, EndOf(n, f, turns)))
  }

  /** Resolving what was parsed from a path on the last of a chain of aliases. */
  lemma ChainResolves(n: Names, c: Chain, e: seq<string>, f: string, v: View)
    requires c.Valid(n) && c.Ordinary(n) && DirNames(e) && Unseparated(f)
    requires n.Has(v) && n.Text(v) == Written(c.aliases[c.Last()], e, f)
    ensures Parsed(n, v).Path?
    ensures var p := Components.Path(Parsed(n, v).device, Parsed(n, v).dirs, Parsed(n, v).filename, c.count);
      var q := ResolvePath(n, p, c.idx, c.start);
      && Printed(n, q) == Some(Outcome(n, c, e, f)) && q.count == c.Counted(n, c.Reached())
      && (|e| <= MAX_DIR_DEPTH ==>
            (Fits(n, p, c.idx, c.start) <==>
               |c.Gathered(n, c.Reached() + 1, |c.aliases|)| + |e| <= MAX_DIR_DEPTH))
  {
    hide UnderWay, Written, Chain.Valid, Chain.Ordinary, ResolvePath, TooDeep, Fits, Chain.Counted, Chain.Gathered,
      Chain.FileAfter, EndOf, Parsed;
    ChainEnds(n, c);
    var dirs, file := EndsOf(n, e, c.Turns(c.Last())), EndOf(n, f, c.Turns(c.Last()));
    var p := Starting(n, c, e, f, v);
    ResolveChain(n, c, c.Last(), p, dirs, file);
    if |e| <= MAX_DIR_DEPTH {
      ChainFits(n, c, c.Last(), p, dirs, file);
    }
  }

  lemma Starting(n: Names, c: Chain, e: seq<string>, f: string, v: View) returns (p: Components)
    requires c.Valid(n) && c.Ordinary(n) && DirNames(e) && Unseparated(f)
    requires n.Has(v) && n.Text(v) == Written(c.aliases[c.Last()], e, f)
    ensures Parsed(n, v).Path?
    ensures p == Components.Path(Parsed(n, v).device, Parsed(n, v).dirs, Parsed(n, v).filename, c.count)
    ensures UnderWay(n, c, c.Last(), p, EndsOf(n, e, c.Turns(c.Last())), EndOf(n, f, c.Turns(c.Last())))
  {
    hide Written, PartsOf, WillShow, EndOf, EndsOf, AliasFor, Unseparated, DirNames, Chain.Valid, Chain.Ordinary;
    ChainEnds(n, c);
    var device := c.aliases[c.Last()];
    ParseInvertsSerialize(n, v, device, e, f);
    ColonFollows(n, v, device, e, f);
    p := Components.Path(Parsed(n, v).device, Parsed(n, v).dirs, Parsed(n, v).filename, c.count);
    RawShow(n, p.dirs, e, c.start);
    RawFile(n, p.filename, c.start);
    assert c.Counted(n, c.Last()) == c.count;
  }

  // ---- Resolving a name ----

  /** Without lists the result count is 1; else it is the length of the first list met. */
  lemma {:induction false} CountOfFirstList(n: Names, c: Chain, i: nat, k: nat)
    requires c.Sized() && c.count == 1 && i <= k < |c.aliases|
    requires forall m | k < m < |c.aliases| :: Listed(n, c.aliases[m]) == 1
    ensures i == k || Listed(n, c.aliases[k]) > 1 ==>
              c.Counted(n, i) == if i == k then 1 else Listed(n, c.aliases[k])
    decreases |c.aliases| - i
  {
    hide Listed;
    if i < k {
      CountOfFirstList(n, c, i + 1, k);
    } else if i < c.Last() {
      CountOfFirstList(n, c, i + 1, i + 1);
    }
  }

  /** A path on the last of a chain of aliases resolves to the outcome of the chain. The place asked
      for is taken in the first list met, whose length is the result count. No array overflows on
      the way exactly if the directories gathered have room in one. */
  lemma AliasChainResolves(n: Names, c: Chain, e: seq<string>, f: string, text: nat)
    requires c.Valid(n) && c.Ordinary(n) && c.start == 0 && c.count == 1 && DirNames(e) && Unseparated(f)
    requires text in n.texts && n.texts[text] == Written(c.aliases[c.Last()], e, f)
    ensures Resolved(n, text, c.idx) == Resolution(Some(Outcome(n, c, e, f)), c.Counted(n, c.Reached()))
    ensures ResolvedFits(n, text, c.idx) <==> |c.Gathered(n, c.Reached() + 1, |c.aliases|)| + |e| <= MAX_DIR_DEPTH
  {
    hide Written, Chain.Valid, Chain.Ordinary, ResolvePath, TooDeep, Fits, Chain.Counted, Chain.Gathered, Outcome,
      PartsOf, Chain.Reached;
    ChainEnds(n, c);
    var v, device := n.Whole(text, false), c.aliases[c.Last()];
    WholeText(n, v);
    WrittenColon(device, e, f);
    WrittenDeep(device, e, f);
    ChainResolves(n, c, e, f, v);
    ParsedCount(n, v);
  }

  lemma ParsedCount(n: Names, v: View)
    ensures Parsed(n, v).count == 1
  {
  }

  /** A plain name whose chain ends, at most 14 turns away, in a path on the last of a chain of
      aliases resolves to the outcome of that chain. Which chain of names is taken, and the result
      count before the path, are as for a chain that ends in a plain name. */
  lemma NameOfPathResolves(n: Names, firsts: seq<string>, chosen: seq<string>, c: Chain, e: seq<string>, f: string,
                           text: nat, idx: nat)
    requires NameChain(n, firsts, 0) && NameChain(n, chosen, idx) && PartsOf(firsts[0]).Unparsable?
    requires text in n.texts && n.texts[text] == firsts[0] == chosen[0] && Turns(n, firsts) < RESOLVE_MAX_DEPTH
    requires var names := if ListLength(n, firsts) > 1 then chosen else firsts;
      Turns(n, names) < RESOLVE_MAX_DEPTH && c.Sized() && names[|names| - 1] == Written(c.aliases[c.Last()], e, f)
    requires c.Valid(n) && c.Ordinary(n) && c.start == 1 && c.idx == 0 && c.count == ListLength(n, firsts)
    requires DirNames(e) && Unseparated(f)
    ensures Resolved(n, text, idx) == Resolution(Some(Outcome(n, c, e, f)), c.Counted(n, c.Reached()))
  {
    hide PartsOf, Lookup, Written, Chain.Valid, Chain.Ordinary, Chain.Counted, Chain.Gathered, Outcome;
    var v := n.Whole(text, false);
    WholeText(n, v);
    LookupChain(n, firsts, 0, v, 1);
    LookupChain(n, chosen, idx, v, 1);
    var names := if ListLength(n, firsts) > 1 then chosen else firsts;
    var res := ResolveString(n, v, if ListLength(n, firsts) > 1 then idx else 0, 1);
    assert Parsed(n, v) == Plain(v, 1);
    ChainStarts(n, firsts, chosen, idx);
    ChainResolves(n, c, e, f, res);
    ParsedCount(n, res);
    SameTexts(n, res, v);
    hide NameChain, ListLength, Turns, EndsTerminal, ResolveString;
  }

  /** An alias for these devices, each with the directories and file name of its step. None of the
      devices stands for anything, and no string of the list is a name. */
  ghost predicate SearchList(n: Names, alias: string, devices: seq<string>, steps: seq<Step>) {
    && n.Valid() && DeviceName(alias) && DeviceKey(n, alias) in n.table
    && var targets := n.table[DeviceKey(n, alias)].targets;
      && |targets| == |devices| == |steps|
      && forall j | 0 <= j < |devices| ::
           && DeviceName(devices[j]) && DeviceKey(n, devices[j]) !in n.table && steps[j].Valid()
           && n.texts[targets[j]] == steps[j].Text(devices[j]) && steps[j].Text(devices[j]) !in n.table
  }

  /** A path on an alias for a list: the directories of the string asked for, or else of the first,
      before those of the path, and its file name if it has one. */
  lemma SearchListResolves(n: Names, alias: string, devices: seq<string>, steps: seq<Step>, e: seq<string>, f: string,
                           text: nat, idx: nat)
    requires SearchList(n, alias, devices, steps) && text in n.texts && n.texts[text] == Written(alias, e, f)
    requires DirNames(e) && Unseparated(f)
    ensures var j, turns := if idx < |devices| then idx else 0, RESOLVE_MAX_DEPTH - 1;
      Resolved(n, text, idx) == Resolution(
        Some(Written(devices[j], EndsOf(n, steps[j].dirs, turns) + EndsOf(n, e, turns),
                     EndOf(n, if steps[j].file == "" then f else steps[j].file, turns))),
        |devices|)
  {
    hide Resolved, ResolvedFits, Unseparated, DirNames, Written, EndOf, EndsOf, DeviceName;
    var j := Chosen(|devices|, idx);
    NotListed(n, alias, devices, steps);
    var c := Chain([devices[j], alias], [Step(true, [], ""), steps[j]], idx, 1, 0);
    assert c.Counted(n, 1) == 1;
    assert c.Links(n, 1);
    AliasChainResolves(n, c, e, f, text);
    OneStep(n, c, EndsOf(n, e, RESOLVE_MAX_DEPTH - 1), EndOf(n, f, RESOLVE_MAX_DEPTH - 1));
  }

  lemma OneStep(n: Names, c: Chain, ends: seq<string>, f: string)
    requires n.Valid() && c.Sized() && |c.aliases| == 2 && c.start == 0
    ensures c.Gathered(n, 1, 2) + ends == EndsOf(n, c.steps[1].dirs, RESOLVE_MAX_DEPTH - 1) + ends
    ensures c.FileAfter(n, 1, 2, f) == c.NextFile(n, 1, f) && c.Turns(1) == RESOLVE_MAX_DEPTH - 1
  {
    assert c.Gathered(n, 1, 1) == [];
  }

  /** None of those devices is the alias, which is defined. */
  lemma NotListed(n: Names, alias: string, devices: seq<string>, steps: seq<Step>)
    requires SearchList(n, alias, devices, steps)
    ensures DeviceAlias(n, alias)
  {
    hide Step.Text;
    var targets := n.table[DeviceKey(n, alias)].targets;
    forall t, step: Step | t in targets && step.dirs == []
      ensures n.texts[t] !in n.table && n.texts[t] != step.Text(alias)
    {
      var j: nat :| j < |targets| && targets[j] == t;
      if n.texts[t] == step.Text(alias) {
        SameDevice(devices[j], steps[j], alias, step);
      }
    }
  }

  /** Equal texts are of the same device. */
  lemma SameDevice(a: string, s: Step, b: string, t: Step)
    requires DeviceName(a) && DeviceName(b) && s.Text(a) == t.Text(b)
    ensures a == b
  {
    TextColon(a, s);
    TextColon(b, t);
  }

  lemma TextColon(device: string, step: Step)
    requires DeviceName(device)
    ensures var s := step.Text(device);
      && |device| <= |s| && s[..|device|] == device && (|device| < |s| ==> s[|device|] == ':')
      && forall i | 0 <= i < |device| :: s[i] != ':'
  {
  }
}
