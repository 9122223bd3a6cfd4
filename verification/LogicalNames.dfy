/** Logical names: strings and paths whose parts may stand for other strings, looked up again and
    again until nothing changes. A piece of a string is a view into it, so that a part that came
    back unchanged can be told from an equal one that was substituted. */
module LogicalNames {
  import opened Options
  import opened Paths
  import opened NameParts

  const RESOLVE_MAX_DEPTH: nat := 15
  const MAX_DIR_DEPTH: nat := 25

  /** raw_string_t: len characters of one stored string. Text 0 stands for the null pointer. */
  datatype View = View(text: nat, offset: nat, len: nat, terminal: bool, count: nat, idx: nat)

  const NULL_VIEW := View(0, 0, 0, false, 0, 0)

  /** logical_name_target_t: the stored strings a name stands for. */
  datatype Entry = Entry(targets: seq<nat>, terminal: bool)

  /** All stored strings, and the table of logical names. */
  datatype Names = Names(texts: map<nat, string>, table: map<string, Entry>) {
    /** As logical_name_set leaves it: every name has a target, and no target is empty. */
    ghost predicate Valid() {
      && 0 !in texts
      && (forall k <- table :: table[k].targets != [])
      && (forall k <- table, i | 0 <= i < |table[k].targets| ::
            table[k].targets[i] in texts && texts[table[k].targets[i]] != "")
    }

    function Text(v: View): string {
      if v.text in texts && v.offset + v.len <= |texts[v.text]| then texts[v.text][v.offset..v.offset + v.len] else ""
    }

    ghost predicate Has(v: View) {
      |Text(v)| == v.len
    }

    /** raw_from_cstr of a stored string. */
    function Whole(text: nat, terminal: bool): View
      requires text in texts
    {
      View(text, 0, |texts[text]|, terminal, 1, 0)
    }
  }

  /** raw_cmp: the same place, not only the same characters. */
  predicate Same(l: View, r: View) {
    l.text == r.text && l.offset == r.offset && l.len == r.len
  }

  /** parsed_components_t: a string that is no path, or the parts of a path. The null value is a
      path without a device. */
  datatype Components = Plain(text: View, count: nat)
                      | Path(device: View, dirs: seq<View>, filename: View, count: nat)

  const NULL_COMPONENTS := Components.Path(NULL_VIEW, [], NULL_VIEW, 0)

  // ---- Parsing ----

  function Sub(v: View, p: Span): View {
    View(v.text, v.offset + p.start, p.len, false, 1, 0)
  }

  /** A part that may be absent. */
  function Part(v: View, p: Span): View {
    if p == ABSENT then NULL_VIEW else Sub(v, p)
  }

  function PartViews(v: View, spans: seq<Span>): (r: seq<View>)
    ensures |r| == |spans|
  {
    seq(|spans|, i requires 0 <= i < |spans| => Part(v, spans[i]))
  }

  /** What parse_string makes of a view. An unparsable string of length zero counts as none. */
  function Parsed(n: Names, v: View): Components {
    if v.len == 0 then Components.Path(NULL_VIEW, [], NULL_VIEW, 1)
    else
      match PartsOf(n.Text(v))
      case Unparsable => Plain(v, 1)
      case Parts(device, dirs, filename) =>
        Components.Path(Sub(v, device), PartViews(v, dirs), Part(v, filename), 1)
  }

  /** Whether and where c has been seen in the first i characters, once at most. */
  ghost predicate Seen(s: string, i: nat, c: char, at: Option<nat>) {
    && i <= |s|
    && (at.None? ==> forall k | 0 <= k < i :: s[k] != c)
    && (at.Some? ==> at.value < i && s[at.value] == c && forall k | 0 <= k < i && k != at.value :: s[k] != c)
  }

  lemma SeenAll(s: string, c: char, at: Option<nat>)
    requires Seen(s, |s|, c, at)
    ensures !Repeated(s, c) && First(s, c) == if at.Some? then at.value else |s|
  {
    if at.Some? {
      FirstIs(s, c, at.value);
    } else {
      FirstNone(s, c);
    }
  }

  lemma SeenTwice(s: string, i: nat, c: char, at: Option<nat>)
    requires Seen(s, i, c, at) && at.Some? && i < |s| && s[i] == c
    ensures Repeated(s, c)
  {
    FirstIs(s, c, at.value);
  }

  /** The directories that the first i characters hold, by where the brackets are among them. */
  function Stored(s: string, i: nat, open: Option<nat>, close: Option<nat>): seq<Span>
    requires i <= |s| && (open.Some? ==> open.value < i) && (close.Some? ==> close.value < i)
  {
    if close.Some? then Directories(s, if open.Some? then open.value else |s|, close.value)
    else if open.Some? then DotPieces(s, open.value + 1, i)
    else []
  }

  /** No start of s up to character i, without a repeated separator, holds more directories than a
      path has room for. */
  ghost predicate Shallow(s: string, i: nat) {
    forall j: nat, colon, open, close |
      j <= i && Seen(s, j, ':', colon) && Seen(s, j, '[', open) && Seen(s, j, ']', close) ::
        |Stored(s, j, open, close)| <= MAX_DIR_DEPTH
  }

  ghost predicate TooDeep(s: string) {
    !Shallow(s, |s|)
  }

  lemma ShallowNone(s: string)
    ensures Shallow(s, 0)
  {
  }

  lemma ShallowNext(s: string, i: nat, colon: Option<nat>, open: Option<nat>, close: Option<nat>)
    requires Shallow(s, i) && Seen(s, i + 1, ':', colon) && Seen(s, i + 1, '[', open) && Seen(s, i + 1, ']', close)
    ensures Shallow(s, i + 1) <==> |Stored(s, i + 1, open, close)| <= MAX_DIR_DEPTH
  {
    var j := i + 1;
    assert forall x | Seen(s, j, '[', x) :: x == open;
    assert forall x | Seen(s, j, ']', x) :: x == close;
  }

  lemma ShallowLess(s: string, i: nat, j: nat)
    requires i <= j && Shallow(s, j)
    ensures Shallow(s, i)
  {
  }

  /** A repeated separator ends the parsing. */
  lemma ShallowRest(s: string, i: nat, c: char, at: Option<nat>)
    requires Shallow(s, i) && Seen(s, i, c, at) && at.Some? && i < |s| && s[i] == c && c in {':', '[', ']'}
    ensures Shallow(s, |s|)
  {
    forall j, x | i < j
      ensures !Seen(s, j, c, x)
    {
    }
  }

  lemma {:induction false} MoreDots(s: string, lo: nat, i: nat, hi: nat)
    requires lo <= i <= hi <= |s|
    ensures |DotPieces(s, lo, i)| <= |DotPieces(s, lo, hi)|
    decreases hi
  {
    if i < hi {
      MoreDots(s, lo, i, hi - 1);
    }
  }

  /** A string that parses is too deep exactly when its path has more directories than there is
      room for. */
  lemma DeepPaths(s: string)
    requires PartsOf(s).Parts?
    ensures TooDeep(s) <==> |PartsOf(s).dirs| > MAX_DIR_DEPTH
  {
    hide Repeated, DotPieces, PieceStart, First;
    var colon := SeenFirst(s, ':');
    var open := SeenFirst(s, '[');
    var close := SeenFirst(s, ']');
    assert |Stored(s, |s|, open, close)| == |PartsOf(s).dirs|;
    forall j: nat, open', close' | Seen(s, j, '[', open') && Seen(s, j, ']', close')
      ensures |Stored(s, j, open', close')| <= |PartsOf(s).dirs|
    {
      StoredGrows(s, j, open', close', open, close);
    }
  }

  lemma SeenFirst(s: string, c: char) returns (at: Option<nat>)
    requires !Repeated(s, c)
    ensures Seen(s, |s|, c, at) && at == if First(s, c) < |s| then Some(First(s, c)) else None
  {
    at := if First(s, c) < |s| then Some(First(s, c)) else None;
    if First(s, c) < |s| {
      FirstIs(s, c, First(s, c));
    }
  }

  lemma StoredGrows(s: string, j: nat, open': Option<nat>, close': Option<nat>, open: Option<nat>, close: Option<nat>)
    requires Seen(s, j, '[', open') && Seen(s, j, ']', close') && Seen(s, |s|, '[', open) && Seen(s, |s|, ']', close)
    requires open.Some? ==> close.Some?
    ensures |Stored(s, j, open', close')| <= |Stored(s, |s|, open, close)|
  {
    hide DotPieces, PieceStart;
    if close'.None? && open'.Some? {
      assert open == open' && j <= close.value;
      MoreDots(s, open.value + 1, j, close.value);
    } else if close'.Some? {
      assert close == close';
    }
  }

  /** The directories collected once i characters have been read. */
  ghost predicate Collected(s: string, v: View, i: nat, open: Option<nat>, close: Option<nat>, lastDir: nat,
                            dirs: seq<View>) {
    && i <= |s| && (open.Some? ==> open.value < i) && (close.Some? ==> close.value < i)
    && dirs == PartViews(v, Stored(s, i, open, close))
    && (close.None? && open.Some? ==> lastDir == PieceStart(s, open.value + 1, i))
  }

  /** parse_string. A directory that comes when the array of the path is full would be stored
      past its end: the model stops there with overflow set. */
  method ParseString(n: Names, str: View) returns (res: Components, overflow: bool)
    requires n.Valid() && n.Has(str)
    ensures overflow <==> TooDeep(n.Text(str))
    ensures !overflow ==> res == Parsed(n, str)
  {
    hide First, Repeated, DotPieces, PieceStart, PartViews, Shallow, Stored, Collected;
    var s := n.Text(str);
    overflow := false;
    ShallowNone(s);
    if |s| == 0 {
      return Parsed(n, str), false;
    }
    var separator: Option<nat>, dirStart: Option<nat>, dirEnd: Option<nat> := None, None, None;
    var device, dirs, lastDir: nat := NULL_VIEW, [], 0;
    CollectNone(s, str, lastDir);
    for i := 0 to |s|
      invariant Seen(s, i, ':', separator) && Seen(s, i, '[', dirStart) && Seen(s, i, ']', dirEnd)
      invariant separator.Some? ==> device == Sub(str, Span(0, separator.value))
      invariant Collected(s, str, i, dirStart, dirEnd, lastDir, dirs)
      invariant Shallow(s, i) && |dirs| <= MAX_DIR_DEPTH && !overflow
    {
      var c := s[i];
      CollectNext(s, str, i, dirStart, dirEnd, lastDir, dirs);
      if c == ':' {
        if separator.Some? {
          SeenTwice(s, i, c, separator);
          ShallowRest(s, i, c, separator);
          return Plain(str, 1), false;
        }
        separator := Some(i);
        device := Sub(str, Span(0, i));
      } else if c == '[' {
        if dirStart.Some? {
          SeenTwice(s, i, c, dirStart);
          ShallowRest(s, i, c, dirStart);
          return Plain(str, 1), false;
        }
        dirStart := Some(i);
        lastDir := i + 1;
      } else if c == ']' {
        if dirEnd.Some? {
          SeenTwice(s, i, c, dirEnd);
          ShallowRest(s, i, c, dirEnd);
          return Plain(str, 1), false;
        }
        dirEnd := Some(i);
        if |dirs| == MAX_DIR_DEPTH {
          NoRoom(s, str, i, separator, dirStart, dirEnd, lastDir,
                 dirs + [if dirStart.Some? then Sub(str, Span(lastDir, i - lastDir)) else NULL_VIEW]);
          return Plain(str, 1), true;
        }
        dirs := dirs + [if dirStart.Some? then Sub(str, Span(lastDir, i - lastDir)) else NULL_VIEW];
      } else if c == '.' && dirStart.Some? && dirEnd.None? {
        if |dirs| == MAX_DIR_DEPTH {
          NoRoom(s, str, i, separator, dirStart, dirEnd, i + 1, dirs + [Sub(str, Span(lastDir, i - lastDir))]);
          return Plain(str, 1), true;
        }
        dirs := dirs + [Sub(str, Span(lastDir, i - lastDir))];
        lastDir := i + 1;
      }
      Room(s, str, i, separator, dirStart, dirEnd, lastDir, dirs);
    }
    SeenAll(s, ':', separator);
    SeenAll(s, '[', dirStart);
    SeenAll(s, ']', dirEnd);
    if separator.None? {
      return Plain(str, 1), false;
    }
    if dirStart.Some? && dirEnd.None? {
      return Plain(str, 1), false;
    }
    CollectedAll(s, str, dirStart, dirEnd, lastDir, dirs);
    var filename := NULL_VIEW;
    if dirEnd.Some? {
      if dirEnd.value + 1 < |s| {
        filename := Sub(str, Span(dirEnd.value + 1, |s| - dirEnd.value - 1));
      }
    } else if separator.value + 1 < |s| {
      filename := Sub(str, Span(separator.value + 1, |s| - separator.value - 1));
    }
    res := Components.Path(device, dirs, filename, 1);
  }

  lemma NoRoom(s: string, v: View, i: nat, colon: Option<nat>, open: Option<nat>, close: Option<nat>, lastDir: nat,
               dirs: seq<View>)
    requires Seen(s, i + 1, ':', colon) && Seen(s, i + 1, '[', open) && Seen(s, i + 1, ']', close)
    requires Collected(s, v, i + 1, open, close, lastDir, dirs) && |dirs| > MAX_DIR_DEPTH
    ensures TooDeep(s)
  {
    hide Stored;
    assert !Shallow(s, i + 1);
    if Shallow(s, |s|) {
      ShallowLess(s, i + 1, |s|);
    }
  }

  lemma Room(s: string, v: View, i: nat, colon: Option<nat>, open: Option<nat>, close: Option<nat>, lastDir: nat,
             dirs: seq<View>)
    requires Shallow(s, i)
    requires Seen(s, i + 1, ':', colon) && Seen(s, i + 1, '[', open) && Seen(s, i + 1, ']', close)
    requires Collected(s, v, i + 1, open, close, lastDir, dirs) && |dirs| <= MAX_DIR_DEPTH
    ensures Shallow(s, i + 1)
  {
    hide Shallow, Seen, Stored;
    ShallowNext(s, i, colon, open, close);
  }

  lemma CollectNone(s: string, v: View, lastDir: nat)
    ensures Collected(s, v, 0, None, None, lastDir, [])
  {
  }

  lemma CollectedAll(s: string, v: View, open: Option<nat>, close: Option<nat>, lastDir: nat, dirs: seq<View>)
    requires Collected(s, v, |s|, open, close, lastDir, dirs) && (open.Some? ==> close.Some?)
    ensures var o, c := if open.Some? then open.value else |s|, if close.Some? then close.value else |s|;
      dirs == PartViews(v, if c == |s| then [] else Directories(s, o, c))
  {
  }

  /** What each kind of character does to the directories collected. */
  lemma CollectNext(s: string, v: View, i: nat, open: Option<nat>, close: Option<nat>, lastDir: nat, dirs: seq<View>)
    requires Collected(s, v, i, open, close, lastDir, dirs) && i < |s|
    ensures open.None? && close.None? && s[i] == '[' ==> Collected(s, v, i + 1, Some(i), close, i + 1, dirs)
    ensures open.None? && close.Some? ==> Collected(s, v, i + 1, Some(i), close, i + 1, dirs)
    ensures close.None? && s[i] == ']' ==>
              Collected(s, v, i + 1, open, Some(i), lastDir,
                        dirs + [if open.Some? then Sub(v, Span(lastDir, i - lastDir)) else NULL_VIEW])
    ensures open.Some? && close.None? && s[i] == '.' ==>
              Collected(s, v, i + 1, open, close, i + 1, dirs + [Sub(v, Span(lastDir, i - lastDir))])
    ensures s[i] != '.' || open.None? || close.Some? ==> Collected(s, v, i + 1, open, close, lastDir, dirs)
  {
  }

  // ---- Serializing ----

  function Texts(n: Names, views: seq<View>): (r: seq<string>)
    ensures |r| == |views|
  {
    seq(|views|, i requires 0 <= i < |views| => n.Text(views[i]))
  }

  /** The string that components stand for: none without a device. */
  function Printed(n: Names, c: Components): Option<string> {
    match c
    case Plain(text, _) => Some(n.Text(text))
    case Path(device, dirs, filename, _) =>
      if device.len == 0 then None else Some(Written(n.Text(device), Texts(n, dirs), n.Text(filename)))
  }

  ghost predicate HasAll(n: Names, c: Components) {
    match c
    case Plain(text, _) => n.Has(text)
    case Path(device, dirs, filename, _) =>
      n.Has(device) && n.Has(filename) && forall i | 0 <= i < |dirs| :: n.Has(dirs[i])
  }

  function TotalLength(parts: seq<string>): nat {
    if parts == [] then 0 else TotalLength(parts[..|parts| - 1]) + |parts[|parts| - 1]|
  }

  lemma {:induction false} JoinLength(parts: seq<string>)
    ensures |Join(parts)| == TotalLength(parts) + if |parts| > 1 then |parts| - 1 else 0
    decreases |parts|
  {
    if |parts| == 1 {
      assert parts[..0] == [];
    } else if |parts| > 1 {
      JoinLength(parts[..|parts| - 1]);
    }
  }

  lemma TotalNext(parts: seq<string>, i: nat)
    requires i < |parts|
    ensures TotalLength(parts[..i + 1]) == TotalLength(parts[..i]) + |parts[i]|
    ensures Join(parts[..i + 1]) == (if i == 0 then "" else Join(parts[..i]) + ".") + parts[i]
  {
    assert parts[..i + 1][..i] == parts[..i];
  }

  /** parsed_components_serialize. The length computed first is the length of what is written, so
      the buffer is filled exactly and ends in the null character. */
  method Serialize(n: Names, c: Components) returns (res: array?<char>)
    requires HasAll(n, c)
    ensures res == null <==> Printed(n, c).None?
    ensures res != null ==>
              var text := Printed(n, c).value;
              fresh(res) && res.Length == |text| + 1 && res[..|text|] == text && res[|text|] == '\0'
  {
    match c
    case Plain(text, _) => {
      var s := n.Text(text);
      res := new char[|s| + 1];
      CopyTo(res, 0, s);
      res[|s|] := '\0';
    }
    case Path(device, dirs, filename, _) => {
      if device.len == 0 {
        return null;
      }
      res := WriteComponents(n.Text(device), Texts(n, dirs), n.Text(filename));
    }
  }

  method WriteComponents(device: string, dirs: seq<string>, filename: string) returns (res: array<char>)
    requires device != ""
    ensures var text := Written(device, dirs, filename);
      fresh(res) && res.Length == |text| + 1 && res[..|text|] == text && res[|text|] == '\0'
  {
    hide Join, TotalLength, Written, Bracketed, Colon;
    var resultLen := LengthOf(device, dirs, filename);
    WrittenLength(device, dirs, filename);
    res := new char[resultLen + 1];
    res[resultLen] := '\0';
    var offset := 0;
    CopyTo(res, offset, device);
    offset := offset + |device|;
    ghost var name := res[..offset];
    if device[|device| - 1] != ':' {
      Put(res, offset, ':');
      offset := offset + 1;
    }
    ghost var front := res[..offset];
    if dirs != [] {
      offset := WriteDirectories(res, offset, dirs);
    }
    ghost var middle := res[..offset];
    if |filename| > 0 {
      CopyTo(res, offset, filename);
      offset := offset + |filename|;
    }
    WrittenParts(device, dirs, filename, name, front, middle, res[..offset]);
  }

  lemma WrittenLength(device: string, dirs: seq<string>, filename: string)
    requires device != ""
    ensures |Written(device, dirs, filename)| ==
            |device| + (if device[|device| - 1] != ':' then 1 else 0)
            + (if dirs == [] then 0 else |Join(dirs)| + 2) + |filename|
  {
  }

  lemma WrittenParts(device: string, dirs: seq<string>, filename: string, name: string, front: string, middle: string,
                     text: string)
    requires device != "" && name == [] + device
    requires front == if device[|device| - 1] != ':' then name + [':'] else name
    requires middle == if dirs != [] then front + "[" + Join(dirs) + "]" else front
    requires text == if |filename| > 0 then middle + filename else middle
    ensures text == Written(device, dirs, filename)
  {
    hide Join, Bracketed, Colon;
    ColonPart(device, name, front);
    BracketPart(front, dirs, middle);
    assert text == middle + filename;
  }

  lemma ColonPart(device: string, name: string, front: string)
    requires device != "" && name == [] + device
    requires front == if device[|device| - 1] != ':' then name + [':'] else name
    ensures front == device + Colon(device)
  {
  }

  lemma BracketPart(front: string, dirs: seq<string>, middle: string)
    requires middle == if dirs != [] then front + "[" + Join(dirs) + "]" else front
    ensures middle == front + Bracketed(dirs)
  {
    hide Join;
  }

  /** The length parsed_components_serialize allocates for. */
  method LengthOf(device: string, dirs: seq<string>, filename: string) returns (resultLen: nat)
    requires device != ""
    ensures resultLen == |Written(device, dirs, filename)|
  {
    resultLen := |device|;
    if device[|device| - 1] != ':' {
      resultLen := resultLen + 1;
    }
    resultLen := resultLen + |filename|;
    ghost var rest := resultLen;
    for i := 0 to |dirs|
      invariant resultLen == rest + TotalLength(dirs[..i])
    {
      TotalNext(dirs, i);
      resultLen := resultLen + |dirs[i]|;
    }
    assert dirs[..|dirs|] == dirs;
    JoinLength(dirs);
    if |dirs| > 0 {
      resultLen := resultLen + 2;
    }
    if |dirs| > 1 {
      resultLen := resultLen + (|dirs| - 1);
    }
  }

  method WriteDirectories(res: array<char>, at: nat, dirs: seq<string>) returns (offset: nat)
    requires dirs != [] && at + |Join(dirs)| + 2 < res.Length
    modifies res
    ensures offset == at + |Join(dirs)| + 2
    ensures res[..offset] == old(res[..at]) + "[" + Join(dirs) + "]"
    ensures res[res.Length - 1] == old(res[res.Length - 1])
  {
    hide Join, TotalLength;
    Put(res, at, '[');
    offset := at + 1;
    ghost var front := res[..offset];
    JoinNone(dirs);
    for i := 0 to |dirs|
      invariant offset == at + 1 + |Join(dirs[..i])| <= at + 1 + |Join(dirs)|
      invariant res[..offset] == front + Join(dirs[..i])
      invariant res[res.Length - 1] == old(res[res.Length - 1])
    {
      TotalNext(dirs, i);
      JoinGrows(dirs, i + 1);
      if i > 0 {
        Put(res, offset, '.');
        offset := offset + 1;
      }
      CopyTo(res, offset, dirs[i]);
      offset := offset + |dirs[i]|;
    }
    assert dirs[..|dirs|] == dirs;
    Put(res, offset, ']');
    offset := offset + 1;
  }

  lemma JoinNone(dirs: seq<string>)
    ensures Join(dirs[..0]) == ""
  {
  }

  lemma {:induction false} JoinGrows(dirs: seq<string>, i: nat)
    requires i <= |dirs|
    ensures |Join(dirs[..i])| <= |Join(dirs)|
    decreases |dirs|
  {
    if i == |dirs| {
      assert dirs[..i] == dirs;
    } else {
      var m := |dirs| - 1;
      JoinGrows(dirs[..m], i);
      assert dirs[..m][..i] == dirs[..i];
    }
  }

  // ---- Parser and printer agree ----

  lemma SliceOfSlice(s: string, lo: nat, hi: nat, a: nat, b: nat)
    requires lo <= hi <= |s| && a <= b <= hi - lo
    ensures s[lo..hi][a..b] == s[lo + a..lo + b]
  {
    assert forall i | 0 <= i < b - a :: s[lo..hi][a..b][i] == s[lo + a..lo + b][i];
  }

  lemma SubText(n: Names, v: View, p: Span)
    requires n.Valid() && n.Has(v) && v.len > 0 && p.start + p.len <= v.len
    ensures n.Text(Sub(v, p)) == n.Text(Part(v, p)) == Cut(n.Text(v), p)
    ensures n.Has(Sub(v, p)) && n.Has(Part(v, p))
  {
    var whole, lo := n.texts[v.text], v.offset + p.start;
    SliceOfSlice(whole, v.offset, v.offset + v.len, p.start, p.start + p.len);
    assert n.Text(Sub(v, p)) == Cut(n.Text(v), p);
    if p == ABSENT {
      assert Cut(n.Text(v), p) == "" == n.Text(NULL_VIEW);
    }
  }

  lemma PartTexts(n: Names, v: View, spans: seq<Span>)
    requires n.Valid() && n.Has(v) && v.len > 0 && forall i | 0 <= i < |spans| :: spans[i].start + spans[i].len <= v.len
    ensures Texts(n, PartViews(v, spans)) == Cuts(n.Text(v), spans)
    ensures forall i | 0 <= i < |spans| :: n.Has(PartViews(v, spans)[i])
  {
    hide Names.Text, Cut, Part;
    forall i | 0 <= i < |spans|
      ensures n.Text(Part(v, spans[i])) == Cut(n.Text(v), spans[i]) && n.Has(Part(v, spans[i]))
    {
      SubText(n, v, spans[i]);
    }
  }

  /** The texts of the parts of a path. */
  lemma ParsedTexts(n: Names, v: View)
    requires n.Valid() && n.Has(v) && v.len > 0 && PartsOf(n.Text(v)).Parts?
    ensures var s, c := n.Text(v), Parsed(n, v);
      var p := PartsOf(s);
      && c.Path? && HasAll(n, c) && c.device == Sub(v, p.device) && |c.dirs| == |p.dirs|
      && n.Text(c.device) == Cut(s, p.device) && Texts(n, c.dirs) == Cuts(s, p.dirs)
          && n.Text(c.filename) == Cut(s, p.filename)
  {
    hide PartsOf, Cuts, Cut, PartViews, Texts, Names.Valid;
    var p := PartsOf(n.Text(v));
    PartsInString(n.Text(v));
    SubText(n, v, p.device);
    SubText(n, v, p.filename);
    PartTexts(n, v, p.dirs);
  }

  /** Serializing what was parsed gives the string back exactly when it does not parse, or has a
      device and its directory, if any, opens right after the colon. */
  lemma SerializeInvertsParse(n: Names, v: View)
    requires n.Valid() && n.Has(v) && v.len > 0 && !Stray(n.Text(v))
    ensures var s := n.Text(v);
      Printed(n, Parsed(n, v)) == Some(s) <==>
      PartsOf(s).Unparsable? || (First(s, ':') > 0 && (First(s, '[') == |s| || First(s, '[') == First(s, ':') + 1))
  {
    hide Cuts, PartViews, Texts, Written, Stray;
    var s := n.Text(v);
    if PartsOf(s).Parts? {
      ParsedTexts(n, v);
      if First(s, ':') > 0 {
        ReprintExactly(s);
      }
    }
  }

  /** Parsing what was serialized gives parts with the same texts. */
  lemma ParseInvertsSerialize(n: Names, v: View, device: string, dirs: seq<string>, filename: string)
    requires n.Valid() && n.Has(v) && n.Text(v) == Written(device, dirs, filename)
    requires DeviceName(device) && DirNames(dirs) && Unseparated(filename)
    ensures var c := Parsed(n, v);
      && c.Path? && HasAll(n, c) && c.count == 1
      && n.Text(c.device) == device && Texts(n, c.dirs) == dirs && n.Text(c.filename) == filename
      && c.device == Sub(v, Span(0, |device|)) && (filename == "" ==> c.filename == NULL_VIEW)
  {
    hide Written, PartsOf, Cuts, Texts, PartViews;
    PartsOfWritten(device, dirs, filename);
    ParsedTexts(n, v);
  }
}
