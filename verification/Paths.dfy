/** Paths of the form DEVICE:[DIR.SUBDIR]FILENAME.EXT: their grammar, the parser, the printer to
    a unix path, and the functions that take paths apart and put them together. */
module Paths {
  import opened Options

  /** A parsed path; a part that is missing is empty. */
  datatype Path = Path(device: string, directory: string, filename: string)

  datatype ParseError = EmptyPath | InvalidDeviceChar | NoDevice | EmptyDevice | InvalidDirChar
                      | UnclosedDirectory | InvalidFileChar

  datatype Parse = Ok(path: Path) | Err(error: ParseError)

  predicate DeviceChar(c: char) {
    'A' <= c <= 'Z' || 'a' <= c <= 'z' || '0' <= c <= '9' || c == '_' || c == '-' || c == '$'
  }

  predicate PathChar(c: char) {
    DeviceChar(c) || c == '.'
  }

  predicate DeviceChars(s: string) {
    forall i | 0 <= i < |s| :: DeviceChar(s[i])
  }

  predicate PathChars(s: string) {
    forall i | 0 <= i < |s| :: PathChar(s[i])
  }

  // ---- The grammar ----

  ghost predicate WellFormed(p: Path) {
    p.device != "" && DeviceChars(p.device) && PathChars(p.directory) && PathChars(p.filename)
  }

  function Brackets(directory: string): string {
    if directory == "" then "" else "[" + directory + "]"
  }

  function Print(p: Path): string {
    p.device + ":" + Brackets(p.directory) + p.filename
  }

  /** s is a way to write p: as printed, or with a pair of empty brackets. */
  ghost predicate Shows(s: string, p: Path) {
    s == Print(p) || (p.directory == "" && s == p.device + ":[]" + p.filename)
  }

  ghost predicate IsPath(s: string, p: Path) {
    WellFormed(p) && Shows(s, p)
  }

  /** What the grammar makes of a string. */
  ghost function Reading(s: string): (r: Option<Path>)
    ensures r.Some? ==> IsPath(s, r.value)
    ensures r.None? ==> forall p :: !IsPath(s, p)
  {
    if p :| IsPath(s, p) then Some(p) else None
  }

  /** The character after the device is its colon, and after that a bracket or the file name. */
  lemma Layout(s: string, p: Path)
    requires IsPath(s, p)
    ensures |p.device| < |s| && s[..|p.device|] == p.device && s[|p.device|] == ':'
    ensures var rest := s[|p.device| + 1..];
      (rest == p.filename && p.directory == "") || rest == "[" + p.directory + "]" + p.filename
  {
    var d := |p.device|;
    assert s[..d] == p.device;
    if s == Print(p) {
      assert s == p.device + ":" + (Brackets(p.directory) + p.filename);
      assert s[d + 1..] == Brackets(p.directory) + p.filename;
    } else {
      assert s == p.device + ":" + ("[]" + p.filename);
      assert s[d + 1..] == "[]" + p.filename;
      assert "[" + p.directory + "]" + p.filename == "[]" + p.filename;
    }
  }

  /** A string reads as at most one path. */
  lemma ReadingUnique(s: string, p: Path, q: Path)
    requires IsPath(s, p) && IsPath(s, q)
    ensures p == q
  {
    Layout(s, p);
    Layout(s, q);
    SameRun(s, p.device, q.device);
    var rest := s[|p.device| + 1..];
    if rest != "" && rest[0] == '[' {
      BracketsRead(rest, p);
      BracketsRead(rest, q);
      SameDirectory(rest[1..], p.directory, q.directory);
    } else {
      assert p.directory == "" && q.directory == "" && rest == p.filename == q.filename;
    }
  }

  lemma SameAt(s: string, lo: int, part: string, i: int)
    requires 0 <= lo && lo + |part| <= |s| && s[lo..lo + |part|] == part && 0 <= i < |part|
    ensures part[i] == s[lo + i]
  {
  }

  /** Two runs of device characters that both end before a colon. */
  lemma SameRun(s: string, a: string, b: string)
    requires DeviceChars(a) && DeviceChars(b)
    requires |a| < |s| && s[..|a|] == a && s[|a|] == ':'
    requires |b| < |s| && s[..|b|] == b && s[|b|] == ':'
    ensures a == b
  {
    if |a| < |b| {
      SameAt(s, 0, b, |a|);
    } else if |b| < |a| {
      SameAt(s, 0, a, |b|);
    }
  }

  lemma BracketsRead(rest: string, p: Path)
    requires rest != "" && rest[0] == '[' && PathChars(p.filename)
    requires (rest == p.filename && p.directory == "") || rest == "[" + p.directory + "]" + p.filename
    ensures rest == "[" + p.directory + "]" + p.filename
    ensures var d := |p.directory|;
      d < |rest[1..]| && rest[1..][..d] == p.directory && rest[1..][d] == ']' && rest[1..][d + 1..] == p.filename
  {
    if rest == p.filename {
      SameAt(rest, 0, p.filename, 0);
    }
    assert rest == ("[" + p.directory) + ("]" + p.filename);
    assert rest[1..] == p.directory + ("]" + p.filename);
  }

  lemma SameDirectory(s: string, a: string, b: string)
    requires PathChars(a) && PathChars(b)
    requires |a| < |s| && s[..|a|] == a && s[|a|] == ']'
    requires |b| < |s| && s[..|b|] == b && s[|b|] == ']'
    ensures a == b
  {
    if |a| < |b| {
      SameAt(s, 0, b, |a|);
    } else if |b| < |a| {
      SameAt(s, 0, a, |b|);
    }
  }

  lemma ReadingIs(s: string, p: Path)
    requires IsPath(s, p)
    ensures Reading(s) == Some(p)
  {
    ReadingUnique(s, p, Reading(s).value);
  }

  // ---- The parser ----

  /** Why a string is rejected; RejectedOnce shows that the cases exclude one another. */
  ghost predicate Rejected(s: string, e: ParseError) {
    match e
    case EmptyPath => s == ""
    case InvalidDeviceChar => exists i :: 0 <= i < |s| && DeviceChars(s[..i]) && !DeviceChar(s[i]) && s[i] != ':'
    case NoDevice => s != "" && DeviceChars(s)
    case EmptyDevice => s != "" && s[0] == ':'
    case InvalidDirChar =>
      exists i, j :: OpensAt(s, i) && i < j < |s| && PathChars(s[i + 1..j]) && !PathChar(s[j]) && s[j] != ']'
    case UnclosedDirectory => exists i :: OpensAt(s, i) && PathChars(s[i + 1..])
    case InvalidFileChar => exists i, j :: FileAt(s, i) && i <= j < |s| && PathChars(s[i..j]) && !PathChar(s[j])
  }

  /** A device and its colon end at i. */
  ghost predicate ColonAt(s: string, i: int) {
    0 < i < |s| && DeviceChars(s[..i]) && s[i] == ':'
  }

  /** A directory opens at i. */
  ghost predicate OpensAt(s: string, i: int) {
    1 < i < |s| && ColonAt(s, i - 1) && s[i] == '['
  }

  /** A directory bracketed at k closes before i. */
  ghost predicate ClosedAt(s: string, k: int, i: int) {
    OpensAt(s, k) && k + 1 < i <= |s| && PathChars(s[k + 1..i - 1]) && s[i - 1] == ']'
  }

  /** A file name starts at i. */
  ghost predicate FileAt(s: string, i: int) {
    0 < i < |s| && ((ColonAt(s, i - 1) && s[i] != '[') || exists k :: ClosedAt(s, k, i))
  }

  /** A rejected string has no reading. */
  lemma Unreadable(s: string, e: ParseError)
    requires Rejected(s, e)
    ensures Reading(s) == None
  {
    hide ColonAt, OpensAt, FileAt, ClosedAt, DeviceChars, PathChars;
    if p :| IsPath(s, p) {
      match e
      case EmptyPath => Layout(s, p);
      case InvalidDeviceChar => BadDeviceChar(s, p);
      case NoDevice => AllDevice(s, p);
      case EmptyDevice => NothingBeforeColon(s, p);
      case InvalidDirChar => BadDirChar(s, p);
      case UnclosedDirectory => NeverClosed(s, p);
      case InvalidFileChar => BadFileChar(s, p);
    }
  }

  lemma BadDeviceChar(s: string, p: Path)
    requires Rejected(s, InvalidDeviceChar)
    ensures !IsPath(s, p)
  {
    if IsPath(s, p) {
      Layout(s, p);
      var i :| 0 <= i < |s| && DeviceChars(s[..i]) && !DeviceChar(s[i]) && s[i] != ':';
      var run := s[..i];
      if i < |p.device| {
        SameAt(s, 0, p.device, i);
      } else if i > |p.device| {
        SameAt(s, 0, run, |p.device|);
      }
    }
  }

  lemma AllDevice(s: string, p: Path)
    requires Rejected(s, NoDevice)
    ensures !IsPath(s, p)
  {
    if IsPath(s, p) {
      Layout(s, p);
    }
  }

  lemma NothingBeforeColon(s: string, p: Path)
    requires Rejected(s, EmptyDevice)
    ensures !IsPath(s, p)
  {
    if IsPath(s, p) {
      Layout(s, p);
      SameAt(s, 0, p.device, 0);
    }
  }

  lemma BadDirChar(s: string, p: Path)
    requires Rejected(s, InvalidDirChar)
    ensures !IsPath(s, p)
  {
    if IsPath(s, p) {
      var i, j :| OpensAt(s, i) && i < j < |s| && PathChars(s[i + 1..j]) && !PathChar(s[j]) && s[j] != ']';
      var run := s[i + 1..j];
      DirectoryText(s, p, i);
      var n := |p.directory|;
      if j - i - 1 < n {
        SameAt(s, i + 1, p.directory, j - i - 1);
      } else if j - i - 1 > n {
        SameAt(s, i + 1, run, n);
      }
    }
  }

  lemma NeverClosed(s: string, p: Path)
    requires Rejected(s, UnclosedDirectory)
    ensures !IsPath(s, p)
  {
    if IsPath(s, p) {
      var i :| OpensAt(s, i) && PathChars(s[i + 1..]);
      var run := s[i + 1..];
      DirectoryText(s, p, i);
      SameAt(s, i + 1, run, |p.directory|);
    }
  }

  lemma BadFileChar(s: string, p: Path)
    requires Rejected(s, InvalidFileChar)
    ensures !IsPath(s, p)
  {
    if IsPath(s, p) {
      var i, j :| FileAt(s, i) && i <= j < |s| && PathChars(s[i..j]) && !PathChar(s[j]);
      FileText(s, p, i);
      SameAt(s, i, p.filename, j - i);
    }
  }

  /** A string is rejected for one reason only. */
  lemma RejectedOnce(s: string, e: ParseError, f: ParseError)
    requires Rejected(s, e) && Rejected(s, f)
    ensures e == f
  {
    hide ColonAt, OpensAt, FileAt, ClosedAt;
    if Late(e) && Late(f) {
      LateOnce(s, e, f);
    } else if Late(e) {
      var i := LateColon(s, e);
      EarlyNotColon(s, f, i);
    } else if Late(f) {
      var i := LateColon(s, f);
      EarlyNotColon(s, e, i);
    } else {
      EarlyOnce(s, e, f);
    }
  }

  /** Reasons that lie after the device. */
  predicate Late(e: ParseError) {
    e in {InvalidDirChar, UnclosedDirectory, InvalidFileChar}
  }

  /** A run of device characters ends in one place. */
  lemma SameEnd(s: string, i: nat, j: nat)
    requires i < |s| && DeviceChars(s[..i]) && !DeviceChar(s[i])
    requires j < |s| && DeviceChars(s[..j]) && !DeviceChar(s[j])
    ensures i == j
  {
    var a, b := s[..i], s[..j];
    if i < j {
      SameAt(s, 0, b, i);
    } else if j < i {
      SameAt(s, 0, a, j);
    }
  }

  lemma LateColon(s: string, e: ParseError) returns (i: nat)
    requires Rejected(s, e) && Late(e)
    ensures ColonAt(s, i)
  {
    match e
    case InvalidDirChar => {
      var o, j :| OpensAt(s, o) && o < j < |s| && PathChars(s[o + 1..j]) && !PathChar(s[j]) && s[j] != ']';
      i := o - 1;
    }
    case UnclosedDirectory => {
      var o :| OpensAt(s, o) && PathChars(s[o + 1..]);
      i := o - 1;
    }
    case InvalidFileChar => {
      var o, j :| FileAt(s, o) && o <= j < |s| && PathChars(s[o..j]) && !PathChar(s[j]);
      if ColonAt(s, o - 1) {
        i := o - 1;
      } else {
        var k :| ClosedAt(s, k, o);
        i := k - 1;
      }
    }
  }

  lemma EarlyNotColon(s: string, e: ParseError, i: nat)
    requires Rejected(s, e) && !Late(e)
    ensures !ColonAt(s, i)
  {
    if ColonAt(s, i) {
      match e
      case EmptyPath =>
      case InvalidDeviceChar => {
        var j :| 0 <= j < |s| && DeviceChars(s[..j]) && !DeviceChar(s[j]) && s[j] != ':';
        SameEnd(s, i, j);
      }
      case NoDevice =>
      case EmptyDevice => SameEnd(s, i, 0);
    }
  }

  lemma EarlyOnce(s: string, e: ParseError, f: ParseError)
    requires Rejected(s, e) && Rejected(s, f) && !Late(e) && !Late(f)
    ensures e == f
  {
    if e.InvalidDeviceChar? || f.InvalidDeviceChar? {
      var j :| 0 <= j < |s| && DeviceChars(s[..j]) && !DeviceChar(s[j]) && s[j] != ':';
      if e.EmptyDevice? || f.EmptyDevice? {
        SameEnd(s, j, 0);
      }
    }
  }

  lemma LateOnce(s: string, e: ParseError, f: ParseError)
    requires Rejected(s, e) && Rejected(s, f) && Late(e) && Late(f)
    ensures e == f
  {
    hide ColonAt, OpensAt, FileAt, ClosedAt;
    if e != f {
      if e.InvalidFileChar? {
        DirNotFile(s, f);
      } else if f.InvalidFileChar? {
        DirNotFile(s, e);
      } else {
        BadNotUnclosed(s);
      }
    }
  }

  lemma SameOpen(s: string, i: int, k: int)
    requires OpensAt(s, i) && OpensAt(s, k)
    ensures i == k
  {
    SameEnd(s, i - 1, k - 1);
  }

  lemma BadNotUnclosed(s: string)
    requires Rejected(s, InvalidDirChar)
    ensures !Rejected(s, UnclosedDirectory)
  {
    var i, j :| OpensAt(s, i) && i < j < |s| && PathChars(s[i + 1..j]) && !PathChar(s[j]) && s[j] != ']';
    if k :| OpensAt(s, k) && PathChars(s[k + 1..]) {
      var rest := s[k + 1..];
      SameOpen(s, i, k);
      SameAt(s, k + 1, rest, j - k - 1);
    }
  }

  /** Where a directory is wrong there is no file name yet. */
  lemma DirNotFile(s: string, e: ParseError)
    requires Rejected(s, e) && e in {InvalidDirChar, UnclosedDirectory}
    ensures !Rejected(s, InvalidFileChar)
  {
    if o, b :| FileAt(s, o) && o <= b < |s| && PathChars(s[o..b]) && !PathChar(s[b]) {
      var i := OpenOf(s, e);
      if ColonAt(s, o - 1) && s[o] != '[' {
        SameEnd(s, o - 1, i - 1);
      } else {
        var k :| ClosedAt(s, k, o);
        ClosesFirst(s, e, k, o);
      }
    }
  }

  lemma OpenOf(s: string, e: ParseError) returns (i: int)
    requires Rejected(s, e) && e in {InvalidDirChar, UnclosedDirectory}
    ensures OpensAt(s, i)
  {
    if e.InvalidDirChar? {
      var o, j :| OpensAt(s, o) && o < j < |s| && PathChars(s[o + 1..j]) && !PathChar(s[j]) && s[j] != ']';
      i := o;
    } else {
      var o :| OpensAt(s, o) && PathChars(s[o + 1..]);
      i := o;
    }
  }

  lemma ClosesFirst(s: string, e: ParseError, k: int, o: int)
    requires Rejected(s, e) && e in {InvalidDirChar, UnclosedDirectory}
    ensures !ClosedAt(s, k, o)
  {
    hide ColonAt, ClosedAt, PathChars;
    if e.InvalidDirChar? {
      var i, j :| OpensAt(s, i) && i < j < |s| && PathChars(s[i + 1..j]) && !PathChar(s[j]) && s[j] != ']';
      ClosesBeforeBad(s, i, j, k, o);
    } else {
      var i :| OpensAt(s, i) && PathChars(s[i + 1..]);
      ClosesBeforeEnd(s, i, k, o);
    }
  }

  lemma ClosesBeforeBad(s: string, i: int, j: int, k: int, o: int)
    requires OpensAt(s, i) && i < j < |s| && PathChars(s[i + 1..j]) && !PathChar(s[j]) && s[j] != ']'
    ensures !ClosedAt(s, k, o)
  {
    hide ColonAt;
    if ClosedAt(s, k, o) {
      var inside, run := s[k + 1..o - 1], s[i + 1..j];
      SameOpen(s, i, k);
      if j < o - 1 {
        SameAt(s, k + 1, inside, j - k - 1);
      } else if o - 1 < j {
        SameAt(s, k + 1, run, o - 1 - k - 1);
      }
    }
  }

  lemma ClosesBeforeEnd(s: string, i: int, k: int, o: int)
    requires OpensAt(s, i) && PathChars(s[i + 1..])
    ensures !ClosedAt(s, k, o)
  {
    hide ColonAt;
    if ClosedAt(s, k, o) {
      var run := s[i + 1..];
      SameOpen(s, i, k);
      SameAt(s, k + 1, run, o - 1 - k - 1);
    }
  }

  lemma ColonIs(s: string, p: Path, i: int)
    requires IsPath(s, p) && ColonAt(s, i)
    ensures i == |p.device|
  {
    Layout(s, p);
    SameRun(s, p.device, s[..i]);
  }

  /** Where a directory opens, the directory follows, its bracket and the file name. */
  lemma DirectoryText(s: string, p: Path, i: int)
    requires IsPath(s, p) && OpensAt(s, i)
    ensures i == |p.device| + 1
    ensures var close := i + 1 + |p.directory|;
      close < |s| && s[i + 1..close] == p.directory && s[close] == ']' && s[close + 1..] == p.filename
  {
    Layout(s, p);
    ColonIs(s, p, i - 1);
    var rest := s[i..];
    BracketsRead(rest, p);
    assert s[i + 1..] == rest[1..];
    assert s[i + 1..i + 1 + |p.directory|] == rest[1..][..|p.directory|];
  }

  lemma FileText(s: string, p: Path, i: int)
    requires IsPath(s, p) && FileAt(s, i)
    ensures s[i..] == p.filename
  {
    hide DeviceChars, PathChars;
    if ColonAt(s, i - 1) && s[i] != '[' {
      Layout(s, p);
      ColonIs(s, p, i - 1);
      assert s[i..] == p.filename;
    } else {
      var k :| ClosedAt(s, k, i);
      FileAfterDirectory(s, p, k, i);
    }
  }

  lemma FileAfterDirectory(s: string, p: Path, k: int, i: int)
    requires IsPath(s, p) && ClosedAt(s, k, i)
    ensures s[i..] == p.filename
  {
    hide PathChars, OpensAt, Print;
    DirectoryText(s, p, k);
    Front(s, k + 1, k + 1 + |p.directory|);
    Front(s, k + 1, i - 1);
    SameDirectory(s[k + 1..], p.directory, s[k + 1..i - 1]);
  }

  /** A stretch of a string, as the front of what starts there. */
  lemma Front(s: string, lo: int, hi: int)
    requires 0 <= lo <= hi < |s|
    ensures s[lo..][..hi - lo] == s[lo..hi] && s[lo..][hi - lo] == s[hi]
  {
  }

  lemma OneMore(s: string, first: int, p: int)
    requires 0 <= first <= p < |s|
    ensures PathChars(s[first..p]) && PathChar(s[p]) ==> PathChars(s[first..p + 1])
    ensures DeviceChars(s[first..p]) && DeviceChar(s[p]) ==> DeviceChars(s[first..p + 1])
  {
    assert s[first..p + 1] == s[first..p] + [s[p]];
  }

  lemma NoChars(s: string, i: int)
    requires 0 <= i <= |s|
    ensures PathChars(s[i..i]) && DeviceChars(s[i..i]) && DeviceChars(s[..0]) && PathChars("")
  {
  }

  lemma RejectsDeviceChar(s: string, i: int)
    requires 0 <= i < |s| && DeviceChars(s[..i]) && !DeviceChar(s[i]) && s[i] != ':'
    ensures Rejected(s, InvalidDeviceChar) && Reading(s) == None
  {
    Unreadable(s, InvalidDeviceChar);
  }

  lemma RejectsDirChar(s: string, i: int, j: int)
    requires OpensAt(s, i) && i < j < |s| && PathChars(s[i + 1..j]) && !PathChar(s[j]) && s[j] != ']'
    ensures Rejected(s, InvalidDirChar) && Reading(s) == None
  {
    Unreadable(s, InvalidDirChar);
  }

  lemma RejectsUnclosed(s: string, i: int)
    requires OpensAt(s, i) && PathChars(s[i + 1..])
    ensures Rejected(s, UnclosedDirectory) && Reading(s) == None
  {
    Unreadable(s, UnclosedDirectory);
  }

  lemma RejectsFileChar(s: string, i: int, j: int)
    requires FileAt(s, i) && i <= j < |s| && PathChars(s[i..j]) && !PathChar(s[j])
    ensures Rejected(s, InvalidFileChar) && Reading(s) == None
  {
    Unreadable(s, InvalidFileChar);
  }

  lemma RejectsEarly(s: string)
    ensures s == "" ==> Rejected(s, EmptyPath) && Reading(s) == None
    ensures s != "" && DeviceChars(s) ==> Rejected(s, NoDevice) && Reading(s) == None
    ensures s != "" && s[0] == ':' ==> Rejected(s, EmptyDevice) && Reading(s) == None
  {
    if s == "" {
      Unreadable(s, EmptyPath);
    } else if DeviceChars(s) {
      Unreadable(s, NoDevice);
    } else if s[0] == ':' {
      Unreadable(s, EmptyDevice);
    }
  }

  /** parse_path. */
  method ParsePath(path: string) returns (r: Parse)
    ensures r.Ok? ==> Reading(path) == Some(r.path)
    ensures r.Err? ==> Reading(path) == None && Rejected(path, r.error)
  {
    hide DeviceChar, PathChar, Reading, IsPath, Shows, Rejected, ClosedAt, FileAt, DeviceChars, PathChars;
    RejectsEarly(path);
    NoChars(path, 0);
    if |path| == 0 {
      return Err(EmptyPath);
    }
    var p := 0;
    while p < |path| && path[p] != ':'
      invariant 0 <= p <= |path| && DeviceChars(path[..p])
    {
      if !DeviceChar(path[p]) {
        RejectsDeviceChar(path, p);
        return Err(InvalidDeviceChar);
      }
      OneMore(path, 0, p);
      p := p + 1;
    }
    assert path[..|path|] == path;
    if p == |path| {
      return Err(NoDevice);
    }
    if p == 0 {
      return Err(EmptyDevice);
    }
    ghost var colon, bracketed := p, false;
    var device, directory, filename := path[..p], "", "";
    p := p + 1;
    if p < |path| && path[p] == '[' {
      bracketed := true;
      p := p + 1;
      var start := p;
      NoChars(path, start);
      while p < |path| && path[p] != ']'
        invariant start <= p <= |path| && PathChars(path[start..p])
      {
        if !PathChar(path[p]) {
          RejectsDirChar(path, colon + 1, p);
          return Err(InvalidDirChar);
        }
        OneMore(path, start, p);
        p := p + 1;
      }
      if p == |path| {
        assert path[start..] == path[start..p];
        RejectsUnclosed(path, colon + 1);
        return Err(UnclosedDirectory);
      }
      directory := path[start..p];
      p := p + 1;
    }
    FileFollows(path, colon, bracketed, p);
    ghost var end := p;
    if p < |path| {
      var start := p;
      NoChars(path, start);
      while p < |path|
        invariant start <= p <= |path| && PathChars(path[start..p])
      {
        if !PathChar(path[p]) {
          RejectsFileChar(path, start, p);
          return Err(InvalidFileChar);
        }
        OneMore(path, start, p);
        p := p + 1;
      }
      filename := path[start..];
      assert filename == path[start..p];
    }
    r := Ok(Path(device, directory, filename));
    Assembled(path, r.path, end, bracketed);
  }

  lemma FileFollows(s: string, colon: int, bracketed: bool, p: int)
    requires ColonAt(s, colon)
    requires bracketed ==>
               OpensAt(s, colon + 1) && colon + 2 < p <= |s| && PathChars(s[colon + 2..p - 1]) && s[p - 1] == ']'
    requires !bracketed ==> p == colon + 1 && (p < |s| ==> s[p] != '[')
    ensures p < |s| ==> FileAt(s, p)
  {
    if bracketed {
      assert ClosedAt(s, colon + 1, p);
    }
  }

  /** The parts found make up the string. */
  lemma Assembled(s: string, p: Path, end: int, bracketed: bool)
    requires WellFormed(p)
    requires |p.device| < end <= |s| && p.device == s[..|p.device|] && s[|p.device|] == ':' && p.filename == s[end..]
    requires bracketed ==>
               && |p.device| + 2 < end && s[|p.device| + 1] == '['
               && p.directory == s[|p.device| + 2..end - 1] && s[end - 1] == ']'
    requires !bracketed ==> p.directory == "" && end == |p.device| + 1
    ensures Reading(s) == Some(p)
  {
    hide Reading, WellFormed;
    var d := |p.device|;
    var tail := "[" + p.directory + "]" + p.filename;
    assert s == p.device + ":" + s[d + 1..];
    if bracketed {
      assert s[d + 1..] == tail;
      if p.directory == "" {
        assert tail == "[]" + p.filename;
        assert p.device + ":" + tail == p.device + ":[]" + p.filename;
      } else {
        assert Brackets(p.directory) + p.filename == tail;
        assert Print(p) == p.device + ":" + (Brackets(p.directory) + p.filename);
      }
    }
    ReadingIs(s, p);
  }

  // ---- Unix paths ----

  function Slashes(s: string): (r: string)
    ensures |r| == |s|
  {
    seq(|s|, i requires 0 <= i < |s| => if s[i] == '.' then '/' else s[i])
  }

  function Unix(p: Path): string {
    "/" + p.device + "/" + (if p.directory == "" then "" else Slashes(p.directory) + "/") + p.filename
  }

  /** The C string at the start of a buffer, which ends before index end. */
  ghost predicate Holds(buffer: array<char>, end: int, s: string)
    reads buffer
  {
    0 <= end < buffer.Length && buffer[..end] == s && buffer[end] == '\0' && '\0' !in s
  }

  /** memcpy into a buffer. */
  method CopyTo(buffer: array<char>, at: nat, s: string)
    requires at + |s| <= buffer.Length
    modifies buffer
    ensures buffer[..at + |s|] == old(buffer[..at]) + s
    ensures forall k | at + |s| <= k < buffer.Length :: buffer[k] == old(buffer[k])
  {
    for i := 0 to |s|
      invariant buffer[..at] == old(buffer[..at])
      invariant forall k | at + i <= k < buffer.Length :: buffer[k] == old(buffer[k])
      invariant buffer[at..at + i] == s[..i]
    {
      buffer[at + i] := s[i];
    }
    assert buffer[..at + |s|] == buffer[..at] + buffer[at..at + |s|];
  }

  method Put(buffer: array<char>, at: nat, c: char)
    requires at < buffer.Length
    modifies buffer
    ensures buffer[..at + 1] == old(buffer[..at]) + [c]
    ensures forall k | at + 1 <= k < buffer.Length :: buffer[k] == old(buffer[k])
  {
    buffer[at] := c;
  }

  method Terminate(buffer: array<char>, at: nat)
    requires at < buffer.Length && '\0' !in buffer[..at]
    modifies buffer
    ensures Holds(buffer, at, old(buffer[..at]))
  {
    buffer[at] := '\0';
  }

  /** The directory of a unix path: every dot becomes a slash. */
  method CopySlashes(buffer: array<char>, at: nat, s: string)
    requires at + |s| <= buffer.Length
    modifies buffer
    ensures buffer[..at + |s|] == old(buffer[..at]) + Slashes(s)
  {
    for i := 0 to |s|
      invariant buffer[..at] == old(buffer[..at])
      invariant buffer[at..at + i] == Slashes(s)[..i]
    {
      var c := s[i];
      if c == '.' {
        c := '/';
      }
      buffer[at + i] := c;
    }
    assert buffer[..at + |s|] == buffer[..at] + buffer[at..at + |s|];
  }

  /** A parsed path (path_t): its parts, the length of the string it came from, and the unix path
      once it has been asked for. */
  class ParsedPath {
    const path: Path
    const len: nat
    var unixpath: array?<char>

    ghost predicate Valid()
      reads this, unixpath
    {
      && (exists s: string :: |s| == len && IsPath(s, path))
      && (unixpath != null ==> Holds(unixpath, |Unix(path)|, Unix(path)))
    }

    constructor (text: string, path: Path)
      requires Reading(text) == Some(path)
      ensures Valid() && this.path == path && len == |text| && unixpath == null
    {
      this.path := path;
      this.len := |text|;
      this.unixpath := null;
    }

    /** path_to_unix: the buffer of len + 3 characters is long enough for every path. */
    method PathToUnix() returns (r: array<char>)
      requires Valid()
      modifies this
      ensures Valid() && unixpath == r
      ensures Holds(r, |Unix(path)|, Unix(path))
      ensures if old(unixpath) != null then r == old(unixpath) else fresh(r) && r.Length == len + 3
    {
      if unixpath != null {
        return unixpath;
      }
      r := WriteUnix(path, len);
      unixpath := r;
    }
  }

  method WriteUnix(p: Path, len: nat) returns (buffer: array<char>)
    requires exists s: string :: |s| == len && IsPath(s, p)
    ensures fresh(buffer) && buffer.Length == len + 3 && Holds(buffer, |Unix(p)|, Unix(p))
  {
    hide IsPath, Slashes, Unix, Holds, WellFormed, Print;
    UnixFits(p, len);
    buffer := new char[len + 3];
    var o := WriteDevice(buffer, p.device);
    ghost var front := buffer[..o];
    if |p.directory| > 0 {
      CopySlashes(buffer, o, p.directory);
      o := o + |p.directory|;
      Put(buffer, o, '/');
      o := o + 1;
    }
    ghost var middle := buffer[..o];
    if |p.filename| > 0 {
      CopyTo(buffer, o, p.filename);
      o := o + |p.filename|;
    }
    UnixParts(p, front, middle, buffer[..o]);
    Terminate(buffer, o);
  }

  method WriteDevice(buffer: array<char>, device: string) returns (o: nat)
    requires |device| + 2 <= buffer.Length
    modifies buffer
    ensures o == |device| + 2 && buffer[..o] == "/" + device + "/"
  {
    o := 0;
    Put(buffer, o, '/');
    o := o + 1;
    CopyTo(buffer, o, device);
    o := o + |device|;
    Put(buffer, o, '/');
    o := o + 1;
  }

  lemma UnixParts(p: Path, front: string, middle: string, text: string)
    requires front == "/" + p.device + "/"
    requires middle == if |p.directory| > 0 then front + Slashes(p.directory) + ['/'] else front
    requires text == if |p.filename| > 0 then middle + p.filename else middle
    ensures text == Unix(p)
  {
  }

  lemma UnixFits(p: Path, len: nat)
    requires exists s: string :: |s| == len && IsPath(s, p)
    ensures |Unix(p)| == 2 + |p.device| + (if p.directory == "" then 0 else |p.directory| + 1) + |p.filename|
    ensures |Unix(p)| < len + 3 && '\0' !in Unix(p)
  {
    var s: string :| |s| == len && IsPath(s, p);
    assert forall i | 0 <= i < |p.device| :: p.device[i] != '\0';
    assert forall i | 0 <= i < |p.directory| :: Slashes(p.directory)[i] != '\0';
    assert forall i | 0 <= i < |p.filename| :: p.filename[i] != '\0';
  }

  /** Different paths have different unix paths. */
  lemma UnixInjective(p: Path, q: Path)
    requires WellFormed(p) && WellFormed(q) && Unix(p) == Unix(q)
    ensures p == q
  {
    hide Unix, Slashes, WellFormed;
    var u := Unix(p);
    UnixDevice(p);
    UnixDevice(q);
    NoSlash(p);
    NoSlash(q);
    SameUntilSlash(u, 1, p.device, q.device);
    var rest := u[|p.device| + 2..];
    UnixRest(p, rest);
    UnixRest(q, rest);
    SameAfterSlash(rest, p.filename, q.filename);
    SlashesInjective(p.directory, q.directory);
  }

  lemma NoSlash(p: Path)
    requires WellFormed(p)
    ensures PathChars(p.directory) && '/' !in p.device && '/' !in p.directory && '/' !in p.filename
  {
    assert forall i | 0 <= i < |p.device| :: DeviceChar(p.device[i]);
    assert forall i | 0 <= i < |p.filename| :: PathChar(p.filename[i]);
    assert forall i | 0 <= i < |p.directory| :: PathChar(p.directory[i]);
  }

  lemma SameUntilSlash(s: string, lo: nat, a: string, b: string)
    requires '/' !in a && '/' !in b
    requires lo + |a| < |s| && s[lo..lo + |a|] == a && s[lo + |a|] == '/'
    requires lo + |b| < |s| && s[lo..lo + |b|] == b && s[lo + |b|] == '/'
    ensures a == b
  {
    if |a| < |b| {
      SameAt(s, lo, b, |a|);
    } else if |b| < |a| {
      SameAt(s, lo, a, |b|);
    }
  }

  /** Two ends of a string without slashes, each the whole of it or after a slash. */
  lemma SameAfterSlash(s: string, a: string, b: string)
    requires '/' !in a && '/' !in b
    requires |a| <= |s| && s[|s| - |a|..] == a && (|a| < |s| ==> s[|s| - |a| - 1] == '/')
    requires |b| <= |s| && s[|s| - |b|..] == b && (|b| < |s| ==> s[|s| - |b| - 1] == '/')
    ensures a == b
  {
    if |a| < |b| {
      SameAt(s, |s| - |b|, b, |b| - |a| - 1);
    } else if |b| < |a| {
      SameAt(s, |s| - |a|, a, |a| - |b| - 1);
    }
  }

  lemma UnixDevice(p: Path)
    requires WellFormed(p)
    ensures var d := |p.device|; |Unix(p)| >= d + 2 && Unix(p)[1..d + 1] == p.device && Unix(p)[d + 1] == '/'
    ensures var rest := Unix(p)[|p.device| + 2..];
      rest == (if p.directory == "" then "" else Slashes(p.directory) + "/") + p.filename
  {
    var rest := (if p.directory == "" then "" else Slashes(p.directory) + "/") + p.filename;
    assert Unix(p) == "/" + p.device + "/" + rest;
  }

  /** After the device: the last slash ends the directory. */
  lemma UnixRest(p: Path, rest: string)
    requires rest == (if p.directory == "" then "" else Slashes(p.directory) + "/") + p.filename
    ensures |p.filename| <= |rest| && rest[|rest| - |p.filename|..] == p.filename
    ensures p.directory == "" ==> rest == p.filename
    ensures p.directory != "" ==> |p.filename| < |rest| && rest[|rest| - |p.filename| - 1] == '/'
                                  && rest[..|rest| - |p.filename| - 1] == Slashes(p.directory)
  {
  }

  lemma SlashesInjective(a: string, b: string)
    requires PathChars(a) && PathChars(b) && Slashes(a) == Slashes(b)
    ensures a == b
  {
    forall i | 0 <= i < |a|
      ensures a[i] == b[i]
    {
      assert Slashes(a)[i] == Slashes(b)[i];
      assert PathChar(a[i]) && PathChar(b[i]);
    }
  }

  // ---- The pieces of a unix path ----

  /** The stretches of s between the places of c. */
  function Split(s: string, c: char): (r: seq<string>)
    ensures r != []
  {
    if s == "" then [""]
    else
      var front, last := Split(s[..|s| - 1], c), s[|s| - 1];
      if last == c then front + [""] else front[|front| - 1 := front[|front| - 1] + [last]]
  }

  function JoinedBy(parts: seq<string>, c: char): string {
    if parts == [] then ""
    else if |parts| == 1 then parts[0]
    else JoinedBy(parts[..|parts| - 1], c) + [c] + parts[|parts| - 1]
  }

  /** The stretches hold no c, and with c between them they are the string. */
  lemma {:induction false} SplitExact(s: string, c: char)
    ensures forall part <- Split(s, c) :: c !in part
    ensures JoinedBy(Split(s, c), c) == s
  {
    if s != "" {
      var front, last := Split(s[..|s| - 1], c), s[|s| - 1];
      var n := |front| - 1;
      SplitExact(s[..|s| - 1], c);
      assert s == s[..|s| - 1] + [last];
      if last == c {
        assert (front + [""])[..n + 1] == front;
      } else {
        var longer := front[n := front[n] + [last]];
        assert longer[..n] == front[..n];
        assert c !in front[n];
      }
    }
  }

  lemma {:induction false} SplitWhole(s: string, c: char)
    requires c !in s
    ensures Split(s, c) == [s]
  {
    if s != "" {
      SplitWhole(s[..|s| - 1], c);
      assert s == s[..|s| - 1] + [s[|s| - 1]];
    }
  }

  lemma LengthenLast(x: seq<string>, y: seq<string>, last: char)
    requires y != []
    ensures var t := x + y;
      t[|t| - 1 := t[|t| - 1] + [last]] == x + y[|y| - 1 := y[|y| - 1] + [last]]
    ensures x + y + [""] == x + (y + [""])
  {
  }

  lemma {:induction false} SplitAt(s: string, i: nat, c: char)
    requires i < |s| && s[i] == c
    ensures Split(s, c) == Split(s[..i], c) + Split(s[i + 1..], c)
  {
    var n, t := |s| - 1, s[i + 1..];
    if i < n {
      assert s[..n][..i] == s[..i] && s[..n][i + 1..] == t[..|t| - 1] && t[|t| - 1] == s[n];
      SplitAt(s[..n], i, c);
      LengthenLast(Split(s[..i], c), Split(t[..|t| - 1], c), s[n]);
    }
  }

  lemma SplitAround(a: string, c: char, b: string)
    ensures Split(a + [c] + b, c) == Split(a, c) + Split(b, c)
  {
    var s := a + [c] + b;
    assert s[..|a|] == a && s[|a|] == c && s[|a| + 1..] == b;
    SplitAt(s, |a|, c);
  }

  /** Slashes separate what dots did. */
  lemma {:induction false} SplitSlashes(s: string)
    requires '/' !in s
    ensures Split(Slashes(s), '/') == Split(s, '.')
  {
    if s != "" {
      SplitSlashes(s[..|s| - 1]);
      assert Slashes(s)[..|s| - 1] == Slashes(s[..|s| - 1]);
    }
  }

  /** A unix path names, from the root, the device, each directory between the dots, and the file. */
  lemma UnixPieces(p: Path)
    requires WellFormed(p)
    ensures Split(Unix(p), '/') ==
            ["", p.device] + (if p.directory == "" then [] else Split(p.directory, '.')) + [p.filename]
  {
    hide Split, Slashes;
    NoSlash(p);
    SplitWhole("", '/');
    SplitWhole(p.device, '/');
    SplitWhole(p.filename, '/');
    var rest := (if p.directory == "" then "" else Slashes(p.directory) + "/") + p.filename;
    SplitAround(p.device, '/', rest);
    SplitAround("", '/', p.device + "/" + rest);
    assert Unix(p) == "" + "/" + (p.device + "/" + rest);
    if p.directory == "" {
      assert rest == p.filename;
    } else {
      SplitSlashes(p.directory);
      SplitAround(Slashes(p.directory), '/', p.filename);
    }
  }
}
