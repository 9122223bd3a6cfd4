/** Taking paths apart and putting them together. */
module PathFunctions {
  import opened Options
  import opened Paths

  /** Two directories one below the other; an empty one leaves the other as it is. */
  function Below(a: string, b: string): string {
    if a == "" then b else if b == "" then a else a + "." + b
  }

  lemma BelowAssociative(a: string, b: string, c: string)
    ensures Below(Below(a, b), c) == Below(a, Below(b, c))
  {
    assert a + "." + b + "." + c == a + "." + (b + "." + c);
  }

  lemma BelowChars(a: string, b: string)
    ensures PathChars(Below(a, b)) <==> PathChars(a) && PathChars(b)
  {
    if a != "" && b != "" {
      var s := a + "." + b;
      assert forall i | 0 <= i < |a| :: s[i] == a[i];
      assert forall i | 0 <= i < |b| :: s[|a| + 1 + i] == b[i];
    }
  }

  // ---- What can be appended ----

  /** A directory in brackets and a file name, or a file name alone. */
  ghost predicate IsTail(s: string, directory: string, filename: string) {
    && s != "" && PathChars(directory) && PathChars(filename)
    && (s == "[" + directory + "]" + filename || (directory == "" && s == filename))
  }

  lemma TailUnique(s: string, d: string, f: string, d': string, f': string)
    requires IsTail(s, d, f) && IsTail(s, d', f')
    ensures d == d' && f == f'
  {
    if s[0] == '[' {
      BracketsRead(s, Path("", d, f));
      BracketsRead(s, Path("", d', f'));
      SameDirectory(s[1..], d, d');
    }
  }

  datatype Tail = Tail(directory: string, filename: string)

  ghost function TailReading(s: string): (r: Option<Tail>)
    ensures r.Some? ==> IsTail(s, r.value.directory, r.value.filename)
    ensures r.None? ==> forall d, f :: !IsTail(s, d, f)
  {
    if d, f :| IsTail(s, d, f) then Some(Tail(d, f)) else None
  }

  lemma TailIs(s: string, d: string, f: string)
    requires IsTail(s, d, f)
    ensures TailReading(s) == Some(Tail(d, f))
  {
    var t := TailReading(s).value;
    TailUnique(s, d, f, t.directory, t.filename);
  }

  // ---- path_concat ----

  /** The base with the tail's directory below its own, and the tail's file name. */
  ghost function Joined(base: Path, tail: Tail): Path {
    Path(base.device, Below(base.directory, tail.directory), tail.filename)
  }

  ghost function Concat(base: string, append: string): Option<string> {
    var b, t := Reading(base), TailReading(append);
    if b.Some? && b.value.filename == "" && t.Some? then Some(Print(Joined(b.value, t.value))) else None
  }

  /** What path_concat returns parses again, to the joined parts. */
  lemma ConcatReads(base: string, append: string)
    requires Concat(base, append).Some?
    ensures Reading(Concat(base, append).value) == Some(Joined(Reading(base).value, TailReading(append).value))
  {
    var b, t := Reading(base).value, TailReading(append).value;
    BelowChars(b.directory, t.directory);
    ReadingIs(Print(Joined(b, t)), Joined(b, t));
  }

  /** Appending one directory and then a tail is appending the tail below that directory. */
  lemma ConcatAssociative(base: string, d: string, e: string, f: string)
    requires PathChars(d) && PathChars(e) && PathChars(f)
    ensures var first := Concat(base, "[" + d + "]");
      var whole := Concat(base, "[" + Below(d, e) + "]" + f);
      && (first.Some? <==> whole.Some?)
      && (first.Some? ==> Concat(first.value, "[" + e + "]" + f) == whole)
  {
    assert "[" + d + "]" == "[" + d + "]" + "";
    BelowChars(d, e);
    TailIs("[" + d + "]", d, "");
    TailIs("[" + e + "]" + f, e, f);
    TailIs("[" + Below(d, e) + "]" + f, Below(d, e), f);
    if Concat(base, "[" + d + "]").Some? {
      ConcatReads(base, "[" + d + "]");
      BelowAssociative(Reading(base).value.directory, d, e);
    }
  }

  /** The checks of path_concat that every character is one a path may have. */
  method AllPathChars(s: string) returns (ok: bool)
    ensures ok <==> PathChars(s)
  {
    for i := 0 to |s|
      invariant PathChars(s[..i])
    {
      if !PathChar(s[i]) {
        return false;
      }
    }
    assert s[..|s|] == s;
    return true;
  }

  /** strchr: the first place of c, or the length of s. */
  method Find(s: string, c: char) returns (i: nat)
    ensures i <= |s| && c !in s[..i] && (i < |s| ==> s[i] == c)
  {
    i := 0;
    while i < |s| && s[i] != c
      invariant i <= |s| && c !in s[..i]
    {
      i := i + 1;
    }
  }

  method ParseTail(append: string) returns (r: Option<Tail>)
    requires append != "" && ':' !in append
    ensures r == TailReading(append)
  {
    if append[0] == '[' {
      var rest := append[1..];
      var close := Find(rest, ']');
      if close == |rest| {
        NoTail(append, close, true);
        return None;
      }
      var directory, filename := rest[..close], rest[close + 1..];
      var dirOk := AllPathChars(directory);
      var fileOk := AllPathChars(filename);
      if !dirOk || !fileOk {
        NoTail(append, close, true);
        return None;
      }
      assert append == "[" + directory + "]" + filename;
      TailIs(append, directory, filename);
      return Some(Tail(directory, filename));
    } else {
      var open := Find(append, '[');
      var close := Find(append, ']');
      var ok := AllPathChars(append);
      if open < |append| || close < |append| || !ok {
        assert open < |append| ==> !PathChar(append[open]);
        assert close < |append| ==> !PathChar(append[close]);
        NoTail(append, 0, false);
        return None;
      }
      TailIs(append, "", append);
      return Some(Tail("", append));
    }
  }

  /** The ways a tail is refused. */
  lemma NoTail(s: string, close: nat, bracketed: bool)
    requires s != ""
    requires bracketed ==> s[0] == '[' && close <= |s| - 1 && ']' !in s[1..][..close]
    requires bracketed && close < |s| - 1 ==>
               s[1..][close] == ']' && !(PathChars(s[1..][..close]) && PathChars(s[1..][close + 1..]))
    requires !bracketed ==> s[0] != '[' && !PathChars(s)
    ensures TailReading(s) == None
  {
    if d, f :| IsTail(s, d, f) {
      if bracketed {
        var rest := s[1..];
        var before := rest[..close];
        BracketsRead(s, Path("", d, f));
        if |d| < close {
          SameAt(rest, 0, before, |d|);
        } else if close < |d| {
          SameAt(rest, 0, d, close);
        }
      }
    }
  }

  lemma NothingToRead()
    ensures Reading("") == None && TailReading("") == None
  {
  }

  /** path_concat. */
  method PathConcat(basePath: string, appendPath: string) returns (r: Option<string>)
    ensures r == Concat(basePath, appendPath)
  {
    hide Print, Below, Joined, WellFormed, Shows, IsTail;
    if basePath == "" || appendPath == "" {
      NothingToRead();
      return None;
    }
    var base := ParsePath(basePath);
    if base.Err? {
      return None;
    }
    if base.path.filename != "" {
      return None;
    }
    var colon := Find(appendPath, ':');
    if colon < |appendPath| {
      NoColonInTail(appendPath, colon);
      return None;
    }
    var tail := ParseTail(appendPath);
    if tail.None? {
      return None;
    }
    var b, t := base.path, tail.value;
    if b.directory != "" && t.directory != "" {
      r := Some(b.device + ":[" + b.directory + "." + t.directory + "]" + t.filename);
    } else if b.directory != "" {
      r := Some(b.device + ":[" + b.directory + "]" + t.filename);
    } else if t.directory != "" {
      r := Some(b.device + ":[" + t.directory + "]" + t.filename);
    } else {
      r := Some(b.device + ":" + t.filename);
    }
    JoinedText(b, t);
  }

  lemma JoinedText(b: Path, t: Tail)
    ensures Print(Joined(b, t)) ==
            if b.directory != ""
                && t.directory != "" then b.device + ":[" + b.directory + "." + t.directory + "]" + t.filename
            else if b.directory != "" then b.device + ":[" + b.directory + "]" + t.filename
            else if t.directory != "" then b.device + ":[" + t.directory + "]" + t.filename
            else b.device + ":" + t.filename
  {
  }

  lemma NoColonInTail(s: string, i: nat)
    requires i < |s| && s[i] == ':'
    ensures TailReading(s) == None
  {
    if d, f :| IsTail(s, d, f) {
      assert forall k | 0 <= k < |d| :: d[k] != ':';
      assert forall k | 0 <= k < |f| :: f[k] != ':';
    }
  }

  // ---- path_dirconcat and path_fileconcat ----

  /** path_dirconcat: the result reads as a path exactly when the new directory has only path
      characters, which the function does not check. */
  method PathDirconcat(path: string, subdir: string) returns (r: Option<string>)
    ensures r.Some? <==> Reading(path).Some? && subdir != ""
    ensures r.Some? ==>
              var p := Reading(path).value;
              var q := p.(directory := Below(p.directory, subdir));
              && r.value == Print(q)
              && (PathChars(subdir) ==> Reading(r.value) == Some(q))
              && (Reading(r.value).Some? ==> PathChars(subdir))
  {
    if path == "" || subdir == "" {
      NothingToRead();
      return None;
    }
    var parsed := ParsePath(path);
    if parsed.Err? {
      return None;
    }
    var p := parsed.path;
    if p.directory != "" {
      r := Some(p.device + ":[" + p.directory + "." + subdir + "]" + p.filename);
    } else {
      r := Some(p.device + ":[" + subdir + "]" + p.filename);
    }
    ghost var q := p.(directory := Below(p.directory, subdir));
    assert r.value == Print(q);
    BelowChars(p.directory, subdir);
    PrintReads(q);
  }

  /** path_fileconcat: the file name replaces the one the path had. */
  method PathFileconcat(path: string, filename: string) returns (r: Option<string>)
    ensures r.Some? <==> Reading(path).Some? && filename != ""
    ensures r.Some? ==>
              var q := Reading(path).value.(filename := filename);
              r.value == Print(q) && (Reading(r.value) == Some(q) <==> PathChars(filename))
  {
    if path == "" || filename == "" {
      NothingToRead();
      return None;
    }
    var parsed := ParsePath(path);
    if parsed.Err? {
      return None;
    }
    var p := parsed.path;
    if p.directory != "" {
      r := Some(p.device + ":[" + p.directory + "]" + filename);
    } else {
      r := Some(p.device + ":" + filename);
    }
    ghost var q := p.(filename := filename);
    assert r.value == Print(q);
    if PathChars(filename) {
      ReadingIs(r.value, q);
    }
  }

  /** A printed path reads back exactly when its directory has only path characters. */
  lemma PrintReads(q: Path)
    requires q.device != "" && DeviceChars(q.device) && q.directory != "" && PathChars(q.filename)
    ensures PathChars(q.directory) ==> Reading(Print(q)) == Some(q)
    ensures Reading(Print(q)).Some? ==> PathChars(q.directory)
  {
    var s := Print(q);
    if PathChars(q.directory) {
      ReadingIs(s, q);
    } else if p :| IsPath(s, p) {
      BadDirectory(s, q, p);
    }
  }

  /** A bad character in a directory is either not a bracket and rejected, or closes the directory
      early and leaves the true closing bracket in the file name. */
  lemma BadDirectory(s: string, q: Path, p: Path)
    requires q.device != "" && DeviceChars(q.device) && q.directory != "" && PathChars(q.filename)
    requires s == Print(q) && IsPath(s, p)
    ensures PathChars(q.directory)
  {
    hide Print;
    var d := |q.device|;
    var rest := "[" + q.directory + "]" + q.filename;
    PrintLayout(q);
    Layout(s, p);
    SameRun(s, p.device, q.device);
    BracketsRead(rest, p);
    assert rest[1..] == q.directory + "]" + q.filename;
    SameInside(rest[1..], q.directory, q.filename, p.directory, p.filename);
  }

  lemma PrintLayout(q: Path)
    requires q.directory != ""
    ensures var d := |q.device|;
      && d < |Print(q)| && Print(q)[..d] == q.device && Print(q)[d] == ':'
      && Print(q)[d + 1..] == "[" + q.directory + "]" + q.filename
  {
    assert Print(q) == q.device + ":" + ("[" + q.directory + "]" + q.filename);
  }

  lemma SameInside(s: string, a: string, f: string, b: string, g: string)
    requires PathChars(f) && PathChars(b) && PathChars(g)
    requires s == a + "]" + f && |b| < |s| && s[..|b|] == b && s[|b|] == ']' && s[|b| + 1..] == g
    ensures a == b
  {
    assert s[..|a|] == a && s[|a|] == ']';
    if |b| < |a| {
      SameAt(s, |b| + 1, g, |a| - |b| - 1);
    } else if |a| < |b| {
      SameAt(s, 0, b, |a|);
    }
  }

  // ---- Taking apart ----

  /** path_dirname: the path without its file name. */
  method PathDirname(path: string) returns (r: Option<string>)
    ensures r.Some? <==> Reading(path).Some?
    ensures r.Some? ==>
              var p := Reading(path).value;
              r.value == Print(p.(filename := "")) && Reading(r.value) == Some(p.(filename := ""))
  {
    if path == "" {
      NothingToRead();
      return None;
    }
    var parsed := ParsePath(path);
    if parsed.Err? {
      return None;
    }
    var p := parsed.path;
    if p.directory != "" {
      r := Some(p.device + ":[" + p.directory + "]");
    } else {
      r := Some(p.device + ":");
    }
    assert r.value == Print(p.(filename := ""));
    ReadingIs(r.value, p.(filename := ""));
  }

  /** path_basename: the file name, when there is one. */
  method PathBasename(path: string) returns (r: Option<string>)
    ensures r == if Reading(path).Some?
        && Reading(path).value.filename != "" then Some(Reading(path).value.filename) else None
  {
    if path == "" {
      NothingToRead();
      return None;
    }
    var parsed := ParsePath(path);
    if parsed.Err? || parsed.path.filename == "" {
      return None;
    }
    return Some(parsed.path.filename);
  }

  /** Directory and file name of a path, put together again, read as the path does. */
  method SplitAndJoin(path: string) returns (joined: Option<string>)
    ensures joined.Some? <==> Reading(path).Some? && Reading(path).value.filename != ""
    ensures joined.Some? ==> Reading(joined.value) == Reading(path)
  {
    var directory := PathDirname(path);
    var filename := PathBasename(path);
    if directory.None? || filename.None? {
      return None;
    }
    joined := PathFileconcat(directory.value, filename.value);
  }

  /** The file name appended to a path is the one taken off again, and its directory is unchanged. */
  method JoinAndSplit(path: string, filename: string) returns (directory: Option<string>, name: Option<string>)
    requires Reading(path).Some? && filename != "" && PathChars(filename)
    ensures name == Some(filename)
    ensures directory == Some(Print(Reading(path).value.(filename := "")))
  {
    var joined := PathFileconcat(path, filename);
    directory := PathDirname(joined.value);
    name := PathBasename(joined.value);
  }
}
