/** Splitting DEVICE:[d1.d2]FILE into parts by its separators, and writing parts out again. */
module NameParts {

  /** A stretch of a string. An absent part has start and length zero. */
  datatype Span = Span(start: nat, len: nat)

  const ABSENT := Span(0, 0)

  datatype Parts = Unparsable | Parts(device: Span, dirs: seq<Span>, filename: Span)

  function Cut(s: string, p: Span): string {
    if p.start + p.len <= |s| then s[p.start..p.start + p.len] else ""
  }

  // ---- Separators ----

  /** The first place of c at or after i, or the length of s. */
  function FirstFrom(s: string, c: char, i: nat): (r: nat)
    requires i <= |s|
    ensures i <= r <= |s| && (r < |s| ==> s[r] == c)
    ensures forall k | i <= k < r :: s[k] != c
    decreases |s| - i
  {
    if i == |s| || s[i] == c then i else FirstFrom(s, c, i + 1)
  }

  function First(s: string, c: char): (r: nat)
    ensures r <= |s| && (r < |s| ==> s[r] == c)
    ensures forall k | 0 <= k < r :: s[k] != c
  {
    FirstFrom(s, c, 0)
  }

  predicate Repeated(s: string, c: char) {
    First(s, c) < |s| && First(s[First(s, c) + 1..], c) < |s| - First(s, c) - 1
  }

  /** The pieces of s[lo..hi] that a dot ends. */
  function DotPieces(s: string, lo: nat, hi: nat): seq<Span>
    requires lo <= hi <= |s|
  {
    if lo == hi then []
    else if s[hi - 1] == '.' then
      DotPieces(s, lo, hi - 1) + [Span(PieceStart(s, lo, hi - 1), hi - 1 - PieceStart(s, lo, hi - 1))]
    else DotPieces(s, lo, hi - 1)
  }

  /** Where the piece of s[lo..hi] that no dot has ended yet starts. */
  function PieceStart(s: string, lo: nat, hi: nat): (r: nat)
    requires lo <= hi <= |s|
    ensures lo <= r <= hi
  {
    if lo == hi then lo else if s[hi - 1] == '.' then hi else PieceStart(s, lo, hi - 1)
  }

  function Pieces(s: string, lo: nat, hi: nat): seq<Span>
    requires lo <= hi <= |s|
  {
    DotPieces(s, lo, hi) + [Span(PieceStart(s, lo, hi), hi - PieceStart(s, lo, hi))]
  }

  /** A closing bracket with no opening one before it. */
  predicate Stray(s: string) {
    First(s, ']') < |s| && First(s, ']') < First(s, '[')
  }

  /** The parts of a string, by where its separators are. Two of a kind, no colon, or an opening
      bracket never closed leave it unparsable. */
  function PartsOf(s: string): Parts {
    var colon, open, close := First(s, ':'), First(s, '['), First(s, ']');
    if Repeated(s, ':') || Repeated(s, '[') || Repeated(s, ']') || colon == |s| || (open < |s| && close == |s|) then
      Unparsable
    else
      Parts(Span(0, colon), if close == |s| then [] else Directories(s, open, close),
            Rest(s, if close < |s| then close else colon))
  }

  function Directories(s: string, open: nat, close: nat): seq<Span>
    requires close <= |s|
  {
    if open < close then Pieces(s, open + 1, close) else [ABSENT]
  }

  /** What follows the last separator. */
  function Rest(s: string, last: nat): Span {
    if last + 1 < |s| then Span(last + 1, |s| - last - 1) else ABSENT
  }

  // ---- Writing ----

  function Join(parts: seq<string>): string {
    if |parts| == 0 then ""
    else if |parts| == 1 then parts[0]
    else Join(parts[..|parts| - 1]) + "." + parts[|parts| - 1]
  }

  function Colon(device: string): string {
    if device != "" && device[|device| - 1] == ':' then "" else ":"
  }

  function Bracketed(dirs: seq<string>): string {
    if dirs == [] then "" else "[" + Join(dirs) + "]"
  }

  /** DEVICE:[d1.d2]FILE. A device that ends in a colon gets no second one. */
  function Written(device: string, dirs: seq<string>, filename: string): string {
    device + Colon(device) + Bracketed(dirs) + filename
  }

  function Cuts(s: string, spans: seq<Span>): (r: seq<string>)
    ensures |r| == |spans|
  {
    seq(|spans|, i requires 0 <= i < |spans| => Cut(s, spans[i]))
  }

  // ---- Parsing what was written ----

  /** s has none of the three separators. */
  predicate Unseparated(s: string) {
    forall i | 0 <= i < |s| :: s[i] != ':' && s[i] != '[' && s[i] != ']'
  }

  predicate DeviceName(s: string) {
    s != "" && Unseparated(s)
  }

  predicate DirName(s: string) {
    s != "" && Unseparated(s) && forall i | 0 <= i < |s| :: s[i] != '.'
  }

  predicate DirNames(dirs: seq<string>) {
    forall i | 0 <= i < |dirs| :: DirName(dirs[i])
  }

  lemma FirstIs(s: string, c: char, i: nat)
    requires i < |s| && s[i] == c && forall k | 0 <= k < i :: s[k] != c
    ensures First(s, c) == i
    ensures Repeated(s, c) <==> exists k :: i < k < |s| && s[k] == c
  {
    var rest := s[i + 1..];
    assert forall k | i < k < |s| :: s[k] == rest[k - i - 1];
  }

  lemma FirstNone(s: string, c: char)
    requires forall k | 0 <= k < |s| :: s[k] != c
    ensures First(s, c) == |s| && !Repeated(s, c)
  {
  }

  /** Dots past hi are no concern of the pieces before. */
  lemma {:induction false} NoMoreDots(s: string, lo: nat, mid: nat, hi: nat)
    requires lo <= mid <= hi <= |s| && forall k | mid <= k < hi :: s[k] != '.'
    ensures DotPieces(s, lo, hi) == DotPieces(s, lo, mid) && PieceStart(s, lo, hi) == PieceStart(s, lo, mid)
    decreases hi
  {
    if mid < hi {
      NoMoreDots(s, lo, mid, hi - 1);
    }
  }

  /** The last of several joined names, in place. */
  lemma JoinLast(s: string, lo: nat, dirs: seq<string>)
    requires |dirs| > 1 && lo + |Join(dirs)| <= |s| && s[lo..lo + |Join(dirs)|] == Join(dirs)
    ensures var front, last := dirs[..|dirs| - 1], dirs[|dirs| - 1];
      && |Join(dirs)| == |Join(front)| + 1 + |last|
      && s[lo..lo + |Join(front)|] == Join(front) && s[lo + |Join(front)|] == '.'
      && s[lo + |Join(front)| + 1..lo + |Join(dirs)|] == last
  {
    var front, last := dirs[..|dirs| - 1], dirs[|dirs| - 1];
    var text, m := Join(dirs), |Join(front)|;
    assert text == Join(front) + "." + last;
    assert text[..m] == Join(front) && text[m] == '.' && text[m + 1..] == last;
    assert s[lo..lo + m] == s[lo..lo + |text|][..m];
    assert s[lo + m] == s[lo..lo + |text|][m];
    assert s[lo + m + 1..lo + |text|] == s[lo..lo + |text|][m + 1..];
  }

  /** A stretch without dots is one piece. */
  lemma LastPiece(s: string, lo: nat, start: nat, last: string)
    requires lo <= start && start + |last| <= |s| && s[start..start + |last|] == last && DirName(last)
    requires PieceStart(s, lo, start) == start
    ensures Pieces(s, lo, start + |last|) == DotPieces(s, lo, start) + [Span(start, |last|)]
  {
    assert forall k | start <= k < start + |last| :: s[k] == last[k - start];
    NoMoreDots(s, lo, start, start + |last|);
  }

  lemma CutsAppend(s: string, a: seq<Span>, b: seq<Span>)
    ensures Cuts(s, a + b) == Cuts(s, a) + Cuts(s, b)
  {
  }

  lemma CutsOne(s: string, p: Span)
    ensures Cuts(s, [p]) == [Cut(s, p)]
  {
  }

  lemma JoinOne(part: string)
    ensures Join([part]) == part
  {
  }

  lemma NoDotsYet(s: string, lo: nat)
    requires lo <= |s|
    ensures DotPieces(s, lo, lo) == [] && PieceStart(s, lo, lo) == lo
  {
  }

  lemma DotEndsPiece(s: string, lo: nat, i: nat)
    requires lo <= i < |s| && s[i] == '.'
    ensures DotPieces(s, lo, i + 1) == Pieces(s, lo, i) && PieceStart(s, lo, i + 1) == i + 1
  {
  }

  lemma CutIs(s: string, start: nat, part: string)
    requires start + |part| <= |s| && s[start..start + |part|] == part
    ensures Cut(s, Span(start, |part|)) == part
  {
  }

  /** The pieces of joined directory names are the names. */
  lemma {:induction false} PiecesOfJoin(s: string, lo: nat, dirs: seq<string>)
    requires dirs != [] && DirNames(dirs) && lo + |Join(dirs)| <= |s| && s[lo..lo + |Join(dirs)|] == Join(dirs)
    ensures Cuts(s, Pieces(s, lo, lo + |Join(dirs)|)) == dirs
    decreases |dirs|
  {
    hide Unseparated, Cuts, Cut, Join, DotPieces, PieceStart, Pieces;
    JoinOne(dirs[0]);
    var n := |dirs|;
    var front, last := dirs[..n - 1], dirs[n - 1];
    assert DirName(last);
    if n == 1 {
      assert dirs == [last];
      NoDotsYet(s, lo);
      LastPiece(s, lo, lo, last);
      CutsOne(s, Span(lo, |last|));
      CutIs(s, lo, last);
      assert [] + [Span(lo, |last|)] == [Span(lo, |last|)];
    } else {
      JoinLast(s, lo, dirs);
      var start := lo + |Join(front)| + 1;
      PiecesOfJoin(s, lo, front);
      DotEndsPiece(s, lo, start - 1);
      LastPiece(s, lo, start, last);
      CutsAppend(s, Pieces(s, lo, start - 1), [Span(start, |last|)]);
      CutsOne(s, Span(start, |last|));
      CutIs(s, start, last);
      assert dirs == front + [last];
    }
  }

  /** Pieces joined again are the text they came from. */
  lemma {:induction false} JoinOfPieces(s: string, lo: nat, hi: nat)
    requires lo <= hi <= |s|
    ensures Join(Cuts(s, Pieces(s, lo, hi))) == s[lo..hi]
    decreases hi
  {
    hide Join, Cuts;
    if lo == hi {
      CutsOne(s, Span(lo, 0));
      assert Pieces(s, lo, hi) == [Span(lo, 0)];
      JoinOne("");
    } else {
      JoinOfPieces(s, lo, hi - 1);
      var start, ended := PieceStart(s, lo, hi - 1), DotPieces(s, lo, hi - 1);
      var done, part := Cuts(s, ended), s[start..hi - 1];
      CutsLast(s, ended, Span(start, hi - 1 - start));
      if s[hi - 1] == '.' {
        CutsLast(s, ended + [Span(start, hi - 1 - start)], Span(hi, 0));
        assert Cut(s, Span(hi, 0)) == "" && Cut(s, Span(start, hi - 1 - start)) == part;
        JoinDot(done, part, s[lo..hi - 1]);
        assert Cuts(s, Pieces(s, lo, hi)) == done + [part] + [""];
        assert s[lo..hi] == s[lo..hi - 1] + ".";
      } else {
        CutsLast(s, ended, Span(start, hi - start));
        assert s[start..hi] == part + [s[hi - 1]];
        JoinChar(done, part, s[lo..hi - 1], s[hi - 1]);
        assert s[lo..hi] == s[lo..hi - 1] + [s[hi - 1]];
      }
    }
  }

  lemma CutsLast(s: string, spans: seq<Span>, p: Span)
    ensures Cuts(s, spans + [p]) == Cuts(s, spans) + [Cut(s, p)]
  {
  }

  lemma JoinDot(front: seq<string>, part: string, text: string)
    requires Join(front + [part]) == text
    ensures Join(front + [part] + [""]) == text + "."
  {
    hide Join;
    JoinAppend(front + [part], "");
  }

  lemma JoinChar(front: seq<string>, part: string, text: string, c: char)
    requires Join(front + [part]) == text
    ensures Join(front + [part + [c]]) == text + [c]
  {
    hide Join;
    JoinAppend(front, part);
    JoinAppend(front, part + [c]);
    assert Join(front) + "." + (part + [c]) == Join(front) + "." + part + [c];
  }

  lemma JoinAppend(front: seq<string>, last: string)
    ensures Join(front + [last]) == if front == [] then last else Join(front) + "." + last
  {
    assert (front + [last])[..|front|] == front;
  }

  lemma {:induction false} JoinUnseparated(dirs: seq<string>)
    requires DirNames(dirs)
    ensures Unseparated(Join(dirs))
    decreases |dirs|
  {
    if |dirs| == 1 {
      assert DirName(dirs[0]);
    } else if |dirs| > 1 {
      JoinUnseparated(dirs[..|dirs| - 1]);
      assert DirName(dirs[|dirs| - 1]);
    }
  }

  /** Where the separators of a written path are. */
  lemma SeparatorsOfWritten(device: string, dirs: seq<string>, filename: string)
    requires DeviceName(device) && DirNames(dirs) && Unseparated(filename)
    ensures var s, d, j := Written(device, dirs, filename), |device|, |Join(dirs)|;
      && First(s, ':') == d && !Repeated(s, ':') && !Repeated(s, '[') && !Repeated(s, ']')
      && d < |s| && s[..d] == device
      && (dirs == [] ==> First(s, '[') == |s| && First(s, ']') == |s| && s[d + 1..] == filename)
      && (dirs != [] ==> First(s, '[') == d + 1 && First(s, ']') == d + 2 + j < |s|
                         && s[d + 2..d + 2 + j] == Join(dirs) && s[d + 3 + j..] == filename)
  {
    hide Repeated, First, Join, Unseparated, Written;
    JoinUnseparated(dirs);
    WrittenIs(device, dirs, filename);
    if dirs == [] {
      SeparatorsPlain(device, filename);
    } else {
      SeparatorsBracketed(device, Join(dirs), filename);
    }
  }

  lemma WrittenIs(device: string, dirs: seq<string>, filename: string)
    requires DeviceName(device)
    ensures Written(device, dirs, filename) ==
            if dirs == [] then device + ":" + filename else device + ":[" + Join(dirs) + "]" + filename
  {
    hide Join;
    assert Colon(device) == ":";
    if dirs != [] {
      assert device + ":" + ("[" + Join(dirs) + "]") + filename == device + ":[" + Join(dirs) + "]" + filename;
    }
  }

  lemma SeparatorsPlain(device: string, filename: string)
    requires Unseparated(device) && Unseparated(filename)
    ensures var s, d := device + ":" + filename, |device|;
      && First(s, ':') == d && !Repeated(s, ':') && !Repeated(s, '[') && !Repeated(s, ']')
      && First(s, '[') == |s| && First(s, ']') == |s| && s[..d] == device && s[d + 1..] == filename
  {
    hide Repeated, First;
    var s, d := device + ":" + filename, |device|;
    assert forall k | 0 <= k < d :: s[k] == device[k];
    assert forall k | d < k < |s| :: s[k] == filename[k - d - 1];
    FirstNone(s, '[');
    FirstNone(s, ']');
    FirstIs(s, ':', d);
  }

  lemma SeparatorsBracketed(device: string, joined: string, filename: string)
    requires Unseparated(device) && Unseparated(joined) && Unseparated(filename)
    ensures var s, d, j := device + ":[" + joined + "]" + filename, |device|, |joined|;
      && First(s, ':') == d && !Repeated(s, ':') && !Repeated(s, '[') && !Repeated(s, ']')
      && First(s, '[') == d + 1 && First(s, ']') == d + 2 + j < |s|
      && s[..d] == device && s[d + 2..d + 2 + j] == joined && s[d + 3 + j..] == filename
  {
    hide Repeated, First;
    var s, d, j := device + ":[" + joined + "]" + filename, |device|, |joined|;
    assert s[d] == ':' && s[d + 1] == '[' && s[d + 2 + j] == ']';
    assert forall k | 0 <= k < d :: s[k] == device[k];
    assert forall k | d + 2 <= k < d + 2 + j :: s[k] == joined[k - d - 2];
    assert forall k | d + 3 + j <= k < |s| :: s[k] == filename[k - d - 3 - j];
    FirstIs(s, '[', d + 1);
    FirstIs(s, ']', d + 2 + j);
    FirstIs(s, ':', d);
  }

  /** Parsing what was written gives back the parts. */
  lemma PartsOfWritten(device: string, dirs: seq<string>, filename: string)
    requires DeviceName(device) && DirNames(dirs) && Unseparated(filename)
    ensures var s := Written(device, dirs, filename);
      var p := PartsOf(s);
      && p.Parts? && p.device == Span(0, |device|) && Cut(s, p.device) == device
      && Cuts(s, p.dirs) == dirs && Cut(s, p.filename) == filename
      && (p.filename == ABSENT <==> filename == "") && p.filename.len == |filename|
      && InString(s, p)
  {
    hide First, Repeated, Join, Cuts, Written;
    var s, d, j := Written(device, dirs, filename), |device|, |Join(dirs)|;
    SeparatorsOfWritten(device, dirs, filename);
    PartsInString(s);
    if dirs != [] {
      PiecesOfJoin(s, d + 2, dirs);
    } else {
      CutsNone(s);
    }
  }

  lemma CutsNone(s: string)
    ensures Cuts(s, []) == []
  {
  }

  /** All parts lie inside the string; a part that is there starts after the device. */
  predicate InString(s: string, p: Parts)
    requires p.Parts?
  {
    && p.device.start == 0 && p.device.len < |s|
    && (forall i | 0 <= i < |p.dirs| :: p.dirs[i].start + p.dirs[i].len <= |s|)
    && p.filename.start + p.filename.len <= |s|
  }

  lemma PartsInString(s: string)
    requires PartsOf(s).Parts?
    ensures InString(s, PartsOf(s))
  {
    hide First, Repeated;
    var open, close := First(s, '['), First(s, ']');
    if open < close < |s| {
      PiecesInside(s, open + 1, close);
    }
  }

  lemma PiecesInside(s: string, lo: nat, hi: nat)
    requires lo <= hi <= |s|
    ensures forall p <- Pieces(s, lo, hi) :: lo <= p.start && p.start + p.len <= hi
  {
    DotPiecesInside(s, lo, hi);
  }

  lemma {:induction false} DotPiecesInside(s: string, lo: nat, hi: nat)
    requires lo <= hi <= |s|
    ensures forall p <- DotPieces(s, lo, hi) :: lo <= p.start && p.start + p.len < hi
    decreases hi
  {
    if lo < hi {
      DotPiecesInside(s, lo, hi - 1);
    }
  }

  // ---- Writing what was parsed ----

  function Reprint(s: string): string {
    match PartsOf(s)
    case Unparsable => s
    case Parts(device, dirs, filename) => Written(Cut(s, device), Cuts(s, dirs), Cut(s, filename))
  }

  /** A string with a device is reproduced exactly when it does not parse, or when its directory,
      if it has one, opens right after the colon. */
  lemma ReprintExactly(s: string)
    requires First(s, ':') > 0 && !Stray(s)
    ensures Reprint(s) == s <==> PartsOf(s).Unparsable? || First(s, '[') == |s| || First(s, '[') == First(s, ':') + 1
  {
    if PartsOf(s).Parts? {
      if First(s, ']') == |s| {
        ReprintPlain(s);
      } else {
        ReprintBracketed(s);
      }
    }
  }

  lemma ReprintPlain(s: string)
    requires First(s, ':') > 0 && PartsOf(s).Parts? && First(s, ']') == |s|
    ensures Reprint(s) == s && First(s, '[') == |s|
  {
    hide Repeated, Cuts, Join;
    var colon := First(s, ':');
    CutsNone(s);
    NoColonBefore(s, colon);
    assert s == s[..colon] + ":" + s[colon + 1..];
  }

  lemma NoColonBefore(s: string, colon: nat)
    requires 0 < colon == First(s, ':')
    ensures Colon(s[..colon]) == ":"
  {
    assert s[..colon][colon - 1] == s[colon - 1];
  }

  lemma ReprintBracketed(s: string)
    requires First(s, ':') > 0 && !Stray(s) && PartsOf(s).Parts? && First(s, ']') < |s|
    ensures First(s, '[') < |s| && (Reprint(s) == s <==> First(s, '[') == First(s, ':') + 1)
  {
    BracketedText(s);
    hide Reprint, PartsOf, First;
    Reassembled(s, First(s, ':'), First(s, '['), First(s, ']'));
  }

  /** What writing the parts of a string with a directory gives. */
  lemma BracketedText(s: string)
    requires First(s, ':') > 0 && !Stray(s) && PartsOf(s).Parts? && First(s, ']') < |s|
    ensures var colon, open, close := First(s, ':'), First(s, '['), First(s, ']');
      && colon < |s| && open < close
      && Reprint(s) == s[..colon] + ":" + ("[" + s[open + 1..close] + "]") + s[close + 1..]
  {
    hide Repeated, Cuts, Join, Pieces, First;
    var colon, open, close := First(s, ':'), First(s, '['), First(s, ']');
    PartsBracketed(s);
    hide PartsOf, Stray;
    JoinOfPieces(s, open + 1, close);
    CutsSome(s, open + 1, close);
    NoColonBefore(s, colon);
    RestText(s, close);
    assert Cut(s, Span(0, colon)) == s[..colon];
    hide Cut, Rest;
    assert Bracketed(Cuts(s, Pieces(s, open + 1, close))) == "[" + s[open + 1..close] + "]";
    hide Bracketed;
  }

  lemma PartsBracketed(s: string)
    requires !Stray(s) && PartsOf(s).Parts? && First(s, ']') < |s|
    ensures var colon, open, close := First(s, ':'), First(s, '['), First(s, ']');
      && colon < |s| && open < close
      && PartsOf(s) == Parts(Span(0, colon), Pieces(s, open + 1, close), Rest(s, close))
  {
    hide Repeated, Pieces, First, Rest;
  }

  lemma RestText(s: string, last: nat)
    requires last < |s|
    ensures Cut(s, Rest(s, last)) == s[last + 1..]
  {
  }

  lemma Reassembled(s: string, colon: nat, open: nat, close: nat)
    requires open < close < |s| && colon < |s| && s[colon] == ':' && s[open] == '[' && s[close] == ']'
    ensures s[..colon] + ":" + ("[" + s[open + 1..close] + "]") + s[close + 1..] == s <==> open == colon + 1
  {
    if open == colon + 1 {
      assert s == s[..colon] + ":" + "[" + s[open + 1..close] + "]" + s[close + 1..];
    }
  }

  lemma CutsSome(s: string, lo: nat, hi: nat)
    requires lo <= hi <= |s|
    ensures Cuts(s, Pieces(s, lo, hi)) != []
  {
  }
}
