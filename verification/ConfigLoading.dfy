/** What the two configuration loaders make of a text, and when they agree. */
module ConfigLoading {
  import opened BsdTypes
  import opened CStrings
  import opened Lines
  import opened ConfigText

  // ---- The buffer walker ----

  // Only the first 511 characters of a line reach the line buffer.
  function CutAll(lines: seq<string>): seq<string> {
    if lines == [] then []
    else CutAll(lines[..|lines| - 1]) + [Take(lines[|lines| - 1], LINE_LENGTH)]
  }

  function Walked(content: string, st: State): State {
    ProcessLines(CutAll(Split(content)), st)
  }

  // ---- The fgets loop ----

  // How much one fgets call reads: up to and including a line feed, at most 511 characters.
  function ChunkLength(s: string): (n: nat)
    ensures n <= |s| && n <= LINE_LENGTH
    ensures s != [] ==> n > 0
  {
    match IndexOf(s, '\n')
    case None => if |s| <= LINE_LENGTH then |s| else LINE_LENGTH
    case Some(i) => if i < |s| && i + 1 <= LINE_LENGTH then i + 1 else if |s| <= LINE_LENGTH then |s| else LINE_LENGTH
  }

  function Chunked(content: string, st: State): State {
    if content == [] then st
    else
      var n := ChunkLength(content);
      Chunked(content[n..], ProcessLine(content[..n], st))
  }

  // ---- Lemmas on lines ----

  lemma {:induction false} TrimEndAppend(a: string, b: string)
    ensures TrimEnd(a + b) == if TrimEnd(b) == [] then TrimEnd(a) else a + TrimEnd(b)
  {
    if b == [] {
      assert a + b == a;
    } else {
      assert (a + b)[..|a + b| - 1] == a + b[..|b| - 1];
      if IsTrailing(b[|b| - 1]) {
        TrimEndAppend(a, b[..|b| - 1]);
      }
    }
  }

  predicate AllTrailing(s: string) {
    forall i | 0 <= i < |s| :: IsTrailing(s[i])
  }

  lemma {:induction false} TrimEndMeaning(s: string)
    ensures TrimEnd(s) <= s
    ensures TrimEnd(s) != [] ==> !IsTrailing(TrimEnd(s)[|TrimEnd(s)| - 1])
    ensures AllTrailing(s[|TrimEnd(s)|..])
  {
    if s != [] && IsTrailing(s[|s| - 1]) {
      var front := s[..|s| - 1];
      TrimEndMeaning(front);
      assert s[|TrimEnd(s)|..] == front[|TrimEnd(s)|..] + [s[|s| - 1]];
    }
  }

  lemma {:induction false} TrimEndOfTrailing(s: string)
    requires AllTrailing(s)
    ensures TrimEnd(s) == []
  {
    if s != [] {
      TrimEndOfTrailing(s[..|s| - 1]);
    }
  }

  lemma {:induction false} CStringAppendPlain(a: string, b: string)
    requires NoNul(a)
    ensures CString(a + b) == a + CString(b)
  {
    if a == [] {
      assert a + b == b;
    } else {
      var rest := a[1..];
      assert NoNul(rest) && a[0] != '\0';
      hide NoNul;
      CStringAppendPlain(rest, b);
      assert (a + b)[0] == a[0] && (a + b)[1..] == rest + b;
      assert a == [a[0]] + rest;
    }
  }

  lemma {:induction false} CStringAppendCut(a: string, b: string)
    requires !NoNul(a)
    ensures CString(a + b) == CString(a)
  {
    if a[0] != '\0' {
      assert !NoNul(a[1..]);
      hide NoNul;
      CStringAppendCut(a[1..], b);
      assert (a + b)[1..] == a[1..] + b;
    }
  }

  lemma CStringAppend(a: string, b: string)
    ensures CString(a + b) == if NoNul(a) then a + CString(b) else CString(a)
  {
    if NoNul(a) {
      CStringAppendPlain(a, b);
    } else {
      CStringAppendCut(a, b);
    }
  }

  // Terminators at the end of a line change nothing, with or without a NUL in it.
  lemma TerminatorsVanish(line: string, end: string, st: State)
    requires AllTrailing(end) && NoNul(end)
    ensures ProcessLine(line + end, st) == ProcessLine(line, st)
  {
    CStringAppend(line, end);
    CStringOfPrefix(end, []);
    if NoNul(line) {
      CStringOfPrefix(line, []);
      TrimEndAppend(line, end);
      TrimEndOfTrailing(end);
    }
  }

  lemma BlankLineVanishes(line: string, st: State)
    requires AllTrailing(line) && NoNul(line)
    ensures ProcessLine(line, st) == st
  {
    TerminatorsVanish("", line, st);
    assert "" + line == line;
  }

  // ---- Lemmas on lists of lines ----

  lemma {:induction false} CutAllAppend(a: seq<string>, b: seq<string>)
    ensures CutAll(a + b) == CutAll(a) + CutAll(b)
  {
    if b == [] {
      assert a + b == a;
    } else {
      assert (a + b)[..|a + b| - 1] == a + b[..|b| - 1];
      CutAllAppend(a, b[..|b| - 1]);
    }
  }

  lemma {:induction false} CutAllOfShort(lines: seq<string>)
    requires forall l | l in lines :: |l| <= LINE_LENGTH
    ensures CutAll(lines) == lines
  {
    if lines != [] {
      CutAllOfShort(lines[..|lines| - 1]);
    }
  }

  predicate OneLine(s: string) {
    forall i | 0 <= i < |s| :: !IsEol(s[i])
  }

  lemma {:induction false} SplitOneLine(s: string)
    requires OneLine(s)
    ensures Split(s) == [s]
  {
    if s != [] {
      var front, c := s[..|s| - 1], s[|s| - 1];
      SplitOneLine(front);
      assert !IsEol(c) && s == front + [c];
      SplitSnoc(front, c);
    }
  }

  // A text splits at each of its terminators.
  lemma {:induction false} SplitAtEol(a: string, eol: char, b: string)
    requires IsEol(eol)
    ensures Split(a + [eol] + b) == Split(a) + Split(b)
  {
    if b == [] {
      assert a + [eol] + b == a + [eol];
      SplitSnoc(a, eol);
    } else {
      hide Split;
      var front, c := b[..|b| - 1], b[|b| - 1];
      SplitAtEol(a, eol, front);
      SplitBehind(Split(a), a + [eol] + front, front, c);
      assert b == front + [c];
      AppendAssociates(a + [eol], front, [c]);
    }
  }

  // The first line of a text, taken off its front.
  lemma SplitCons(line: string, eol: char, rest: string)
    requires OneLine(line) && IsEol(eol)
    ensures Split(line + [eol] + rest) == [line] + Split(rest)
  {
    hide Split, OneLine;
    SplitAtEol(line, eol, rest);
    SplitOneLine(line);
  }

  lemma AppendAssociates(a: string, b: string, c: string)
    ensures (a + b) + c == a + (b + c)
  {}

  lemma SplitBehind(done: seq<string>, whole: string, front: string, c: char)
    requires Split(whole) == done + Split(front)
    ensures Split(whole + [c]) == done + Split(front + [c])
  {
    hide Split;
    SplitSnoc(whole, c);
    SplitSnoc(front, c);
    var lines := Split(front);
    assert (done + lines)[..|done + lines| - 1] == done + lines[..|lines| - 1];
  }

  // ---- Agreement ----

  // Every carriage return is followed by a line feed or ends the text.
  predicate CrOnlyBeforeLf(s: string) {
    forall i | 0 <= i < |s| - 1 :: s[i] == '\r' ==> s[i + 1] == '\n'
  }

  predicate LinesFit(s: string) {
    forall l | l in Split(s) :: |l| <= LINE_LENGTH
  }

  // The text from its first terminator on.
  function EolIndex(s: string): (i: nat)
    ensures i <= |s|
    ensures OneLine(s[..i])
    ensures i < |s| ==> IsEol(s[i])
  {
    if s == [] || IsEol(s[0]) then 0
    else
      var i := EolIndex(s[1..]);
      assert s[..i + 1] == [s[0]] + s[1..][..i];
      i + 1
  }

  lemma WalkedCons(line: string, eol: char, rest: string, st: State)
    requires OneLine(line) && IsEol(eol) && |line| <= LINE_LENGTH
    ensures Walked(line + [eol] + rest, st) == Walked(rest, ProcessLine(line, st))
  {
    hide ProcessLine;
    SplitCons(line, eol, rest);
    CutAllAppend([line], Split(rest));
    CutAllOfShort([line]);
    ProcessLinesAppend([line], CutAll(Split(rest)), st);
    assert ProcessLines([line], st) == ProcessLine(line, st) by {
      assert [line][..0] == [];
    }
  }

  // One fgets call.
  lemma ChunkedOnce(chunk: string, rest: string, st: State)
    requires chunk != [] && ChunkLength(chunk + rest) == |chunk|
    ensures Chunked(chunk + rest, st) == Chunked(rest, ProcessLine(chunk, st))
  {
    hide ProcessLine, ChunkLength;
    assert (chunk + rest)[..|chunk|] == chunk && (chunk + rest)[|chunk|..] == rest;
  }

  predicate LineTerminator(end: string, rest: string) {
    end == "\n" || end == "\r\n" || (end == "\r" && rest == [])
  }

  lemma LineFeedOfLine(line: string, end: string, rest: string)
    requires OneLine(line) && LineTerminator(end, rest)
    ensures IndexOf(line + end + rest, '\n') == if end == "\r" then None else Some(|line + end| - 1)
  {
    if end == "\r" {
      IndexOfMeaning(line + end + rest, '\n');
    } else {
      var front := (line + end)[..|line + end| - 1];
      assert line + end + rest == front + ['\n'] + rest;
      IndexOfFirst(front, '\n', rest);
    }
  }

  // A line that fits the buffer with its terminator goes through one fgets call.
  lemma ChunkedWhole(line: string, end: string, rest: string, st: State)
    requires OneLine(line) && LineTerminator(end, rest) && |line + end| <= LINE_LENGTH
    ensures Chunked(line + end + rest, st) == Chunked(rest, ProcessLine(line, st))
  {
    LineFeedOfLine(line, end, rest);
    assert ChunkLength(line + end + rest) == |line + end|;
    hide ProcessLine, Chunked, OneLine, ChunkLength;
    ChunkedOnce(line + end, rest, st);
    TerminatorsVanish(line, end, st);
  }

  // A line that fills the buffer leaves its terminator, or the line feed of it, to a second call.
  lemma ChunkedTwice(line: string, end: string, k: nat, rest: string, st: State)
    requires OneLine(line) && LineTerminator(end, rest)
    requires k < |end| && |line| + k == LINE_LENGTH
    ensures Chunked(line + end + rest, st) == Chunked(rest, ProcessLine(line, st))
  {
    var first, second := end[..k], end[k..];
    LineFeedOfLine(line, end, rest);
    assert line + end + rest == (line + first) + (second + rest);
    assert ChunkLength(line + end + rest) == |line + first|;
    SecondTerminator(end, k, rest);
    hide ProcessLine, Chunked, OneLine, ChunkLength;
    ChunkedOnce(line + first, second + rest, st);
    TerminatorsVanish(line, first, st);
    ChunkedOnce(second, rest, ProcessLine(line, st));
    BlankLineVanishes(second, ProcessLine(line, st));
  }

  lemma SecondTerminator(end: string, k: nat, rest: string)
    requires LineTerminator(end, rest) && k < |end|
    ensures ChunkLength(end[k..] + rest) == |end[k..]|
  {
    assert LineTerminator(end[k..], rest);
    LineFeedOfLine("", end[k..], rest);
    assert "" + end[k..] + rest == end[k..] + rest;
  }

  lemma ChunkedCons(line: string, end: string, rest: string, st: State)
    requires OneLine(line) && |line| <= LINE_LENGTH && LineTerminator(end, rest)
    ensures Chunked(line + end + rest, st) == Chunked(rest, ProcessLine(line, st))
  {
    if |line + end| <= LINE_LENGTH {
      ChunkedWhole(line, end, rest, st);
    } else {
      ChunkedTwice(line, end, LINE_LENGTH - |line|, rest, st);
    }
  }

  lemma LastLineAgrees(line: string, st: State)
    requires OneLine(line) && LinesFit(line)
    ensures Walked(line, st) == Chunked(line, st)
  {
    hide ProcessLine;
    SplitOneLine(line);
    assert line in Split(line);
    CutAllOfShort([line]);
    assert [line][..0] == [];
    assert ProcessLines([line], st) == ProcessLine(line, st);
    IndexOfMeaning(line, '\n');
    if line == [] {
      BlankLineVanishes([], st);
    } else {
      assert ChunkLength(line) == |line|;
      assert line[..|line|] == line && line[|line|..] == [];
    }
  }

  // The loaders agree on a text when they agree on what follows its first line.
  lemma FirstLineAgrees(line: string, end: string, rest: string, st: State)
    requires OneLine(line) && |line| <= LINE_LENGTH
    requires LineTerminator(end, rest)
    ensures Walked(line + end + rest, st) == Walked(rest, ProcessLine(line, st))
    ensures Chunked(line + end + rest, st) == Chunked(rest, ProcessLine(line, st))
  {
    hide ProcessLine, Walked, Chunked;
    ChunkedCons(line, end, rest, st);
    if end == "\r\n" {
      assert line + end + rest == line + ['\r'] + (['\n'] + rest);
      WalkedCons(line, '\r', ['\n'] + rest, st);
      assert [] + ['\n'] + rest == ['\n'] + rest;
      WalkedCons([], '\n', rest, ProcessLine(line, st));
      BlankLineVanishes([], ProcessLine(line, st));
    } else {
      WalkedCons(line, end[0], rest, st);
    }
  }

  lemma FirstTerminator(content: string) returns (line: string, eol: char, rest: string)
    requires CrOnlyBeforeLf(content) && LinesFit(content) && !OneLine(content)
    ensures content == line + [eol] + rest && OneLine(line) && |line| <= LINE_LENGTH && IsEol(eol)
    ensures eol == '\r' && rest != [] ==> rest[0] == '\n'
    ensures CrOnlyBeforeLf(rest) && LinesFit(rest)
  {
    hide LinesFit, CrOnlyBeforeLf, OneLine;
    var i := EolIndex(content);
    assert i < |content| by { assert content[..|content|] == content; }
    line, eol, rest := content[..i], content[i], content[i + 1..];
    assert content == line + [eol] + rest;
    if eol == '\r' && rest != [] {
      CrAt(content, i);
    }
    CrOfSuffix(content, i + 1);
    FirstOfSplit(line, eol, rest);
  }

  // The first line of a text with what ends it.
  lemma FirstLine(content: string) returns (line: string, end: string, rest: string)
    requires CrOnlyBeforeLf(content) && LinesFit(content) && !OneLine(content)
    ensures content == line + end + rest && OneLine(line) && |line| <= LINE_LENGTH
    ensures LineTerminator(end, rest)
    ensures CrOnlyBeforeLf(rest) && LinesFit(rest)
  {
    assert OneLine([]);
    hide LinesFit, CrOnlyBeforeLf, OneLine;
    var eol;
    line, eol, rest := FirstTerminator(content);
    end := [eol];
    if eol == '\r' && rest != [] {
      var second := rest;
      end, rest := "\r\n", second[1..];
      CrOfSuffix(second, 1);
      assert second == [] + ['\n'] + rest;
      FirstOfSplit([], '\n', rest);
      assert line + [eol] + second == line + end + rest;
    }
  }

  lemma CrAt(s: string, i: nat)
    requires CrOnlyBeforeLf(s) && i < |s| - 1 && s[i] == '\r'
    ensures s[i + 1] == '\n'
  {}

  lemma CrOfSuffix(s: string, k: nat)
    requires CrOnlyBeforeLf(s) && k <= |s|
    ensures CrOnlyBeforeLf(s[k..])
  {
    var t := s[k..];
    forall j | 0 <= j < |t| - 1 && t[j] == '\r'
      ensures t[j + 1] == '\n'
    {
      assert s[k + j] == '\r' && s[k + j + 1] == t[j + 1];
    }
  }

  lemma FirstOfSplit(line: string, eol: char, rest: string)
    requires OneLine(line) && IsEol(eol) && LinesFit(line + [eol] + rest)
    ensures |line| <= LINE_LENGTH && LinesFit(rest)
  {
    hide Split, OneLine;
    SplitCons(line, eol, rest);
    var lines := Split(line + [eol] + rest);
    assert lines[0] == line;
    forall l | l in Split(rest)
      ensures |l| <= LINE_LENGTH
    {
      assert l in lines;
    }
  }

  // Both loaders make the same of any text whose lines fit the line buffer and whose carriage returns
  // all belong to a line end. NUL characters make no difference.
  lemma {:induction false} LoadersAgree(content: string, st: State)
    requires CrOnlyBeforeLf(content) && LinesFit(content)
    ensures Walked(content, st) == Chunked(content, st)
    decreases |content|
  {
    if OneLine(content) {
      LastLineAgrees(content, st);
    } else {
      hide ProcessLine, Walked, Chunked, OneLine, LinesFit, CrOnlyBeforeLf;
      var line, end, rest := FirstLine(content);
      FirstLineAgrees(line, end, rest, st);
      LoadersAgree(rest, ProcessLine(line, st));
    }
  }

  // ---- Where the loaders part ----

  lemma WalkedOne(line: string, st: State)
    requires OneLine(line)
    ensures Walked(line, st) == ProcessLine(Take(line, LINE_LENGTH), st)
  {
    hide ProcessLine;
    SplitOneLine(line);
    var cut := Take(line, LINE_LENGTH);
    assert [line][..0] == [];
    assert CutAll([line]) == [cut];
    assert CutAll([line][..0]) == [];
    assert [cut][..0] == [];
    assert ProcessLines([cut], st) == ProcessLine(cut, ProcessLines([], st));
  }

  lemma ChunkedOne(s: string, st: State)
    requires s != [] && '\n' !in s && |s| <= LINE_LENGTH
    ensures Chunked(s, st) == ProcessLine(s, st)
  {
    hide ProcessLine;
    IndexOfMeaning(s, '\n');
    assert s + [] == s;
    ChunkedOnce(s, [], st);
  }

  // A carriage return inside a line ends it for the walker, and is a character of it for fgets.
  lemma LoneCrDivides(a: string, b: string, st: State)
    requires OneLine(a) && OneLine(b) && b != [] && |a| + 1 + |b| <= LINE_LENGTH
    ensures Walked(a + "\r" + b, st) == ProcessLine(b, ProcessLine(a, st))
    ensures Chunked(a + "\r" + b, st) == ProcessLine(a + "\r" + b, st)
  {
    hide ProcessLine, Walked, Chunked;
    WalkedCons(a, '\r', b, st);
    WalkedOne(b, ProcessLine(a, st));
    PlainText(a, b);
    ChunkedOne(a + "\r" + b, st);
  }

  lemma PlainText(a: string, b: string)
    requires OneLine(a) && OneLine(b)
    ensures '\n' !in a + "\r" + b
  {}

  // Of a line that does not fit the walker drops the rest, and fgets makes a second line of it.
  lemma LongLineDivides(line: string, st: State)
    requires OneLine(line) && LINE_LENGTH < |line| <= 2 * LINE_LENGTH
    ensures Walked(line, st) == ProcessLine(line[..LINE_LENGTH], st)
    ensures Chunked(line, st) == ProcessLine(line[LINE_LENGTH..], ProcessLine(line[..LINE_LENGTH], st))
  {
    hide ProcessLine, Walked, Chunked;
    WalkedOne(line, st);
    var head, tail := line[..LINE_LENGTH], line[LINE_LENGTH..];
    assert line == head + tail;
    IndexOfMeaning(line, '\n');
    ChunkedOnce(head, tail, st);
    ChunkedOne(tail, ProcessLine(head, st));
  }
}
