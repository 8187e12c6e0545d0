/** Exactly when the two loaders hand on the same lines, for each way in which they can differ. */
module ConfigAgreement {
  import opened BsdTypes
  import opened CStrings
  import opened Lines
  import opened ConfigText
  import opened ConfigLoading

  // ---- The lines that matter ----

  // What is left of a line buffer: nothing of a blank one, else the line trimmed at its end.
  function Handed(raw: string): seq<string> {
    var line := TrimEnd(CString(raw));
    if TrimStart(line) == [] then [] else [line]
  }

  function HandedAll(lines: seq<string>): seq<string> {
    if lines == [] then [] else HandedAll(lines[..|lines| - 1]) + Handed(lines[|lines| - 1])
  }

  function ProcessHanded(lines: seq<string>, st: State): State {
    if lines == [] then st
    else ProcessTrimmed(lines[|lines| - 1], ProcessHanded(lines[..|lines| - 1], st))
  }

  lemma ProcessHandedOne(done: seq<string>, raw: string, st: State)
    ensures ProcessHanded(done + Handed(raw), st) == ProcessLine(raw, ProcessHanded(done, st))
  {
    hide CString, TrimEnd, TrimStart, IndexOf, KeyLine, ParseSection;
    if Handed(raw) == [] {
      assert done + Handed(raw) == done;
    } else {
      var line := Handed(raw)[0];
      assert done + Handed(raw) == done + [line];
      assert (done + [line])[..|done|] == done;
    }
  }

  // The lines handed on decide what a loader does.
  lemma {:induction false} HandedDecides(lines: seq<string>, st: State)
    ensures ProcessLines(lines, st) == ProcessHanded(HandedAll(lines), st)
  {
    hide ProcessLine, Handed, ProcessTrimmed;
    if lines != [] {
      HandedDecides(lines[..|lines| - 1], st);
      ProcessHandedOne(HandedAll(lines[..|lines| - 1]), lines[|lines| - 1], st);
    }
  }

  lemma {:induction false} HandedAllAppend(a: seq<string>, b: seq<string>)
    ensures HandedAll(a + b) == HandedAll(a) + HandedAll(b)
  {
    hide Handed;
    if b == [] {
      assert a + b == a;
    } else {
      assert (a + b)[..|a + b| - 1] == a + b[..|b| - 1];
      HandedAllAppend(a, b[..|b| - 1]);
    }
  }

  lemma HandedAllOne(line: string)
    ensures HandedAll([line]) == Handed(line)
  {
    hide Handed;
    assert [line][..0] == [];
  }

  // The reads of the fgets loop.
  function Chunks(content: string): seq<string> {
    if content == [] then []
    else [content[..ChunkLength(content)]] + Chunks(content[ChunkLength(content)..])
  }

  lemma {:induction false} ChunkedIsLines(content: string, st: State)
    ensures Chunked(content, st) == ProcessLines(Chunks(content), st)
    decreases |content|
  {
    hide ProcessLine, ChunkLength;
    if content != [] {
      var n := ChunkLength(content);
      ChunkedIsLines(content[n..], ProcessLine(content[..n], st));
      ProcessLinesAppend([content[..n]], Chunks(content[n..]), st);
      assert [content[..n]][..0] == [];
      assert ProcessLines([content[..n]], st) == ProcessLine(content[..n], ProcessLines([], st));
    }
  }

  // What each loader hands on.
  function WalkerLines(content: string): seq<string> {
    HandedAll(CutAll(Split(content)))
  }

  function FgetsLines(content: string): seq<string> {
    HandedAll(Chunks(content))
  }

  // Loaders that hand on the same lines end in the same state, from any start.
  lemma SameLinesSameState(content: string, st: State)
    requires WalkerLines(content) == FgetsLines(content)
    ensures Walked(content, st) == Chunked(content, st)
  {
    HandedDecides(CutAll(Split(content)), st);
    HandedDecides(Chunks(content), st);
    ChunkedIsLines(content, st);
  }

  // ---- Line by line ----

  // The lines of a text as line feeds alone divide it.
  function LfLines(s: string): seq<string> {
    match IndexOf(s, '\n')
    case None => [s]
    case Some(i) => if i < |s| then [s[..i]] + LfLines(s[i + 1..]) else [s]
  }

  lemma LfCons(line: string, rest: string)
    requires '\n' !in line
    ensures LfLines(line) == [line]
    ensures LfLines(line + ['\n'] + rest) == [line] + LfLines(rest)
  {
    IndexOfMeaning(line, '\n');
    IndexOfFirst(line, '\n', rest);
    var s := line + ['\n'] + rest;
    assert s[..|line|] == line && s[|line| + 1..] == rest;
  }

  // The first line of a text that has a line feed.
  lemma FirstLf(s: string) returns (line: string, rest: string)
    requires '\n' in s
    ensures '\n' !in line && s == line + ['\n'] + rest
  {
    IndexOfMeaning(s, '\n');
    var i := IndexOf(s, '\n').value;
    line, rest := s[..i], s[i + 1..];
  }

  lemma WalkerCons(a: string, eol: char, b: string)
    requires IsEol(eol)
    ensures WalkerLines(a + [eol] + b) == WalkerLines(a) + WalkerLines(b)
  {
    hide Split, CutAll, HandedAll;
    SplitAtEol(a, eol, b);
    CutAllAppend(Split(a), Split(b));
    HandedAllAppend(CutAll(Split(a)), CutAll(Split(b)));
  }

  lemma WalkerOneLine(line: string)
    requires OneLine(line)
    ensures WalkerLines(line) == Handed(Take(line, LINE_LENGTH))
  {
    hide Handed, Split, OneLine;
    SplitOneLine(line);
    var cut := Take(line, LINE_LENGTH);
    assert [line][..0] == [];
    assert CutAll([line][..0]) == [];
    assert CutAll([line]) == [cut];
    HandedAllOne(cut);
  }

  lemma HandedIgnoresEnd(line: string, end: string)
    requires AllTrailing(end) && NoNul(end)
    ensures Handed(line + end) == Handed(line)
  {
    CStringAppend(line, end);
    CStringOfPrefix(end, []);
    if NoNul(line) {
      CStringOfPrefix(line, []);
      TrimEndAppend(line, end);
      TrimEndOfTrailing(end);
    }
  }

  lemma HandedNothing(end: string)
    requires AllTrailing(end) && NoNul(end)
    ensures Handed(end) == []
  {
    HandedIgnoresEnd([], end);
    assert [] + end == end;
  }

  lemma FgetsOnce(chunk: string, rest: string)
    requires chunk != [] && ChunkLength(chunk + rest) == |chunk|
    ensures FgetsLines(chunk + rest) == Handed(chunk) + FgetsLines(rest)
  {
    hide ChunkLength, Handed, HandedAll;
    assert (chunk + rest)[..|chunk|] == chunk && (chunk + rest)[|chunk|..] == rest;
    HandedAllAppend([chunk], Chunks(rest));
    HandedAllOne(chunk);
  }

  lemma FgetsNothing()
    ensures FgetsLines([]) == []
  {}

  // A line without line feed goes through in pieces of 511 characters.
  lemma FgetsPieces(line: string)
    requires '\n' !in line
    ensures FgetsLines(line) == if |line| <= LINE_LENGTH then Handed(line)
                                else Handed(line[..LINE_LENGTH]) + FgetsLines(line[LINE_LENGTH..])
  {
    IndexOfMeaning(line, '\n');
    FgetsNothing();
    hide Handed, FgetsLines;
    if line == [] {
      HandedNothing([]);
    } else if |line| <= LINE_LENGTH {
      assert line + [] == line;
      FgetsOnce(line, []);
    } else {
      assert line[..LINE_LENGTH] + line[LINE_LENGTH..] == line;
      FgetsOnce(line[..LINE_LENGTH], line[LINE_LENGTH..]);
    }
  }

  lemma FgetsWhole(head: string, tail: string)
    requires '\n' !in head + tail && |head| == LINE_LENGTH
    ensures FgetsLines(head + tail) == Handed(head) + FgetsLines(tail)
  {
    var line := head + tail;
    FgetsNothing();
    hide Handed, FgetsLines;
    FgetsPieces(line);
    assert line[..LINE_LENGTH] == head && line[LINE_LENGTH..] == tail;
    if tail == [] {
      assert line == head;
    }
  }

  lemma LengthOfShort(line: string, rest: string)
    requires '\n' !in line && |line| < LINE_LENGTH
    ensures ChunkLength(line + ['\n'] + rest) == |line| + 1
  {
    IndexOfFirst(line, '\n', rest);
  }

  lemma LengthOfLong(head: string, rest: string)
    requires '\n' !in head && |head| == LINE_LENGTH
    ensures ChunkLength(head + rest) == LINE_LENGTH
  {
    var s := head + rest;
    IndexOfMeaning(s, '\n');
    assert forall k | 0 <= k < |head| :: s[k] == head[k];
  }

  lemma {:induction false} FgetsCons(line: string, rest: string)
    requires '\n' !in line
    ensures FgetsLines(line + ['\n'] + rest) == FgetsLines(line) + FgetsLines(rest)
    decreases |line|
  {
    hide Handed, FgetsLines, ChunkLength;
    if |line| < LINE_LENGTH {
      LengthOfShort(line, rest);
      FgetsOnce(line + ['\n'], rest);
      HandedIgnoresEnd(line, ['\n']);
      FgetsPieces(line);
    } else {
      var head, tail := line[..LINE_LENGTH], line[LINE_LENGTH..];
      assert line == head + tail;
      FgetsCons(tail, rest);
      FgetsConsLong(head, tail, rest);
    }
  }

  lemma FgetsConsLong(head: string, tail: string, rest: string)
    requires '\n' !in head + tail && |head| == LINE_LENGTH
    requires FgetsLines(tail + ['\n'] + rest) == FgetsLines(tail) + FgetsLines(rest)
    ensures FgetsLines(head + tail + ['\n'] + rest) == FgetsLines(head + tail) + FgetsLines(rest)
  {
    hide Handed, FgetsLines, ChunkLength;
    var behind := tail + ['\n'] + rest;
    assert '\n' !in head;
    LengthOfLong(head, behind);
    FgetsOnce(head, behind);
    FgetsWhole(head, tail);
    assert head + behind == head + tail + ['\n'] + rest;
  }

  // ---- Carriage returns ----

  predicate CrFree(lines: seq<string>) {
    forall l | l in lines :: '\r' !in l
  }

  // Every line between line feeds fits the buffer.
  predicate LfLinesFit(content: string) {
    forall l | l in LfLines(content) :: |l| <= LINE_LENGTH
  }

  // No line has a carriage return in front of its trailing white space.
  predicate CrOnlyTrailing(content: string) {
    forall l | l in LfLines(content) :: '\r' !in TrimEnd(l)
  }

  lemma {:induction false} SplitIsOneLine(s: string)
    ensures forall l | l in Split(s) :: OneLine(l)
  {
    if s != [] {
      var front, c := s[..|s| - 1], s[|s| - 1];
      SplitIsOneLine(front);
      var lines := Split(front);
      assert lines[|lines| - 1] in lines;
    }
  }

  lemma {:induction false} CutIsOneLine(lines: seq<string>)
    requires forall l | l in lines :: OneLine(l)
    ensures forall l | l in CutAll(lines) :: OneLine(l)
  {
    if lines != [] {
      CutIsOneLine(lines[..|lines| - 1]);
      assert OneLine(lines[|lines| - 1]);
    }
  }

  lemma {:induction false} HandedIsCrFree(lines: seq<string>)
    requires forall l | l in lines :: OneLine(l)
    ensures CrFree(HandedAll(lines))
  {
    if lines != [] {
      var raw := lines[|lines| - 1];
      HandedIsCrFree(lines[..|lines| - 1]);
      assert OneLine(raw);
      CStringMeaning(raw);
      TrimEndMeaning(CString(raw));
    }
  }

  // The walker never hands on a carriage return.
  lemma WalkerIsCrFree(content: string)
    ensures CrFree(WalkerLines(content))
  {
    hide OneLine, HandedAll, CrFree;
    SplitIsOneLine(content);
    CutIsOneLine(Split(content));
    HandedIsCrFree(CutAll(Split(content)));
  }

  lemma AllTrailingSuffix(s: string, k: nat)
    requires AllTrailing(s) && NoNul(s) && k <= |s|
    ensures AllTrailing(s[..k]) && NoNul(s[..k]) && AllTrailing(s[k..]) && NoNul(s[k..])
  {}

  // White space is handed on by neither loader.
  lemma {:induction false} WalkerOfTrailing(end: string)
    requires AllTrailing(end) && NoNul(end) && |end| <= LINE_LENGTH
    ensures WalkerLines(end) == []
    decreases |end|
  {
    hide Handed, WalkerLines, AllTrailing, NoNul, OneLine;
    var i := EolIndex(end);
    AllTrailingSuffix(end, i);
    WalkerOneLine(end[..i]);
    HandedNothing(end[..i]);
    if i < |end| {
      AllTrailingSuffix(end, i + 1);
      WalkerOfTrailing(end[i + 1..]);
      assert end == end[..i] + [end[i]] + end[i + 1..];
      WalkerCons(end[..i], end[i], end[i + 1..]);
    } else {
      assert end[..i] == end;
    }
  }

  lemma OneLineAppend(a: string, b: string)
    requires OneLine(a) && OneLine(b)
    ensures OneLine(a + b)
  {}

  // A line with its white space is handed on like the line.
  lemma WalkerOfClean(line: string, end: string)
    requires OneLine(line) && AllTrailing(end) && NoNul(end) && |line + end| <= LINE_LENGTH
    ensures WalkerLines(line + end) == Handed(line)
  {
    hide Handed, WalkerLines, AllTrailing, NoNul, OneLine;
    var i := EolIndex(end);
    var blanks := end[..i];
    AllTrailingSuffix(end, i);
    OneLineAppend(line, blanks);
    WalkerOneLine(line + blanks);
    HandedIgnoresEnd(line, blanks);
    if i < |end| {
      var rest := end[i + 1..];
      AllTrailingSuffix(end, i + 1);
      WalkerOfTrailing(rest);
      assert line + end == (line + blanks) + [end[i]] + rest;
      WalkerCons(line + blanks, end[i], rest);
    } else {
      assert blanks == end;
    }
  }

  lemma HandedHasCr(line: string)
    requires NoNul(line) && '\r' in TrimEnd(line)
    ensures !CrFree(Handed(line))
  {
    CStringOfPrefix(line, []);
    TrimStartKeepsCr(TrimEnd(line));
  }

  lemma {:induction false} TrimStartKeepsCr(s: string)
    requires '\r' in s
    ensures TrimStart(s) != []
  {
    if IsBlank(s[0]) {
      TrimStartKeepsCr(s[1..]);
    }
  }

  // For a text without NUL whose lines fit the buffer, the loaders hand on the same lines exactly when
  // every carriage return is part of the white space at the end of its line.
  lemma {:induction false} SameLinesExactlyForCr(content: string)
    requires NoNul(content) && LfLinesFit(content)
    ensures CrOnlyTrailing(content) ==> WalkerLines(content) == FgetsLines(content)
    ensures !CrOnlyTrailing(content) ==> !CrFree(FgetsLines(content))
    ensures WalkerLines(content) == FgetsLines(content) <==> CrOnlyTrailing(content)
    decreases |content|
  {
    WalkerIsCrFree(content);
    hide WalkerLines, FgetsLines, Handed, CrFree;
    if '\n' in content {
      var line, rest := FirstLf(content);
      LfCons(line, rest);
      CrOfFirst(line, rest);
      OneLineCr(line);
      WalkerCons(line, '\n', rest);
      FgetsCons(line, rest);
      SameLinesExactlyForCr(rest);
      CrFreeParts(FgetsLines(line), FgetsLines(rest));
    } else {
      LfCons(content, []);
      OneLineCr(content);
    }
  }

  lemma CrFreeParts(a: seq<string>, b: seq<string>)
    ensures CrFree(a + b) <==> CrFree(a) && CrFree(b)
  {
    if CrFree(a + b) {
      assert forall l | l in a :: l in a + b;
      assert forall l | l in b :: l in a + b;
    }
  }

  lemma CrOfFirst(line: string, rest: string)
    requires '\n' !in line
    requires NoNul(line + ['\n'] + rest) && LfLinesFit(line + ['\n'] + rest)
    ensures NoNul(line) && NoNul(rest) && |line| <= LINE_LENGTH && LfLinesFit(rest)
    ensures CrOnlyTrailing(line + ['\n'] + rest) <==> '\r' !in TrimEnd(line) && CrOnlyTrailing(rest)
  {
    hide LfLines, TrimEnd;
    var content := line + ['\n'] + rest;
    LfCons(line, rest);
    assert forall c | c in line :: c in content;
    assert forall c | c in rest :: c in content;
    assert line in LfLines(content);
    assert forall l | l in LfLines(rest) :: l in LfLines(content);
    assert forall l | l in LfLines(content) :: l == line || l in LfLines(rest);
  }

  lemma PartsOfTrimmed(line: string)
    requires NoNul(line) && '\n' !in line && '\r' !in TrimEnd(line)
    ensures |TrimEnd(line)| <= |line| && OneLine(TrimEnd(line)) && NoNul(line[|TrimEnd(line)|..])
  {
    TrimEndMeaning(line);
    assert forall c | c in TrimEnd(line) :: c in line;
  }

  lemma WalkerOfTrimmed(line: string)
    requires NoNul(line) && '\n' !in line && |line| <= LINE_LENGTH && '\r' !in TrimEnd(line)
    ensures WalkerLines(line) == Handed(line)
  {
    hide Handed, WalkerLines, AllTrailing, NoNul, OneLine, TrimEnd;
    var t := TrimEnd(line);
    TrimEndMeaning(line);
    var end := line[|t|..];
    assert line == t + end;
    PartsOfTrimmed(line);
    WalkerOfClean(t, end);
    HandedIgnoresEnd(t, end);
  }

  lemma OneLineCr(line: string)
    requires NoNul(line) && '\n' !in line && |line| <= LINE_LENGTH
    ensures '\r' !in TrimEnd(line) ==> WalkerLines(line) == FgetsLines(line)
    ensures '\r' in TrimEnd(line) ==> !CrFree(FgetsLines(line))
  {
    hide WalkerLines, FgetsLines, Handed, CrFree;
    FgetsPieces(line);
    if '\r' in TrimEnd(line) {
      HandedHasCr(line);
    } else {
      WalkerOfTrimmed(line);
    }
  }

  // ---- Long lines ----

  predicate AllBlank(s: string) {
    forall i | 0 <= i < |s| :: IsBlank(s[i])
  }

  // What the buffer walker drops of the line is blank.
  predicate TailBlank(line: string) {
    |line| <= LINE_LENGTH || AllBlank(line[LINE_LENGTH..])
  }

  predicate TailsBlank(content: string) {
    forall l | l in LfLines(content) :: TailBlank(l)
  }

  lemma {:induction false} TrimStartOfBlank(s: string)
    ensures TrimStart(s) == [] <==> AllBlank(s)
  {
    if s != [] {
      TrimStartOfBlank(s[1..]);
      assert s == [s[0]] + s[1..];
      if IsBlank(s[0]) && AllBlank(s[1..]) {
        assert forall i | 1 <= i < |s| :: s[i] == s[1..][i - 1];
      }
    }
  }

  // Nothing is handed on of a line exactly when it is blank.
  lemma NothingHandedExactly(line: string)
    requires OneLine(line) && NoNul(line)
    ensures Handed(line) == [] <==> AllBlank(line)
  {
    CStringOfPrefix(line, []);
    var t := TrimEnd(line);
    TrimEndMeaning(line);
    TrimStartOfBlank(t);
    if AllBlank(line) {
      TrimEndOfTrailing(line);
    }
    assert t != [] ==> !IsBlank(t[|t| - 1]);
    if t == [] {
      assert line[0..] == line;
    }
  }

  lemma OneLineSlice(s: string, k: nat)
    requires OneLine(s) && NoNul(s) && k <= |s|
    ensures OneLine(s[..k]) && NoNul(s[..k]) && OneLine(s[k..]) && NoNul(s[k..])
    ensures '\n' !in s
  {}

  lemma BlankSlice(s: string, k: nat)
    requires k <= |s|
    ensures AllBlank(s) <==> AllBlank(s[..k]) && AllBlank(s[k..])
  {
    assert forall i | k <= i < |s| :: s[i] == s[k..][i - k];
  }

  lemma {:induction false} NothingReadExactly(line: string)
    requires OneLine(line) && NoNul(line)
    ensures FgetsLines(line) == [] <==> AllBlank(line)
    decreases |line|
  {
    hide Handed, FgetsLines, OneLine, NoNul, AllBlank;
    OneLineSlice(line, 0);
    FgetsPieces(line);
    if |line| <= LINE_LENGTH {
      NothingHandedExactly(line);
    } else {
      OneLineSlice(line, LINE_LENGTH);
      NothingHandedExactly(line[..LINE_LENGTH]);
      NothingReadExactly(line[LINE_LENGTH..]);
      BlankSlice(line, LINE_LENGTH);
    }
  }

  lemma OneLineLength(line: string)
    requires OneLine(line) && NoNul(line)
    ensures |WalkerLines(line)| <= |FgetsLines(line)|
    ensures TailBlank(line) ==> WalkerLines(line) == FgetsLines(line)
    ensures !TailBlank(line) ==> |WalkerLines(line)| < |FgetsLines(line)|
  {
    hide Handed, FgetsLines, WalkerLines, OneLine, NoNul, AllBlank;
    OneLineSlice(line, 0);
    WalkerOneLine(line);
    FgetsPieces(line);
    if |line| > LINE_LENGTH {
      OneLineSlice(line, LINE_LENGTH);
      NothingReadExactly(line[LINE_LENGTH..]);
    }
  }

  lemma TailsOfFirst(line: string, rest: string)
    requires '\n' !in line && NoNul(line + ['\n'] + rest) && '\r' !in line + ['\n'] + rest
    ensures OneLine(line) && NoNul(line) && NoNul(rest) && '\r' !in rest
    ensures TailsBlank(line + ['\n'] + rest) <==> TailBlank(line) && TailsBlank(rest)
  {
    hide LfLines, TailBlank;
    var content := line + ['\n'] + rest;
    LfCons(line, rest);
    assert forall c | c in line :: c in content;
    assert forall c | c in rest :: c in content;
    assert line in LfLines(content);
    assert forall l | l in LfLines(rest) :: l in LfLines(content);
    assert forall l | l in LfLines(content) :: l == line || l in LfLines(rest);
  }

  // For a text without NUL and carriage return, of lines of any length, the loaders hand on the same
  // lines exactly when nothing but blanks lies behind the first 511 characters of each line.
  lemma {:induction false} SameLinesExactlyForLength(content: string)
    requires NoNul(content) && '\r' !in content
    ensures |WalkerLines(content)| <= |FgetsLines(content)|
    ensures TailsBlank(content) ==> WalkerLines(content) == FgetsLines(content)
    ensures !TailsBlank(content) ==> |WalkerLines(content)| < |FgetsLines(content)|
    ensures WalkerLines(content) == FgetsLines(content) <==> TailsBlank(content)
    decreases |content|
  {
    hide WalkerLines, FgetsLines, TailBlank;
    if '\n' in content {
      var line, rest := FirstLf(content);
      LfCons(line, rest);
      TailsOfFirst(line, rest);
      OneLineLength(line);
      WalkerCons(line, '\n', rest);
      FgetsCons(line, rest);
      SameLinesExactlyForLength(rest);
    } else {
      LfCons(content, []);
      OneLineLength(content);
    }
  }
}
