/** The two configuration loaders: one walks a buffer, the other reads a file with fgets. */
module ConfigLoader {
  import opened CStrings
  import opened Lines
  import opened ConfigText
  import opened ConfigLoading
  import opened LineBuffer

  const LINE_BUFFER_SIZE: nat := LINE_LENGTH + 1
  const KEY_BUFFER_SIZE: nat := KEY_LENGTH + 1

  // A key=value line of a known section; both halves are cut out of the line buffer.
  method ProcessSetting(line: array<char>, eq: nat, section: Section, config: Config) returns (r: Config)
    requires Terminated(line[..], 0) && eq < |StringAt(line[..], 0)|
    modifies line
    ensures var s := old(StringAt(line[..], 0));
            r == ProcessKey(section, KeyOf(s[..eq]), ValueOf(s[eq + 1..]), config)
  {
    hide StringAt, TrimStart, TrimEnd, ValueOf, ProcessKey, Take;
    var key, value := SplitKeyValue(line, eq);
    var keyBuffer := new char[KEY_BUFFER_SIZE];
    SafeStrcpy(keyBuffer, line, key, KEY_BUFFER_SIZE - 1);
    TrimEndAt(keyBuffer, 0);
    r := ProcessKey(section, StringAt(keyBuffer[..], 0), StringAt(line[..], value), config);
  }

  // The body of both loaders' loops.
  method ProcessBuffer(line: array<char>, section: Section, config: Config) returns (section': Section, config': Config)
    requires Terminated(line[..], 0)
    modifies line
    ensures State(section', config') == ProcessLine(old(line[..]), State(section, config))
  {
    section', config' := section, config;
    ghost var st := State(section, config);
    assert StringAt(line[..], 0) == CString(line[..]) by { assert line[..][0..] == line[..]; }
    ghost var s := TrimEnd(CString(line[..]));
    hide StringAt, TrimStart, TrimEnd, Terminated, ProcessKey, CString, ParseSection, KeyOf, ValueOf;
    TrimEndAt(line, 0);
    var trimmed := TrimStartAt(line, 0);
    FirstCharacter(line[..], trimmed);
    if line[trimmed] != '\0' {
      if line[trimmed] != ';' && line[trimmed] != '#' {
        var newSection := ParseSection(StringAt(line[..], trimmed));
        if newSection != NoSection {
          section' := newSection;
        } else if section != NoSection && section != Unknown {
          var eq := StrChr(line, 0, '=');
          if eq >= 0 {
            config' := ProcessSetting(line, eq, section, config);
          }
        }
      }
    }
  }

  // A string is empty when the character it starts at is its terminator.
  lemma FirstCharacter(buffer: seq<char>, at: nat)
    requires Terminated(buffer, at)
    ensures at < |buffer|
    ensures StringAt(buffer, at) == [] <==> buffer[at] == '\0'
    ensures buffer[at] != '\0' ==> StringAt(buffer, at)[0] == buffer[at]
  {}

  // What lies behind the terminator of a buffer is not part of its line.
  lemma LineOfBuffer(buffer: seq<char>, pos: nat, st: State)
    requires pos < |buffer| && buffer[pos] == '\0'
    ensures ProcessLine(buffer, st) == ProcessLine(buffer[..pos], st)
  {
    assert buffer == buffer[..pos] + buffer[pos..];
    CStringAppend(buffer[..pos], buffer[pos..]);
    assert CString(buffer[pos..]) == [];
    if NoNul(buffer[..pos]) {
      CStringOfPrefix(buffer[..pos], []);
      assert CString(buffer) == buffer[..pos] + [] == buffer[..pos] == CString(buffer[..pos]);
    }
  }

  // Terminates the line that was collected and processes it, unless it is empty.
  method EndLine(line: array<char>, pos: nat, section: Section, config: Config)
    returns (section': Section, config': Config)
    requires pos < line.Length
    modifies line
    ensures State(section', config') == ProcessLine(old(line[..pos]), State(section, config))
  {
    ghost var st := State(section, config);
    ghost var text := line[..pos];
    line[pos] := '\0';
    assert line[..][..pos] == text;
    LineOfBuffer(line[..], pos, st);
    if pos > 0 {
      assert Terminated(line[..], 0) by { assert line[..][0..][pos] == '\0'; }
      hide ProcessLine;
      section', config' := ProcessBuffer(line, section, config);
    } else {
      BlankLineVanishes("", st);
      section', config' := section, config;
    }
  }

  // ---- The buffer walker ----

  // After i characters: `line` is the unfinished line, as far as the line buffer holds it, and st is
  // what the finished lines came to.
  ghost predicate WalkedTo(content: string, i: nat, line: string, st: State, start: State) {
    i <= |content| &&
    var lines := Split(content[..i]);
    line == Take(lines[|lines| - 1], LINE_LENGTH) && st == ProcessLines(CutAll(lines[..|lines| - 1]), start)
  }

  lemma WalkCharacter(content: string, i: nat, line: string, st: State, start: State)
    requires WalkedTo(content, i, line, st, start) && i < |content| && !IsEol(content[i])
    ensures WalkedTo(content, i + 1, if |line| < LINE_LENGTH then line + [content[i]] else line, st, start)
  {
    hide ProcessLines, Split;
    assert content[..i + 1] == content[..i] + [content[i]];
    SplitSnoc(content[..i], content[i]);
  }

  lemma WalkLineEnd(content: string, i: nat, line: string, st: State, start: State)
    requires WalkedTo(content, i, line, st, start) && i < |content| && IsEol(content[i])
    ensures WalkedTo(content, i + 1, "", ProcessLine(line, st), start)
  {
    hide ProcessLine, Split;
    assert content[..i + 1] == content[..i] + [content[i]];
    SplitSnoc(content[..i], content[i]);
    var lines := Split(content[..i]);
    assert (lines + [""])[..|lines|] == lines;
    WalkLine(lines, line, start);
  }

  lemma WalkLine(lines: seq<string>, line: string, start: State)
    requires lines != [] && line == Take(lines[|lines| - 1], LINE_LENGTH)
    ensures ProcessLines(CutAll(lines), start)
         == ProcessLine(line, ProcessLines(CutAll(lines[..|lines| - 1]), start))
  {
    hide ProcessLine;
    var front := CutAll(lines[..|lines| - 1]);
    assert (front + [line])[..|front + [line]| - 1] == front;
  }

  lemma WalkDone(content: string, line: string, st: State, start: State)
    requires WalkedTo(content, |content|, line, st, start)
    ensures Walked(content, start) == ProcessLine(line, st)
  {
    hide ProcessLine, Split;
    assert content[..|content|] == content;
    WalkLine(Split(content), line, start);
  }

  // The loader for a whole file in memory.
  method ParseConfigContent(content: string, config: Config) returns (r: Config)
    ensures r == Walked(content, State(NoSection, config)).config
  {
    var line := new char[LINE_BUFFER_SIZE];
    var section, linePos, i := NoSection, 0, 0;
    r := config;
    ghost var start := State(NoSection, config);
    assert WalkedTo(content, 0, line[..0], start, start);
    hide Walked, WalkedTo, ProcessLine;
    while i <= |content|
      invariant 0 <= linePos <= LINE_LENGTH
      invariant 0 <= i <= |content| + 1
      invariant i <= |content| ==> WalkedTo(content, i, line[..linePos], State(section, r), start)
      invariant i == |content| + 1 ==> State(section, r) == Walked(content, start)
    {
      ghost var text, st := line[..linePos], State(section, r);
      if i == |content| || content[i] == '\n' || content[i] == '\r' {
        section, r := EndLine(line, linePos, section, r);
        linePos := 0;
        if i == |content| {
          WalkDone(content, text, st, start);
        } else {
          WalkLineEnd(content, i, text, st, start);
        }
        if i < |content| && content[i] == '\r' && i + 1 < |content| && content[i + 1] == '\n' {
          i := i + 1;
          WalkLineEnd(content, i, "", State(section, r), start);
          BlankLineVanishes("", State(section, r));
        }
      } else {
        WalkCharacter(content, i, text, st, start);
        if linePos < LINE_BUFFER_SIZE - 1 {
          line[linePos] := content[i];
          linePos := linePos + 1;
          assert line[..linePos] == text + [content[i]];
        }
      }
      i := i + 1;
    }
  }

  // ---- The fgets loop ----

  // Reads up to and including the next line feed, but no more than the buffer holds.
  method Fgets(line: array<char>, file: string, pos: nat) returns (n: nat)
    requires line.Length == LINE_BUFFER_SIZE && pos < |file|
    modifies line
    ensures n == ChunkLength(file[pos..])
    ensures line[..n] == file[pos..pos + n] && line[n] == '\0'
  {
    ghost var rest := file[pos..];
    IndexOfMeaning(rest, '\n');
    n := 0;
    while n < LINE_BUFFER_SIZE - 1 && pos + n < |file| && (n == 0 || file[pos + n - 1] != '\n')
      invariant 0 <= n <= LINE_LENGTH && pos + n <= |file|
      invariant n > 0 ==> '\n' !in rest[..n - 1]
      invariant line[..n] == file[pos..pos + n]
    {
      line[n] := file[pos + n];
      n := n + 1;
      assert n > 1 ==> rest[..n - 1] == rest[..n - 2] + [rest[n - 2]];
    }
    line[n] := '\0';
    FirstLineFeed(rest, n);
  }

  lemma FirstLineFeed(rest: string, n: nat)
    requires 0 < n <= LINE_LENGTH && n <= |rest| && '\n' !in rest[..n - 1]
    requires n == LINE_LENGTH || n == |rest| || rest[n - 1] == '\n'
    ensures n == ChunkLength(rest)
  {
    IndexOfMeaning(rest, '\n');
    if rest[n - 1] == '\n' {
      assert rest == rest[..n - 1] + ['\n'] + rest[n..];
      IndexOfFirst(rest[..n - 1], '\n', rest[n..]);
    }
  }

  lemma ChunkStep(file: string, pos: nat, n: nat, line: seq<char>, st: State)
    requires pos < |file| && n == ChunkLength(file[pos..])
    requires n < |line| && line[..n] == file[pos..pos + n] && line[n] == '\0'
    ensures Chunked(file[pos..], st) == Chunked(file[pos + n..], ProcessLine(line, st))
    ensures Terminated(line, 0)
  {
    hide ProcessLine;
    LineOfBuffer(line, n, st);
    assert line[..n] == file[pos..][..n];
    assert file[pos..][n..] == file[pos + n..];
    assert line[0..][n] == '\0';
  }

  // One turn of the loop: what is left of the file is what the chunk does and then the rest.
  method LoadChunk(line: array<char>, file: string, pos: nat, section: Section, config: Config)
    returns (pos': nat, section': Section, config': Config)
    requires line.Length == LINE_BUFFER_SIZE && pos < |file|
    modifies line
    ensures pos < pos' <= |file|
    ensures Chunked(file[pos..], State(section, config)) == Chunked(file[pos'..], State(section', config'))
  {
    hide ProcessLine, Chunked, Terminated;
    var n := Fgets(line, file, pos);
    assert line[..][..n] == line[..n];
    ChunkStep(file, pos, n, line[..], State(section, config));
    section', config' := ProcessBuffer(line, section, config);
    pos' := pos + n;
  }

  lemma NothingChunked(st: State)
    ensures Chunked([], st) == st
  {}

  // The loader for a file read line by line.
  method LoadConfigFile(file: string, config: Config) returns (r: Config)
    ensures r == Chunked(file, State(NoSection, config)).config
    ensures CrOnlyBeforeLf(file) && LinesFit(file) ==> r == Walked(file, State(NoSection, config)).config
  {
    hide Chunked, Walked, LinesFit, CrOnlyBeforeLf;
    var line := new char[LINE_BUFFER_SIZE];
    var section, pos := NoSection, 0;
    r := config;
    ghost var start := State(NoSection, config);
    assert file[0..] == file;
    while pos < |file|
      invariant 0 <= pos <= |file|
      invariant Chunked(file[pos..], State(section, r)) == Chunked(file, start)
    {
      pos, section, r := LoadChunk(line, file, pos, section, r);
    }
    assert file[pos..] == [];
    NothingChunked(State(section, r));
    if CrOnlyBeforeLf(file) && LinesFit(file) {
      LoadersAgree(file, start);
    }
  }
}
