/** The round trip through the fgets loop, which keeps carriage returns inside a line. */
module ConfigFgetsRoundTrip {
  import opened BsdTypes
  import opened CStrings
  import opened ConfigText
  import opened ConfigFormat
  import opened ConfigLoading
  import opened ConfigAgreement
  import opened ConfigRoundTrip

  predicate NoLf(s: string) {
    '\n' !in s
  }

  predicate StringsNoLf(c: Config) {
    NoLf(c.server.host) && NoLf(c.ldn.passphrase) && NoLf(c.ldn.interfaceName)
  }

  // No line feed, no blank in front, no white space at the end.
  predicate StringsKept(c: Config) {
    && StringsNoLf(c)
    && Trimmed(c.server.host) && Trimmed(c.ldn.passphrase) && Trimmed(c.ldn.interfaceName)
  }

  // ---- Reading what the printer wrote ----

  predicate FgetsLine(l: string) {
    NoLf(l) && |l| <= LINE_LENGTH
  }

  predicate FgetsLinesOnly(lines: seq<string>) {
    forall l | l in lines :: FgetsLine(l)
  }

  lemma {:induction false} UnlinesCons(line: string, rest: seq<string>)
    ensures Unlines([line] + rest) == line + ['\n'] + Unlines(rest)
  {
    var lines := [line] + rest;
    if rest == [] {
      assert lines[..0] == [];
    } else {
      var front, last := rest[..|rest| - 1], rest[|rest| - 1];
      assert lines[..|lines| - 1] == [line] + front;
      UnlinesCons(line, front);
    }
  }

  lemma {:induction false} FgetsOfUnlines(lines: seq<string>)
    requires FgetsLinesOnly(lines)
    ensures FgetsLines(Unlines(lines)) == HandedAll(lines)
    decreases |lines|
  {
    hide Handed, FgetsLines, HandedAll, FgetsLine;
    if lines == [] {
      FgetsNothing();
      NothingToHand();
    } else {
      var line, rest := lines[0], lines[1..];
      assert lines == [line] + rest && FgetsLine(line);
      UnlinesCons(line, rest);
      FgetsOfUnlines(rest);
      OneLineRead(line, Unlines(rest));
      HandedAllAppend([line], rest);
      HandedAllOne(line);
    }
  }

  lemma NothingToHand()
    ensures HandedAll([]) == []
  {}

  lemma OneLineRead(line: string, rest: string)
    requires FgetsLine(line)
    ensures FgetsLines(line + ['\n'] + rest) == Handed(line) + FgetsLines(rest)
  {
    hide Handed, FgetsLines;
    FgetsCons(line, rest);
    FgetsPieces(line);
  }

  lemma ChunkedUnlines(lines: seq<string>, st: State)
    requires FgetsLinesOnly(lines)
    ensures Chunked(Unlines(lines), st) == ProcessLines(lines, st)
  {
    hide HandedAll, ProcessHanded, ProcessLines, FgetsLine;
    FgetsOfUnlines(lines);
    ChunkedIsLines(Unlines(lines), st);
    HandedDecides(Chunks(Unlines(lines)), st);
    HandedDecides(lines, st);
  }

  // ---- The lines of a configuration ----

  // The configuration with empty strings has the same lines but for three.
  function Emptied(c: Config): Config {
    c.(server := c.server.(host := ""), ldn := c.ldn.(passphrase := "", interfaceName := ""))
  }

  lemma ServerLinesAlike(c: ServerConfig, l: string)
    requires l in ServerLines(c)
    ensures l in ServerLines(c.(host := "")) || l == Setting("host", c.host)
  {
    hide Comment, Setting, Decimal, Flag;
    var i :| 0 <= i < |ServerLines(c)| && l == ServerLines(c)[i];
    assert i != 2 ==> ServerLines(c.(host := ""))[i] == l;
  }

  lemma LdnLinesAlike(c: LdnConfig, l: string)
    requires l in LdnLines(c)
    ensures l in LdnLines(c.(passphrase := "", interfaceName := "")) || l == Setting("passphrase", c.passphrase)
            || l == Setting("interface", c.interfaceName)
  {
    hide Comment, Setting, Decimal, Flag;
    var i :| 0 <= i < |LdnLines(c)| && l == LdnLines(c)[i];
    assert i != 4 && i != 6 ==> LdnLines(c.(passphrase := "", interfaceName := ""))[i] == l;
  }

  lemma LinesAlike(c: Config, l: string)
    requires l in ConfigLines(c)
    ensures l in ConfigLines(Emptied(c)) || l == Setting("host", c.server.host)
            || l == Setting("passphrase", c.ldn.passphrase) || l == Setting("interface", c.ldn.interfaceName)
  {
    hide HeaderLines, ServerLines, NetworkLines, LdnLines, DebugLines, Setting;
    if l in ServerLines(c.server) {
      ServerLinesAlike(c.server, l);
    } else if l in LdnLines(c.ldn) {
      LdnLinesAlike(c.ldn, l);
    }
  }

  lemma StringSetting(key: string, value: string)
    requires PlainKey(key) && NoLf(value) && |value| <= MAX_HOST_LENGTH
    ensures FgetsLine(Setting(key, value))
  {
    assert forall i | 0 <= i < |key| :: KeyCharacter(key[i]);
  }

  lemma StringKeys()
    ensures PlainKey("host") && PlainKey("passphrase") && PlainKey("interface")
  {}

  lemma ShortIsFgetsLine(l: string)
    requires ShortLine(l)
    ensures FgetsLine(l)
  {}

  lemma EmptyStringsFit(c: Config)
    ensures Fits(Emptied(c)) && StringsOneLine(Emptied(c))
  {}

  lemma ConfigIsFgetsLines(c: Config)
    requires Fits(c) && StringsNoLf(c)
    ensures FgetsLinesOnly(ConfigLines(c))
  {
    EmptyStringsFit(c);
    ConfigShort(Emptied(c));
    StringKeys();
    hide ConfigLines, FgetsLine, ShortLine, Setting, PlainKey, NoLf;
    StringSetting("host", c.server.host);
    StringSetting("passphrase", c.ldn.passphrase);
    StringSetting("interface", c.ldn.interfaceName);
    forall l | l in ConfigLines(c)
      ensures FgetsLine(l)
    {
      LinesAlike(c, l);
      if l in ConfigLines(Emptied(c)) {
        ShortIsFgetsLine(l);
      }
    }
  }

  lemma FgetsRestores(c: Config, start: Config)
    requires Fits(c) && StringsNoLf(c)
    ensures LoadedWithFgets(Saved(c), start) == Restored(c)
  {
    hide ConfigLines, FgetsLinesOnly, Restored;
    ConfigIsFgetsLines(c);
    ChunkedUnlines(ConfigLines(c), State(NoSection, start));
    LinesRestore(c, State(NoSection, start));
  }

  lemma RestoredWhenKept(c: Config)
    requires StringsNoLf(c)
    ensures Restored(c) == c <==> StringsKept(c)
  {
    hide NoLf, Trimmed, Stored;
    StoredMeaning(c.server.host);
    StoredMeaning(c.ldn.passphrase);
    StoredMeaning(c.ldn.interfaceName);
  }

  // ---- What the loader stores ----

  predicate AllNoLf(lines: seq<string>) {
    forall l | l in lines :: NoLf(l)
  }

  lemma HandedHasNoLf(raw: string)
    requires NoLf(raw)
    ensures AllNoLf(Handed(raw))
  {
    CStringMeaning(raw);
    TrimEndMeaning(CString(raw));
  }

  lemma {:induction false} LineHasNoLf(line: string)
    requires NoLf(line)
    ensures AllNoLf(FgetsLines(line))
    decreases |line|
  {
    hide Handed, FgetsLines;
    FgetsPieces(line);
    if |line| <= LINE_LENGTH {
      HandedHasNoLf(line);
    } else {
      HandedHasNoLf(line[..LINE_LENGTH]);
      LineHasNoLf(line[LINE_LENGTH..]);
    }
  }

  // The fgets loop never hands on a line feed.
  lemma {:induction false} FgetsHasNoLf(content: string)
    ensures AllNoLf(FgetsLines(content))
    decreases |content|
  {
    hide Handed, FgetsLines;
    if '\n' in content {
      var line, rest := FirstLf(content);
      LineHasNoLf(line);
      FgetsHasNoLf(rest);
      FgetsCons(line, rest);
    } else {
      LineHasNoLf(content);
    }
  }

  lemma ValueHasNoLf(s: string, k: nat)
    requires NoLf(s) && k <= |s|
    ensures NoLf(ValueOf(s[k..]))
  {
    var value := s[k..];
    TrimStartSuffix(value);
    TrimEndMeaning(TrimStart(value));
    assert forall c | c in TrimStart(value) :: c in value;
    assert forall c | c in value :: c in s;
  }

  lemma KeyStoresNoLf(section: Section, key: string, value: string, c: Config)
    requires NoLf(value) && StringsNoLf(c)
    ensures StringsNoLf(ProcessKey(section, key, value, c))
  {}

  lemma LineStoresNoLf(line: string, st: State)
    requires NoLf(line) && StringsNoLf(st.config)
    ensures StringsNoLf(ProcessTrimmed(line, st).config)
  {
    hide ProcessKey, StringsNoLf, TrimStart, KeyOf, ValueOf, NoLf, ParseSection;
    IndexOfMeaning(line, '=');
    if IndexOf(line, '=').Some? {
      var eq := IndexOf(line, '=').value;
      ValueHasNoLf(line, eq + 1);
      KeyStoresNoLf(st.section, KeyOf(line[..eq]), ValueOf(line[eq + 1..]), st.config);
    }
  }

  lemma {:induction false} HandedStoresNoLf(lines: seq<string>, st: State)
    requires AllNoLf(lines) && StringsNoLf(st.config)
    ensures StringsNoLf(ProcessHanded(lines, st).config)
  {
    hide ProcessTrimmed, NoLf, StringsNoLf;
    if lines != [] {
      HandedStoresNoLf(lines[..|lines| - 1], st);
      LineStoresNoLf(lines[|lines| - 1], ProcessHanded(lines[..|lines| - 1], st));
    }
  }

  lemma LoadedHasNoLf(content: string, start: Config)
    requires StringsNoLf(start)
    ensures StringsNoLf(LoadedWithFgets(content, start))
  {
    hide StringsNoLf, NoLf, HandedAll, Chunked, ProcessLines, ProcessHanded;
    var st := State(NoSection, start);
    FgetsHasNoLf(content);
    ChunkedIsLines(content, st);
    HandedDecides(Chunks(content), st);
    HandedStoresNoLf(FgetsLines(content), st);
  }

  // ---- The round trip ----

  lemma DefaultHasNoLf()
    ensures StringsNoLf(DefaultConfig())
  {
    DefaultIsTidy();
    TidyIsOneLine(DefaultConfig());
    OneLineHasNoLf(DefaultConfig());
  }

  lemma OneLineHasNoLf(c: Config)
    requires StringsOneLine(c)
    ensures StringsNoLf(c)
  {}

  // Through the fgets loop a configuration comes back from every start exactly when no string has a
  // line feed, a blank in front or white space at the end. Carriage returns inside a string come back.
  lemma FgetsRoundTripExactly(c: Config)
    requires Fits(c)
    ensures (forall start :: LoadedWithFgets(Saved(c), start) == c) <==> StringsKept(c)
  {
    hide LoadedWithFgets, Saved, Fits, NoLf, Trimmed, Restored;
    if StringsKept(c) {
      forall start
        ensures LoadedWithFgets(Saved(c), start) == c
      {
        FgetsRestores(c, start);
        RestoredWhenKept(c);
      }
    } else {
      var start := DefaultConfig();
      assert LoadedWithFgets(Saved(c), start) != c by {
        if StringsNoLf(c) {
          FgetsRestores(c, start);
          RestoredWhenKept(c);
        } else {
          DefaultHasNoLf();
          LoadedHasNoLf(Saved(c), start);
        }
      }
    }
  }
}
