/** Reading back what the printer wrote: which configurations survive, and from any starting point. */
module ConfigRoundTrip {
  import opened BsdTypes
  import opened CStrings
  import opened Lines
  import opened ConfigText
  import opened ConfigFormat
  import opened ConfigLoading
  import opened ConfigAgreement

  // ---- Numbers ----

  predicate AllDigits(s: string) {
    forall i | 0 <= i < |s| :: IsDigit(s[i])
  }

  lemma {:induction false} DecimalIsNumber(n: nat)
    ensures Decimal(n) != [] && AllDigits(Decimal(n))
    ensures DecimalValue(Decimal(n)) == n
  {
    if n < 10 {
      assert Decimal(n)[..0] == [];
    } else {
      DecimalIsNumber(n / 10);
      var front := Decimal(n / 10);
      assert Decimal(n)[..|front|] == front;
      assert Decimal(n)[|front|] == DigitChar(n % 10);
    }
  }

  lemma {:induction false} LeadingDigitsOfDigits(s: string)
    requires AllDigits(s)
    ensures LeadingDigits(s) == s
  {
    if s != [] {
      LeadingDigitsOfDigits(s[1..]);
    }
  }

  // strtoul undoes the printing of every number that fits 64 bits.
  lemma StrToUlOfDecimal(n: uint64)
    ensures StrToUl(Decimal(n)) == n
  {
    DecimalIsNumber(n);
    LeadingDigitsOfDigits(Decimal(n));
    assert IsDigit(Decimal(n)[0]);
  }

  // ---- The text ----

  lemma {:induction false} SplitGrow(s: string, front: seq<string>, line: string)
    requires Split(s) == front + [""] && OneLine(line)
    ensures Split(s + line) == front + [line]
  {
    if line == [] {
      assert s + line == s;
    } else {
      var short, c := line[..|line| - 1], line[|line| - 1];
      SplitGrow(s, front, short);
      assert s + line == (s + short) + [c] && short + [c] == line;
      assert !IsEol(c);
      hide Split;
      SplitSnoc(s + short, c);
      assert (front + [short])[..|front|] == front;
    }
  }

  lemma {:induction false} SplitUnlines(lines: seq<string>)
    requires forall l | l in lines :: OneLine(l)
    ensures Split(Unlines(lines)) == lines + [""]
  {
    if lines != [] {
      var front, line := lines[..|lines| - 1], lines[|lines| - 1];
      SplitUnlines(front);
      SplitGrow(Unlines(front), front, line);
      hide Split, OneLine;
      assert front + [line] == lines;
      SplitSnoc(Unlines(front) + line, '\n');
    }
  }

  predicate ShortLine(l: string) {
    OneLine(l) && |l| <= LINE_LENGTH
  }

  predicate ShortLines(lines: seq<string>) {
    forall l | l in lines :: ShortLine(l)
  }

  // A text written line by line is walked line by line.
  lemma WalkedUnlines(lines: seq<string>, st: State)
    requires ShortLines(lines)
    ensures Walked(Unlines(lines), st) == ProcessLines(lines, st)
  {
    hide ProcessLine;
    SplitUnlines(lines);
    CutAllOfShort(lines + [""]);
    ProcessLinesAppend(lines, [""], st);
    BlankLineVanishes("", ProcessLines(lines, st));
    var done := ProcessLines(lines, st);
    assert ProcessLines([""], done) == ProcessLine("", done) by {
      assert [""][..0] == [];
    }
  }

  // ---- Single lines ----

  lemma {:induction false} TrimEndKeepsFirst(s: string)
    requires s != [] && !IsTrailing(s[0])
    ensures TrimEnd(s) != [] && TrimEnd(s)[0] == s[0]
  {
    if IsTrailing(s[|s| - 1]) {
      TrimEndKeepsFirst(s[..|s| - 1]);
    }
  }

  lemma CommentVanishes(line: string, st: State)
    requires line != [] && line[0] == ';'
    ensures ProcessLine(line, st) == st
  {
    TrimEndKeepsFirst(CString(line));
  }

  lemma SectionLine(line: string, st: State)
    requires NoNul(line) && ParseSection(line) != NoSection
    requires line != [] && line[0] == '[' && line[|line| - 1] == ']'
    ensures ProcessLine(line, st) == State(ParseSection(line), st.config)
  {
    CStringOfPrefix(line, []);
  }

  predicate KeyCharacter(c: char) {
    'a' <= c <= 'z' || c == '_' || '0' <= c <= '9'
  }

  predicate PlainKey(key: string) {
    0 < |key| <= KEY_LENGTH && forall i | 0 <= i < |key| :: KeyCharacter(key[i])
  }

  predicate RealSection(section: Section) {
    section != NoSection && section != Unknown
  }

  // What is left of a value once the line has been trimmed, split and trimmed again.
  function Stored(value: string): string {
    ValueOf(TrimEnd(value))
  }

  lemma SettingLine(key: string, value: string, st: State)
    requires PlainKey(key) && NoNul(value) && RealSection(st.section)
    ensures ProcessLine(Setting(key, value), st)
         == st.(config := ProcessKey(st.section, key, Stored(value), st.config))
  {
    hide ProcessTrimmed, ProcessKey, TrimEnd, CString;
    CStringOfPrefix(Setting(key, value), []) by { KeyHasNoNul(key, value); }
    TrimSetting(key, value);
    var v := TrimEnd(value);
    TrimmedSetting(key, if v == [] then [] else " " + v, st);
    BlankInFront(v);
  }

  lemma KeyHasNoNul(key: string, value: string)
    requires PlainKey(key) && NoNul(value)
    ensures NoNul(Setting(key, value))
  {
    assert forall i | 0 <= i < |key| :: KeyCharacter(key[i]);
  }

  lemma BlankInFront(v: string)
    ensures ValueOf(" " + v) == ValueOf(v)
  {
    assert (" " + v)[1..] == v;
  }

  // The trimmed line of a setting.
  lemma TrimmedSetting(key: string, rest: string, st: State)
    requires PlainKey(key) && RealSection(st.section)
    ensures ProcessTrimmed(key + " " + ['='] + rest, st)
         == st.(config := ProcessKey(st.section, key, ValueOf(rest), st.config))
  {
    hide ProcessKey, KeyOf, ValueOf, TrimEnd;
    var line := key + " " + ['='] + rest;
    assert KeyCharacter(key[0]) && line[0] == key[0];
    assert TrimStart(line) == line;
    assert ParseSection(line) == NoSection;
    assert '=' !in key + " " by { assert forall i | 0 <= i < |key| :: KeyCharacter(key[i]); }
    IndexOfFirst(key + " ", '=', rest);
    assert line[..|key| + 1] == key + " " && line[|key| + 2..] == rest;
    KeyOfPlain(key);
  }

  lemma TrimSetting(key: string, value: string)
    requires PlainKey(key)
    ensures TrimEnd(Setting(key, value))
         == key + " " + ['='] + if TrimEnd(value) == [] then [] else " " + TrimEnd(value)
  {
    var v := TrimEnd(value);
    var head := key + " = ";
    TrimEndAppend(head, value);
    if v == [] {
      assert head[..|head| - 1] == key + " " + ['='];
      assert head == head[..|head| - 1] + " ";
      assert TrimEnd(head) == TrimEnd(head[..|head| - 1]);
    } else {
      assert head + v == key + " " + ['='] + (" " + v);
    }
  }

  lemma KeyOfPlain(key: string)
    requires PlainKey(key)
    ensures KeyOf(key + " ") == key
  {
    assert KeyCharacter(key[0]) && KeyCharacter(key[|key| - 1]);
    assert (key + " ")[..|key|] == key;
    assert TrimStart(key + " ") == key + " ";
    assert TrimEnd(key + " ") == TrimEnd(key) == key;
  }

  // ---- Values that survive ----

  // Neither end is a space or a tab, and it is one line.
  predicate Tidy(s: string) {
    OneLine(s) && (s != [] ==> !IsBlank(s[0]) && !IsBlank(s[|s| - 1]))
  }

  lemma {:induction false} TrimStartSuffix(s: string)
    ensures |TrimStart(s)| <= |s| && TrimStart(s) == s[|s| - |TrimStart(s)|..]
    ensures TrimStart(s) != [] ==> !IsBlank(TrimStart(s)[0])
  {
    if s != [] && IsBlank(s[0]) {
      TrimStartSuffix(s[1..]);
    }
  }

  // Neither end is one that trimming would take off.
  predicate Trimmed(s: string) {
    s != [] ==> !IsBlank(s[0]) && !IsTrailing(s[|s| - 1])
  }

  // The second trimming at the end has nothing left to do.
  lemma StoredIsTrimmed(s: string)
    ensures Stored(s) == TrimStart(TrimEnd(s))
  {
    var v := TrimEnd(s);
    TrimEndMeaning(s);
    TrimStartSuffix(v);
    var w := TrimStart(v);
    hide TrimStart;
    assert w != [] ==> w[|w| - 1] == v[|v| - 1];
    assert TrimEnd(w) == w;
  }

  lemma TrimEndFixed(s: string)
    ensures TrimEnd(s) <= s
    ensures TrimEnd(s) == s <==> s == [] || !IsTrailing(s[|s| - 1])
  {
    TrimEndMeaning(s);
  }

  lemma TrimStartFixed(s: string)
    ensures |TrimStart(s)| <= |s|
    ensures TrimStart(s) == s <==> s == [] || !IsBlank(s[0])
  {
    TrimStartSuffix(s);
  }

  lemma StoredMeaning(s: string)
    ensures Stored(s) == s <==> Trimmed(s)
    ensures |Stored(s)| <= |s|
  {
    StoredIsTrimmed(s);
    hide Stored, TrimEnd, TrimStart;
    TrimEndFixed(s);
    TrimStartFixed(TrimEnd(s));
    if |TrimEnd(s)| == |s| {
      assert TrimEnd(s) == s;
    }
  }

  // A one-line value is stored as it was exactly when it is tidy.
  lemma StoredExactly(s: string)
    requires OneLine(s)
    ensures Stored(s) == s <==> Tidy(s)
    ensures |Stored(s)| <= |s|
  {
    StoredMeaning(s);
    if s != [] {
      assert !IsEol(s[|s| - 1]);
    }
  }

  lemma {:induction false} OneLineParts(s: string)
    requires OneLine(s)
    ensures OneLine(CString(s)) && OneLine(TrimEnd(s)) && OneLine(TrimStart(s)) && OneLine(ValueOf(s))
  {
    CStringMeaning(s);
    TrimEndMeaning(s);
    TrimStartSuffix(s);
    TrimEndMeaning(TrimStart(s));
  }

  // ---- Sections ----

  lemma NothingProcessed(lines: seq<string>, st: State)
    ensures ProcessLines(lines[..0], st) == st
  {}

  lemma OneMore(lines: seq<string>, k: nat, st: State)
    requires k < |lines|
    ensures ProcessLines(lines[..k + 1], st) == ProcessLine(lines[k], ProcessLines(lines[..k], st))
  {
    assert lines[..k + 1][..k] == lines[..k];
  }

  lemma FlagRestored(b: bool)
    ensures ParseBool(Stored(Flag(b))) == b && NoNul(Flag(b))
  {
    StoredExactly(Flag(b));
  }

  lemma Uint32Restored(n: uint32)
    ensures ParseUint32(Stored(Decimal(n))) == n && NoNul(Decimal(n))
  {
    DecimalIsTidy(n);
    StoredExactly(Decimal(n));
    StrToUlOfDecimal(n);
  }

  lemma Uint16Restored(n: uint16)
    ensures ParseUint16(Stored(Decimal(n))) == n && NoNul(Decimal(n))
  {
    DecimalIsTidy(n);
    StoredExactly(Decimal(n));
    StrToUlOfDecimal(n);
  }

  lemma DecimalIsTidy(n: nat)
    ensures Tidy(Decimal(n)) && NoNul(Decimal(n))
  {
    DecimalIsNumber(n);
    assert forall i | 0 <= i < |Decimal(n)| :: IsDigit(Decimal(n)[i]);
  }

  lemma HeaderVanishes(st: State)
    ensures ProcessLines(HeaderLines(), st) == st
  {
    hide ProcessLine, ProcessLines;
    var lines := HeaderLines();
    NothingProcessed(lines, st);
    OneMore(lines, 0, st);
    CommentVanishes(lines[0], st);
    OneMore(lines, 1, st);
    CommentVanishes(lines[1], st);
    OneMore(lines, 2, st);
    CommentVanishes(lines[2], st);
    OneMore(lines, 3, st);
    BlankLineVanishes("", st);
    assert lines[..4] == lines;
  }

  lemma SectionHeader(lines: seq<string>, header: string, st: State)
    requires lines != [] && lines[0] == header
    requires NoNul(header) && ParseSection(header) != NoSection
    requires header != [] && header[0] == '[' && header[|header| - 1] == ']'
    ensures ProcessLines(lines[..1], st) == State(ParseSection(header), st.config)
  {
    hide ProcessLine, ParseSection;
    OneMore(lines, 0, st);
    assert lines[..0] == [];
    SectionLine(header, st);
  }

  // A comment and then the setting it explains.
  lemma CommentedSetting(lines: seq<string>, k: nat, key: string, value: string, st: State, before: State)
    requires k + 1 < |lines| && ProcessLines(lines[..k], st) == before
    requires lines[k] != [] && lines[k][0] == ';' && lines[k + 1] == Setting(key, value)
    requires PlainKey(key) && NoNul(value) && RealSection(before.section)
    ensures ProcessLines(lines[..k + 2], st)
         == before.(config := ProcessKey(before.section, key, Stored(value), before.config))
  {
    hide ProcessLine, ProcessLines, Setting, ProcessKey;
    OneMore(lines, k, st);
    CommentVanishes(lines[k], before);
    OneMore(lines, k + 1, st);
    SettingLine(key, value, before);
  }

  lemma ServerSection(c: ServerConfig, st: State)
    requires NoNul(c.host) && |c.host| <= MAX_HOST_LENGTH
    ensures ProcessLines(ServerLines(c), st) == State(Server, st.config.(server := c.(host := Stored(c.host))))
  {
    hide ProcessLine, ProcessLines, Setting, Decimal, Flag, Stored, ParseBool, ParseUint16, ParseUint32;
    var lines := ServerLines(c);
    SectionHeader(lines, "[server]", st);
    var s0 := State(Server, st.config);
    StoredMeaning(c.host);
    CommentedSetting(lines, 1, "host", c.host, st, s0);
    var s1 := s0.(config := s0.config.(server := s0.config.server.(host := Stored(c.host))));
    Uint16Restored(c.port);
    CommentedSetting(lines, 3, "port", Decimal(c.port), st, s1);
    var s2 := s1.(config := s1.config.(server := s1.config.server.(port := c.port)));
    FlagRestored(c.useTls);
    CommentedSetting(lines, 5, "use_tls", Flag(c.useTls), st, s2);
    var s3 := s2.(config := s2.config.(server := s2.config.server.(useTls := c.useTls)));
    OneMore(lines, 7, st);
    BlankLineVanishes("", s3);
    assert lines[..8] == lines;
  }

  lemma NetworkKeys()
    ensures PlainKey("connect_timeout")
    ensures PlainKey("ping_interval")
    ensures PlainKey("reconnect_delay")
    ensures PlainKey("max_reconnect_attempts")
  {}

  lemma LdnKeys()
    ensures PlainKey("enabled")
    ensures PlainKey("passphrase")
    ensures PlainKey("interface")
    ensures PlainKey("disable_p2p")
  {}

  lemma NetworkSection(c: NetworkConfig, st: State)
    ensures ProcessLines(NetworkLines(c), st) == State(Network, st.config.(network := c))
  {
    hide ProcessLine, ProcessLines, Setting, Decimal, Flag, Stored, ParseBool, ParseUint16, ParseUint32, PlainKey;
    NetworkKeys();
    var lines := NetworkLines(c);
    SectionHeader(lines, "[network]", st);
    var s0 := State(Network, st.config);
    Uint32Restored(c.connectTimeoutMs);
    CommentedSetting(lines, 1, "connect_timeout", Decimal(c.connectTimeoutMs), st, s0);
    var s1 := s0.(config := s0.config.(network := s0.config.network.(connectTimeoutMs := c.connectTimeoutMs)));
    Uint32Restored(c.pingIntervalMs);
    CommentedSetting(lines, 3, "ping_interval", Decimal(c.pingIntervalMs), st, s1);
    var s2 := s1.(config := s1.config.(network := s1.config.network.(pingIntervalMs := c.pingIntervalMs)));
    Uint32Restored(c.reconnectDelayMs);
    CommentedSetting(lines, 5, "reconnect_delay", Decimal(c.reconnectDelayMs), st, s2);
    var s3 := s2.(config := s2.config.(network := s2.config.network.(reconnectDelayMs := c.reconnectDelayMs)));
    Uint32Restored(c.maxReconnectAttempts);
    CommentedSetting(lines, 7, "max_reconnect_attempts", Decimal(c.maxReconnectAttempts), st, s3);
    var s4 := s3.(config := s3.config.(network := s3.config.network.(maxReconnectAttempts := c.maxReconnectAttempts)));
    OneMore(lines, 9, st);
    BlankLineVanishes("", s4);
    assert lines[..10] == lines;
  }

  lemma LdnSection(c: LdnConfig, st: State)
    requires NoNul(c.passphrase) && |c.passphrase| <= MAX_PASSPHRASE_LENGTH
    requires NoNul(c.interfaceName) && |c.interfaceName| <= MAX_INTERFACE_LENGTH
    ensures ProcessLines(LdnLines(c), st) == State(Ldn, st.config.(ldn := c.(passphrase := Stored(c.passphrase), interfaceName := Stored(c.interfaceName))))
  {
    hide ProcessLine, ProcessLines, Setting, Decimal, Flag, Stored, ParseBool, ParseUint16, ParseUint32, PlainKey;
    LdnKeys();
    var lines := LdnLines(c);
    SectionHeader(lines, "[ldn]", st);
    var s0 := State(Ldn, st.config);
    FlagRestored(c.enabled);
    CommentedSetting(lines, 1, "enabled", Flag(c.enabled), st, s0);
    var s1 := s0.(config := s0.config.(ldn := s0.config.ldn.(enabled := c.enabled)));
    StoredMeaning(c.passphrase);
    CommentedSetting(lines, 3, "passphrase", c.passphrase, st, s1);
    var s2 := s1.(config := s1.config.(ldn := s1.config.ldn.(passphrase := Stored(c.passphrase))));
    StoredMeaning(c.interfaceName);
    CommentedSetting(lines, 5, "interface", c.interfaceName, st, s2);
    var s3 := s2.(config := s2.config.(ldn := s2.config.ldn.(interfaceName := Stored(c.interfaceName))));
    FlagRestored(c.disableP2p);
    CommentedSetting(lines, 7, "disable_p2p", Flag(c.disableP2p), st, s3);
    var s4 := s3.(config := s3.config.(ldn := s3.config.ldn.(disableP2p := c.disableP2p)));
    OneMore(lines, 9, st);
    BlankLineVanishes("", s4);
    assert lines[..10] == lines;
  }

  lemma DebugSection(c: DebugConfig, st: State)
    ensures ProcessLines(DebugLines(c), st) == State(Debug, st.config.(debug := c))
  {
    hide ProcessLine, ProcessLines, Setting, Decimal, Flag, Stored, ParseBool, ParseUint16, ParseUint32;
    var lines := DebugLines(c);
    SectionHeader(lines, "[debug]", st);
    var s0 := State(Debug, st.config);
    FlagRestored(c.enabled);
    CommentedSetting(lines, 1, "enabled", Flag(c.enabled), st, s0);
    var s1 := s0.(config := s0.config.(debug := s0.config.debug.(enabled := c.enabled)));
    Uint32Restored(c.level);
    CommentedSetting(lines, 3, "level", Decimal(c.level), st, s1);
    var s2 := s1.(config := s1.config.(debug := s1.config.debug.(level := c.level)));
    FlagRestored(c.logToFile);
    CommentedSetting(lines, 5, "log_to_file", Flag(c.logToFile), st, s2);
    var s3 := s2.(config := s2.config.(debug := s2.config.debug.(logToFile := c.logToFile)));
    assert lines[..7] == lines;
  }

  // ---- The whole file ----

  // What the strings of a configuration come back as.
  function Restored(c: Config): Config {
    c.(server := c.server.(host := Stored(c.server.host)),
       ldn := c.ldn.(passphrase := Stored(c.ldn.passphrase), interfaceName := Stored(c.ldn.interfaceName)))
  }

  predicate StringsOneLine(c: Config) {
    OneLine(c.server.host) && OneLine(c.ldn.passphrase) && OneLine(c.ldn.interfaceName)
  }

  predicate StringsTidy(c: Config) {
    Tidy(c.server.host) && Tidy(c.ldn.passphrase) && Tidy(c.ldn.interfaceName)
  }

  lemma LinesRestore(c: Config, st: State)
    requires Fits(c)
    ensures ProcessLines(ConfigLines(c), st) == State(Debug, Restored(c))
  {
    hide ProcessLines, HeaderLines, ServerLines, NetworkLines, LdnLines, DebugLines, OneLine, NoNul, Stored;
    var h, s, n, l, d := HeaderLines(), ServerLines(c.server), NetworkLines(c.network), LdnLines(c.ldn),
                         DebugLines(c.debug);
    ProcessLinesAppend(h + s + n + l, d, st);
    ProcessLinesAppend(h + s + n, l, st);
    ProcessLinesAppend(h + s, n, st);
    ProcessLinesAppend(h, s, st);
    HeaderVanishes(st);
    ServerSection(c.server, st);
    NetworkSection(c.network, ProcessLines(h + s, st));
    LdnSection(c.ldn, ProcessLines(h + s + n, st));
    DebugSection(c.debug, ProcessLines(h + s + n + l, st));
  }

  // ---- The saved text is made of short lines ----

  predicate Printable(s: string) {
    |s| < 50 && forall i | 0 <= i < |s| :: ' ' <= s[i] <= '~'
  }

  lemma ShortComment(a: string, b: string)
    requires Printable(a) && Printable(b)
    ensures ShortLine(Comment(a + b)) && ShortLine(Comment(a))
  {}

  lemma HeaderComments1()
    ensures ShortLine(Comment("ryu_ldn_nx Configuration"))
    ensures ShortLine(Comment("Auto-generated on first boot"))
  {
    hide ShortLine, Comment;
    ShortComment("ryu_ldn_nx Configuration", []);
    ShortComment("Auto-generated on first boot", []);
  }

  lemma HeaderComments2()
    ensures ShortLine(Comment("Edit this file to customize settings"))
  {
    hide ShortLine, Comment;
    ShortComment("Edit this file to customize settings", []);
  }

  lemma ServerComments1()
    ensures ShortLine(Comment("Server hostname or IP address"))
    ensures ShortLine(Comment("Server port"))
  {
    hide ShortLine, Comment;
    ShortComment("Server hostname or IP address", []);
    ShortComment("Server port", []);
  }

  lemma ServerComments2()
    ensures ShortLine(Comment("Use TLS encryption (0/1)"))
  {
    hide ShortLine, Comment;
    ShortComment("Use TLS encryption (0/1)", []);
  }

  lemma NetworkComments1()
    ensures ShortLine(Comment("Connection timeout in milliseconds"))
    ensures ShortLine(Comment("Ping interval in milliseconds"))
  {
    hide ShortLine, Comment;
    ShortComment("Connection timeout in milliseconds", []);
    ShortComment("Ping interval in milliseconds", []);
  }

  lemma NetworkComments2()
    ensures ShortLine(Comment("Reconnect delay in milliseconds"))
    ensures ShortLine(Comment("Max reconnect attempts " + "(0 = disable auto-reconnect)"))
  {
    hide ShortLine, Comment;
    ShortComment("Reconnect delay in milliseconds", []);
    ShortComment("Max reconnect attempts ", "(0 = disable auto-reconnect)");
  }

  lemma LdnComments1()
    ensures ShortLine(Comment("Enable LDN emulation (0/1)"))
    ensures ShortLine(Comment("Room passphrase (empty = public)"))
  {
    hide ShortLine, Comment;
    ShortComment("Enable LDN emulation (0/1)", []);
    ShortComment("Room passphrase (empty = public)", []);
  }

  lemma LdnComments2()
    ensures ShortLine(Comment("Network interface (empty = auto)"))
    ensures ShortLine(Comment("Disable P2P proxy (0/1) - " + "like Ryujinx MultiplayerDisableP2p"))
  {
    hide ShortLine, Comment;
    ShortComment("Network interface (empty = auto)", []);
    ShortComment("Disable P2P proxy (0/1) - ", "like Ryujinx MultiplayerDisableP2p");
  }

  lemma DebugComments1()
    ensures ShortLine(Comment("Enable debug logging (0/1)"))
    ensures ShortLine(Comment("Log level (0=errors, 1=warnings, " + "2=info, 3=verbose)"))
  {
    hide ShortLine, Comment;
    ShortComment("Enable debug logging (0/1)", []);
    ShortComment("Log level (0=errors, 1=warnings, ", "2=info, 3=verbose)");
  }

  lemma DebugComments2()
    ensures ShortLine(Comment("Log to file (0/1)"))
  {
    hide ShortLine, Comment;
    ShortComment("Log to file (0/1)", []);
  }

  lemma ShortSetting(key: string, value: string)
    requires PlainKey(key) && OneLine(value) && |value| <= MAX_HOST_LENGTH
    ensures ShortLine(Setting(key, value))
  {
    assert forall i | 0 <= i < |key| :: KeyCharacter(key[i]);
  }

  lemma ShortNumber(key: string, n: uint32)
    requires PlainKey(key)
    ensures ShortLine(Setting(key, Decimal(n)))
  {
    DecimalIsTidy(n);
    Uint32Length(n);
    ShortSetting(key, Decimal(n));
  }

  lemma ShortFlag(key: string, b: bool)
    requires PlainKey(key)
    ensures ShortLine(Setting(key, Flag(b)))
  {
    ShortSetting(key, Flag(b));
  }

  lemma ShortHeadings()
    ensures ShortLine("[server]") && ShortLine("[network]") && ShortLine("[ldn]") && ShortLine("[debug]")
    ensures ShortLine("")
  {}

  lemma HeaderShort()
    ensures ShortLines(HeaderLines())
  {
    hide ShortLine, Comment, Setting, Decimal, Flag;
    HeaderComments1();
    HeaderComments2();
    ShortHeadings();
  }

  lemma ServerShort(c: ServerConfig)
    requires OneLine(c.host) && |c.host| <= MAX_HOST_LENGTH
    ensures ShortLines(ServerLines(c))
  {
    hide ShortLine, Comment, Setting, Decimal, Flag;
    ServerComments1();
    ServerComments2();
    ShortSetting("host", c.host);
    ShortNumber("port", c.port);
    ShortFlag("use_tls", c.useTls);
    ShortHeadings();
  }

  lemma NetworkShort(c: NetworkConfig)
    ensures ShortLines(NetworkLines(c))
  {
    hide ShortLine, Comment, Setting, Decimal, Flag, PlainKey;
    NetworkKeys();
    NetworkComments1();
    NetworkComments2();
    ShortNumber("connect_timeout", c.connectTimeoutMs);
    ShortNumber("ping_interval", c.pingIntervalMs);
    ShortNumber("reconnect_delay", c.reconnectDelayMs);
    ShortNumber("max_reconnect_attempts", c.maxReconnectAttempts);
    ShortHeadings();
  }

  lemma LdnShort(c: LdnConfig)
    requires OneLine(c.passphrase) && |c.passphrase| <= MAX_PASSPHRASE_LENGTH
    requires OneLine(c.interfaceName) && |c.interfaceName| <= MAX_INTERFACE_LENGTH
    ensures ShortLines(LdnLines(c))
  {
    hide ShortLine, Comment, Setting, Decimal, Flag, PlainKey;
    LdnKeys();
    LdnComments1();
    LdnComments2();
    ShortFlag("enabled", c.enabled);
    ShortSetting("passphrase", c.passphrase);
    ShortSetting("interface", c.interfaceName);
    ShortFlag("disable_p2p", c.disableP2p);
    ShortHeadings();
  }

  lemma DebugShort(c: DebugConfig)
    ensures ShortLines(DebugLines(c))
  {
    hide ShortLine, Comment, Setting, Decimal, Flag;
    DebugComments1();
    DebugComments2();
    ShortFlag("enabled", c.enabled);
    ShortNumber("level", c.level);
    ShortFlag("log_to_file", c.logToFile);
    ShortHeadings();
  }

  lemma ConfigShort(c: Config)
    requires Fits(c) && StringsOneLine(c)
    ensures ShortLines(ConfigLines(c))
  {
    hide ShortLine, HeaderLines, ServerLines, NetworkLines, LdnLines, DebugLines, OneLine;
    HeaderShort();
    ServerShort(c.server);
    NetworkShort(c.network);
    LdnShort(c.ldn);
    DebugShort(c.debug);
  }

  // ---- What the loaders store ----

  lemma OneLineSuffix(s: string, k: nat)
    requires OneLine(s) && k <= |s|
    ensures OneLine(s[k..])
  {}

  lemma KeyStoresOneLine(section: Section, key: string, value: string, c: Config)
    requires OneLine(value) && StringsOneLine(c)
    ensures StringsOneLine(ProcessKey(section, key, value, c))
  {}

  lemma LineStoresOneLine(raw: string, st: State)
    requires OneLine(raw) && StringsOneLine(st.config)
    ensures StringsOneLine(ProcessLine(raw, st).config)
  {
    hide ProcessKey, StringsOneLine, CString, TrimEnd, TrimStart, KeyOf, ValueOf, OneLine;
    var line := TrimEnd(CString(raw));
    OneLineParts(raw);
    OneLineParts(CString(raw));
    IndexOfMeaning(line, '=');
    if IndexOf(line, '=').Some? {
      var eq := IndexOf(line, '=').value;
      var value := line[eq + 1..];
      OneLineSuffix(line, eq + 1);
      OneLineParts(value);
      KeyStoresOneLine(st.section, KeyOf(line[..eq]), ValueOf(value), st.config);
    }
  }

  lemma {:induction false} LinesStoreOneLine(lines: seq<string>, st: State)
    requires (forall l | l in lines :: OneLine(l)) && StringsOneLine(st.config)
    ensures StringsOneLine(ProcessLines(lines, st).config)
  {
    hide ProcessLine, OneLine, StringsOneLine;
    if lines != [] {
      LinesStoreOneLine(lines[..|lines| - 1], st);
      LineStoresOneLine(lines[|lines| - 1], ProcessLines(lines[..|lines| - 1], st));
    }
  }

  // No text makes a loader store a line break.
  lemma LoadedIsOneLine(content: string, start: Config)
    requires StringsOneLine(start)
    ensures StringsOneLine(Loaded(content, start))
  {
    hide StringsOneLine, OneLine;
    SplitIsOneLine(content);
    CutIsOneLine(Split(content));
    LinesStoreOneLine(CutAll(Split(content)), State(NoSection, start));
  }

  // ---- Round trips ----

  // What save_config writes, and what the two loaders make of a text.
  function Saved(c: Config): string {
    Unlines(ConfigLines(c))
  }

  function Loaded(content: string, start: Config): Config {
    Walked(content, State(NoSection, start)).config
  }

  function LoadedWithFgets(content: string, start: Config): Config {
    Chunked(content, State(NoSection, start)).config
  }

  lemma SavedIsRestored(c: Config, start: Config)
    requires Fits(c) && StringsOneLine(c)
    ensures Loaded(Saved(c), start) == Restored(c)
  {
    hide ConfigLines, ShortLines, Restored;
    ConfigShort(c);
    WalkedUnlines(ConfigLines(c), State(NoSection, start));
    LinesRestore(c, State(NoSection, start));
  }

  lemma RestoredExactly(c: Config)
    requires StringsOneLine(c)
    ensures Restored(c) == c <==> StringsTidy(c)
  {
    hide OneLine, Tidy, Stored;
    StoredExactly(c.server.host);
    StoredExactly(c.ldn.passphrase);
    StoredExactly(c.ldn.interfaceName);
  }

  // Loading a saved configuration restores all of it, over any starting configuration.
  lemma RoundTrip(c: Config, start: Config)
    requires Fits(c) && StringsTidy(c)
    ensures Loaded(Saved(c), start) == c
    ensures LoadedWithFgets(Saved(c), start) == c
  {
    SavedIsRestored(c, start);
    RestoredExactly(c);
    SavedSuitsBothLoaders(c);
    LoadersAgree(Saved(c), State(NoSection, start));
  }

  // And no other configuration comes back from every start.
  lemma RoundTripExactly(c: Config)
    requires Fits(c)
    ensures (forall start :: Loaded(Saved(c), start) == c) <==> StringsTidy(c)
  {
    hide Loaded, Saved, Fits, Tidy, OneLine;
    if StringsTidy(c) {
      forall start
        ensures Loaded(Saved(c), start) == c
      {
        RoundTrip(c, start);
      }
    } else {
      var start := DefaultConfig();
      assert Loaded(Saved(c), start) != c by {
        if StringsOneLine(c) {
          SavedIsRestored(c, start);
          RestoredExactly(c);
        } else {
          DefaultIsTidy();
          TidyIsOneLine(start);
          LoadedIsOneLine(Saved(c), start);
        }
      }
    }
  }

  lemma TidyIsOneLine(c: Config)
    requires StringsTidy(c)
    ensures StringsOneLine(c)
  {}

  lemma {:induction false} UnlinesHasNoCr(lines: seq<string>)
    requires forall l | l in lines :: OneLine(l)
    ensures '\r' !in Unlines(lines)
  {
    if lines != [] {
      UnlinesHasNoCr(lines[..|lines| - 1]);
      var l := lines[|lines| - 1];
      assert '\r' !in l by { assert OneLine(l); }
    }
  }

  lemma SavedSuitsBothLoaders(c: Config)
    requires Fits(c) && StringsOneLine(c)
    ensures CrOnlyBeforeLf(Saved(c)) && LinesFit(Saved(c))
  {
    hide ConfigLines, Fits, StringsOneLine, OneLine;
    ConfigShort(c);
    UnlinesHasNoCr(ConfigLines(c));
    SplitUnlines(ConfigLines(c));
  }

  lemma DefaultIsTidy()
    ensures Fits(DefaultConfig()) && StringsTidy(DefaultConfig())
  {
    PrintableIsTidy(DEFAULT_HOST);
    PrintableIsTidy([]);
    hide Tidy, NoNul, OneLine;
  }

  lemma PrintableIsTidy(s: string)
    requires Printable(s) && (s != [] ==> s[0] != ' ' && s[|s| - 1] != ' ')
    ensures Tidy(s) && NoNul(s)
  {}

  // ---- Where the loaders part ----

  // The loaders disagree on a value with a carriage return in it: the walker stores "a", fgets all of it.
  lemma LoneCrChangesTheHost(st: State)
    requires st.section == Server
    ensures Walked(Setting("host", "a") + "\r" + "b", st).config.server.host == "a"
    ensures Chunked(Setting("host", "a") + "\r" + "b", st).config.server.host == "a\rb"
  {
    var line := Setting("host", "a");
    HostLine();
    hide Setting, ProcessLine, Walked, Chunked, Stored, OneLine, TrimEnd, TrimStart, NoNul, PlainKey;
    LoneCrDivides(line, "b", st);
    SettingLine("host", "a", st);
    StoredAsIs();
    NoEqualsVanishes(ProcessLine(line, st));
    SettingLine("host", "a\rb", st);
  }

  lemma HostLine()
    ensures OneLine(Setting("host", "a")) && OneLine("b") && |Setting("host", "a")| == 8
    ensures Setting("host", "a") + "\r" + "b" == Setting("host", "a\rb")
    ensures PlainKey("host") && NoNul("a") && NoNul("a\rb")
  {
    assert Setting("host", "a") == "host = a";
  }

  lemma StoredAsIs()
    ensures Stored("a") == "a" && Stored("a\rb") == "a\rb"
  {
    StoredExactly("a");
  }

  lemma NoEqualsVanishes(st: State)
    ensures ProcessLine("b", st) == st
  {
    CStringOfPrefix("b", []);
    IndexOfMeaning("b", '=');
  }

  // A comment of just 511 characters and a setting behind it: the walker drops the setting with the
  // comment, fgets reads it as a line of its own.
  lemma LongCommentHidesASetting(comment: string, st: State)
    requires OneLine(comment) && |comment| == LINE_LENGTH && comment[0] == ';' && st.section == Server
    ensures Walked(comment + Setting("host", "a"), st) == st
    ensures Chunked(comment + Setting("host", "a"), st).config.server.host == "a"
  {
    var setting := Setting("host", "a");
    var line := comment + setting;
    HostLine();
    OneLineAppend(comment, setting);
    hide Setting, ProcessLine, Walked, Chunked, Stored, OneLine, TrimEnd, TrimStart, NoNul, PlainKey;
    LongLineDivides(line, st);
    assert line[..LINE_LENGTH] == comment && line[LINE_LENGTH..] == setting;
    CommentVanishes(comment, st);
    SettingLine("host", "a", st);
    StoredAsIs();
  }

  // Over the default configuration the two loaders then store different hosts.
  lemma LongLineChangesTheHost()
    ensures var comment := seq(LINE_LENGTH, _ => ';');
            var st := State(Server, DefaultConfig());
            && Walked(comment + Setting("host", "a"), st).config.server.host == DEFAULT_HOST
            && Chunked(comment + Setting("host", "a"), st).config.server.host == "a" != DEFAULT_HOST
  {
    LongCommentHidesASetting(seq(LINE_LENGTH, _ => ';'), State(Server, DefaultConfig()));
    hide Walked, Chunked, Setting;
    assert |DEFAULT_HOST| == 15;
  }
}
