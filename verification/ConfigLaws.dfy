/** What a line of a configuration file means, character by character. */
module ConfigLaws {
  import opened BsdTypes
  import opened CStrings
  import opened Lines
  import opened ConfigText
  import opened ConfigLoading

  // ---- White space ----

  predicate Spaces(s: string) {
    forall i | 0 <= i < |s| :: s[i] == ' ' || s[i] == '\t'
  }

  predicate SpacesOrEnds(s: string) {
    forall i | 0 <= i < |s| :: s[i] == ' ' || s[i] == '\t' || s[i] == '\r' || s[i] == '\n'
  }

  predicate StartsDark(s: string) {
    s != [] ==> s[0] != ' ' && s[0] != '\t'
  }

  // No white space at either end.
  predicate Inner(s: string) {
    StartsDark(s) &&
    (s != [] ==> s[|s| - 1] != ' ' && s[|s| - 1] != '\t' && s[|s| - 1] != '\r' && s[|s| - 1] != '\n')
  }

  lemma {:induction false} SpacesInFront(a: string, s: string)
    requires Spaces(a) && StartsDark(s)
    ensures TrimStart(a + s) == s
  {
    if a == [] {
      assert a + s == s;
    } else {
      assert (a + s)[1..] == a[1..] + s;
      SpacesInFront(a[1..], s);
    }
  }

  lemma SpacesBehind(s: string, e: string)
    requires SpacesOrEnds(e) && Inner(s)
    ensures TrimEnd(s + e) == s
  {
    TrimEndAppend(s, e);
    TrimEndOfTrailing(e);
  }

  lemma {:induction false} TrimStartOfTrailing(s: string)
    requires SpacesOrEnds(s)
    ensures ValueOf(s) == []
  {
    if s != [] && (s[0] == ' ' || s[0] == '\t') {
      TrimStartOfTrailing(s[1..]);
    } else {
      TrimEndOfTrailing(s);
    }
  }

  lemma SpacesAround(a: string, s: string, e: string)
    requires Spaces(a) && SpacesOrEnds(e) && Inner(s)
    ensures ValueOf(a + s + e) == s
  {
    if s == [] {
      assert a + s + e == a + e;
      TrimStartOfTrailing(a + e);
    } else {
      assert a + s + e == a + (s + e);
      SpacesInFront(a, s + e);
      SpacesBehind(s, e);
    }
  }

  // ---- Lines that set something ----

  // A key as the file format has it: at most 63 characters, no comment and no header.
  predicate IsKey(key: string) {
    && 0 < |key| <= 63 && Inner(key) && '=' !in key
    && key[0] != ';' && key[0] != '#' && key[0] != '['
  }

  lemma HeadOfLine(a: string, key: string, b: string)
    requires Spaces(a) && Spaces(b) && IsKey(key)
    ensures KeyOf(a + key + b) == key && '=' !in a + key + b
  {
    SpacesAround(a, key, b);
    SpacesBehind(key, []);
    assert key + [] == key;
  }

  lemma TrimmedAssignment(a: string, key: string, b: string, rest: string, st: State)
    requires Spaces(a) && Spaces(b) && IsKey(key)
    ensures ProcessTrimmed(a + key + b + ['='] + rest, st) ==
            if st.section == NoSection || st.section == Unknown then st
            else st.(config := ProcessKey(st.section, key, ValueOf(rest), st.config))
  {
    HeadOfLine(a, key, b);
    var head := a + key + b;
    var line := head + ['='] + rest;
    assert line == a + (key + b + ['='] + rest);
    SpacesInFront(a, key + b + ['='] + rest);
    IndexOfFirst(head, '=', rest);
    assert line[..|head|] == head && line[|head| + 1..] == rest;
    hide ProcessKey, KeyOf, ValueOf, TrimStart, IndexOf, Spaces;
  }

  lemma TrimmedLine(head: string, c: string, value: string, e: string)
    requires Spaces(c) && SpacesOrEnds(e) && Inner(value)
    ensures TrimEnd(head + ['='] + c + value + e) == head + ['='] + if value == [] then [] else c + value
  {
    if value == [] {
      assert head + ['='] + c + value + e == (head + ['=']) + (c + e);
      TrimEndAppend(head + ['='], c + e);
      TrimEndOfTrailing(c + e);
    } else {
      assert head + ['='] + c + value + e == (head + ['='] + c) + (value + e);
      SpacesBehind(value, e);
      TrimEndAppend(head + ['='] + c, value + e);
      assert (head + ['='] + c) + value == head + ['='] + (c + value);
    }
  }

  // `key = value` with any spaces and tabs around both sets the key of the current section; outside the
  // four sections it does nothing. The value may contain an equals sign.
  lemma Assignment(a: string, key: string, b: string, c: string, value: string, e: string, st: State)
    requires Spaces(a) && Spaces(b) && Spaces(c) && SpacesOrEnds(e) && IsKey(key) && Inner(value)
    requires NoNul(key) && NoNul(value)
    ensures ProcessLine(a + key + b + ['='] + c + value + e, st) ==
            if st.section == NoSection || st.section == Unknown then st
            else st.(config := ProcessKey(st.section, key, value, st.config))
  {
    var line := a + key + b + ['='] + c + value + e;
    assert NoNul(line);
    hide NoNul, ProcessTrimmed, ProcessKey, TrimEnd, CString;
    CStringOfPrefix(line, []);
    var rest := if value == [] then [] else c + value;
    TrimmedLine(a + key + b, c, value, e);
    TrimmedAssignment(a, key, b, rest, st);
    assert ValueOf(rest) == value by {
      SpacesAround(if value == [] then [] else c, value, []);
      assert rest == (if value == [] then [] else c) + value + [];
    }
  }

  // ---- Lines that set nothing ----

  // The first characters of the trimmed line.
  lemma TrimmedStart(a: string, rest: string) returns (trimmed: string)
    requires Spaces(a) && StartsDark(rest)
    ensures var line := TrimEnd(CString(a + rest));
            trimmed == TrimStart(line) && line <= a + rest
    ensures trimmed <= rest
  {
    CStringMeaning(a + rest);
    var line := TrimEnd(CString(a + rest));
    TrimEndMeaning(CString(a + rest));
    trimmed := TrimStart(line);
    if |line| <= |a| {
      assert Spaces(line);
      SpacesInFront(line, []);
      assert line + [] == line;
    } else {
      assert line == a + line[|a|..];
      assert line[|a|..] <= rest;
      SpacesInFront(a, line[|a|..]);
    }
  }

  // Comments, blank lines, and lines without an equals sign do nothing, unless they start with a bracket.
  lemma NoAssignment(a: string, rest: string, st: State)
    requires Spaces(a) && StartsDark(rest)
    requires rest != [] ==> rest[0] == ';' || rest[0] == '#' || ('=' !in a + rest && rest[0] != '[')
    ensures ProcessLine(a + rest, st) == st
  {
    var trimmed := TrimmedStart(a, rest);
    var line := TrimEnd(CString(a + rest));
    hide TrimEnd, CString, TrimStart, IndexOf, Spaces, KeyLine;
    if trimmed != [] && trimmed[0] != ';' && trimmed[0] != '#' {
      assert '=' !in line;
      IndexOfMeaning(line, '=');
    }
  }

  // A line in brackets starts a section: one of the four, or one whose lines do nothing.
  lemma Header(a: string, name: string, e: string, st: State)
    requires Spaces(a) && SpacesOrEnds(e) && Inner(name) && NoNul(name) && name != [] && name[0] == '['
    ensures var t := ProcessLine(a + name + e, st);
      && t.config == st.config
      && (name == "[server]" ==> t.section == Server) && (name == "[network]" ==> t.section == Network)
      && (name == "[ldn]" ==> t.section == Ldn) && (name == "[debug]" ==> t.section == Debug)
      && (name !in {"[server]", "[network]", "[ldn]", "[debug]"} ==> t.section == Unknown)
  {
    var line := a + name + e;
    assert NoNul(line);
    CStringOfPrefix(line, []);
    assert line == (a + name) + e;
    assert TrimEnd(line) == a + name by {
      TrimEndAppend(a + name, e);
      TrimEndOfTrailing(e);
      assert !IsTrailing((a + name)[|a + name| - 1]);
    }
    SpacesInFront(a, name);
    hide TrimEnd, CString, TrimStart, NoNul;
  }

  // A longer key counts as its first 63 characters.
  lemma LongKeyIsCut(a: string, key: string, b: string)
    requires Spaces(a) && Spaces(b) && Inner(key) && |key| > 63 && Inner(key[..63])
    ensures KeyOf(a + key + b) == key[..63]
  {
    SpacesAround(a, key, b);
    SpacesBehind(key[..63], []);
    assert key[..63] + [] == key[..63];
  }

  // ---- How the loaders cut a text into lines ----

  predicate NoEnds(s: string) {
    forall i | 0 <= i < |s| :: s[i] != '\n' && s[i] != '\r'
  }

  // The walker ends a line at every line feed and carriage return, and reads 511 characters of it.
  lemma WalkerReads(line: string, eol: char, rest: string, st: State)
    requires NoEnds(line) && (eol == '\n' || eol == '\r')
    ensures var read := if |line| <= 511 then line else line[..511];
      && Walked(line, st) == ProcessLine(read, st)
      && Walked(line + [eol] + rest, st) == Walked(rest, ProcessLine(read, st))
  {
    assert OneLine(line);
    WalkedOne(line, st);
    SplitCons(line, eol, rest);
    SplitOneLine(line);
    hide ProcessLine, Split, OneLine;
    CutAllAppend([line], Split(rest));
    ProcessLinesAppend(CutAll([line]), CutAll(Split(rest)), st);
  }

  // One read of the fgets loop: through the next line feed, 511 characters, or the rest of the text.
  lemma FgetsReads(read: string, rest: string, st: State)
    requires 0 < |read| <= 511 && forall i | 0 <= i < |read| - 1 :: read[i] != '\n'
    requires read[|read| - 1] == '\n' || |read| == 511 || rest == ""
    ensures Chunked(read + rest, st) == Chunked(rest, ProcessLine(read, st)) && Chunked("", st) == st
  {
    var front, last := read[..|read| - 1], read[|read| - 1];
    if last == '\n' {
      assert read + rest == front + ['\n'] + rest;
      IndexOfFirst(front, '\n', rest);
    } else {
      IndexOfMeaning(read + rest, '\n');
      assert forall i | 0 <= i < |read| :: (read + rest)[i] == read[i] != '\n';
    }
    hide ProcessLine;
    ChunkedOnce(read, rest, st);
  }

  // ---- Values ----

  // A flag is off exactly when it starts with 0, f, F, n or N: "false" and "no" are off, "off" is not.
  lemma FlagIsRead(first: char, rest: string)
    ensures ParseBool([first] + rest) <==> first != '0' && first != 'f' && first != 'F' && first != 'n' && first != 'N'
    ensures ParseBool("")
  {}

  const DIGITS := "0123456789"

  // `text` is n in base 10, with any number of leading zeros.
  predicate Denotes(text: string, n: nat) {
    if text == [] then n == 0
    else text[|text| - 1] == DIGITS[n % 10] && Denotes(text[..|text| - 1], n / 10)
  }

  lemma DigitOf(d: nat)
    requires d < 10
    ensures IsDigit(DIGITS[d]) && DIGITS[d] as int == '0' as int + d
  {}

  lemma OnlyDigits(c: char)
    ensures IsDigit(c) <==> c in DIGITS
  {
    if IsDigit(c) {
      DigitOf(c as int - '0' as int);
    }
  }

  predicate AllDigits(s: string) {
    forall i | 0 <= i < |s| :: IsDigit(s[i])
  }

  lemma {:induction false} DenotedNumber(text: string, n: nat)
    requires Denotes(text, n)
    ensures AllDigits(text) && DecimalValue(text) == n
  {
    if text != [] {
      DenotedNumber(text[..|text| - 1], n / 10);
      DigitOf(n % 10);
    }
  }

  lemma {:induction false} DigitsStop(text: string, rest: string)
    requires AllDigits(text) && (rest != [] ==> rest[0] !in DIGITS)
    ensures LeadingDigits(text + rest) == text
  {
    if text == [] {
      assert text + rest == rest;
      if rest != [] {
        OnlyDigits(rest[0]);
      }
    } else {
      assert (text + rest)[1..] == text[1..] + rest;
      DigitsStop(text[1..], rest);
    }
  }

  // Space, and the characters 9 to 13.
  predicate SkippedByStrToUl(s: string) {
    forall i | 0 <= i < |s| :: s[i] as int == 32 || 9 <= s[i] as int <= 13
  }

  lemma {:induction false} SpacesAreSkipped(a: string, s: string)
    requires SkippedByStrToUl(a) && (s != [] ==> !IsSpace(s[0]))
    ensures SkipSpaces(a + s) == s
  {
    if a == [] {
      assert a + s == s;
    } else {
      assert (a + s)[1..] == a[1..] + s;
      SpacesAreSkipped(a[1..], s);
    }
  }

  // A number is read up to the first character that is no digit. It stops growing at 2^64 - 1, and a
  // minus sign turns it into its complement to 2^64.
  lemma NumberIsRead(a: string, sign: string, text: string, n: nat, rest: string)
    requires SkippedByStrToUl(a) && (sign == "" || sign == "+" || sign == "-")
    requires text != [] && Denotes(text, n) && (rest != [] ==> rest[0] !in DIGITS)
    ensures StrToUl(a + sign + text + rest) ==
            if n >= 0x1_0000_0000_0000_0000 then 0xFFFF_FFFF_FFFF_FFFF
            else if sign == "-" && n > 0 then 0x1_0000_0000_0000_0000 - n
            else n
  {
    DenotedNumber(text, n);
    DigitsStop(text, rest);
    var s := sign + (text + rest);
    assert a + sign + text + rest == a + s;
    assert IsDigit(text[0]);
    assert s[0] == if sign == "" then text[0] else sign[0];
    SpacesAreSkipped(a, s);
    var signed := s[0] == '+' || s[0] == '-';
    assert (if signed then s[1..] else s) == text + rest;
    hide SkipSpaces, LeadingDigits, DecimalValue, Denotes, SkippedByStrToUl;
  }

  // Anything else counts as 0.
  lemma NoNumberIsZero(value: string)
    requires value != [] ==> value[0] !in DIGITS && value[0] != '+' && value[0] != '-' && !IsSpace(value[0])
    ensures StrToUl(value) == 0
  {
    if value != [] {
      OnlyDigits(value[0]);
    }
    assert LeadingDigits(value) == [];
    assert DecimalValue([]) == 0;
  }

  // `part` is the first n characters of `whole`, or all of them if there are fewer.
  predicate FirstCharacters(part: string, whole: string, n: nat) {
    && |part| == (if n < |whole| then n else |whole|)
    && forall j | 0 <= j < |part| :: part[j] == whole[j]
  }

  // ---- Keys and fields ----

  // The keys of a section; a field that holds a string takes as many characters as it has room for.
  lemma ServerKeys(value: string, c: Config)
    ensures var d := ProcessKey(Server, "host", value, c);
      FirstCharacters(d.server.host, value, 128) && d == c.(server := c.server.(host := d.server.host))
    ensures ProcessKey(Server, "port", value, c) == c.(server := c.server.(port := StrToUl(value) % 0x1_0000))
    ensures ProcessKey(Server, "use_tls", value, c) == c.(server := c.server.(useTls := ParseBool(value)))
  {}

  lemma NetworkKeys(value: string, c: Config)
    ensures var n := StrToUl(value) % 0x1_0000_0000;
      && ProcessKey(Network, "connect_timeout", value, c) == c.(network := c.network.(connectTimeoutMs := n))
      && ProcessKey(Network, "ping_interval", value, c) == c.(network := c.network.(pingIntervalMs := n))
      && ProcessKey(Network, "reconnect_delay", value, c) == c.(network := c.network.(reconnectDelayMs := n))
      && ProcessKey(Network, "max_reconnect_attempts", value, c) == c.(network := c.network.(maxReconnectAttempts := n))
  {}

  lemma LdnKeys(value: string, c: Config)
    ensures ProcessKey(Ldn, "enabled", value, c) == c.(ldn := c.ldn.(enabled := ParseBool(value)))
    ensures ProcessKey(Ldn, "disable_p2p", value, c) == c.(ldn := c.ldn.(disableP2p := ParseBool(value)))
    ensures var d := ProcessKey(Ldn, "passphrase", value, c);
      FirstCharacters(d.ldn.passphrase, value, 64) && d == c.(ldn := c.ldn.(passphrase := d.ldn.passphrase))
    ensures var d := ProcessKey(Ldn, "interface", value, c);
      FirstCharacters(d.ldn.interfaceName, value, 32) && d == c.(ldn := c.ldn.(interfaceName := d.ldn.interfaceName))
  {}

  lemma DebugKeys(value: string, c: Config)
    ensures ProcessKey(Debug, "enabled", value, c) == c.(debug := c.debug.(enabled := ParseBool(value)))
    ensures ProcessKey(Debug, "log_to_file", value, c) == c.(debug := c.debug.(logToFile := ParseBool(value)))
    ensures ProcessKey(Debug, "level", value, c) == c.(debug := c.debug.(level := StrToUl(value) % 0x1_0000_0000))
  {}

  function KeysOf(section: Section): set<string> {
    match section
    case Server => {"host", "port", "use_tls"}
    case Network => {"connect_timeout", "ping_interval", "reconnect_delay", "max_reconnect_attempts"}
    case Ldn => {"enabled", "passphrase", "interface", "disable_p2p"}
    case Debug => {"enabled", "level", "log_to_file"}
    case _ => {}
  }

  // Unknown keys do nothing.
  lemma OtherKeys(section: Section, key: string, value: string, c: Config)
    requires key !in KeysOf(section)
    ensures ProcessKey(section, key, value, c) == c
  {}
}
