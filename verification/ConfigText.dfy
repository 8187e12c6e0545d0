/** The configuration and what one line of its file does to it. */
module ConfigText {
  import opened BsdTypes
  import opened CStrings

  const MAX_HOST_LENGTH: nat := 128
  const MAX_PASSPHRASE_LENGTH: nat := 64
  const MAX_INTERFACE_LENGTH: nat := 32
  const KEY_LENGTH: nat := 63
  const LINE_LENGTH: nat := 511

  datatype ServerConfig = ServerConfig(host: string, port: uint16, useTls: bool)

  datatype NetworkConfig = NetworkConfig(
    connectTimeoutMs: uint32, pingIntervalMs: uint32, reconnectDelayMs: uint32, maxReconnectAttempts: uint32)

  datatype LdnConfig = LdnConfig(enabled: bool, passphrase: string, interfaceName: string, disableP2p: bool)

  datatype DebugConfig = DebugConfig(enabled: bool, level: uint32, logToFile: bool)

  datatype Config = Config(server: ServerConfig, network: NetworkConfig, ldn: LdnConfig, debug: DebugConfig)

  const DEFAULT_HOST := "ldn.ryujinx.app"

  function DefaultConfig(): Config {
    Config(
      ServerConfig(DEFAULT_HOST, 30456, false),
      NetworkConfig(5000, 10000, 3000, 5),
      LdnConfig(true, "", "", true),
      DebugConfig(true, 3, true))
  }

  // ---- Trimming ----

  predicate IsBlank(c: char) {
    c == ' ' || c == '\t'
  }

  predicate IsTrailing(c: char) {
    c == ' ' || c == '\t' || c == '\n' || c == '\r'
  }

  function TrimStart(s: string): string {
    if s != [] && IsBlank(s[0]) then TrimStart(s[1..]) else s
  }

  function TrimEnd(s: string): string {
    if s != [] && IsTrailing(s[|s| - 1]) then TrimEnd(s[..|s| - 1]) else s
  }

  function IndexOf(s: string, c: char): Option<nat> {
    if s == [] then None
    else if s[0] == c then Some(0)
    else match IndexOf(s[1..], c)
      case None => None
      case Some(i) => Some(i + 1)
  }

  // ---- Values ----

  predicate ParseBool(value: string) {
    value == [] || value[0] !in {'0', 'f', 'F', 'n', 'N'}
  }

  predicate IsDigit(c: char) {
    '0' <= c <= '9'
  }

  function LeadingDigits(s: string): string {
    if s == [] || !IsDigit(s[0]) then [] else [s[0]] + LeadingDigits(s[1..])
  }

  function DecimalValue(digits: string): nat
    requires forall i | 0 <= i < |digits| :: IsDigit(digits[i])
  {
    if digits == [] then 0
    else
      var last := digits[|digits| - 1];
      assert IsDigit(last);
      DecimalValue(digits[..|digits| - 1]) * 10 + (last as int - '0' as int)
  }

  lemma {:induction false} LeadingDigitsAreDigits(s: string)
    ensures forall i | 0 <= i < |LeadingDigits(s)| :: IsDigit(LeadingDigits(s)[i])
  {
    if s != [] && IsDigit(s[0]) {
      LeadingDigitsAreDigits(s[1..]);
    }
  }

  predicate IsSpace(c: char) {
    c == ' ' || '\t' <= c <= '\r'
  }

  function SkipSpaces(s: string): string {
    if s != [] && IsSpace(s[0]) then SkipSpaces(s[1..]) else s
  }

  // strtoul in base 10 with a 64-bit unsigned long: it saturates, and a minus sign negates modulo 2^64.
  function StrToUl(value: string): uint64 {
    var s := SkipSpaces(value);
    var signed := s != [] && (s[0] == '+' || s[0] == '-');
    var digits := LeadingDigits(if signed then s[1..] else s);
    LeadingDigitsAreDigits(if signed then s[1..] else s);
    var n := DecimalValue(digits);
    if n > 0xFFFF_FFFF_FFFF_FFFF then 0xFFFF_FFFF_FFFF_FFFF
    else if signed && s[0] == '-' && n > 0 then 0x1_0000_0000_0000_0000 - n
    else n
  }

  function ParseUint32(value: string): uint32 {
    StrToUl(value) % 0x1_0000_0000
  }

  function ParseUint16(value: string): uint16 {
    StrToUl(value) % 0x1_0000
  }

  // ---- Sections and keys ----

  datatype Section = NoSection | Server | Network | Ldn | Debug | Unknown

  function ParseSection(line: string): Section {
    if line == "[server]" then Server
    else if line == "[network]" then Network
    else if line == "[ldn]" then Ldn
    else if line == "[debug]" then Debug
    else if line != [] && line[0] == '[' then Unknown
    else NoSection
  }

  function ProcessServerKey(key: string, value: string, c: ServerConfig): ServerConfig {
    if key == "host" then c.(host := Take(value, MAX_HOST_LENGTH))
    else if key == "port" then c.(port := ParseUint16(value))
    else if key == "use_tls" then c.(useTls := ParseBool(value))
    else c
  }

  function ProcessNetworkKey(key: string, value: string, c: NetworkConfig): NetworkConfig {
    if key == "connect_timeout" then c.(connectTimeoutMs := ParseUint32(value))
    else if key == "ping_interval" then c.(pingIntervalMs := ParseUint32(value))
    else if key == "reconnect_delay" then c.(reconnectDelayMs := ParseUint32(value))
    else if key == "max_reconnect_attempts" then c.(maxReconnectAttempts := ParseUint32(value))
    else c
  }

  function ProcessLdnKey(key: string, value: string, c: LdnConfig): LdnConfig {
    if key == "enabled" then c.(enabled := ParseBool(value))
    else if key == "passphrase" then c.(passphrase := Take(value, MAX_PASSPHRASE_LENGTH))
    else if key == "interface" then c.(interfaceName := Take(value, MAX_INTERFACE_LENGTH))
    else if key == "disable_p2p" then c.(disableP2p := ParseBool(value))
    else c
  }

  function ProcessDebugKey(key: string, value: string, c: DebugConfig): DebugConfig {
    if key == "enabled" then c.(enabled := ParseBool(value))
    else if key == "level" then c.(level := ParseUint32(value))
    else if key == "log_to_file" then c.(logToFile := ParseBool(value))
    else c
  }

  function ProcessKey(section: Section, key: string, value: string, c: Config): Config {
    match section
    case Server => c.(server := ProcessServerKey(key, value, c.server))
    case Network => c.(network := ProcessNetworkKey(key, value, c.network))
    case Ldn => c.(ldn := ProcessLdnKey(key, value, c.ldn))
    case Debug => c.(debug := ProcessDebugKey(key, value, c.debug))
    case _ => c
  }

  // ---- One line ----

  // What a loader knows between two lines.
  datatype State = State(section: Section, config: Config)

  function KeyOf(s: string): string {
    TrimEnd(Take(TrimEnd(TrimStart(s)), KEY_LENGTH))
  }

  function ValueOf(s: string): string {
    TrimEnd(TrimStart(s))
  }

  // A line without its trailing white space.
  function ProcessTrimmed(line: string, st: State): State {
    var trimmed := TrimStart(line);
    if trimmed == [] then st
    else if trimmed[0] == ';' || trimmed[0] == '#' then st
    else if ParseSection(trimmed) != NoSection then st.(section := ParseSection(trimmed))
    else if st.section == NoSection || st.section == Unknown then st
    else
      match IndexOf(line, '=')
      case None => st
      case Some(eq) => KeyLine(line, eq, st)
  }

  function KeyLine(line: string, eq: nat, st: State): State {
    if eq < |line| then st.(config := ProcessKey(st.section, KeyOf(line[..eq]), ValueOf(line[eq + 1..]), st.config))
    else st
  }

  // A line buffer as the loaders fill it: it ends at the first NUL.
  function ProcessLine(raw: string, st: State): State {
    ProcessTrimmed(TrimEnd(CString(raw)), st)
  }

  function ProcessLines(lines: seq<string>, st: State): State {
    if lines == [] then st
    else ProcessLine(lines[|lines| - 1], ProcessLines(lines[..|lines| - 1], st))
  }

  lemma {:induction false} ProcessLinesAppend(a: seq<string>, b: seq<string>, st: State)
    ensures ProcessLines(a + b, st) == ProcessLines(b, ProcessLines(a, st))
  {
    hide ProcessLine;
    if b == [] {
      assert a + b == a;
    } else {
      assert (a + b)[..|a + b| - 1] == a + b[..|b| - 1];
      ProcessLinesAppend(a, b[..|b| - 1], st);
    }
  }

  lemma {:induction false} IndexOfMeaning(s: string, c: char)
    ensures IndexOf(s, c) == None <==> c !in s
    ensures IndexOf(s, c).Some? ==> var i := IndexOf(s, c).value;
              i < |s| && s[i] == c && c !in s[..i]
  {
    if s != [] && s[0] != c {
      IndexOfMeaning(s[1..], c);
      if c in s[1..] {
        var i := IndexOf(s[1..], c).value;
        assert s[..i + 1] == [s[0]] + s[1..][..i];
      }
    }
  }

  lemma {:induction false} IndexOfFirst(a: string, c: char, b: string)
    requires c !in a
    ensures IndexOf(a + [c] + b, c) == Some(|a|)
  {
    var s := a + [c] + b;
    if a != [] {
      assert s[1..] == a[1..] + [c] + b;
      IndexOfFirst(a[1..], c, b);
    }
  }
}
