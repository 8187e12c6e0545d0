/** The text of a configuration file, and the bounded buffer it is written into. */
module ConfigFormat {
  import opened BsdTypes
  import opened CStrings
  import opened Lines
  import opened ConfigText

  const FORMAT_BUFFER_SIZE: nat := 4096

  // ---- The lines of the file ----

  // The character of a decimal digit.
  function DigitChar(d: nat): char
    requires d < 10
  {
    '0' + d as char
  }

  function Decimal(n: nat): string {
    if n < 10 then [DigitChar(n)] else Decimal(n / 10) + [DigitChar(n % 10)]
  }

  function Flag(b: bool): string {
    if b then "1" else "0"
  }

  function Comment(text: string): string {
    "; " + text
  }

  function Setting(key: string, value: string): string {
    key + " = " + value
  }

  function HeaderLines(): seq<string> {
    [Comment("ryu_ldn_nx Configuration"),
     Comment("Auto-generated on first boot"),
     Comment("Edit this file to customize settings"),
     ""]
  }

  function ServerLines(c: ServerConfig): seq<string> {
    ["[server]",
     Comment("Server hostname or IP address"),
     Setting("host", c.host),
     Comment("Server port"),
     Setting("port", Decimal(c.port)),
     Comment("Use TLS encryption (0/1)"),
     Setting("use_tls", Flag(c.useTls)),
     ""]
  }

  function NetworkLines(c: NetworkConfig): seq<string> {
    ["[network]",
     Comment("Connection timeout in milliseconds"),
     Setting("connect_timeout", Decimal(c.connectTimeoutMs)),
     Comment("Ping interval in milliseconds"),
     Setting("ping_interval", Decimal(c.pingIntervalMs)),
     Comment("Reconnect delay in milliseconds"),
     Setting("reconnect_delay", Decimal(c.reconnectDelayMs)),
     Comment("Max reconnect attempts " + "(0 = disable auto-reconnect)"),
     Setting("max_reconnect_attempts", Decimal(c.maxReconnectAttempts)),
     ""]
  }

  function LdnLines(c: LdnConfig): seq<string> {
    ["[ldn]",
     Comment("Enable LDN emulation (0/1)"),
     Setting("enabled", Flag(c.enabled)),
     Comment("Room passphrase (empty = public)"),
     Setting("passphrase", c.passphrase),
     Comment("Network interface (empty = auto)"),
     Setting("interface", c.interfaceName),
     Comment("Disable P2P proxy (0/1) - " + "like Ryujinx MultiplayerDisableP2p"),
     Setting("disable_p2p", Flag(c.disableP2p)),
     ""]
  }

  function DebugLines(c: DebugConfig): seq<string> {
    ["[debug]",
     Comment("Enable debug logging (0/1)"),
     Setting("enabled", Flag(c.enabled)),
     Comment("Log level (0=errors, 1=warnings, " + "2=info, 3=verbose)"),
     Setting("level", Decimal(c.level)),
     Comment("Log to file (0/1)"),
     Setting("log_to_file", Flag(c.logToFile))]
  }

  function ConfigLines(c: Config): seq<string> {
    HeaderLines() + ServerLines(c.server) + NetworkLines(c.network) + LdnLines(c.ldn) + DebugLines(c.debug)
  }

  // The whole file: every line ends with a line feed.
  function Unlines(lines: seq<string>): string {
    if lines == [] then "" else Unlines(lines[..|lines| - 1]) + lines[|lines| - 1] + "\n"
  }

  // ---- Writing lines into a buffer ----

  // A line that does not fit, with its line feed and a terminator, is dropped whole.
  function CommitLine(text: string, line: string, size: nat): string {
    if |text| + |line| + 1 < size then text + line + "\n" else text
  }

  function CommitAll(text: string, lines: seq<string>, size: nat): string {
    if lines == [] then text
    else CommitLine(CommitAll(text, lines[..|lines| - 1], size), lines[|lines| - 1], size)
  }

  lemma CommitNothing(text: string, lines: seq<string>, size: nat)
    ensures CommitAll(text, lines[..0], size) == text
  {}

  lemma {:induction false} CommitAllAppend(text: string, a: seq<string>, b: seq<string>, size: nat)
    ensures CommitAll(text, a + b, size) == CommitAll(CommitAll(text, a, size), b, size)
  {
    if b == [] {
      assert a + b == a;
    } else {
      assert (a + b)[..|a + b| - 1] == a + b[..|b| - 1];
      CommitAllAppend(text, a, b[..|b| - 1], size);
    }
  }

  // Nothing is dropped from a text that fits.
  lemma {:induction false} CommitAllOfFitting(lines: seq<string>, size: nat)
    requires Extent(lines) < size
    ensures CommitAll("", lines, size) == Unlines(lines)
    ensures |Unlines(lines)| == Extent(lines)
  {
    if lines != [] {
      CommitAllOfFitting(lines[..|lines| - 1], size);
    }
  }

  // Whatever is dropped, what is kept ends at a line end and leaves room for the terminator.
  lemma {:induction false} CommitAllStaysInside(text: string, lines: seq<string>, size: nat)
    requires |text| < size
    ensures |text| <= |CommitAll(text, lines, size)| < size
    ensures CommitAll(text, lines, size) != text ==>
              CommitAll(text, lines, size)[|CommitAll(text, lines, size)| - 1] == '\n'
  {
    if lines != [] {
      CommitAllStaysInside(text, lines[..|lines| - 1], size);
    }
  }

  // ---- Bounds ----

  // The strings of a configuration fit the character arrays that hold them.
  predicate Fits(c: Config) {
    && |c.server.host| <= MAX_HOST_LENGTH && NoNul(c.server.host)
    && |c.ldn.passphrase| <= MAX_PASSPHRASE_LENGTH && NoNul(c.ldn.passphrase)
    && |c.ldn.interfaceName| <= MAX_INTERFACE_LENGTH && NoNul(c.ldn.interfaceName)
  }

  lemma {:induction false} ExtentBound(lines: seq<string>, width: nat)
    requires forall l | l in lines :: |l| < width
    ensures Extent(lines) <= |lines| * width
  {
    if lines != [] {
      ExtentBound(lines[..|lines| - 1], width);
    }
  }

  lemma {:induction false} ExtentAppend(a: seq<string>, b: seq<string>)
    ensures Extent(a + b) == Extent(a) + Extent(b)
  {
    if b == [] {
      assert a + b == a;
    } else {
      assert (a + b)[..|a + b| - 1] == a + b[..|b| - 1];
      ExtentAppend(a, b[..|b| - 1]);
    }
  }

  lemma {:induction false} DecimalLength(n: nat, k: nat, bound: nat)
    requires n < bound && 1 <= k && bound == Power10(k)
    ensures 1 <= |Decimal(n)| <= k
  {
    if n >= 10 {
      DecimalLength(n / 10, k - 1, Power10(k - 1));
    }
  }

  function Power10(k: nat): nat {
    if k == 0 then 1 else 10 * Power10(k - 1)
  }

  lemma Uint32Length(n: uint32)
    ensures 1 <= |Decimal(n)| <= 10
  {
    assert Power10(10) == 10_000_000_000 by {
      assert Power10(5) == 100_000;
    }
    DecimalLength(n, 10, Power10(10));
  }

  lemma HeaderWidth()
    ensures forall l | l in HeaderLines() :: |l| < 73
  {}

  lemma ServerWidth(c: ServerConfig)
    requires |c.host| <= MAX_HOST_LENGTH
    ensures forall l | l in ServerLines(c) :: |l| < 136
  {
    Uint32Length(c.port);
  }

  lemma NetworkWidth(c: NetworkConfig)
    ensures forall l | l in NetworkLines(c) :: |l| < 73
  {
    Uint32Length(c.connectTimeoutMs);
    Uint32Length(c.pingIntervalMs);
    Uint32Length(c.reconnectDelayMs);
    Uint32Length(c.maxReconnectAttempts);
  }

  lemma LdnWidth(c: LdnConfig)
    requires |c.passphrase| <= MAX_PASSPHRASE_LENGTH && |c.interfaceName| <= MAX_INTERFACE_LENGTH
    ensures forall l | l in LdnLines(c) :: |l| < 78
  {}

  lemma DebugWidth(c: DebugConfig)
    ensures forall l | l in DebugLines(c) :: |l| < 73
  {
    Uint32Length(c.level);
  }

  // Every configuration the structure can hold is written in full.
  lemma EveryConfigFits(c: Config)
    requires Fits(c)
    ensures Extent(ConfigLines(c)) <= 3401 < FORMAT_BUFFER_SIZE
    ensures CommitAll("", ConfigLines(c), FORMAT_BUFFER_SIZE) == Unlines(ConfigLines(c))
  {
    var h, s, n, l, d := HeaderLines(), ServerLines(c.server), NetworkLines(c.network), LdnLines(c.ldn),
                         DebugLines(c.debug);
    assert Extent(h) <= 4 * 73 by { HeaderWidth(); ExtentBound(h, 73); }
    assert Extent(s) <= 8 * 136 by { ServerWidth(c.server); ExtentBound(s, 136); }
    assert Extent(n) <= 10 * 73 by { NetworkWidth(c.network); ExtentBound(n, 73); }
    assert Extent(l) <= 10 * 78 by { LdnWidth(c.ldn); ExtentBound(l, 78); }
    assert Extent(d) <= 7 * 73 by { DebugWidth(c.debug); ExtentBound(d, 73); }
    hide HeaderLines, ServerLines, NetworkLines, LdnLines, DebugLines;
    ExtentAppend(h + s + n + l, d);
    ExtentAppend(h + s + n, l);
    ExtentAppend(h + s, n);
    ExtentAppend(h, s);
    CommitAllOfFitting(ConfigLines(c), FORMAT_BUFFER_SIZE);
  }
}
