/** The printer of the configuration file: lines go into a bounded character buffer one after the other. */
module ConfigWriter {
  import opened ConfigText
  import opened ConfigFormat

  // snprintf(buffer + offset, buffer_size - offset, "%s\n", text): at most room - 1 characters and a
  // terminator; the result is the length the whole text would have had.
  method PrintLine(buffer: array<char>, offset: nat, text: string) returns (written: nat)
    requires offset <= buffer.Length
    modifies buffer
    ensures written == |text| + 1
    ensures buffer[..offset] == old(buffer[..offset])
    ensures offset + written < buffer.Length ==>
              buffer[offset..offset + written] == text + "\n" && buffer[offset + written] == '\0'
  {
    var whole := text + "\n";
    written := |whole|;
    if offset == buffer.Length {
      return;
    }
    var room := buffer.Length - offset;
    var i := 0;
    while i < |whole| && i < room - 1
      invariant 0 <= i <= |whole| && i <= room - 1
      invariant buffer[..offset] == old(buffer[..offset])
      invariant buffer[offset..offset + i] == whole[..i]
    {
      buffer[offset + i] := whole[i];
      i := i + 1;
    }
    buffer[offset + i] := '\0';
    assert i == |whole| ==> whole[..i] == whole;
  }

  // WRITE_LINE: the offset moves only past a line that fits whole. The text so far is `start` and then
  // the first k of `lines`.
  method WriteLine(buffer: array<char>, offset: nat, text: string, ghost start: string, ghost lines: seq<string>,
                   ghost k: nat)
    returns (end: nat)
    requires offset <= buffer.Length
    requires k < |lines| && lines[k] == text
    requires buffer[..offset] == CommitAll(start, lines[..k], buffer.Length)
    modifies buffer
    ensures end <= buffer.Length
    ensures buffer[..end] == CommitAll(start, lines[..k + 1], buffer.Length)
  {
    assert lines[..k + 1][..k] == lines[..k];
    assert |buffer[..offset]| == offset;
    ghost var before := buffer[..offset];
    var written := PrintLine(buffer, offset, text);
    if written > 0 && offset + written < buffer.Length {
      end := offset + written;
      assert buffer[..end] == buffer[..offset] + buffer[offset..end];
    } else {
      end := offset;
    }
  }

  method WriteHeader(buffer: array<char>) returns (offset: nat)
    modifies buffer
    ensures offset <= buffer.Length
    ensures buffer[..offset] == CommitAll("", HeaderLines(), buffer.Length)
  {
    hide CommitAll, CommitLine, Comment;
    ghost var lines := HeaderLines();
    CommitNothing("", lines, buffer.Length);
    offset := WriteLine(buffer, 0, Comment("ryu_ldn_nx Configuration"), "", lines, 0);
    offset := WriteLine(buffer, offset, Comment("Auto-generated on first boot"), "", lines, 1);
    offset := WriteLine(buffer, offset, Comment("Edit this file to customize settings"), "", lines, 2);
    offset := WriteLine(buffer, offset, "", "", lines, 3);
    assert lines[..4] == lines;
  }

  method WriteServer(buffer: array<char>, at: nat, c: ServerConfig) returns (offset: nat)
    requires at <= buffer.Length
    modifies buffer
    ensures offset <= buffer.Length
    ensures buffer[..offset] == CommitAll(old(buffer[..at]), ServerLines(c), buffer.Length)
  {
    hide CommitAll, CommitLine, Comment, Setting, Decimal, Flag;
    ghost var start := buffer[..at];
    ghost var lines := ServerLines(c);
    CommitNothing(start, lines, buffer.Length);
    offset := WriteLine(buffer, at, "[server]", start, lines, 0);
    offset := WriteLine(buffer, offset, Comment("Server hostname or IP address"), start, lines, 1);
    offset := WriteLine(buffer, offset, Setting("host", c.host), start, lines, 2);
    offset := WriteLine(buffer, offset, Comment("Server port"), start, lines, 3);
    offset := WriteLine(buffer, offset, Setting("port", Decimal(c.port)), start, lines, 4);
    offset := WriteLine(buffer, offset, Comment("Use TLS encryption (0/1)"), start, lines, 5);
    offset := WriteLine(buffer, offset, Setting("use_tls", Flag(c.useTls)), start, lines, 6);
    offset := WriteLine(buffer, offset, "", start, lines, 7);
    assert lines[..8] == lines;
  }

  // The first five lines of the section.
  method WriteNetworkTimes(buffer: array<char>, at: nat, c: NetworkConfig) returns (offset: nat)
    requires at <= buffer.Length
    modifies buffer
    ensures offset <= buffer.Length
    ensures buffer[..offset] == CommitAll(old(buffer[..at]), NetworkLines(c)[..5], buffer.Length)
  {
    hide CommitAll, CommitLine, Comment, Setting, Decimal, Flag;
    ghost var start := buffer[..at];
    ghost var lines := NetworkLines(c);
    CommitNothing(start, lines, buffer.Length);
    offset := WriteLine(buffer, at, "[network]", start, lines, 0);
    offset := WriteLine(buffer, offset, Comment("Connection timeout in milliseconds"), start, lines, 1);
    offset := WriteLine(buffer, offset, Setting("connect_timeout", Decimal(c.connectTimeoutMs)), start, lines, 2);
    offset := WriteLine(buffer, offset, Comment("Ping interval in milliseconds"), start, lines, 3);
    offset := WriteLine(buffer, offset, Setting("ping_interval", Decimal(c.pingIntervalMs)), start, lines, 4);
  }

  // The other five.
  method WriteNetworkRetries(buffer: array<char>, at: nat, c: NetworkConfig, ghost start: string) returns (offset: nat)
    requires at <= buffer.Length && buffer[..at] == CommitAll(start, NetworkLines(c)[..5], buffer.Length)
    modifies buffer
    ensures offset <= buffer.Length
    ensures buffer[..offset] == CommitAll(start, NetworkLines(c), buffer.Length)
  {
    hide CommitAll, CommitLine, Comment, Setting, Decimal, Flag;
    ghost var lines := NetworkLines(c);
    offset := WriteLine(buffer, at, Comment("Reconnect delay in milliseconds"), start, lines, 5);
    offset := WriteLine(buffer, offset, Setting("reconnect_delay", Decimal(c.reconnectDelayMs)), start, lines, 6);
    offset := WriteLine(buffer, offset, Comment("Max reconnect attempts " + "(0 = disable auto-reconnect)"), start, lines, 7);
    offset := WriteLine(buffer, offset, Setting("max_reconnect_attempts", Decimal(c.maxReconnectAttempts)), start, lines, 8);
    offset := WriteLine(buffer, offset, "", start, lines, 9);
    assert lines[..10] == lines;
  }

  method WriteNetwork(buffer: array<char>, at: nat, c: NetworkConfig) returns (offset: nat)
    requires at <= buffer.Length
    modifies buffer
    ensures offset <= buffer.Length
    ensures buffer[..offset] == CommitAll(old(buffer[..at]), NetworkLines(c), buffer.Length)
  {
    hide CommitAll, NetworkLines;
    ghost var start := buffer[..at];
    offset := WriteNetworkTimes(buffer, at, c);
    offset := WriteNetworkRetries(buffer, offset, c, start);
  }

  // The first five lines of the section.
  method WriteLdnAccess(buffer: array<char>, at: nat, c: LdnConfig) returns (offset: nat)
    requires at <= buffer.Length
    modifies buffer
    ensures offset <= buffer.Length
    ensures buffer[..offset] == CommitAll(old(buffer[..at]), LdnLines(c)[..5], buffer.Length)
  {
    hide CommitAll, CommitLine, Comment, Setting, Decimal, Flag;
    ghost var start := buffer[..at];
    ghost var lines := LdnLines(c);
    CommitNothing(start, lines, buffer.Length);
    offset := WriteLine(buffer, at, "[ldn]", start, lines, 0);
    offset := WriteLine(buffer, offset, Comment("Enable LDN emulation (0/1)"), start, lines, 1);
    offset := WriteLine(buffer, offset, Setting("enabled", Flag(c.enabled)), start, lines, 2);
    offset := WriteLine(buffer, offset, Comment("Room passphrase (empty = public)"), start, lines, 3);
    offset := WriteLine(buffer, offset, Setting("passphrase", c.passphrase), start, lines, 4);
  }

  // The other five.
  method WriteLdnLink(buffer: array<char>, at: nat, c: LdnConfig, ghost start: string) returns (offset: nat)
    requires at <= buffer.Length && buffer[..at] == CommitAll(start, LdnLines(c)[..5], buffer.Length)
    modifies buffer
    ensures offset <= buffer.Length
    ensures buffer[..offset] == CommitAll(start, LdnLines(c), buffer.Length)
  {
    hide CommitAll, CommitLine, Comment, Setting, Decimal, Flag;
    ghost var lines := LdnLines(c);
    offset := WriteLine(buffer, at, Comment("Network interface (empty = auto)"), start, lines, 5);
    offset := WriteLine(buffer, offset, Setting("interface", c.interfaceName), start, lines, 6);
    offset := WriteLine(buffer, offset, Comment("Disable P2P proxy (0/1) - " + "like Ryujinx MultiplayerDisableP2p"), start, lines, 7);
    offset := WriteLine(buffer, offset, Setting("disable_p2p", Flag(c.disableP2p)), start, lines, 8);
    offset := WriteLine(buffer, offset, "", start, lines, 9);
    assert lines[..10] == lines;
  }

  method WriteLdn(buffer: array<char>, at: nat, c: LdnConfig) returns (offset: nat)
    requires at <= buffer.Length
    modifies buffer
    ensures offset <= buffer.Length
    ensures buffer[..offset] == CommitAll(old(buffer[..at]), LdnLines(c), buffer.Length)
  {
    hide CommitAll, LdnLines;
    ghost var start := buffer[..at];
    offset := WriteLdnAccess(buffer, at, c);
    offset := WriteLdnLink(buffer, offset, c, start);
  }

  method WriteDebug(buffer: array<char>, at: nat, c: DebugConfig) returns (offset: nat)
    requires at <= buffer.Length
    modifies buffer
    ensures offset <= buffer.Length
    ensures buffer[..offset] == CommitAll(old(buffer[..at]), DebugLines(c), buffer.Length)
  {
    hide CommitAll, CommitLine, Comment, Setting, Decimal, Flag;
    ghost var start := buffer[..at];
    ghost var lines := DebugLines(c);
    CommitNothing(start, lines, buffer.Length);
    offset := WriteLine(buffer, at, "[debug]", start, lines, 0);
    offset := WriteLine(buffer, offset, Comment("Enable debug logging (0/1)"), start, lines, 1);
    offset := WriteLine(buffer, offset, Setting("enabled", Flag(c.enabled)), start, lines, 2);
    offset := WriteLine(buffer, offset, Comment("Log level (0=errors, 1=warnings, " + "2=info, 3=verbose)"), start, lines, 3);
    offset := WriteLine(buffer, offset, Setting("level", Decimal(c.level)), start, lines, 4);
    offset := WriteLine(buffer, offset, Comment("Log to file (0/1)"), start, lines, 5);
    offset := WriteLine(buffer, offset, Setting("log_to_file", Flag(c.logToFile)), start, lines, 6);
    assert lines[..7] == lines;
  }

  // The printer. Its text is the lines of the configuration, less those that do not fit.
  method FormatConfigContent(buffer: array<char>, config: Config) returns (offset: nat)
    modifies buffer
    ensures offset <= buffer.Length
    ensures buffer[..offset] == CommitAll("", ConfigLines(config), buffer.Length)
    ensures Fits(config) && buffer.Length >= FORMAT_BUFFER_SIZE ==> buffer[..offset] == Unlines(ConfigLines(config))
  {
    hide CommitAll, CommitLine, Comment, Setting, HeaderLines, ServerLines, NetworkLines, LdnLines, DebugLines;
    ghost var size := buffer.Length;
    ghost var h, s, n, l, d := HeaderLines(), ServerLines(config.server), NetworkLines(config.network),
                               LdnLines(config.ldn), DebugLines(config.debug);
    offset := WriteHeader(buffer);
    offset := WriteServer(buffer, offset, config.server);
    CommitAllAppend("", h, s, size);
    offset := WriteNetwork(buffer, offset, config.network);
    CommitAllAppend("", h + s, n, size);
    offset := WriteLdn(buffer, offset, config.ldn);
    CommitAllAppend("", h + s + n, l, size);
    offset := WriteDebug(buffer, offset, config.debug);
    CommitAllAppend("", h + s + n + l, d, size);
    if Fits(config) && size >= FORMAT_BUFFER_SIZE {
      EveryConfigFits(config);
      CommitAllOfFitting(ConfigLines(config), size);
    }
  }
}
