/** Reading ids back: what a line of the whitelist denotes, and which ids a text has. */
module WhitelistLaws {
  import opened BsdTypes
  import opened Lines
  import opened CStrings
  import opened WhitelistText

  const LOWER := "0123456789abcdef"
  const UPPER := "0123456789ABCDEF"

  // `text` is n in base 16, with any number of leading zeros and digits of either case.
  predicate Denotes(text: string, n: nat) {
    if text == [] then n == 0
    else
      var last := text[|text| - 1];
      (last == LOWER[n % 16] || last == UPPER[n % 16]) && Denotes(text[..|text| - 1], n / 16)
  }

  predicate HexPrefix(prefix: string) {
    prefix == "" || prefix == "0x" || prefix == "0X"
  }

  // No digit follows.
  predicate EndsDigits(rest: string) {
    rest != [] ==> rest[0] !in LOWER && rest[0] !in UPPER
  }

  lemma DigitOf(d: nat)
    requires d < 16
    ensures HexDigit(LOWER[d]) == Some(d) && HexDigit(UPPER[d]) == Some(d)
  {}

  lemma OnlyDigits(c: char)
    ensures HexDigit(c).Some? <==> c in LOWER || c in UPPER
  {
    if '0' <= c <= '9' {
      assert c == LOWER[c as int - '0' as int];
    } else if 'a' <= c <= 'f' {
      assert c == LOWER[10 + (c as int - 'a' as int)];
    } else if 'A' <= c <= 'F' {
      assert c == UPPER[10 + (c as int - 'A' as int)];
    }
  }

  predicate AllHex(text: string) {
    forall i | 0 <= i < |text| :: HexDigit(text[i]).Some?
  }

  function Values(text: string): seq<nat>
    requires AllHex(text)
  {
    seq(|text|, i requires 0 <= i < |text| => HexDigit(text[i]).value)
  }

  lemma {:induction false} LeadingDigitsStop(text: string, rest: string)
    requires AllHex(text) && EndsDigits(rest)
    ensures LeadingDigits(text + rest) == Values(text)
  {
    hide HexDigit;
    if text == [] {
      assert text + rest == rest;
      if rest != [] {
        OnlyDigits(rest[0]);
      }
    } else {
      assert (text + rest)[1..] == text[1..] + rest;
      LeadingDigitsStop(text[1..], rest);
      assert Values(text) == [HexDigit(text[0]).value] + Values(text[1..]);
    }
  }

  lemma {:induction false} DenotedNumber(text: string, n: nat)
    requires Denotes(text, n)
    ensures AllHex(text) && HexNumber(Values(text)) == n
  {
    if text != [] {
      hide HexDigit;
      var front := text[..|text| - 1];
      DenotedNumber(front, n / 16);
      DigitOf(n % 16);
      assert Values(text)[..|text| - 1] == Values(front);
    }
  }

  lemma PrefixSkipped(prefix: string, s: string)
    requires HexPrefix(prefix)
    requires prefix == "" ==> |s| >= 2 && HexDigit(s[1]).Some?
    ensures SkipPrefix(prefix + s) == s
  {
    if prefix == "" {
      assert prefix + s == s;
    } else {
      assert (prefix + s)[2..] == s;
    }
  }

  // An id written in base 16, in either case and with or without 0x, is read back, whatever follows that
  // is no digit; a longer number counts modulo 2^64.
  lemma WrittenIdIsRead(prefix: string, text: string, n: nat, rest: string)
    requires HexPrefix(prefix) && Denotes(text, n) && EndsDigits(rest)
    requires prefix == "" ==> |text| >= 2
    ensures HexId(prefix + text + rest) == n % 0x1_0000_0000_0000_0000
  {
    var s := prefix + text + rest;
    assert SkipPrefix(s) == text + rest by { WithoutPrefix(prefix, text, n, rest); }
    assert AllHex(text) && HexNumber(Values(text)) == n by { DenotedNumber(text, n); }
    assert LeadingDigits(text + rest) == Values(text) by { LeadingDigitsStop(text, rest); }
    hide SkipPrefix, LeadingDigits, HexNumber, HexDigit, Denotes, HexPrefix, EndsDigits, Values, AllHex;
  }

  lemma WithoutPrefix(prefix: string, text: string, n: nat, rest: string)
    requires HexPrefix(prefix) && Denotes(text, n) && (prefix == "" ==> |text| >= 2)
    ensures SkipPrefix(prefix + text + rest) == text + rest
  {
    hide SkipPrefix, HexDigit, Denotes, HexPrefix;
    DenotedNumber(text, n);
    PrefixSkipped(prefix, text + rest);
    assert prefix + text + rest == prefix + (text + rest);
  }

  // The same for a line, of which the first 23 characters are read.
  lemma WrittenLineIsRead(prefix: string, text: string, n: nat, rest: string)
    requires HexPrefix(prefix) && Denotes(text, n) && EndsDigits(rest)
    requires (prefix == "" ==> |text| >= 2) && |prefix + text| <= 23
    ensures LineValue(prefix + text + rest) == n % 0x1_0000_0000_0000_0000
  {
    var k := 23 - |prefix + text|;
    var kept := if |rest| <= k then rest else rest[..k];
    assert Take(prefix + text + rest, 23) == prefix + text + kept;
    hide HexId, Take;
    WrittenIdIsRead(prefix, text, n, kept);
  }

  // What follows the first 23 characters of a line does not count.
  lemma LongLineIsCut(line: string)
    requires |line| > 23
    ensures LineValue(line) == LineValue(line[..23])
  {
    hide HexId;
  }

  // A line that starts with no digit has no id.
  lemma OtherLinesAreSkipped(line: string)
    requires EndsDigits(line)
    ensures LineValue(line) == 0
  {
    var s := Take(line, LINE_BUF_SIZE - 1);
    assert HexDigit('0').Some?;
    if s != [] {
      assert s[0] == line[0];
      assert s[0] != '0' by { assert LOWER[0] == '0'; }
      OnlyDigits(s[0]);
      assert LeadingDigits(s) == [];
    }
  }

  // ---- The ids of a text ----

  lemma {:induction false} ValuesOfLines(lines: seq<string>, id: uint64)
    ensures id in NonZeroValues(lines) <==> id != 0 && exists l | l in lines :: LineValue(l) == id
  {
    if lines != [] {
      hide LineValue;
      var front, last := lines[..|lines| - 1], lines[|lines| - 1];
      ValuesOfLines(front, id);
      assert lines == front + [last];
    }
  }

  // The ids of a text are the values of its lines, except 0; a line ends at a line feed or carriage return.
  lemma IdsAreLineValues(text: string, id: uint64)
    ensures id in IdsOf(text) <==> id != 0 && exists l | l in Split(text) :: LineValue(l) == id
  {
    ValuesOfLines(Split(text), id);
  }

  // Lines put together again: every terminator starts a new line.
  lemma {:induction false} LinesOfJoined(text: string, line: string, eol: char)
    requires eol == '\n' || eol == '\r'
    requires forall i | 0 <= i < |line| :: line[i] != '\n' && line[i] != '\r'
    ensures Split(line) == [line]
    ensures Split(text + [eol] + line) == Split(text) + [line]
  {
    if line == [] {
      assert text + [eol] + line == text + [eol];
      SplitSnoc(text, eol);
    } else {
      var front, c := line[..|line| - 1], line[|line| - 1];
      LinesOfJoined(text, front, eol);
      assert line == front + [c];
      assert text + [eol] + line == (text + [eol] + front) + [c];
      SplitSnoc(front, c);
      SplitSnoc(text + [eol] + front, c);
    }
  }
}
