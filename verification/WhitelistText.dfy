/** The text of the whitelist file: one hexadecimal title id a line. */
module WhitelistText {
  import opened BsdTypes
  import opened Lines
  import opened CStrings

  const BYTES_PER_ENTRY: nat := 18
  const CHUNK_SIZE: nat := 512
  const LINE_BUF_SIZE: nat := 24
  const TWO_TO_64: nat := 0x1_0000_0000_0000_0000

  // ---- Hexadecimal ids ----

  function HexDigit(c: char): Option<nat> {
    if '0' <= c <= '9' then Some(c as int - '0' as int)
    else if 'a' <= c <= 'f' then Some(10 + (c as int - 'a' as int))
    else if 'A' <= c <= 'F' then Some(10 + (c as int - 'A' as int))
    else None
  }

  function SkipPrefix(s: string): string {
    if |s| >= 2 && s[0] == '0' && (s[1] == 'x' || s[1] == 'X') then s[2..] else s
  }

  function LeadingDigits(s: string): (digits: seq<nat>)
  {
    if s == [] || HexDigit(s[0]) == None then [] else [HexDigit(s[0]).value] + LeadingDigits(s[1..])
  }

  // The number that a sequence of hexadecimal digits denotes.
  function HexNumber(digits: seq<nat>): nat {
    if digits == [] then 0 else HexNumber(digits[..|digits| - 1]) * 16 + digits[|digits| - 1]
  }

  // The value of a line: its leading digits, after an optional 0x, modulo 2^64.
  function HexId(s: string): uint64 {
    HexNumber(LeadingDigits(SkipPrefix(s))) % TWO_TO_64
  }

  // Shifting in a digit drops the bits above the 64th.
  lemma ShiftInDigit(n: nat, digit: nat)
    requires digit < 16
    ensures n % TWO_TO_64 * 16 % TWO_TO_64 + digit == (n * 16 + digit) % TWO_TO_64
  {
    var q, r := n / TWO_TO_64, n % TWO_TO_64;
    var a, b := r / 0x1000_0000_0000_0000, r % 0x1000_0000_0000_0000;
    ModIs(r * 16, a, 16 * b);
    ModIs(n * 16 + digit, q * 16 + a, 16 * b + digit);
  }

  lemma ModIs(n: nat, k: nat, r: nat)
    requires n == k * TWO_TO_64 + r && r < TWO_TO_64
    ensures n % TWO_TO_64 == r
  {}

  // The first k characters are digits, and id is what they denote modulo 2^64.
  predicate ParsedTo(s: string, k: nat, id: uint64) {
    k <= |LeadingDigits(s)| <= |s| && id == HexNumber(LeadingDigits(s)[..k]) % TWO_TO_64
  }

  lemma {:induction false} LeadingDigitsLength(s: string)
    ensures |LeadingDigits(s)| <= |s|
    ensures forall j | 0 <= j < |LeadingDigits(s)| :: HexDigit(s[j]) == Some(LeadingDigits(s)[j])
    ensures |LeadingDigits(s)| < |s| ==> HexDigit(s[|LeadingDigits(s)|]) == None
    ensures forall j | 0 <= j < |LeadingDigits(s)| :: LeadingDigits(s)[j] < 16
  {
    if s != [] {
      LeadingDigitsLength(s[1..]);
    }
  }

  lemma ParseStart(s: string)
    ensures ParsedTo(s, 0, 0)
  {
    LeadingDigitsLength(s);
    assert HexNumber([]) == 0;
  }

  lemma ParseStep(s: string, k: nat, id: uint64)
    requires ParsedTo(s, k, id) && k < |s|
    ensures HexDigit(s[k]) == None ==> k == |LeadingDigits(s)|
    ensures HexDigit(s[k]).Some? ==>
              id * 16 % TWO_TO_64 + HexDigit(s[k]).value < TWO_TO_64 &&
              ParsedTo(s, k + 1, id * 16 % TWO_TO_64 + HexDigit(s[k]).value)
  {
    LeadingDigitsLength(s);
    var digits := LeadingDigits(s);
    if k < |digits| {
      assert HexDigit(s[k]) == Some(digits[k]);
      assert digits[..k + 1][..k] == digits[..k];
      ShiftInDigit(HexNumber(digits[..k]), digits[k]);
    }
  }

  lemma ParseEnd(s: string, k: nat, id: uint64)
    requires ParsedTo(s, k, id) && (k == |s| || k == |LeadingDigits(s)|)
    ensures id == HexNumber(LeadingDigits(s)) % TWO_TO_64
  {
    assert LeadingDigits(s)[..|LeadingDigits(s)|] == LeadingDigits(s);
  }

  method ParseHexId(str: string) returns (id: uint64)
    ensures id == HexId(str)
  {
    if |str| == 0 {
      return 0;
    }
    var i := 0;
    if |str| >= 2 && str[0] == '0' && (str[1] == 'x' || str[1] == 'X') {
      i := 2;
    }
    ghost var start := i;
    ghost var s := SkipPrefix(str);
    assert s == str[start..];
    ParseStart(s);
    id := 0;
    hide LeadingDigits, HexNumber, ParsedTo, HexDigit;
    while i < |str|
      invariant start <= i <= |str|
      invariant ParsedTo(s, i - start, id)
    {
      var digit := HexDigit(str[i]);
      ParseStep(s, i - start, id);
      if digit == None {
        break;
      }
      id := id * 16 % TWO_TO_64 + digit.value;
      i := i + 1;
    }
    ParseEnd(s, i - start, id);
  }

  // ---- The ids of a text ----

  function LineValue(line: string): uint64 {
    HexId(Take(line, LINE_BUF_SIZE - 1))
  }

  function NonZeroValues(lines: seq<string>): seq<uint64> {
    if lines == [] then []
    else
      var last := LineValue(lines[|lines| - 1]);
      NonZeroValues(lines[..|lines| - 1]) + if last != 0 then [last] else []
  }

  // Line by line: the non-zero line values, in order.
  function IdsOf(text: string): seq<uint64> {
    NonZeroValues(Split(text))
  }

  // ---- The reader's state, byte by byte ----

  datatype Reader = Reader(line: string, ids: seq<uint64>) {
    function Flush(): Reader {
      if HexId(line) != 0 then Reader("", ids + [HexId(line)]) else Reader("", ids)
    }

    function Feed(c: char): Reader {
      if IsEol(c) then Flush()
      else if |line| < LINE_BUF_SIZE - 1 then this.(line := line + [c])
      else this
    }
  }

  function FeedAll(text: string): Reader {
    if text == [] then Reader("", []) else FeedAll(text[..|text| - 1]).Feed(text[|text| - 1])
  }

  lemma FeedAllSnoc(text: string, c: char)
    ensures FeedAll(text + [c]) == FeedAll(text).Feed(c)
  {
    assert (text + [c])[..|text|] == text;
  }

  lemma {:induction false} FeedAllIsLineByLine(text: string)
    ensures var lines := Split(text);
      && FeedAll(text).line == Take(lines[|lines| - 1], LINE_BUF_SIZE - 1)
      && FeedAll(text).ids == NonZeroValues(lines[..|lines| - 1])
  {
    if text != [] {
      var front := text[..|text| - 1];
      FeedAllIsLineByLine(front);
      var c := text[|text| - 1];
      var lines := Split(front);
      hide HexId;
      if IsEol(c) {
        assert (lines + [""])[..|lines|] == lines;
      } else {
        assert Split(text)[..|lines| - 1] == lines[..|lines| - 1];
      }
    }
  }

  lemma FlushIsIdsOf(text: string)
    ensures FeedAll(text).Flush().ids == IdsOf(text)
  {
    hide HexId;
    FeedAllIsLineByLine(text);
  }

  lemma {:induction false} IdsGrow(text: string, k: nat)
    requires k <= |text|
    ensures FeedAll(text[..k]).ids <= FeedAll(text).ids <= IdsOf(text)
    decreases |text|
  {
    FlushIsIdsOf(text);
    if k == |text| {
      assert text[..k] == text;
    } else {
      var front := text[..|text| - 1];
      IdsGrow(front, k);
      assert front[..k] == text[..k];
    }
  }

  // ---- No id is lost when lines are long enough ----

  lemma {:induction false} FewLongLines(lines: seq<string>)
    requires forall l | l in lines :: LineValue(l) != 0 ==> |l| + 1 >= BYTES_PER_ENTRY
    ensures BYTES_PER_ENTRY * |NonZeroValues(lines)| <= Extent(lines)
  {
    if lines != [] {
      hide LineValue;
      var last := lines[|lines| - 1];
      assert last in lines;
      FewLongLines(lines[..|lines| - 1]);
    }
  }

  function Capacity(fileSize: nat): nat {
    fileSize / BYTES_PER_ENTRY + 100
  }

  lemma LongLinesAllFit(text: string)
    requires forall l | l in Split(text) :: LineValue(l) != 0 ==> |l| + 1 >= BYTES_PER_ENTRY
    ensures |IdsOf(text)| <= Capacity(|text|)
  {
    hide LineValue, NonZeroValues;
    FewLongLines(Split(text));
    SplitExtent(text);
  }
}
