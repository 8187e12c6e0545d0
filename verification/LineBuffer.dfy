/** C strings in a character buffer: measured, trimmed, searched and split in place. */
module LineBuffer {
  import opened BsdTypes
  import opened CStrings
  import opened ConfigText
  import opened ConfigLoading

  // ---- C strings inside a buffer ----

  // There is a terminator at or after `from`.
  predicate Terminated(buffer: seq<char>, from: nat) {
    from <= |buffer| && '\0' in buffer[from..]
  }

  // The C string that starts at `from`.
  function StringAt(buffer: seq<char>, from: nat): string
    requires from <= |buffer|
  {
    CString(buffer[from..])
  }

  // Where the string at `from` ends, and what it holds up to there.
  lemma StringAtMeaning(buffer: seq<char>, from: nat)
    requires Terminated(buffer, from)
    ensures var n := |StringAt(buffer, from)|;
            from + n < |buffer| && buffer[from + n] == '\0' && buffer[from..from + n] == StringAt(buffer, from)
    ensures NoNul(StringAt(buffer, from))
  {
    CStringMeaning(buffer[from..]);
    var n := |StringAt(buffer, from)|;
    assert buffer[from..][..n] == buffer[from..from + n];
  }

  // A run of other characters and then a terminator is a string.
  lemma StringAtIs(buffer: seq<char>, from: nat, n: nat)
    requires from + n < |buffer| && buffer[from + n] == '\0' && NoNul(buffer[from..from + n])
    ensures Terminated(buffer, from) && StringAt(buffer, from) == buffer[from..from + n]
  {
    assert buffer[from..] == buffer[from..from + n] + ['\0'] + buffer[from + n + 1..];
    CStringOfPrefix(buffer[from..from + n], buffer[from + n + 1..]);
  }

  // The strings at later places are the tails of the string.
  lemma StringAtTail(buffer: seq<char>, from: nat, k: nat)
    requires Terminated(buffer, from) && k <= |StringAt(buffer, from)|
    ensures Terminated(buffer, from + k) && StringAt(buffer, from + k) == StringAt(buffer, from)[k..]
  {
    StringAtMeaning(buffer, from);
    var n := |StringAt(buffer, from)|;
    assert buffer[from + k..from + n] == StringAt(buffer, from)[k..];
    StringAtIs(buffer, from + k, n - k);
  }

  method StrLen(buffer: array<char>, from: nat) returns (n: nat)
    requires Terminated(buffer[..], from)
    ensures n == |StringAt(buffer[..], from)|
  {
    StringAtMeaning(buffer[..], from);
    n := 0;
    while buffer[from + n] != '\0'
      invariant n <= |StringAt(buffer[..], from)|
      decreases |StringAt(buffer[..], from)| - n
    {
      assert n < |StringAt(buffer[..], from)|;
      n := n + 1;
    }
  }

  method TrimStartAt(buffer: array<char>, from: nat) returns (at: nat)
    requires Terminated(buffer[..], from)
    ensures from <= at <= from + |StringAt(buffer[..], from)|
    ensures Terminated(buffer[..], at)
    ensures StringAt(buffer[..], at) == TrimStart(StringAt(buffer[..], from))
  {
    ghost var s := StringAt(buffer[..], from);
    StringAtMeaning(buffer[..], from);
    at := from;
    while IsBlank(buffer[at])
      invariant from <= at <= from + |s|
      invariant TrimStart(s[at - from..]) == TrimStart(s)
      decreases from + |s| - at
    {
      assert at < from + |s|;
      assert s[at - from] == buffer[at];
      assert s[at - from..][1..] == s[at + 1 - from..];
      at := at + 1;
    }
    StringAtTail(buffer[..], from, at - from);
    if at < from + |s| {
      assert s[at - from..][0] == buffer[at];
    }
  }

  // The buffers agree except that the later one has terminators from lo up to hi.
  predicate Blanked(before: seq<char>, after: seq<char>, lo: nat, hi: nat) {
    && lo <= hi <= |before| == |after|
    && forall i | 0 <= i < |before| :: after[i] == if lo <= i < hi then '\0' else before[i]
  }

  method TrimEndAt(buffer: array<char>, from: nat)
    requires Terminated(buffer[..], from)
    modifies buffer
    ensures var s := old(StringAt(buffer[..], from));
            Blanked(old(buffer[..]), buffer[..], from + |TrimEnd(s)|, from + |s|)
    ensures Terminated(buffer[..], from)
    ensures StringAt(buffer[..], from) == TrimEnd(old(StringAt(buffer[..], from)))
  {
    ghost var s := StringAt(buffer[..], from);
    ghost var was := buffer[..];
    StringAtMeaning(was, from);
    var len: nat := StrLen(buffer, from);
    assert s[..len] == s;
    hide StringAt, Terminated, TrimEnd;
    while len > 0 && IsTrailing(buffer[from + len - 1])
      invariant 0 <= len <= |s|
      invariant TrimEnd(s[..len]) == TrimEnd(s)
      invariant Blanked(was, buffer[..], from + len, from + |s|)
    {
      hide Blanked;
      TrimEndShorter(s, len);
      assert s[len - 1] == buffer[from + len - 1] by { BlankedAt(was, buffer[..], from + len, from + |s|, from + len - 1); }
      len := len - 1;
      ghost var now := buffer[..];
      buffer[from + len] := '\0';
      assert buffer[..] == now[from + len := '\0'];
      BlankOne(was, now, from + len, from + |s|);
    }
    TrimmedHere(was, buffer[..], from, len);
  }

  lemma TrimEndShorter(s: string, len: nat)
    requires 0 < len <= |s|
    ensures IsTrailing(s[len - 1]) ==> TrimEnd(s[..len]) == TrimEnd(s[..len - 1])
  {
    assert s[..len][..len - 1] == s[..len - 1];
  }

  lemma BlankedAt(before: seq<char>, after: seq<char>, lo: nat, hi: nat, i: nat)
    requires Blanked(before, after, lo, hi) && i < |before|
    ensures i < |after| && after[i] == if lo <= i < hi then '\0' else before[i]
  {}

  lemma BlankOne(before: seq<char>, after: seq<char>, lo: nat, hi: nat)
    requires Blanked(before, after, lo + 1, hi)
    ensures Blanked(before, after[lo := '\0'], lo, hi)
  {}

  // The end of the trimming loop: nothing more to cut off.
  lemma TrimmedHere(was: seq<char>, now: seq<char>, from: nat, len: nat)
    requires Terminated(was, from) && len <= |StringAt(was, from)|
    requires Blanked(was, now, from + len, from + |StringAt(was, from)|)
    requires len > 0 ==> !IsTrailing(now[from + len - 1])
    requires TrimEnd(StringAt(was, from)[..len]) == TrimEnd(StringAt(was, from))
    ensures len == |TrimEnd(StringAt(was, from))|
    ensures Terminated(now, from) && StringAt(now, from) == TrimEnd(StringAt(was, from))
  {
    StringAtMeaning(was, from);
    var s := StringAt(was, from);
    assert now[from + len] == '\0';
    assert now[from..from + len] == s[..len];
    assert len > 0 ==> s[..len][len - 1] == now[from + len - 1];
    StringAtIs(now, from, len);
  }

  // The position of the first c in the string at `from`, or -1.
  method StrChr(buffer: array<char>, from: nat, c: char) returns (at: int)
    requires Terminated(buffer[..], from) && c != '\0'
    ensures match IndexOf(StringAt(buffer[..], from), c)
            case None => at == -1
            case Some(i) => at == from + i && i < |StringAt(buffer[..], from)|
  {
    ghost var s := StringAt(buffer[..], from);
    StringAtMeaning(buffer[..], from);
    IndexOfMeaning(s, c);
    at := from;
    while buffer[at] != '\0' && buffer[at] != c
      invariant from <= at <= from + |s|
      invariant c !in s[..at - from]
      decreases from + |s| - at
    {
      assert at < from + |s|;
      assert s[at - from] == buffer[at];
      assert s[..at + 1 - from] == s[..at - from] + [s[at - from]];
      at := at + 1;
    }
    if at < from + |s| {
      assert s[at - from] == buffer[at] == c;
    } else {
      assert s[..at - from] == s;
    }
    if buffer[at] == '\0' {
      at := -1;
    }
  }

  // safe_strcpy of the string at `from`, into an array with room for max characters and a terminator.
  method SafeStrcpy(dest: array<char>, src: array<char>, from: nat, max: nat)
    requires dest != src && max < dest.Length
    requires Terminated(src[..], from)
    modifies dest
    ensures Terminated(dest[..], 0)
    ensures StringAt(dest[..], 0) == Take(StringAt(src[..], from), max)
  {
    ghost var s := StringAt(src[..], from);
    StringAtMeaning(src[..], from);
    var i := 0;
    while i < max && src[from + i] != '\0'
      invariant i <= max && i <= |s|
      invariant dest[..i] == s[..i]
    {
      assert i < |s|;
      assert s[i] == src[from + i];
      dest[i] := src[from + i];
      i := i + 1;
    }
    dest[i] := '\0';
    if i < |s| {
      assert s[i] == src[from + i];
    }
    assert dest[..][0..i] == Take(s, max);
    StringAtIs(dest[..], 0, i);
  }

  // ---- Key and value ----

  // What a pointer into a string sees after the string was trimmed at its end.
  lemma TrimEndSeenFrom(was: seq<char>, now: seq<char>, from: nat, at: nat)
    requires Terminated(was, from) && from <= at <= from + |StringAt(was, from)|
    requires Blanked(was, now, from + |TrimEnd(StringAt(was, from))|, from + |StringAt(was, from)|)
    ensures Terminated(was, at) && Terminated(now, at)
    ensures StringAt(now, at) == TrimEnd(StringAt(was, at))
  {
    hide TrimEnd, StringAt, Terminated, Blanked;
    StringAtMeaning(was, from);
    var s := StringAt(was, from);
    var n, j := |TrimEnd(s)|, at - from;
    TrimEndMeaning(s);
    assert TrimEnd(s) == s[..n];
    TrimEndOfTail(s, j);
    StringAtTail(was, from, j);
    CutString(was, now, from, s, n, j);
  }

  // The string at `from` was cut to n characters: its tail from the j-th on.
  lemma CutString(was: seq<char>, now: seq<char>, from: nat, s: string, n: nat, j: nat)
    requires n <= |s| && j <= |s| && NoNul(s)
    requires from + |s| < |was| && was[from..from + |s|] == s && was[from + |s|] == '\0'
    requires Blanked(was, now, from + n, from + |s|)
    ensures Terminated(now, from + j)
    ensures StringAt(now, from + j) == if j < n then s[..n][j..] else []
  {
    hide StringAt, Terminated;
    var k := if j < n then n else j;
    assert now[from + k] == '\0';
    var text := now[from + j..from + k];
    forall i | 0 <= i < |text|
      ensures text[i] == s[j + i]
    {
      assert was[from..from + |s|][j + i] == was[from + j + i];
    }
    assert text == if j < n then s[..n][j..] else [];
    StringAtIs(now, from + j, k - j);
  }

  lemma TrimEndOfTail(s: string, j: nat)
    requires j <= |s|
    ensures TrimEnd(s[j..]) == if j < |TrimEnd(s)| then TrimEnd(s)[j..] else []
  {
    assert s == s[..j] + s[j..];
    TrimEndAppend(s[..j], s[j..]);
    TrimEndMeaning(s[..j]);
  }

  // Trimming the key leaves the value alone.
  lemma TailUnchanged(before: seq<char>, after: seq<char>, eq: nat)
    requires eq < |before| == |after| && Terminated(before, eq + 1)
    requires forall i | eq < i < |before| :: after[i] == before[i]
    ensures Terminated(after, eq + 1) && StringAt(after, eq + 1) == StringAt(before, eq + 1)
  {
    assert after[eq + 1..] == before[eq + 1..];
  }

  // Trimming the value leaves the key alone.
  lemma KeyStaysInFront(before: seq<char>, after: seq<char>, key: nat, eq: nat)
    requires Terminated(before, key) && key <= eq < |before| == |after| && before[eq] == '\0'
    requires forall i | 0 <= i <= eq :: after[i] == before[i]
    ensures Terminated(after, key) && StringAt(after, key) == StringAt(before, key)
  {
    StringAtMeaning(before, key);
    var n := |StringAt(before, key)|;
    assert key + n <= eq;
    assert after[key..key + n] == before[key..key + n];
    StringAtIs(after, key, n);
  }

  // Overwriting the '=' leaves the key in front of it and the value behind it.
  lemma SplitAtEquals(before: seq<char>, after: seq<char>, eq: nat)
    requires Terminated(before, 0) && eq < |StringAt(before, 0)|
    requires |StringAt(before, 0)| <= |before| && after == before[eq := '\0']
    ensures Terminated(after, 0) && StringAt(after, 0) == StringAt(before, 0)[..eq]
    ensures Terminated(after, eq + 1) && StringAt(after, eq + 1) == StringAt(before, 0)[eq + 1..]
  {
    var s := StringAt(before, 0);
    StringAtMeaning(before, 0);
    StringAtTail(before, 0, eq + 1);
    assert after[0..eq] == s[..eq];
    StringAtIs(after, 0, eq);
    assert after[eq + 1..] == before[eq + 1..];
  }

  lemma TrimmedKey(b1: seq<char>, b2: seq<char>, key: nat, eq: nat)
    requires Terminated(b1, 0) && |StringAt(b1, 0)| == eq && Terminated(b1, eq + 1) && key <= eq
    requires Blanked(b1, b2, |TrimEnd(StringAt(b1, 0))|, eq) && b1[eq] == '\0'
    ensures Terminated(b1, key) && Terminated(b2, key) && StringAt(b2, key) == TrimEnd(StringAt(b1, key))
    ensures Terminated(b2, eq + 1) && StringAt(b2, eq + 1) == StringAt(b1, eq + 1) && b2[eq] == '\0'
  {
    TrimEndSeenFrom(b1, b2, 0, key);
    TailUnchanged(b1, b2, eq);
  }

  lemma TrimmedValue(b2: seq<char>, b3: seq<char>, key: nat, eq: nat, value: nat)
    requires Terminated(b2, key) && key <= eq < |b2| && b2[eq] == '\0' && Terminated(b2, eq + 1)
    requires eq + 1 <= value <= eq + 1 + |StringAt(b2, eq + 1)|
    requires Blanked(b2, b3, eq + 1 + |TrimEnd(StringAt(b2, eq + 1))|, eq + 1 + |StringAt(b2, eq + 1)|)
    ensures Terminated(b3, key) && StringAt(b3, key) == StringAt(b2, key)
    ensures Terminated(b2, value) && Terminated(b3, value) && StringAt(b3, value) == TrimEnd(StringAt(b2, value))
  {
    TrimEndSeenFrom(b2, b3, eq + 1, value);
    KeyStaysInFront(b2, b3, key, eq);
  }

  // Trims the key in front of the terminator at eq; the value behind it stays.
  method TrimKey(line: array<char>, eq: nat) returns (key: nat)
    requires eq < line.Length && line[eq] == '\0' && Terminated(line[..], 0) && |StringAt(line[..], 0)| == eq
    requires Terminated(line[..], eq + 1)
    modifies line
    ensures key <= eq && line[eq] == '\0'
    ensures Terminated(line[..], key)
    ensures StringAt(line[..], key) == TrimEnd(TrimStart(old(StringAt(line[..], 0))))
    ensures Terminated(line[..], eq + 1) && StringAt(line[..], eq + 1) == old(StringAt(line[..], eq + 1))
  {
    hide StringAt, TrimStart, TrimEnd, Terminated, Blanked;
    ghost var was := line[..];
    key := TrimStartAt(line, 0);
    TrimEndAt(line, 0);
    TrimmedKey(was, line[..], key, eq);
  }

  // Trims the value behind the terminator at eq; the key in front of it stays.
  method TrimValue(line: array<char>, key: nat, eq: nat) returns (value: nat)
    requires key <= eq < line.Length && line[eq] == '\0' && Terminated(line[..], key) && Terminated(line[..], eq + 1)
    modifies line
    ensures Terminated(line[..], key) && StringAt(line[..], key) == old(StringAt(line[..], key))
    ensures Terminated(line[..], value) && StringAt(line[..], value) == ValueOf(old(StringAt(line[..], eq + 1)))
  {
    hide StringAt, TrimStart, TrimEnd, Terminated, Blanked;
    ghost var was := line[..];
    value := TrimStartAt(line, eq + 1);
    TrimEndAt(line, eq + 1);
    TrimmedValue(was, line[..], key, eq, value);
  }

  // Splits the string of the line at its first '=' and trims both halves where they are.
  method SplitKeyValue(line: array<char>, eq: nat) returns (key: nat, value: nat)
    requires Terminated(line[..], 0)
    requires eq < |StringAt(line[..], 0)|
    modifies line
    ensures Terminated(line[..], key) && Terminated(line[..], value)
    ensures StringAt(line[..], key) == TrimEnd(TrimStart(old(StringAt(line[..], 0))[..eq]))
    ensures StringAt(line[..], value) == ValueOf(old(StringAt(line[..], 0))[eq + 1..])
  {
    ghost var was := line[..];
    StringAtMeaning(was, 0);
    hide StringAt, TrimStart, TrimEnd, Terminated, Blanked, ValueOf;
    line[eq] := '\0';
    SplitAtEquals(was, line[..], eq);
    key := TrimKey(line, eq);
    value := TrimValue(line, key, eq);
  }
}
