/** The game whitelist: its file is read in chunks once, and then searched by bisection. */
module GameWhitelist {
  import opened BsdTypes
  import opened WhitelistText
  import opened SortedIds
  import opened Lines

  // One ReadFile call: it fails, or it delivers up to `count` bytes of what was asked for.
  datatype ReadOutcome = ReadFailed | ReadBytes(count: nat)

  datatype FileAccess = OpenFailed | SizeFailed | OutOfMemory | Opened

  function Min(a: nat, b: nat): nat {
    if a <= b then a else b
  }

  // How many bytes of the file the reads deliver, from `offset` on.
  function BytesRead(chunks: seq<ReadOutcome>, fileSize: nat, offset: nat): nat
    decreases |chunks|
  {
    if offset >= fileSize || chunks == [] || chunks[0].ReadFailed? then offset
    else BytesRead(chunks[1..], fileSize, offset + Min(chunks[0].count, Min(CHUNK_SIZE, fileSize - offset)))
  }

  // Reads that succeed deliver something; otherwise the loop of the code would not end.
  predicate ReadsProgress(chunks: seq<ReadOutcome>) {
    forall k | 0 <= k < |chunks| :: chunks[k].ReadBytes? ==> chunks[k].count >= 1
  }

  function FirstIds(ids: seq<uint64>, n: nat): seq<uint64> {
    if |ids| <= n then ids else ids[..n]
  }

  // The ids that are loaded from the bytes delivered.
  function Loaded(file: string, chunks: seq<ReadOutcome>): seq<uint64>
    requires BytesRead(chunks, |file|, 0) <= |file|
  {
    FirstIds(IdsOf(file[..BytesRead(chunks, |file|, 0)]), Capacity(|file|))
  }

  lemma {:induction false} BytesReadBounds(chunks: seq<ReadOutcome>, fileSize: nat, offset: nat)
    requires offset <= fileSize
    ensures offset <= BytesRead(chunks, fileSize, offset) <= fileSize
    decreases |chunks|
  {
    if offset < fileSize && chunks != [] && chunks[0].ReadBytes? {
      BytesReadBounds(chunks[1..], fileSize, offset + Min(chunks[0].count, Min(CHUNK_SIZE, fileSize - offset)));
    }
  }

  lemma {:induction false} SuccessfulReadsReachTheEnd(chunks: seq<ReadOutcome>, fileSize: nat, offset: nat)
    requires ReadsProgress(chunks) && offset <= fileSize && |chunks| >= fileSize - offset
    requires forall k | 0 <= k < |chunks| :: chunks[k].ReadBytes?
    ensures BytesRead(chunks, fileSize, offset) == fileSize
    decreases |chunks|
  {
    if offset < fileSize {
      assert chunks[0].ReadBytes?;
      var got := Min(chunks[0].count, Min(CHUNK_SIZE, fileSize - offset));
      assert got >= 1;
      SuccessfulReadsReachTheEnd(chunks[1..], fileSize, offset + got);
    }
  }

  // Reading ends with the first read that fails, however many would follow; what came before is kept.
  lemma {:induction false} FailureEndsReading(chunks: seq<ReadOutcome>, rest: seq<ReadOutcome>, fileSize: nat, offset: nat)
    ensures BytesRead(chunks + [ReadFailed] + rest, fileSize, offset) == BytesRead(chunks, fileSize, offset)
    decreases |chunks|
  {
    var all := chunks + [ReadFailed] + rest;
    if chunks == [] {
      assert all[0] == ReadFailed;
    } else if offset < fileSize && chunks[0].ReadBytes? {
      assert all[1..] == chunks[1..] + [ReadFailed] + rest;
      FailureEndsReading(chunks[1..], rest, fileSize, offset + Min(chunks[0].count, Min(CHUNK_SIZE, fileSize - offset)));
    }
  }

  // A read delivers no more than it was asked for: the rest of the file, or 512 bytes.
  lemma OneReadDelivers(count: nat, fileSize: nat, offset: nat)
    requires offset <= fileSize
    ensures var n := BytesRead([ReadBytes(count)], fileSize, offset) - offset;
      && n <= count && n <= 512 && n <= fileSize - offset
      && (n == count || n == 512 || n == fileSize - offset)
  {}

  // However the file is cut into reads, the same ids are loaded: the first ones of its lines.
  lemma ChunkingDoesNotMatter(file: string, chunks: seq<ReadOutcome>)
    requires ReadsProgress(chunks) && |chunks| >= |file| && forall k | 0 <= k < |chunks| :: chunks[k].ReadBytes?
    ensures BytesRead(chunks, |file|, 0) == |file|
    ensures Loaded(file, chunks) == FirstIds(IdsOf(file), Capacity(|file|))
  {
    SuccessfulReadsReachTheEnd(chunks, |file|, 0);
    assert file[..|file|] == file;
  }

  // The list has places for one id every 18 bytes and 100 more; only the first ids beyond that are lost.
  lemma LoadedAreTheFirst(file: string, chunks: seq<ReadOutcome>)
    requires BytesRead(chunks, |file|, 0) <= |file|
    ensures var loaded, ids, places := Loaded(file, chunks), IdsOf(file[..BytesRead(chunks, |file|, 0)]), |file| / 18 + 100;
      && |loaded| == (if |ids| < places then |ids| else places)
      && forall j | 0 <= j < |loaded| :: loaded[j] == ids[j]
  {
    hide IdsOf, BytesRead;
  }

  // If moreover every line with an id takes at least 18 bytes, all ids of the file are loaded.
  lemma LongLinesLoseNothing(file: string, chunks: seq<ReadOutcome>)
    requires ReadsProgress(chunks) && |chunks| >= |file| && forall k | 0 <= k < |chunks| :: chunks[k].ReadBytes?
    requires forall l | l in Split(file) :: LineValue(l) != 0 ==> |l| + 1 >= BYTES_PER_ENTRY
    ensures BytesRead(chunks, |file|, 0) == |file|
    ensures Loaded(file, chunks) == IdsOf(file)
  {
    ChunkingDoesNotMatter(file, chunks);
    hide LineValue;
    LongLinesAllFit(file);
  }

  // ---- Decisions ----

  const FIRST_APPLICATION: uint64 := 0x0100_0000_0000_0000
  const ALBUM: uint64 := 0x0100_2860_0ebd_a000

  // Without a list every application but the album is allowed.
  predicate Allowed(ids: seq<uint64>, program: uint64) {
    if ids == [] then program >= FIRST_APPLICATION && program != ALBUM else program in ids
  }

  // The answer after loading, in terms of the file: sorting, removing duplicates and searching amount to
  // membership among the loaded ids, unless there are none: then every application id is allowed but one.
  lemma AnswerIsMembership(file: string, chunks: seq<ReadOutcome>, program: uint64)
    requires BytesRead(chunks, |file|, 0) <= |file|
    ensures var loaded := Loaded(file, chunks);
            Allowed(Unique(Sort(loaded)), program) ==
            if loaded == [] then 0x0100_0000_0000_0000 <= program && program != 0x0100_2860_0EBD_A000
            else program in loaded
  {
    var loaded := Loaded(file, chunks);
    SortedIdsMeaning(loaded);
    if loaded != [] {
      assert loaded[0] in Unique(Sort(loaded));
    } else {
      ShortListIsSorted([]);
    }
  }

  // With successful reads, however they cut the file, and lines of at least 18 bytes: membership among
  // the ids of the lines.
  lemma AnswerIsInFile(file: string, chunks: seq<ReadOutcome>, program: uint64)
    requires ReadsProgress(chunks) && |chunks| >= |file| && forall k | 0 <= k < |chunks| :: chunks[k].ReadBytes?
    requires forall l | l in Split(file) :: LineValue(l) != 0 ==> |l| + 1 >= BYTES_PER_ENTRY
    ensures BytesRead(chunks, |file|, 0) <= |file|
    ensures Allowed(Unique(Sort(Loaded(file, chunks))), program) ==
            if IdsOf(file) == [] then 0x0100_0000_0000_0000 <= program && program != 0x0100_2860_0EBD_A000
            else program in IdsOf(file)
  {
    LongLinesLoseNothing(file, chunks);
    AnswerIsMembership(file, chunks, program);
  }

  // Allocates the list, fills it from the file, sorts it and removes duplicates.
  method BuildList(file: string, chunks: seq<ReadOutcome>) returns (list: array<uint64>, n: nat)
    requires ReadsProgress(chunks) && |chunks| >= |file|
    ensures fresh(list) && n <= list.Length && BytesRead(chunks, |file|, 0) <= |file|
    ensures list[..n] == Unique(Sort(Loaded(file, chunks))) && IsStrictlySorted(list[..n])
  {
    hide Loaded, IsStrictlySorted, Sort, Unique, BytesRead;
    list := new uint64[Capacity(|file|)];
    n := ReadIds(list, file, chunks);
    SortedIdsMeaning(list[..n]);
    if n > 1 {
      SortFirst(list, n);
      n := UniqueFirst(list, n);
    } else {
      ShortListIsSorted(list[..n]);
    }
  }

  lemma NothingLoaded(file: string, chunks: seq<ReadOutcome>)
    requires BytesRead(chunks, |file|, 0) <= |file|
    ensures file == "" ==> Unique(Sort(Loaded(file, chunks))) == []
  {
    if file == "" {
      assert file[..BytesRead(chunks, |file|, 0)] == "";
      assert LineValue("") == 0;
      assert Split("") == [""] && Split("")[..0] == [];
      assert IdsOf("") == [];
    }
  }

  lemma ShortListIsSorted(s: seq<uint64>)
    requires |s| <= 1
    ensures Unique(Sort(s)) == s
  {
    if |s| == 1 {
      assert s[1..] == [] && s[..0] == [];
      assert Sort(s) == [s[0]] && Sort(s)[..0] == [];
    }
  }

  class Whitelist {
    var ids: array<uint64>
    var count: nat
    var loaded: bool

    ghost predicate Valid()
      reads this, ids
    {
      count <= ids.Length && (!loaded ==> count == 0) && IsStrictlySorted(ids[..count])
    }

    ghost function List(): seq<uint64>
      requires Valid()
      reads this, ids
    {
      ids[..count]
    }

    constructor ()
      ensures Valid() && !loaded
    {
      ids := new uint64[0];
      count := 0;
      loaded := false;
    }

    method LoadWhitelist(access: FileAccess, file: string, chunks: seq<ReadOutcome>)
      requires Valid() && ReadsProgress(chunks) && |chunks| >= |file|
      modifies this
      ensures Valid() && loaded
      ensures old(loaded) ==> List() == old(List())
      ensures BytesRead(chunks, |file|, 0) <= |file|
      ensures !old(loaded) ==> List() == if access.Opened? then Unique(Sort(Loaded(file, chunks))) else []
    {
      BytesReadBounds(chunks, |file|, 0);
      if loaded {
        return;
      }
      if access.OpenFailed? || access.SizeFailed? || |file| == 0 || access.OutOfMemory? {
        loaded := true;
        NothingLoaded(file, chunks);
        return;
      }
      ids, count := BuildList(file, chunks);
      loaded := true;
    }

    method IsGameInWhitelist(program: uint64) returns (allowed: bool)
      requires Valid()
      ensures allowed <==> loaded && Allowed(List(), program)
    {
      if !loaded {
        return false;
      }
      if count == 0 {
        return program >= FIRST_APPLICATION && program != ALBUM;
      }
      assert IsSorted(ids[..count]);
      allowed := BinarySearch(ids, count, program);
    }
  }

  // ---- The reading loop ----

  // After the first pos bytes of the file: the carried line, and the ids in the list.
  ghost predicate ReadTo(file: string, pos: nat, line: string, found: seq<uint64>) {
    pos <= |file| && FeedAll(file[..pos]) == Reader(line, found)
  }

  // Bytes offset to offset + got - 1 of the file, one by one, until the list is full.
  method ReadChunk(list: array<uint64>, file: string, offset: nat, got: nat, line0: string, n0: nat)
    returns (line: string, n: nat, ghost pos: nat)
    requires offset + got <= |file| && n0 < list.Length && ReadTo(file, offset, line0, list[..n0])
    modifies list
    ensures n <= list.Length && offset <= pos <= offset + got && ReadTo(file, pos, line, list[..n])
    ensures n < list.Length ==> pos == offset + got
  {
    hide HexId;
    line, n, pos := line0, n0, offset;
    var i := 0;
    while i < got && n < list.Length
      invariant 0 <= i <= got && n <= list.Length
      invariant pos == offset + i && ReadTo(file, pos, line, list[..n])
    {
      var c := file[offset + i];
      assert file[..pos + 1] == file[..pos] + [c];
      FeedAllSnoc(file[..pos], c);
      if c == '\n' || c == '\r' {
        n := AddLine(list, n, line);
        line := "";
      } else if |line| < LINE_BUF_SIZE - 1 {
        line := line + [c];
      }
      i := i + 1;
      pos := pos + 1;
    }
  }

  method AddLine(list: array<uint64>, n: nat, line: string) returns (m: nat)
    requires n < list.Length
    modifies list
    ensures m <= list.Length && list[..m] == Reader(line, old(list[..n])).Flush().ids
  {
    m := n;
    if |line| > 0 {
      var id := ParseHexId(line);
      if id != 0 {
        list[n] := id;
        m := n + 1;
      }
    } else {
      assert HexId("") == 0;
    }
  }

  method ReadIds(list: array<uint64>, file: string, chunks: seq<ReadOutcome>) returns (n: nat)
    requires ReadsProgress(chunks) && |chunks| >= |file| && list.Length == Capacity(|file|)
    modifies list
    ensures BytesRead(chunks, |file|, 0) <= |file|
    ensures n <= list.Length && list[..n] == Loaded(file, chunks)
  {
    hide ReadTo, HexId, IdsOf, FirstIds;
    BytesReadBounds(chunks, |file|, 0);
    ghost var m := BytesRead(chunks, |file|, 0);
    var line: string := "";
    n := 0;
    var offset, k := 0, 0;
    ghost var pos: nat := 0;
    StartReading(file);
    assert list[..0] == [];
    while offset < |file| && n < list.Length
      invariant n <= list.Length && k <= offset <= |file|
      invariant BytesRead(chunks[k..], |file|, offset) == m
      invariant pos <= offset && ReadTo(file, pos, line, list[..n])
      invariant n < list.Length ==> pos == offset
      decreases |file| - offset
    {
      var toRead := Min(CHUNK_SIZE, |file| - offset);
      assert chunks[k..][0] == chunks[k] && chunks[k..][1..] == chunks[k + 1..];
      if chunks[k].ReadFailed? {
        break;
      }
      var got := Min(chunks[k].count, toRead);
      line, n, pos := ReadChunk(list, file, offset, got, line, n);
      offset := offset + got;
      k := k + 1;
    }
    BytesReadBounds(chunks[k..], |file|, offset);
    ReadingDone(file, m, pos, line, list[..n], list.Length);
    if |line| > 0 && n < list.Length {
      n := AddLine(list, n, line);
    }
  }

  lemma StartReading(file: string)
    ensures ReadTo(file, 0, "", [])
  {}

  // What is in the list when reading ends after m bytes, and what the last line adds.
  lemma ReadingDone(file: string, m: nat, pos: nat, line: string, found: seq<uint64>, capacity: nat)
    requires pos <= m <= |file| && ReadTo(file, pos, line, found)
    requires |found| <= capacity && (|found| < capacity ==> pos == m)
    ensures |found| == capacity ==> FirstIds(IdsOf(file[..m]), capacity) == found
    ensures |found| < capacity ==> FirstIds(IdsOf(file[..m]), capacity) == Reader(line, found).Flush().ids
    ensures |line| == 0 ==> Reader(line, found).Flush().ids == found
  {
    hide HexId, FeedAll, IdsOf;
    EmptyLineAddsNothing(found);
    if |found| < capacity {
      FlushIsIdsOf(file[..m]);
    } else {
      assert file[..m][..pos] == file[..pos];
      IdsGrow(file[..m], pos);
    }
  }

  lemma EmptyLineAddsNothing(found: seq<uint64>)
    ensures Reader("", found).Flush().ids == found
  {
    assert HexId("") == 0;
  }
}
