/** Variable-size packets in one shared byte region: where they lie, and when they stay intact. */
module PacketRegion {
  import opened BsdTypes

  const MAX_PACKET_DATA_SIZE: nat := 0x800
  const BUFFER_SIZE: nat := 0x800 * 4 + 256
  const MAX_QUEUED_PACKETS: nat := 16

  // The eight bytes of a proxy data header, not interpreted here.
  type Header = seq<byte>

  datatype Entry = Entry(header: Header, size: nat, offset: nat) {
    predicate InBounds() {
      offset + size <= BUFFER_SIZE
    }
  }

  datatype Packet = Packet(header: Header, payload: seq<byte>)

  datatype BufferView = BufferView(entries: seq<Entry>, data: seq<byte>, readPos: nat, writePos: nat)

  predicate InBounds(b: BufferView) {
    && |b.data| == BUFFER_SIZE && b.readPos <= BUFFER_SIZE && b.writePos <= BUFFER_SIZE
    && forall i | 0 <= i < |b.entries| :: b.entries[i].InBounds()
  }

  const EMPTY_DATA: seq<byte> := seq(BUFFER_SIZE, _ => 0)

  function Blit(data: seq<byte>, pos: nat, bytes: seq<byte>): seq<byte>
    requires pos + |bytes| <= |data|
  {
    data[..pos] + bytes + data[pos + |bytes|..]
  }

  // Where Write puts `size` bytes: at the write position, or at 0 when they do not fit before the end.
  function Place(b: BufferView, size: nat): Option<nat> {
    if size > MAX_PACKET_DATA_SIZE || |b.entries| >= MAX_QUEUED_PACKETS then None
    else if BUFFER_SIZE - b.writePos >= size then Some(b.writePos)
    else if b.readPos > size then Some(0)
    else None
  }

  function Write(b: BufferView, header: Header, payload: seq<byte>): (BufferView, bool)
    requires InBounds(b)
  {
    match Place(b, |payload|)
    case None => (b, false)
    case Some(pos) =>
      (BufferView(b.entries + [Entry(header, |payload|, pos)], Blit(b.data, pos, payload), b.readPos, pos + |payload|), true)
  }

  function Payload(b: BufferView, e: Entry): seq<byte>
    requires InBounds(b) && e.InBounds()
  {
    b.data[e.offset..e.offset + e.size]
  }

  // Copying the first n bytes out of the region yields the first n bytes of the packet.
  lemma PayloadPrefix(b: BufferView, e: Entry, n: nat)
    requires InBounds(b) && e.InBounds() && n <= e.size
    ensures b.data[e.offset..e.offset + n] == Payload(b, e)[..n]
    ensures n == e.size ==> b.data[e.offset..e.offset + n] == Payload(b, e)
  {}

  function Read(b: BufferView, maxSize: nat): (BufferView, Option<Packet>)
    requires InBounds(b)
  {
    if b.entries == [] then (b, None)
    else
      var e := b.entries[0];
      var bytes := Payload(b, e);
      var copied := if e.size <= maxSize then bytes else bytes[..maxSize];
      (if |b.entries| == 1 then BufferView([], b.data, 0, 0)
       else BufferView(b.entries[1..], b.data, e.offset + e.size, b.writePos),
       Some(Packet(e.header, copied)))
  }

  lemma StaysInBounds(b: BufferView, header: Header, payload: seq<byte>, maxSize: nat)
    requires InBounds(b)
    ensures InBounds(Write(b, header, payload).0) && InBounds(Read(b, maxSize).0)
  {
    if Place(b, |payload|).Some? {
      assert forall i | 0 <= i < |b.entries| :: (b.entries + [Entry(header, |payload|, Place(b, |payload|).value)])[i] == b.entries[i];
    }
  }

  // When a Write is accepted, and what it changes: the packet has at most 2048 bytes, fewer than 16 are
  // queued, and it fits before byte 8448, or else strictly below the read position, counted from 0.
  lemma WriteInNumbers(b: BufferView, header: Header, payload: seq<byte>)
    requires InBounds(b)
    ensures var (c, ok) := Write(b, header, payload);
      var size, n := |payload|, |b.entries|;
      var start := if b.writePos + size <= 8448 then b.writePos else 0;
      && (ok <==> size <= 2048 && n < 16 && (b.writePos + size <= 8448 || size < b.readPos))
      && (!ok ==> c == b)
      && (ok ==>
            && |c.entries| == n + 1 && c.entries[..n] == b.entries
            && c.entries[n].header == header && c.entries[n].offset == start && c.entries[n].size == size
            && c.readPos == b.readPos && c.writePos == start + size && |c.data| == |b.data|
            && forall i | 0 <= i < |b.data| ::
                 c.data[i] == if start <= i < start + size then payload[i - start] else b.data[i])
  {}

  // What a Read changes: no byte; the read position moves behind the packet, or both go to 0 with the
  // last one.
  lemma ReadInNumbers(b: BufferView, maxSize: nat)
    requires InBounds(b) && b.entries != []
    ensures var c, e := Read(b, maxSize).0, b.entries[0];
      && c.data == b.data && |c.entries| == |b.entries| - 1
      && (forall i | 0 <= i < |c.entries| :: c.entries[i] == b.entries[i + 1])
      && (c.entries == [] ==> c.readPos == 0 && c.writePos == 0)
      && (c.entries != [] ==> c.readPos == e.offset + e.size && c.writePos == b.writePos)
  {}

  // What is queued, as the writers meant it if nothing was overwritten.
  ghost function Contents(b: BufferView): seq<Packet>
    requires InBounds(b)
  {
    seq(|b.entries|, i requires 0 <= i < |b.entries| => Packet(b.entries[i].header, Payload(b, b.entries[i])))
  }

  // ---- Layout of the byte region ----

  // The entries lie one after the other, the first at `from`, the last ending at `to`.
  predicate Chain(entries: seq<Entry>, from: nat, to: nat) {
    if entries == [] then from == to
    else entries[0].offset == from && Chain(entries[1..], from + entries[0].size, to)
  }

  ghost predicate Straight(b: BufferView) {
    Chain(b.entries, b.readPos, b.writePos)
  }

  // The first k entries lie between the read position and `top`, the others from 0 to the write
  // position, which has not passed the read position unless the first k entries have no bytes.
  ghost predicate WrappedAt(b: BufferView, k: nat, top: nat) {
    && k < |b.entries| && top <= BUFFER_SIZE && 0 < b.readPos
    && Chain(b.entries[..k], b.readPos, top) && Chain(b.entries[k..], 0, b.writePos)
    && (b.readPos < top ==> b.writePos <= b.readPos)
  }

  ghost predicate Layout(b: BufferView) {
    && InBounds(b)
    && (b.entries == [] ==> b.readPos == 0 && b.writePos == 0)
    && (Straight(b) || exists k, top :: WrappedAt(b, k, top))
  }

  // Some queued packet lies below the read position.
  predicate IsWrapped(b: BufferView) {
    exists i | 0 <= i < |b.entries| :: b.entries[i].offset < b.readPos
  }

  // Bytes of queued packets at or above the read position.
  predicate UsedAbove(b: BufferView) {
    exists i | 0 <= i < |b.entries| :: b.entries[i].offset >= b.readPos && b.entries[i].size > 0
  }

  // The test that Write does not make. While wrapped, the packet must end at or below the read
  // position, or before the end of the region if no bytes lie above the read position or the write
  // position has passed it.
  predicate WriteIsSafe(b: BufferView, size: nat) {
    || !IsWrapped(b)
    || b.writePos + size <= b.readPos
    || ((!UsedAbove(b) || b.writePos > b.readPos) && b.writePos + size <= BUFFER_SIZE)
  }

  lemma {:induction false} ChainBounds(entries: seq<Entry>, from: nat, to: nat)
    requires Chain(entries, from, to)
    ensures from <= to
    ensures forall i | 0 <= i < |entries| :: from <= entries[i].offset && entries[i].offset + entries[i].size <= to
    decreases |entries|
  {
    if entries != [] {
      ChainBounds(entries[1..], from + entries[0].size, to);
      assert forall i | 1 <= i < |entries| :: entries[i] == entries[1..][i - 1];
    }
  }

  lemma {:induction false} ChainSnoc(entries: seq<Entry>, from: nat, to: nat, e: Entry)
    requires Chain(entries, from, to) && e.offset == to
    ensures Chain(entries + [e], from, to + e.size)
    decreases |entries|
  {
    if entries == [] {
      assert (entries + [e])[1..] == [];
    } else {
      assert (entries + [e])[1..] == entries[1..] + [e];
      ChainSnoc(entries[1..], from + entries[0].size, to, e);
    }
  }

  lemma StraightIsNotWrapped(b: BufferView)
    requires Straight(b)
    ensures !IsWrapped(b)
  {
    ChainBounds(b.entries, b.readPos, b.writePos);
  }

  lemma WrappedIsWrapped(b: BufferView, k: nat, top: nat)
    requires WrappedAt(b, k, top)
    ensures IsWrapped(b)
  {
    assert b.entries[k..][0] == b.entries[k];
  }

  // Where the queued packets of a wrapped buffer are.
  lemma WrappedRanges(b: BufferView, k: nat, top: nat)
    requires WrappedAt(b, k, top)
    ensures b.readPos <= top
    ensures forall i | 0 <= i < k :: b.readPos <= b.entries[i].offset && b.entries[i].offset + b.entries[i].size <= top
    ensures forall i | k <= i < |b.entries| :: b.entries[i].offset + b.entries[i].size <= b.writePos
  {
    ChainBounds(b.entries[..k], b.readPos, top);
    ChainBounds(b.entries[k..], 0, b.writePos);
    assert forall i | 0 <= i < k :: b.entries[i] == b.entries[..k][i];
    assert forall i | k <= i < |b.entries| :: b.entries[i] == b.entries[k..][i - k];
  }

  // ---- Disjointness ----

  predicate Apart(e: Entry, f: Entry) {
    e.size == 0 || f.size == 0 || e.offset + e.size <= f.offset || f.offset + f.size <= e.offset
  }

  // The packet just written touches no byte of the packets queued before it.
  predicate LastIsApart(entries: seq<Entry>)
    requires entries != []
  {
    forall i | 0 <= i < |entries| - 1 :: Apart(entries[i], entries[|entries| - 1])
  }

  lemma BlitKeeps(data: seq<byte>, pos: nat, bytes: seq<byte>, from: nat, size: nat)
    requires pos + |bytes| <= |data| && from + size <= |data|
    requires size == 0 || |bytes| == 0 || from + size <= pos || pos + |bytes| <= from
    ensures Blit(data, pos, bytes)[from..from + size] == data[from..from + size]
    ensures Blit(data, pos, bytes)[pos..pos + |bytes|] == bytes
  {}

  // If the new packet lies apart, the queue simply grows by it.
  lemma ApartAppends(b: BufferView, header: Header, payload: seq<byte>)
    requires InBounds(b) && Write(b, header, payload).1 && LastIsApart(Write(b, header, payload).0.entries)
    ensures InBounds(Write(b, header, payload).0)
    ensures Contents(Write(b, header, payload).0) == Contents(b) + [Packet(header, payload)]
  {
    StaysInBounds(b, header, payload, 0);
    var c := Write(b, header, payload).0;
    var pos := Place(b, |payload|).value;
    var n := |b.entries|;
    forall i | 0 <= i < n
      ensures Payload(c, c.entries[i]) == Payload(b, b.entries[i])
    {
      var e := b.entries[i];
      assert c.entries[i] == e && Apart(c.entries[i], c.entries[n]);
      BlitKeeps(b.data, pos, payload, e.offset, e.size);
    }
    BlitKeeps(b.data, pos, payload, 0, 0);
    assert Payload(c, c.entries[n]) == payload;
  }

  // ---- One Write ----

  lemma StraightWrite(b: BufferView, header: Header, payload: seq<byte>)
    requires Layout(b) && Straight(b) && Write(b, header, payload).1
    ensures var c := Write(b, header, payload).0;
            Layout(c) && LastIsApart(c.entries)
  {
    StaysInBounds(b, header, payload, 0);
    ChainBounds(b.entries, b.readPos, b.writePos);
    var c := Write(b, header, payload).0;
    var pos := Place(b, |payload|).value;
    var e := Entry(header, |payload|, pos);
    if BUFFER_SIZE - b.writePos >= |payload| {
      ChainSnoc(b.entries, b.readPos, b.writePos, e);
    } else {
      var k := |b.entries|;
      assert c.entries[..k] == b.entries && c.entries[k..] == [e] && [e][1..] == [];
      assert Chain([e], 0, e.size);
      assert WrappedAt(c, k, b.writePos);
    }
  }

  // A chain that covers some bytes has a packet on its first byte.
  lemma {:induction false} ChainCoversStart(entries: seq<Entry>, from: nat, to: nat) returns (i: nat)
    requires Chain(entries, from, to) && from < to
    ensures i < |entries| && entries[i].offset == from && entries[i].size > 0
    decreases |entries|
  {
    if entries[0].size > 0 {
      i := 0;
    } else {
      var j := ChainCoversStart(entries[1..], from, to);
      i := j + 1;
    }
  }

  // Inside a wrapped buffer the test says: the packet fits where it goes, and the bytes above it are
  // free up to its end.
  lemma WrappedSafety(b: BufferView, k: nat, top: nat, size: nat)
    requires WrappedAt(b, k, top)
    ensures WriteIsSafe(b, size) <==>
              b.writePos + size <= b.readPos || (b.readPos == top && b.writePos + size <= BUFFER_SIZE)
  {
    WrappedRanges(b, k, top);
    WrappedIsWrapped(b, k, top);
    if b.readPos < top {
      var i := ChainCoversStart(b.entries[..k], b.readPos, top);
      assert b.entries[i] == b.entries[..k][i];
    } else if b.writePos <= b.readPos {
      assert !UsedAbove(b);
    }
  }

  lemma WrappedWrite(b: BufferView, k: nat, top: nat, header: Header, payload: seq<byte>)
    requires InBounds(b) && WrappedAt(b, k, top) && Write(b, header, payload).1 && WriteIsSafe(b, |payload|)
    ensures var c := Write(b, header, payload).0;
            Layout(c) && LastIsApart(c.entries)
  {
    StaysInBounds(b, header, payload, 0);
    WrappedRanges(b, k, top);
    WrappedSafety(b, k, top, |payload|);
    var c := Write(b, header, payload).0;
    var e := Entry(header, |payload|, b.writePos);
    assert c.entries == b.entries + [e];
    assert c.entries[..k] == b.entries[..k] && c.entries[k..] == b.entries[k..] + [e];
    ChainSnoc(b.entries[k..], 0, b.writePos, e);
    assert WrappedAt(c, k, top);
  }

  lemma WrappedOverlap(b: BufferView, k: nat, top: nat, header: Header, payload: seq<byte>)
    requires InBounds(b) && WrappedAt(b, k, top) && Write(b, header, payload).1 && !WriteIsSafe(b, |payload|)
    ensures !LastIsApart(Write(b, header, payload).0.entries)
  {
    WrappedRanges(b, k, top);
    WrappedSafety(b, k, top, |payload|);
    var c := Write(b, header, payload).0;
    var n := |b.entries|;
    assert forall i | 0 <= i < n :: c.entries[i] == b.entries[i];
    if b.writePos + |payload| > BUFFER_SIZE {
      var i := ChainCoversStart(b.entries[k..], 0, b.writePos);
      assert b.entries[k + i] == b.entries[k..][i] && !Apart(c.entries[k + i], c.entries[n]);
    } else {
      var i := ChainCoversStart(b.entries[..k], b.readPos, top);
      assert b.entries[i] == b.entries[..k][i] && !Apart(c.entries[i], c.entries[n]);
    }
  }

  // An accepted Write overwrites no byte of a queued packet exactly when it passes the missing test.
  lemma WriteApartExactly(b: BufferView, header: Header, payload: seq<byte>)
    requires Layout(b) && Write(b, header, payload).1
    ensures LastIsApart(Write(b, header, payload).0.entries) <==> WriteIsSafe(b, |payload|)
    ensures WriteIsSafe(b, |payload|) ==> Layout(Write(b, header, payload).0)
  {
    if Straight(b) {
      StraightIsNotWrapped(b);
      StraightWrite(b, header, payload);
    } else {
      var k: nat, top: nat :| WrappedAt(b, k, top);
      if WriteIsSafe(b, |payload|) {
        WrappedWrite(b, k, top, header, payload);
      } else {
        WrappedOverlap(b, k, top, header, payload);
      }
    }
  }

  // With the missing test, Write keeps the layout and appends exactly its packet.
  lemma SafeWriteAppends(b: BufferView, header: Header, payload: seq<byte>)
    requires Layout(b) && Write(b, header, payload).1 && WriteIsSafe(b, |payload|)
    ensures Layout(Write(b, header, payload).0)
    ensures Contents(Write(b, header, payload).0) == Contents(b) + [Packet(header, payload)]
  {
    WriteApartExactly(b, header, payload);
    ApartAppends(b, header, payload);
  }

  // The code's own tests suffice as long as no queued packet lies below the read position.
  lemma UnwrappedWriteAppends(b: BufferView, header: Header, payload: seq<byte>)
    requires Layout(b) && !IsWrapped(b) && Write(b, header, payload).1
    ensures Layout(Write(b, header, payload).0)
    ensures Contents(Write(b, header, payload).0) == Contents(b) + [Packet(header, payload)]
  {
    SafeWriteAppends(b, header, payload);
  }

  // ---- One Read ----

  lemma WrappedRead(b: BufferView, k: nat, top: nat, maxSize: nat)
    requires InBounds(b) && WrappedAt(b, k, top) && |b.entries| > 1
    ensures Straight(Read(b, maxSize).0) || (k > 0 && WrappedAt(Read(b, maxSize).0, k - 1, top))
  {
    WrappedRanges(b, k, top);
    var c := Read(b, maxSize).0;
    if k == 0 {
      assert b.entries[0..] == b.entries;
    } else {
      assert b.entries[..k][1..] == c.entries[..k - 1] && b.entries[k..] == c.entries[k - 1..];
    }
  }

  lemma ReadKeepsLayout(b: BufferView, maxSize: nat)
    requires Layout(b)
    ensures Layout(Read(b, maxSize).0)
  {
    StaysInBounds(b, [], [], maxSize);
    if |b.entries| > 1 {
      hide InBounds;
      if !Straight(b) {
        var k: nat, top: nat :| WrappedAt(b, k, top);
        WrappedRead(b, k, top, maxSize);
      }
    }
  }

  // A Read takes the oldest packet off the queue and yields its header and as much payload as fits.
  lemma ReadTakesFirst(b: BufferView, maxSize: nat)
    requires Layout(b)
    ensures InBounds(Read(b, maxSize).0)
    ensures var q := Contents(b);
            if q == [] then Read(b, maxSize) == (b, None)
            else
              && Contents(Read(b, maxSize).0) == q[1..]
              && Read(b, maxSize).1 == Some(Packet(q[0].header, if |q[0].payload| <= maxSize then q[0].payload else q[0].payload[..maxSize]))
  {
    StaysInBounds(b, [], [], maxSize);
  }

  // ---- Runs ----

  datatype Op = OpWrite(header: Header, payload: seq<byte>) | OpRead(maxSize: nat) | OpReset

  function Step(b: BufferView, op: Op): BufferView
    requires InBounds(b)
  {
    match op
    case OpWrite(header, payload) => Write(b, header, payload).0
    case OpRead(maxSize) => Read(b, maxSize).0
    case OpReset => BufferView([], b.data, 0, 0)
  }

  // The queue that the users of the buffer have in mind.
  function FifoStep(q: seq<Packet>, op: Op, accepted: bool): seq<Packet> {
    match op
    case OpWrite(header, payload) => if accepted then q + [Packet(header, payload)] else q
    case OpRead(_) => if q == [] then q else q[1..]
    case OpReset => []
  }

  predicate Accepted(b: BufferView, op: Op)
    requires InBounds(b)
  {
    op.OpWrite? && Write(b, op.header, op.payload).1
  }

  // Every accepted write of the run passes the missing test.
  ghost predicate AllSafe(b: BufferView, ops: seq<Op>)
    requires InBounds(b)
    decreases |ops|
  {
    ops == [] ||
    ((Accepted(b, ops[0]) ==> WriteIsSafe(b, |ops[0].payload|)) &&
     (StepInBounds(b, ops[0]); AllSafe(Step(b, ops[0]), ops[1..])))
  }

  // No accepted write of the run touches a byte of a packet queued at that moment.
  ghost predicate AllApart(b: BufferView, ops: seq<Op>)
    requires InBounds(b)
    decreases |ops|
  {
    ops == [] ||
    ((Accepted(b, ops[0]) ==> LastIsApart(Step(b, ops[0]).entries)) &&
     (StepInBounds(b, ops[0]); AllApart(Step(b, ops[0]), ops[1..])))
  }

  lemma StepInBounds(b: BufferView, op: Op)
    requires InBounds(b)
    ensures InBounds(Step(b, op))
  {
    match op
    case OpWrite(header, payload) => StaysInBounds(b, header, payload, 0);
    case OpRead(maxSize) => StaysInBounds(b, [], [], maxSize);
    case OpReset =>
  }

  ghost function Run(b: BufferView, ops: seq<Op>): (c: BufferView)
    requires InBounds(b)
    ensures InBounds(c)
    decreases |ops|
  {
    if ops == [] then b
    else
      StepInBounds(b, ops[0]);
      Run(Step(b, ops[0]), ops[1..])
  }

  ghost function FifoRun(b: BufferView, q: seq<Packet>, ops: seq<Op>): seq<Packet>
    requires InBounds(b)
    decreases |ops|
  {
    if ops == [] then q
    else
      StepInBounds(b, ops[0]);
      FifoRun(Step(b, ops[0]), FifoStep(q, ops[0], Accepted(b, ops[0])), ops[1..])
  }

  lemma StepIsFifo(b: BufferView, op: Op)
    requires Layout(b) && (Accepted(b, op) ==> WriteIsSafe(b, |op.payload|))
    ensures Layout(Step(b, op))
    ensures Contents(Step(b, op)) == FifoStep(Contents(b), op, Accepted(b, op))
  {
    match op
    case OpWrite(header, payload) =>
      if Accepted(b, op) {
        SafeWriteAppends(b, header, payload);
      }
    case OpRead(maxSize) =>
      ReadKeepsLayout(b, maxSize);
      ReadTakesFirst(b, maxSize);
    case OpReset =>
  }

  // In a run whose accepted writes all pass the missing test, the buffer is a FIFO queue: what is
  // queued, and therefore what Read yields, is byte for byte what was written, in order.
  lemma {:induction false} SafeRunIsFifo(b: BufferView, ops: seq<Op>)
    requires Layout(b) && AllSafe(b, ops)
    ensures Layout(Run(b, ops)) && Contents(Run(b, ops)) == FifoRun(b, Contents(b), ops)
    decreases |ops|
  {
    hide Layout, Contents, WriteIsSafe;
    if ops != [] {
      LayoutInBounds(b);
      StepInBounds(b, ops[0]);
      StepIsFifo(b, ops[0]);
      SafeRunIsFifo(Step(b, ops[0]), ops[1..]);
    }
  }

  // In any run, no accepted write touches a queued packet exactly when all accepted writes pass the test.
  lemma {:induction false} RunApartExactly(b: BufferView, ops: seq<Op>)
    requires Layout(b)
    ensures AllApart(b, ops) <==> AllSafe(b, ops)
    decreases |ops|
  {
    hide Layout, WriteIsSafe, LastIsApart, Write, Read, Contents;
    if ops != [] {
      LayoutInBounds(b);
      StepInBounds(b, ops[0]);
      if Accepted(b, ops[0]) {
        WriteApartExactly(b, ops[0].header, ops[0].payload);
      }
      if Accepted(b, ops[0]) ==> WriteIsSafe(b, |ops[0].payload|) {
        StepIsFifo(b, ops[0]);
        RunApartExactly(Step(b, ops[0]), ops[1..]);
      }
    }
  }

  lemma LayoutInBounds(b: BufferView)
    requires Layout(b)
    ensures InBounds(b)
  {}

  const EMPTY_BUFFER := BufferView([], EMPTY_DATA, 0, 0)

  lemma EmptyIsLaidOut()
    ensures Layout(EMPTY_BUFFER) && InBounds(EMPTY_BUFFER) && Contents(EMPTY_BUFFER) == []
  {}

  function Bytes(size: nat, x: byte): seq<byte> {
    seq(size, _ => x)
  }

  lemma RunCons(b: BufferView, q: seq<Packet>, op: Op, rest: seq<Op>)
    requires InBounds(b)
    ensures InBounds(Step(b, op))
    ensures Run(b, [op] + rest) == Run(Step(b, op), rest)
    ensures FifoRun(b, q, [op] + rest) == FifoRun(Step(b, op), FifoStep(q, op, Accepted(b, op)), rest)
  {
    StepInBounds(b, op);
    assert ([op] + rest)[1..] == rest;
  }

  // The write of `size` bytes x, with an empty header.
  function Fill(size: nat, x: byte): Op {
    OpWrite([], Bytes(size, x))
  }

  function Filled(size: nat, x: byte): Packet {
    Packet([], Bytes(size, x))
  }

  // Where things are after a write that starts at pos.
  lemma FillAt(b: BufferView, q: seq<Packet>, size: nat, x: byte, pos: nat, rest: seq<Op>) returns (c: BufferView)
    requires InBounds(b) && Place(b, size) == Some(pos)
    ensures InBounds(c)
    ensures c.entries == b.entries + [Entry([], size, pos)] && c.readPos == b.readPos && c.writePos == pos + size
    ensures forall i | pos <= i < pos + size :: c.data[i] == x
    ensures Run(b, [Fill(size, x)] + rest) == Run(c, rest)
    ensures FifoRun(b, q, [Fill(size, x)] + rest) == FifoRun(c, q + [Filled(size, x)], rest)
  {
    StaysInBounds(b, [], Bytes(size, x), 0);
    c := Step(b, Fill(size, x));
    RunCons(b, q, Fill(size, x), rest);
  }

  // Four packets of 2048 bytes, one read, a packet of 1000 bytes that wraps, and then 2048 bytes more,
  // which Write accepts although they reach into the second packet: the next read does not get it.
  lemma UnguardedWriteCorrupts()
    ensures InBounds(EMPTY_BUFFER)
    ensures var ops := [Fill(2048, 1)] + ([Fill(2048, 2)] + ([Fill(2048, 3)] + ([Fill(2048, 4)] +
                       ([OpRead(2048)] + ([Fill(1000, 5)] + ([Fill(2048, 6)] + []))))));
            var fifo := FifoRun(EMPTY_BUFFER, [], ops);
            var read := Read(Run(EMPTY_BUFFER, ops), 2048).1;
            && fifo != [] && fifo[0] == Filled(2048, 2)
            && read.Some? && read.value != fifo[0]
  {
    EmptyIsLaidOut();
    hide Run, FifoRun, InBounds, Bytes;
    var o7 := [Fill(2048, 6)] + [];
    var o6 := [Fill(1000, 5)] + o7;
    var o5 := [OpRead(2048)] + o6;
    var o4 := [Fill(2048, 4)] + o5;
    var o3 := [Fill(2048, 3)] + o4;
    var o2 := [Fill(2048, 2)] + o3;
    var b1 := FillAt(EMPTY_BUFFER, [], 2048, 1, 0, o2);
    var b2 := FillAt(b1, [] + [Filled(2048, 1)], 2048, 2, 2048, o3);
    var b3 := FillAt(b2, [] + [Filled(2048, 1)] + [Filled(2048, 2)], 2048, 3, 4096, o4);
    var q4 := [] + [Filled(2048, 1)] + [Filled(2048, 2)] + [Filled(2048, 3)];
    var b4 := FillAt(b3, q4, 2048, 4, 6144, o5);
    RunCons(b4, q4 + [Filled(2048, 4)], OpRead(2048), o6);
    var b5 := Step(b4, OpRead(2048));
    var q5 := (q4 + [Filled(2048, 4)])[1..];
    var b6 := FillAt(b5, q5, 1000, 5, 0, o7);
    var b7 := FillAt(b6, q5 + [Filled(1000, 5)], 2048, 6, 1000, []);
    RunNothing(b7, q5 + [Filled(1000, 5)] + [Filled(2048, 6)]);
    Overwritten(b7);
  }

  lemma Overwritten(b: BufferView)
    requires InBounds(b) && b.entries != [] && b.entries[0] == Entry([], 2048, 2048) && b.data[2048] == 6
    ensures Read(b, 2048).1.Some? && Read(b, 2048).1.value != Filled(2048, 2)
  {
    assert Payload(b, b.entries[0])[0] == 6;
    assert Filled(2048, 2).payload[0] == 2;
  }

  lemma RunNothing(b: BufferView, q: seq<Packet>)
    requires InBounds(b)
    ensures Run(b, []) == b && FifoRun(b, q, []) == q
  {}
}
