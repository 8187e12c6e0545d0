/** What the runs of one socket mean byte by byte: which bytes a reader gets, and when it gets none. */
module SocketLaws {
  import opened BsdTypes
  import opened ProxySocket
  import opened SocketRuns

  // ---- Bytes ----

  // `part` is the first n bytes of `whole`, or all of them if there are fewer.
  predicate FirstBytes(part: seq<byte>, whole: seq<byte>, n: nat) {
    && |part| == (if n < |whole| then n else |whole|)
    && forall j | 0 <= j < |part| :: part[j] == whole[j]
  }

  lemma PrefixIsFirstBytes(whole: seq<byte>, n: nat)
    ensures FirstBytes(Prefix(whole, n), whole, n)
  {}

  lemma FirstOfFirst(a: seq<byte>, b: seq<byte>, c: seq<byte>, m: nat, n: nat)
    requires FirstBytes(b, a, m) && FirstBytes(c, b, n)
    ensures FirstBytes(c, a, if m < n then m else n)
  {}

  datatype Sent = Sent(data: seq<byte>, from: SockAddrIn)

  // The datagrams that a run hands to the socket, in order.
  function Datagrams(ops: seq<Op>): seq<Sent> {
    if ops == [] then []
    else
      var last := ops[|ops| - 1];
      Datagrams(ops[..|ops| - 1]) + if last.OpIncoming? then [Sent(last.data, last.from)] else []
  }

  // Every arrival is the first 2000 bytes of its datagram.
  ghost predicate ArrivalsMatch(ops: seq<Op>, s: System) {
    var sent := Datagrams(ops);
    && |s.arrivals| == |sent|
    && forall i | 0 <= i < |sent| :: s.arrivals[i].from == sent[i].from && FirstBytes(s.arrivals[i].data, sent[i].data, 2000)
  }

  lemma StepMatches(front: seq<Op>, op: Op, r: System)
    requires ArrivalsMatch(front, r) && Enabled(r, op) && |r.socket.queue| <= |r.arrivals|
    ensures ArrivalsMatch(front + [op], Step(r, op))
  {
    assert (front + [op])[..|front|] == front;
    hide Prefix, FirstBytes;
    if op.OpIncoming? {
      PrefixIsFirstBytes(op.data, 2000);
    }
  }

  lemma {:induction false} EveryRunMatches(stype: SocketType, protocol: Protocol, ops: seq<Op>, s: System)
    requires Reaches(stype, protocol, ops, s)
    ensures ArrivalsMatch(ops, s)
    decreases |ops|
  {
    hide Step, Enabled, FirstBytes;
    if ops != [] {
      var front, last := ops[..|ops| - 1], ops[|ops| - 1];
      var r: System :| Reaches(stype, protocol, front, r) && Enabled(r, last) && |r.socket.queue| <= |r.arrivals| && s == Step(r, last);
      EveryRunMatches(stype, protocol, front, r);
      StepMatches(front, last, r);
      assert front + [last] == ops;
    }
  }

  function Least(a: nat, b: nat): nat {
    if a < b then a else b
  }

  // In every run each read that took a packet got the source and the first min(len, 2000) bytes of one
  // of the datagrams handed to the socket.
  lemma DeliveriesAreFirstBytes(stype: SocketType, protocol: Protocol, ops: seq<Op>, s: System, k: nat)
    requires Reaches(stype, protocol, ops, s) && k < |s.deliveries|
    ensures var d, sent := s.deliveries[k], Datagrams(ops);
      && d.index < |sent| && d.from == sent[d.index].from
      && FirstBytes(d.data, sent[d.index].data, Least(d.len, 2000))
  {
    hide Reaches, Prefix, FirstBytes;
    EveryRunKeepsInv(stype, protocol, ops, s);
    EveryRunMatches(stype, protocol, ops, s);
    var d := s.deliveries[k];
    var sent := Datagrams(ops)[d.index];
    PrefixIsFirstBytes(s.arrivals[d.index].data, d.len);
    FirstOfFirst(sent.data, s.arrivals[d.index].data, d.data, 2000, d.len);
  }

  // How many bytes a read asks for.
  function LengthOf(s: System, op: Op): nat
    requires Enabled(s, op) && (op.OpRecv? || op.OpResume?)
  {
    match op
    case OpRecv(_, _, len, _, _) => len
    case OpResume(reader) => s.woken[reader].len
  }

  lemma AnswerIsFront(s: System, op: Op)
    requires Enabled(s, op) && (op.OpRecv? || op.OpResume?) && Outcome(s, op).Received?
    ensures s.socket.queue != [] && Outcome(s, op).from == s.socket.queue[0].from
    ensures FirstBytes(Outcome(s, op).data, s.socket.queue[0].data, LengthOf(s, op))
  {
    hide Prefix;
    PrefixIsFirstBytes(s.socket.queue[0].data, LengthOf(s, op));
  }

  // In every run each read that answers with data, peeking or not, waited or not, answers with the oldest
  // queued datagram: its source and its first min(len, 2000) bytes. What is queued are the latest datagrams.
  lemma ReadAnswersOldest(stype: SocketType, protocol: Protocol, ops: seq<Op>, s: System, op: Op)
    requires Reaches(stype, protocol, ops, s) && Enabled(s, op) && (op.OpRecv? || op.OpResume?)
    requires Outcome(s, op).Received?
    ensures var sent, answer := Datagrams(ops), Outcome(s, op);
            var i := |sent| - |s.socket.queue|;
            && 0 <= i < |sent| && answer.from == sent[i].from
            && FirstBytes(answer.data, sent[i].data, Least(LengthOf(s, op), 2000))
  {
    AnswerIsFront(s, op);
    hide Reaches, Prefix, FirstBytes, Outcome, LengthOf;
    EveryRunKeepsInv(stype, protocol, ops, s);
    EveryRunMatches(stype, protocol, ops, s);
    var i := |s.arrivals| - |s.socket.queue|;
    assert i == FirstUnread(s) && s.socket.queue[0] == s.arrivals[i];
    FirstOfFirst(Datagrams(ops)[i].data, s.arrivals[i].data, Outcome(s, op).data, 2000, LengthOf(s, op));
  }

  // ---- End of data ----

  // The run shut the socket down for reading, by Shutdown or by Close.
  predicate ShutForReading(ops: seq<Op>) {
    OpShutdown(ShutRead) in ops || OpShutdown(ShutBoth) in ops || OpCloseBegin in ops
  }

  predicate ShutForWriting(ops: seq<Op>) {
    OpShutdown(ShutWrite) in ops || OpShutdown(ShutBoth) in ops || OpCloseBegin in ops
  }

  ghost predicate FlagsMatch(ops: seq<Op>, s: System) {
    && (s.socket.shutdownRead <==> ShutForReading(ops))
    && (s.socket.shutdownWrite <==> ShutForWriting(ops))
    && (s.socket.state == Closed <==> OpCloseBegin in ops)
  }

  lemma InSnoc(front: seq<Op>, op: Op, x: Op)
    ensures x in front + [op] <==> x in front || x == op
  {}

  lemma MarksGrow(front: seq<Op>, op: Op)
    ensures ShutForReading(front + [op]) <==>
              ShutForReading(front) || op == OpShutdown(ShutRead) || op == OpShutdown(ShutBoth) || op == OpCloseBegin
    ensures ShutForWriting(front + [op]) <==>
              ShutForWriting(front) || op == OpShutdown(ShutWrite) || op == OpShutdown(ShutBoth) || op == OpCloseBegin
  {
    InSnoc(front, op, OpShutdown(ShutRead));
    InSnoc(front, op, OpShutdown(ShutWrite));
    InSnoc(front, op, OpShutdown(ShutBoth));
    InSnoc(front, op, OpCloseBegin);
  }

  lemma StepFlags(front: seq<Op>, op: Op, r: System)
    requires FlagsMatch(front, r) && Enabled(r, op) && |r.socket.queue| <= |r.arrivals|
    ensures FlagsMatch(front + [op], Step(r, op))
  {
    MarksGrow(front, op);
    InSnoc(front, op, OpCloseBegin);
    hide Prefix, ShutForReading, ShutForWriting;
  }

  // In every run the three marks of a socket say what was done to it.
  lemma {:induction false} EveryRunFlags(stype: SocketType, protocol: Protocol, ops: seq<Op>, s: System)
    requires Reaches(stype, protocol, ops, s)
    ensures FlagsMatch(ops, s)
    decreases |ops|
  {
    hide Step, Enabled;
    if ops != [] {
      hide FlagsMatch;
      var front, last := ops[..|ops| - 1], ops[|ops| - 1];
      var r: System :| Reaches(stype, protocol, front, r) && Enabled(r, last) && |r.socket.queue| <= |r.arrivals| && s == Step(r, last);
      EveryRunFlags(stype, protocol, front, r);
      StepFlags(front, last, r);
      assert front + [last] == ops;
    }
  }

  // In every run a new read answers end of data exactly when the socket was shut down for reading or
  // closed, whatever is queued, so a closed socket is never reported as a bad descriptor; after that come
  // the buffer test, the queue, and the choice between Again and waiting.
  lemma ReadAnswersExactly(stype: SocketType, protocol: Protocol, ops: seq<Op>, s: System, op: Op)
    requires Reaches(stype, protocol, ops, s) && op.OpRecv? && Enabled(s, op)
    ensures Outcome(s, op) == Eof <==> ShutForReading(ops)
    ensures Outcome(s, op) != Failed(BadF)
    ensures Outcome(s, op) == Failed(Fault) <==> !ShutForReading(ops) && !op.hasBuffer && op.len > 0
    ensures Outcome(s, op).Received? <==>
              !ShutForReading(ops) && (op.hasBuffer || op.len == 0) && s.socket.queue != []
    ensures Outcome(s, op) == MustWait <==>
              !ShutForReading(ops) && (op.hasBuffer || op.len == 0) && s.socket.queue == [] && !op.noWait && !s.socket.nonBlocking
  {
    hide Reaches, Prefix;
    EveryRunFlags(stype, protocol, ops, s);
  }

  // ---- Flags of a call ----

  // MSG_PEEK is the bit of value 2, MSG_DONTWAIT the bit of value 128.
  lemma FlagBits(high: int, bit: int, low: int)
    requires 0 <= bit <= 1
    ensures 0 <= low < 2 ==> (WantsPeek(4 * high + 2 * bit + low) <==> bit == 1)
    ensures 0 <= low < 128 ==> (WantsNoWait(256 * high + 128 * bit + low) <==> bit == 1)
  {}
}
