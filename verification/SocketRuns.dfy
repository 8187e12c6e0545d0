/**
 Every interleaving of the operations on one socket, with any number of blocked readers.
 Each step is one critical section of the code; Close takes two, and a blocked read three: the section
 that finds nothing, the return of the wait, and the section after it.
 */
module SocketRuns {
  import opened BsdTypes
  import opened ProxySocket

  datatype Waiter = Waiter(len: nat, peek: bool)

  // A read that removed a packet: the index of the packet among all arrivals, and what the reader got.
  datatype Delivery = Delivery(index: nat, len: nat, data: seq<byte>, from: SockAddrIn)

  // `discarded`: how many arrivals had happened when a Close last emptied the queue.
  // `woken`: the readers whose wait has returned.
  datatype System = System(socket: SocketView, waiting: map<nat, Waiter>, woken: map<nat, Waiter>,
                           arrivals: seq<Packet>, deliveries: seq<Delivery>, discarded: nat)

  datatype Op =
    | OpBind(addr: SockAddrIn)
    | OpSetNonBlocking(on: bool)
    | OpIncoming(data: seq<byte>, from: SockAddrIn)
    | OpRecv(reader: nat, hasBuffer: bool, len: nat, peek: bool, noWait: bool)
    | OpWaitReturns(reader: nat)
    | OpResume(reader: nat)
    | OpShutdown(how: ShutdownHow)
    | OpCloseBegin
    | OpCloseEnd

  predicate Enabled(s: System, op: Op) {
    match op
    case OpRecv(reader, _, _, _, _) => reader !in s.waiting && reader !in s.woken
    case OpWaitReturns(reader) => reader in s.waiting && s.socket.signalled
    case OpResume(reader) => reader in s.woken
    case _ => true
  }

  // The index of the packet at the front of the queue.
  function Front(s: System): int {
    |s.arrivals| - |s.socket.queue|
  }

  function Record(s: System, socket: SocketView, outcome: RecvOutcome, len: nat, peek: bool): System
    requires |s.socket.queue| <= |s.arrivals|
  {
    if outcome.Received? && !peek then
      s.(socket := socket, deliveries := s.deliveries + [Delivery(Front(s), len, outcome.data, outcome.from)])
    else s.(socket := socket)
  }

  function Outcome(s: System, op: Op): RecvOutcome
    requires Enabled(s, op) && (op.OpRecv? || op.OpResume?)
  {
    match op
    case OpRecv(_, hasBuffer, len, peek, noWait) => s.socket.RecvTry(hasBuffer, len, peek, noWait).1
    case OpResume(reader) => s.socket.RecvWoken(s.woken[reader].len, s.woken[reader].peek).1
  }

  function Step(s: System, op: Op): System
    requires Enabled(s, op) && |s.socket.queue| <= |s.arrivals|
  {
    match op
    case OpBind(addr) => s.(socket := s.socket.Bind(addr).0)
    case OpSetNonBlocking(on) => s.(socket := s.socket.(nonBlocking := on))
    case OpIncoming(data, from) =>
      s.(socket := s.socket.Incoming(data, from), arrivals := s.arrivals + [Packet(from, Prefix(data, MAX_PAYLOAD))])
    case OpRecv(reader, hasBuffer, len, peek, noWait) =>
      var (socket, outcome) := s.socket.RecvTry(hasBuffer, len, peek, noWait);
      if outcome.MustWait? then s.(waiting := s.waiting[reader := Waiter(len, peek)])
      else Record(s, socket, outcome, len, peek)
    case OpWaitReturns(reader) =>
      s.(waiting := s.waiting - {reader}, woken := s.woken[reader := s.waiting[reader]])
    case OpResume(reader) =>
      var w := s.woken[reader];
      var (socket, outcome) := s.socket.RecvWoken(w.len, w.peek);
      Record(s, socket, outcome, w.len, w.peek).(woken := s.woken - {reader})
    case OpShutdown(how) => s.(socket := s.socket.Shutdown(how).0)
    case OpCloseBegin => s.(socket := s.socket.CloseBegin())
    case OpCloseEnd => s.(socket := s.socket.CloseEnd(), discarded := |s.arrivals|)
  }

  function Init(stype: SocketType, protocol: Protocol): System {
    System(NewSocket(stype, protocol), map[], map[], [], [], 0)
  }

  // ---- The invariant ----

  function Max(a: int, b: int): int {
    if a >= b then a else b
  }

  // Index of the first packet that is not yet read, not cleared by Close, and among the newest 64.
  function FirstUnread(s: System): int {
    var afterReads := if s.deliveries == [] then 0 else s.deliveries[|s.deliveries| - 1].index + 1;
    Max(Max(afterReads, s.discarded), |s.arrivals| - MAX_QUEUE_SIZE)
  }

  ghost predicate QueueIsNewestUnread(s: System) {
    0 <= FirstUnread(s) <= |s.arrivals| && s.socket.queue == s.arrivals[FirstUnread(s)..]
  }

  ghost predicate DeliveriesInOrder(s: System) {
    && (forall k | 0 <= k < |s.deliveries| ::
          var d := s.deliveries[k];
          && d.index < |s.arrivals| && d.from == s.arrivals[d.index].from
          && d.data == Prefix(s.arrivals[d.index].data, d.len))
    && (forall j, k | 0 <= j < k < |s.deliveries| :: s.deliveries[j].index < s.deliveries[k].index)
  }

  ghost predicate DataIsSignalled(s: System) {
    s.socket.queue != [] ==> s.socket.signalled
  }

  ghost predicate Inv(s: System) {
    QueueIsNewestUnread(s) && DeliveriesInOrder(s) && DataIsSignalled(s)
  }

  lemma IncomingKeepsQueue(s: System, op: Op)
    requires QueueIsNewestUnread(s) && op.OpIncoming?
    ensures QueueIsNewestUnread(Step(s, op))
  {
    hide Prefix;
    var t := Step(s, op);
    assert t.deliveries == s.deliveries && |t.arrivals| == |s.arrivals| + 1;
    assert FirstUnread(t) == FirstUnread(s) + if |s.socket.queue| >= MAX_QUEUE_SIZE then 1 else 0;
    assert t.socket.queue == t.arrivals[FirstUnread(t)..];
  }

  lemma IncomingKeepsInv(s: System, op: Op)
    requires Inv(s) && op.OpIncoming?
    ensures Inv(Step(s, op))
  {
    IncomingKeepsQueue(s, op);
    hide Prefix, QueueIsNewestUnread;
    assert Step(s, op).deliveries == s.deliveries;
  }

  // The state after a reader took the front packet.
  function Taken(s: System, len: nat): System
    requires QueueIsNewestUnread(s) && s.socket.queue != []
  {
    var (socket, outcome) := s.socket.ConsumeFront(len, false);
    Record(s, socket, outcome, len, false)
  }

  lemma TakenKeepsQueue(s: System, len: nat)
    requires QueueIsNewestUnread(s) && s.socket.queue != []
    ensures QueueIsNewestUnread(Taken(s, len))
  {
    hide Prefix;
    var t := Taken(s, len);
    assert FirstUnread(t) == FirstUnread(s) + 1;
    assert t.socket.queue == t.arrivals[FirstUnread(t)..];
  }

  lemma DeliveredBeforeFront(s: System)
    requires DeliveriesInOrder(s)
    ensures forall k | 0 <= k < |s.deliveries| :: s.deliveries[k].index < FirstUnread(s)
  {
    hide Prefix;
    var n := |s.deliveries|;
    forall k | 0 <= k < n
      ensures s.deliveries[k].index < FirstUnread(s)
    {
      assert k < n - 1 ==> s.deliveries[k].index < s.deliveries[n - 1].index;
    }
  }

  lemma TakenKeepsOrder(s: System, len: nat)
    requires QueueIsNewestUnread(s) && DeliveriesInOrder(s) && s.socket.queue != []
    ensures DeliveriesInOrder(Taken(s, len))
  {
    DeliveredBeforeFront(s);
    hide Prefix;
    var t := Taken(s, len);
    var d := t.deliveries[|s.deliveries|];
    assert t.deliveries == s.deliveries + [d] && t.arrivals == s.arrivals;
    assert d.index == FirstUnread(s) && d.from == s.arrivals[d.index].from
        && d.data == Prefix(s.arrivals[d.index].data, d.len) by {
      assert s.socket.queue[0] == s.arrivals[FirstUnread(s)];
    }
    hide FirstUnread, QueueIsNewestUnread, Taken;
  }

  lemma ConsumeKeepsInv(s: System, len: nat, peek: bool)
    requires Inv(s) && s.socket.queue != []
    ensures var (socket, outcome) := s.socket.ConsumeFront(len, peek);
            Inv(Record(s, socket, outcome, len, peek))
  {
    hide Prefix;
    if peek {
      var (socket, outcome) := s.socket.ConsumeFront(len, true);
      assert Record(s, socket, outcome, len, true) == s;
    } else {
      hide QueueIsNewestUnread, DeliveriesInOrder;
      TakenKeepsQueue(s, len);
      TakenKeepsOrder(s, len);
    }
  }

  // Steps that leave the queue and the history alone, and clear no event.
  lemma QuietKeepsInv(s: System, t: System)
    requires Inv(s) && t.socket.queue == s.socket.queue && (s.socket.signalled ==> t.socket.signalled)
    requires t.arrivals == s.arrivals && t.deliveries == s.deliveries && t.discarded == s.discarded
    ensures Inv(t)
  {}

  lemma CloseEndKeepsInv(s: System)
    requires Inv(s)
    ensures Inv(Step(s, OpCloseEnd))
  {}

  lemma RecvKeepsInv(s: System, op: Op)
    requires Inv(s) && Enabled(s, op) && op.OpRecv?
    ensures Inv(Step(s, op))
  {
    var outcome := s.socket.RecvTry(op.hasBuffer, op.len, op.peek, op.noWait).1;
    if outcome.Received? {
      ConsumeKeepsInv(s, op.len, op.peek);
    } else {
      QuietKeepsInv(s, Step(s, op));
    }
  }

  lemma ResumeKeepsInv(s: System, op: Op)
    requires Inv(s) && Enabled(s, op) && op.OpResume?
    ensures Inv(Step(s, op))
  {
    var w := s.woken[op.reader];
    var (socket, outcome) := s.socket.RecvWoken(w.len, w.peek);
    if outcome.Received? {
      ConsumeKeepsInv(s, w.len, w.peek);
    }
    QuietKeepsInv(Record(s, socket, outcome, w.len, w.peek), Step(s, op));
  }

  lemma StepKeepsInv(s: System, op: Op)
    requires Inv(s) && Enabled(s, op)
    ensures Inv(Step(s, op))
  {
    match op
    case OpIncoming(_, _) => IncomingKeepsInv(s, op);
    case OpRecv(_, _, _, _, _) => RecvKeepsInv(s, op);
    case OpResume(_) => ResumeKeepsInv(s, op);
    case OpCloseEnd => CloseEndKeepsInv(s);
    case _ => QuietKeepsInv(s, Step(s, op));
  }

  // ---- Runs ----

  // `s` is reached from a new socket by the steps `ops`, each enabled when it is taken.
  ghost predicate Reaches(stype: SocketType, protocol: Protocol, ops: seq<Op>, s: System)
    decreases |ops|
  {
    if ops == [] then s == Init(stype, protocol)
    else
      exists r: System ::
        && Reaches(stype, protocol, ops[..|ops| - 1], r)
        && Enabled(r, ops[|ops| - 1]) && |r.socket.queue| <= |r.arrivals|
        && s == Step(r, ops[|ops| - 1])
  }

  lemma {:induction false} EveryRunKeepsInv(stype: SocketType, protocol: Protocol, ops: seq<Op>, s: System)
    requires Reaches(stype, protocol, ops, s)
    ensures Inv(s)
    decreases |ops|
  {
    if ops != [] {
      var last := ops[|ops| - 1];
      var r: System :| Reaches(stype, protocol, ops[..|ops| - 1], r) && Enabled(r, last)
                       && |r.socket.queue| <= |r.arrivals| && s == Step(r, last);
      EveryRunKeepsInv(stype, protocol, ops[..|ops| - 1], r);
      StepKeepsInv(r, last);
    }
  }

  // A reader that waits while packets are queued is never stuck: its wait can return, and if it resumes
  // before another reader empties the queue, it gets the oldest queued packet.
  lemma NoLostWakeup(stype: SocketType, protocol: Protocol, ops: seq<Op>, s: System, reader: nat)
    requires Reaches(stype, protocol, ops, s)
    requires reader in s.waiting && s.socket.queue != []
    ensures |s.socket.queue| <= |s.arrivals|
    ensures Enabled(s, OpWaitReturns(reader))
    ensures var t := Step(s, OpWaitReturns(reader));
            && Enabled(t, OpResume(reader))
            && Outcome(t, OpResume(reader)) ==
               Received(Prefix(s.socket.queue[0].data, s.waiting[reader].len), s.socket.queue[0].from)
  {
    hide Reaches, Prefix;
    EveryRunKeepsInv(stype, protocol, ops, s);
  }

  lemma OneStepFurther(stype: SocketType, protocol: Protocol, ops: seq<Op>, s: System, op: Op)
    requires Reaches(stype, protocol, ops, s) && Enabled(s, op)
    ensures |s.socket.queue| <= |s.arrivals| && Reaches(stype, protocol, ops + [op], Step(s, op))
  {
    EveryRunKeepsInv(stype, protocol, ops, s);
    hide Step, Enabled;
    assert (ops + [op])[..|ops|] == ops;
  }

  // ---- When a blocking read answers Again ----

  // Every arrival has been cleared by Close or read, the last one included.
  predicate NothingLeft(s: System) {
    || s.discarded == |s.arrivals|
    || (s.deliveries != [] && s.deliveries[|s.deliveries| - 1].index + 1 == |s.arrivals|)
  }

  // In any run, a reader whose wait has returned is told Again exactly when nothing is left to read, and
  // gets the oldest queued packet otherwise.
  lemma AgainExactly(stype: SocketType, protocol: Protocol, ops: seq<Op>, s: System, reader: nat)
    requires Reaches(stype, protocol, ops, s) && reader in s.woken
    ensures Outcome(s, OpResume(reader)) == Failed(Again) <==> NothingLeft(s)
    ensures NothingLeft(s) <==> s.socket.queue == []
    ensures s.socket.queue != [] ==>
              Outcome(s, OpResume(reader))
              == Received(Prefix(s.socket.queue[0].data, s.woken[reader].len), s.socket.queue[0].from)
  {
    hide Reaches, Prefix;
    EveryRunKeepsInv(stype, protocol, ops, s);
  }

  // What can leave a woken reader with nothing: a Shutdown or Close, which signal the event without a
  // packet, or another reader that takes the last packet after the wait has returned.
  predicate Disturbs(s: System, op: Op, reader: nat)
    requires Enabled(s, op)
  {
    match op
    case OpShutdown(how) => !how.ShutOther?
    case OpCloseBegin => true
    case OpCloseEnd => true
    case OpRecv(other, _, _, peek, _) => reader in s.woken && !peek && Outcome(s, op).Received? && |s.socket.queue| == 1
    case OpResume(other) =>
      reader in s.woken && other != reader && !s.woken[other].peek && Outcome(s, op).Received? && |s.socket.queue| == 1
    case _ => false
  }

  // `t` comes after `s` by the steps `ops`, none of which disturbs the reader.
  ghost predicate UndisturbedRun(s: System, ops: seq<Op>, t: System, reader: nat)
    decreases |ops|
  {
    if ops == [] then s == t
    else
      && Enabled(s, ops[0]) && |s.socket.queue| <= |s.arrivals| && !Disturbs(s, ops[0], reader)
      && UndisturbedRun(Step(s, ops[0]), ops[1..], t, reader)
  }

  // The event is signalled only for packets, and the reader has not been let through for nothing.
  predicate SignalMeansData(s: System, reader: nat) {
    && (s.socket.signalled ==> s.socket.queue != [])
    && (reader in s.woken ==> s.socket.queue != [])
  }

  lemma StepKeepsSignal(s: System, op: Op, reader: nat)
    requires SignalMeansData(s, reader) && Enabled(s, op) && |s.socket.queue| <= |s.arrivals| && !Disturbs(s, op, reader)
    ensures SignalMeansData(Step(s, op), reader)
  {
    hide Prefix;
  }

  // If the event is not signalled for nothing when the wait starts, and nobody disturbs it, a blocking
  // read never answers Again: it gets the oldest packet queued when it resumes.
  lemma {:induction false} UndisturbedReadIsAnswered(s: System, ops: seq<Op>, t: System, reader: nat)
    requires SignalMeansData(s, reader) && UndisturbedRun(s, ops, t, reader) && reader in t.woken
    ensures t.socket.queue != [] && Outcome(t, OpResume(reader)) ==
            Received(Prefix(t.socket.queue[0].data, t.woken[reader].len), t.socket.queue[0].from)
    decreases |ops|
  {
    hide Prefix, SignalMeansData, Disturbs, Enabled;
    if ops == [] {
      SignalGivesData(t, reader);
    } else {
      StepKeepsSignal(s, ops[0], reader);
      UndisturbedReadIsAnswered(Step(s, ops[0]), ops[1..], t, reader);
    }
  }

  lemma SignalGivesData(s: System, reader: nat)
    requires SignalMeansData(s, reader) && reader in s.woken
    ensures s.socket.queue != []
  {}

  // A new socket meets the condition, so this covers every run without Shutdown and Close.
  lemma StartSignals(stype: SocketType, protocol: Protocol, reader: nat)
    ensures SignalMeansData(Init(stype, protocol), reader)
  {}

  // Shutdown and the first half of Close wake a reader that waits for a packet, to be told Again.
  lemma ShutdownAnswersAgain(s: System, reader: nat, op: Op)
    requires Inv(s) && reader in s.waiting && s.socket.queue == []
    requires (op.OpShutdown? && !op.how.ShutOther?) || op.OpCloseBegin?
    ensures var t := Step(s, op);
            && Enabled(t, OpWaitReturns(reader))
            && Enabled(Step(t, OpWaitReturns(reader)), OpResume(reader))
            && Outcome(Step(t, OpWaitReturns(reader)), OpResume(reader)) == Failed(Again)
  {}

  // A signal without a packet stays: on an open socket every blocking read after it is let through at
  // once and told Again, and leaves the socket as it was, until a packet comes. Shutdown(Write) leaves such
  // a signal.
  lemma StaleSignalAnswersAgain(s: System, reader: nat, len: nat, peek: bool)
    requires Inv(s) && s.socket.queue == [] && s.socket.signalled && reader !in s.waiting && reader !in s.woken
    requires !s.socket.shutdownRead && s.socket.state != Closed && !s.socket.nonBlocking
    ensures Outcome(s, OpRecv(reader, true, len, peek, false)) == MustWait
    ensures var t := Step(s, OpRecv(reader, true, len, peek, false));
            && Enabled(t, OpWaitReturns(reader))
            && var u := Step(t, OpWaitReturns(reader));
               && Enabled(u, OpResume(reader)) && Outcome(u, OpResume(reader)) == Failed(Again)
               && Step(u, OpResume(reader)) == s
  {
    var t := Step(s, OpRecv(reader, true, len, peek, false));
    var u := Step(t, OpWaitReturns(reader));
    assert u.woken - {reader} == s.woken && u.waiting == s.waiting;
  }

  // Witness without any other reader or packet: reader 0 waits, the socket is shut down, reader 0 resumes.
  lemma ShutdownAloneAnswersAgain(stype: SocketType, protocol: Protocol)
    ensures exists ops, s ::
              && Reaches(stype, protocol, ops, s) && s.arrivals == [] && s.deliveries == []
              && Enabled(s, OpResume(0)) && Outcome(s, OpResume(0)) == Failed(Again)
  {
    hide Reaches;
    var s0 := Init(stype, protocol);
    StartReached(stype, protocol);
    var first, second, third := OpRecv(0, true, 1, false, false), OpShutdown(ShutBoth), OpWaitReturns(0);
    OneStepFurther(stype, protocol, [], s0, first);
    var s1 := Step(s0, first);
    OneStepFurther(stype, protocol, [] + [first], s1, second);
    var s2 := Step(s1, second);
    OneStepFurther(stype, protocol, [] + [first] + [second], s2, third);
    var s3 := Step(s2, third);
    assert Reaches(stype, protocol, [] + [first] + [second] + [third], s3);
    assert Outcome(s3, OpResume(0)) == Failed(Again);
  }

  // And one on an open socket: after Shutdown(Write) a read finds the event signalled and no packet.
  lemma ShutWriteLeavesASignal(stype: SocketType, protocol: Protocol)
    ensures exists ops, s ::
              && Reaches(stype, protocol, ops, s) && s.arrivals == [] && s.socket.queue == [] && s.socket.signalled
              && !s.socket.shutdownRead && s.socket.state != Closed && !s.socket.nonBlocking
  {
    hide Reaches;
    var s0 := Init(stype, protocol);
    StartReached(stype, protocol);
    OneStepFurther(stype, protocol, [], s0, OpShutdown(ShutWrite));
    assert Step(s0, OpShutdown(ShutWrite)).socket.signalled;
  }

  // Witness with another reader, who comes in between and takes the only packet:
  // reader 0 waits, a packet arrives, the wait returns, reader 1 takes the packet, reader 0 resumes.
  lemma WokenReaderCanFindNothing(stype: SocketType, protocol: Protocol, from: SockAddrIn)
    ensures exists ops, s :: Reaches(stype, protocol, ops, s) && Enabled(s, OpResume(0)) && Outcome(s, OpResume(0)) == Failed(Again)
  {
    hide Reaches, Prefix;
    var s0 := Init(stype, protocol);
    var ops: seq<Op> := [];
    StartReached(stype, protocol);
    OneStepFurther(stype, protocol, ops, s0, OpRecv(0, true, 1, false, false));
    var s1 := Step(s0, OpRecv(0, true, 1, false, false));
    ops := ops + [OpRecv(0, true, 1, false, false)];
    OneStepFurther(stype, protocol, ops, s1, OpIncoming([0], from));
    var s2 := Step(s1, OpIncoming([0], from));
    ops := ops + [OpIncoming([0], from)];
    OneStepFurther(stype, protocol, ops, s2, OpWaitReturns(0));
    var s3 := Step(s2, OpWaitReturns(0));
    ops := ops + [OpWaitReturns(0)];
    OneStepFurther(stype, protocol, ops, s3, OpRecv(1, true, 1, false, false));
    var s4 := Step(s3, OpRecv(1, true, 1, false, false));
    ops := ops + [OpRecv(1, true, 1, false, false)];
    assert Reaches(stype, protocol, ops, s4);
    assert Outcome(s4, OpResume(0)) == Failed(Again);
  }

  lemma StartReached(stype: SocketType, protocol: Protocol)
    ensures Reaches(stype, protocol, [], Init(stype, protocol))
  {}

  // In every run the queue is the newest unread suffix of the arrivals, of at most 64 packets, and
  // the reads so far returned distinct earlier arrivals in order, each cut to the reader's length.
  lemma QueueRefinesDropOldestFifo(stype: SocketType, protocol: Protocol, ops: seq<Op>, s: System)
    requires Reaches(stype, protocol, ops, s)
    ensures QueueIsNewestUnread(s) && DeliveriesInOrder(s) && |s.socket.queue| <= MAX_QUEUE_SIZE
    ensures forall k | 0 <= k < |s.deliveries| :: s.deliveries[k].index < FirstUnread(s)
  {
    hide Reaches, Prefix;
    EveryRunKeepsInv(stype, protocol, ops, s);
    DeliveredBeforeFront(s);
  }

  lemma PeekOnSocket(v: SocketView, hasBuffer: bool, len: nat, noWait: bool)
    requires v.queue != [] ==> v.signalled
    ensures v.RecvTry(hasBuffer, len, true, noWait).0 == v
    ensures v.RecvTry(hasBuffer, len, true, noWait).1 == v.RecvTry(hasBuffer, len, false, noWait).1
  {}

  // A peek, whether it answers at once or has to wait, leaves socket and history as they are, and answers
  // what a read in its place would.
  lemma PeekChangesNothing(stype: SocketType, protocol: Protocol, ops: seq<Op>, s: System,
                           reader: nat, hasBuffer: bool, len: nat, noWait: bool)
    requires Reaches(stype, protocol, ops, s) && reader !in s.waiting && reader !in s.woken
    ensures |s.socket.queue| <= |s.arrivals|
    ensures var op := OpRecv(reader, hasBuffer, len, true, noWait);
      && Outcome(s, op) == Outcome(s, OpRecv(reader, hasBuffer, len, false, noWait))
      && Step(s, op) == if Outcome(s, op).MustWait? then s.(waiting := s.waiting[reader := Waiter(len, true)]) else s
  {
    hide Reaches, Prefix;
    EveryRunKeepsInv(stype, protocol, ops, s);
    PeekOnSocket(s.socket, hasBuffer, len, noWait);
  }

  // So does a peek that resumes after its wait.
  lemma ResumedPeekChangesNothing(stype: SocketType, protocol: Protocol, ops: seq<Op>, s: System, reader: nat)
    requires Reaches(stype, protocol, ops, s) && reader in s.woken && s.woken[reader].peek
    ensures |s.socket.queue| <= |s.arrivals|
    ensures Step(s, OpResume(reader)) == s.(woken := s.woken - {reader})
    ensures Outcome(s, OpResume(reader))
         == Outcome(s.(woken := s.woken[reader := Waiter(s.woken[reader].len, false)]), OpResume(reader))
  {
    hide Reaches, Prefix;
    EveryRunKeepsInv(stype, protocol, ops, s);
  }
}
