/**
 Conservation of pending packets: the ledger lists every packet that was ever accepted into the
 pending ring, in order of arrival, each with its fate so far.
 */
module Ledger {
  import opened BsdTypes
  import opened ProxySocket
  import opened Network
  import opened NetworkRuns
  import Ring

  datatype Fate = Waiting | DeliveredTo(fd: int) | DroppedOldest | DroppedStale | PurgedAtClose | Cleared

  datatype Entry = Entry(packet: PendingPacket, fate: Fate)

  function WaitingIn(l: seq<Entry>): seq<PendingPacket> {
    if l == [] then []
    else
      var last := l[|l| - 1];
      WaitingIn(l[..|l| - 1]) + (if last.fate == Waiting then [last.packet] else [])
  }

  function DropOldest(l: seq<Entry>): seq<Entry> {
    if l == [] then []
    else if l[0].fate == Waiting then [l[0].(fate := DroppedOldest)] + l[1..]
    else [l[0]] + DropOldest(l[1..])
  }

  function Settle(e: Entry, pass: Pass, fd: int): Entry {
    if e.fate != Waiting then e
    else
      match Judge(pass, e.packet)
      case Keep => e
      case Give => e.(fate := DeliveredTo(fd))
      case Expire => e.(fate := DroppedStale)
      case Purge => e.(fate := PurgedAtClose)
  }

  function SettleAll(l: seq<Entry>, pass: Pass, fd: int): seq<Entry> {
    if l == [] then []
    else SettleAll(l[..|l| - 1], pass, fd) + [Settle(l[|l| - 1], pass, fd)]
  }

  function ClearAll(l: seq<Entry>): seq<Entry> {
    seq(|l|, i requires 0 <= i < |l| => if l[i].fate == Waiting then l[i].(fate := Cleared) else l[i])
  }

  function Accept(l: seq<Entry>, p: PendingPacket, full: bool): seq<Entry> {
    (if full then DropOldest(l) else l) + [Entry(p, Waiting)]
  }

  // ---- One step ----

  function LedgerStep(l: seq<Entry>, s: NetState, op: Op): seq<Entry>
    requires s.pool.Valid()
  {
    match op
    case OpBind(fd, stype, protocol, addr, now) =>
      var (bound, port, error) := ClaimAndBind(s, fd, stype, protocol, addr);
      if error == None then SettleAll(l, PassFor(bound.sockets[fd], port, protocol, now), fd) else l
    case OpClose(fd) =>
      if fd !in s.sockets then l
      else
        var v := s.sockets[fd];
        if PortOf(v) != 0 && !HasTwin(s.sockets, fd, PortOf(v), v.protocol)
        then SettleAll(l, PurgePass(PortOf(v), v.protocol), fd) else l
    case OpReset => ClearAll(l)
    case OpSetLocalIp(ip) => if s.localIp != 0 && s.localIp != ip then ClearAll(l) else l
    case OpRoute(d, now, order) =>
      if s.localIp != 0 && d.sourceIp == s.localIp then l
      else if FindTargets(s.sockets, d.destIp, d.destPort, d.protocol, order, MAX_TARGETS) != [] then l
      else if d.protocol == Udp then l
      else Accept(l, ToPending(d, now), |s.pending| >= MAX_PENDING)
    case _ => l
  }

  // The packets whose fate became delivery to `fd` between two ledgers.
  function NewlyDelivered(l: seq<Entry>, m: seq<Entry>, fd: int): seq<PendingPacket>
    requires |l| <= |m|
  {
    if l == [] then []
    else
      var k := |l| - 1;
      NewlyDelivered(l[..k], m[..k], fd)
      + (if l[k].fate == Waiting && m[k].fate == DeliveredTo(fd) then [m[k].packet] else [])
  }

  lemma {:induction false} DropOldestWaiting(l: seq<Entry>)
    requires WaitingIn(l) != []
    ensures WaitingIn(DropOldest(l)) == WaitingIn(l)[1..]
  {
    WaitingInHead(l);
    WaitingInHead(DropOldest(l));
    if l[0].fate != Waiting {
      DropOldestWaiting(l[1..]);
    }
  }

  lemma {:induction false} WaitingInHead(l: seq<Entry>)
    requires l != []
    ensures WaitingIn(l) == (if l[0].fate == Waiting then [l[0].packet] else []) + WaitingIn(l[1..])
  {
    if |l| > 1 {
      var k := |l| - 1;
      WaitingInHead(l[..k]);
      assert l[..k][1..] == l[1..][..k - 1];
    } else {
      assert l[..0] == [] && l[1..] == [];
    }
  }

  lemma {:induction false} SettleAllWaiting(l: seq<Entry>, pass: Pass, fd: int)
    ensures WaitingIn(SettleAll(l, pass, fd)) == Judged(WaitingIn(l), pass, Keep)
    ensures |SettleAll(l, pass, fd)| == |l|
  {
    hide Judge, Judged;
    if l == [] {
      EmptyJudged(pass);
    } else {
      var k := |l| - 1;
      SettleAllWaiting(l[..k], pass, fd);
      var m := SettleAll(l, pass, fd);
      assert m[..k] == SettleAll(l[..k], pass, fd) && m[k] == Settle(l[k], pass, fd);
      JudgedSnoc(WaitingIn(l[..k]), l[k].packet, pass, Keep);
      assert WaitingIn(l[..k]) + [] == WaitingIn(l[..k]);
    }
  }

  lemma {:induction false} SettleAllDelivers(l: seq<Entry>, pass: Pass, fd: int)
    ensures |SettleAll(l, pass, fd)| == |l|
    ensures NewlyDelivered(l, SettleAll(l, pass, fd), fd) == Judged(WaitingIn(l), pass, Give)
  {
    hide Judge, Judged;
    SettleAllWaiting(l, pass, fd);
    if l == [] {
      EmptyJudged(pass);
    } else {
      var k := |l| - 1;
      SettleAllDelivers(l[..k], pass, fd);
      SettleAllWaiting(l[..k], pass, fd);
      var m := SettleAll(l, pass, fd);
      assert m[..k] == SettleAll(l[..k], pass, fd) && m[k] == Settle(l[k], pass, fd);
      JudgedSnoc(WaitingIn(l[..k]), l[k].packet, pass, Give);
      assert WaitingIn(l[..k]) + [] == WaitingIn(l[..k]);
    }
  }

  lemma EmptyJudged(pass: Pass)
    ensures Judged([], pass, Keep) == [] && Judged([], pass, Give) == []
  {}

  lemma {:induction false} ClearAllWaiting(l: seq<Entry>)
    ensures WaitingIn(ClearAll(l)) == []
  {
    if l != [] {
      var k := |l| - 1;
      assert ClearAll(l)[..k] == ClearAll(l[..k]);
      ClearAllWaiting(l[..k]);
    }
  }

  lemma AcceptWaiting(l: seq<Entry>, p: PendingPacket, capacity: nat)
    requires 0 < capacity && |WaitingIn(l)| <= capacity
    ensures WaitingIn(Accept(l, p, |WaitingIn(l)| >= capacity)) == Ring.PushBounded(WaitingIn(l), p, capacity)
  {
    var base := if |WaitingIn(l)| >= capacity then DropOldest(l) else l;
    if |WaitingIn(l)| >= capacity {
      DropOldestWaiting(l);
    }
    assert (base + [Entry(p, Waiting)])[..|base|] == base;
  }

  // The ledger only grows, keeps its packets, and settles each packet at most once.
  ghost predicate Extends(l: seq<Entry>, m: seq<Entry>) {
    |l| <= |m| &&
    forall i | 0 <= i < |l| :: m[i].packet == l[i].packet && (l[i].fate != Waiting ==> m[i].fate == l[i].fate)
  }

  lemma {:induction false} DropOldestExtends(l: seq<Entry>)
    ensures |DropOldest(l)| == |l| && Extends(l, DropOldest(l))
  {
    if l != [] && l[0].fate != Waiting {
      DropOldestExtends(l[1..]);
      assert forall i | 1 <= i < |l| :: DropOldest(l)[i] == DropOldest(l[1..])[i - 1] && l[i] == l[1..][i - 1];
    }
  }

  lemma {:induction false} SettleAllExtends(l: seq<Entry>, pass: Pass, fd: int)
    ensures |SettleAll(l, pass, fd)| == |l| && Extends(l, SettleAll(l, pass, fd))
  {
    if l != [] {
      hide Judge;
      var k := |l| - 1;
      SettleAllExtends(l[..k], pass, fd);
      assert forall i | 0 <= i < k :: SettleAll(l, pass, fd)[i] == SettleAll(l[..k], pass, fd)[i] && l[i] == l[..k][i];
    }
  }

  lemma LedgerStepExtends(l: seq<Entry>, s: NetState, op: Op)
    requires s.pool.Valid()
    ensures Extends(l, LedgerStep(l, s, op))
  {
    hide FindTargets, ClaimAndBind, HasTwin, PassFor, PortOf, SettleAll, DropOldest;
    forall pass, fd
      ensures |SettleAll(l, pass, fd)| == |l| && Extends(l, SettleAll(l, pass, fd))
    {
      SettleAllExtends(l, pass, fd);
    }
    DropOldestExtends(l);
  }

  // ---- The ledger follows the manager ----

  ghost predicate Follows(l: seq<Entry>, s: NetState) {
    WaitingIn(l) == s.pending
  }

  lemma StepFollows(l: seq<Entry>, s: NetState, op: Op)
    requires WellFormed(s) && Enabled(s, op) && Follows(l, s)
    ensures Follows(LedgerStep(l, s, op), Step(s, op))
  {
    hide FindTargets, ClaimAndBind, AutoBind, HasTwin, PassFor, WaitingIn;
    match op
    case OpBind(fd, stype, protocol, addr, now) =>
      ClaimAndBindMeaning(s, fd, stype, protocol, addr);
      var (bound, port, error) := ClaimAndBind(s, fd, stype, protocol, addr);
      if error == None {
        SettleAllWaiting(l, PassFor(bound.sockets[fd], port, protocol, now), fd);
      }
    case OpAutoBind(fd, stype, protocol) => AutoBindMeaning(s, fd, stype, protocol);
    case OpClose(fd) =>
      if fd in s.sockets {
        var v := s.sockets[fd];
        SettleAllWaiting(l, PurgePass(PortOf(v), v.protocol), fd);
      }
    case OpReset => ClearAllWaiting(l);
    case OpSetLocalIp(_) => ClearAllWaiting(l);
    case OpRoute(d, now, order) => AcceptWaiting(l, ToPending(d, now), MAX_PENDING);
    case _ =>
  }

  lemma GivenQueue(v: SocketView, q: seq<PendingPacket>, pass: Pass)
    requires forall p | p in q :: |p.data| <= PENDING_PAYLOAD_MAX
    ensures v.IncomingAll(ToPackets(Judged(q, pass, Give))).queue
         == Ring.PushAll(v.queue, ToPackets(Judged(q, pass, Give)), MAX_QUEUE_SIZE)
  {
    hide Judge, MakeSockAddr;
    JudgedIsPart(q, pass, Give);
    IncomingAllQueue(v, ToPackets(Judged(q, pass, Give)));
  }

  // A bind gives its socket exactly the packets that the ledger records as newly delivered to it, in
  // order, and touches no other socket.
  lemma BindDeliversWhatTheLedgerSays(l: seq<Entry>, s: NetState, op: Op)
    requires WellFormed(s) && Enabled(s, op) && Follows(l, s) && op.OpBind?
    requires BindFd(s, op.fd, op.stype, op.protocol, op.addr, op.now).1 == None
    ensures |l| <= |LedgerStep(l, s, op)| && op.fd in Step(s, op).sockets
    ensures var given := ToPackets(NewlyDelivered(l, LedgerStep(l, s, op), op.fd));
            var before := if op.fd in s.sockets then s.sockets[op.fd].queue else [];
            Step(s, op).sockets[op.fd].queue == Ring.PushAll(before, given, MAX_QUEUE_SIZE)
    ensures forall other | other in s.sockets && other != op.fd :: Step(s, op).sockets[other] == s.sockets[other]
  {
    hide PassFor, Judge, Judged, SettleAll, WaitingIn, NewlyDelivered, ToPackets, SocketView.IncomingAll, Ring.PushAll;
    hide ClaimPort, BSwap16, BSwap32;
    var OpBind(fd, stype, protocol, addr, now) := op;
    ClaimAndBindMeaning(s, fd, stype, protocol, addr);
    var (bound, port, error) := ClaimAndBind(s, fd, stype, protocol, addr);
    var pass := PassFor(bound.sockets[fd], port, protocol, now);
    SettleAllWaiting(l, pass, fd);
    SettleAllDelivers(l, pass, fd);
    GivenQueue(bound.sockets[fd], s.pending, pass);
    assert bound.sockets[fd].queue == if fd in s.sockets then s.sockets[fd].queue else [];
  }

  // ---- Whole runs ----

  ghost predicate ValidRun(s: NetState, ops: seq<Op>)
    requires WellFormed(s)
    decreases |ops|
  {
    if ops == [] then true
    else
      Enabled(s, ops[0]) && (StepKeepsWellFormed(s, ops[0]); ValidRun(Step(s, ops[0]), ops[1..]))
  }

  ghost function Run(s: NetState, ops: seq<Op>): (t: NetState)
    requires WellFormed(s) && ValidRun(s, ops)
    ensures WellFormed(t)
    decreases |ops|
  {
    if ops == [] then s
    else
      StepKeepsWellFormed(s, ops[0]);
      Run(Step(s, ops[0]), ops[1..])
  }

  ghost function RunLedger(l: seq<Entry>, s: NetState, ops: seq<Op>): seq<Entry>
    requires WellFormed(s) && ValidRun(s, ops)
    decreases |ops|
  {
    if ops == [] then l
    else
      StepKeepsWellFormed(s, ops[0]);
      RunLedger(LedgerStep(l, s, ops[0]), Step(s, ops[0]), ops[1..])
  }

  // Runs may start at the empty network with an empty ledger.
  lemma EmptyNetFollows()
    ensures WellFormed(EMPTY_NET) && Follows([], EMPTY_NET)
  {
    assert EMPTY_NET.pending == [];
  }

  // From any moment of any run to any later one: the packets still waiting are exactly the ring, in
  // order; no packet is lost from the ledger; a settled packet stays settled; the ring never holds a
  // UDP packet or more than 32.
  lemma {:induction false} Conservation(l: seq<Entry>, s: NetState, ops: seq<Op>)
    requires WellFormed(s) && ValidRun(s, ops) && Follows(l, s)
    ensures var m, t := RunLedger(l, s, ops), Run(s, ops);
      && Follows(m, t) && Extends(l, m)
      && |t.pending| <= MAX_PENDING && (forall p | p in t.pending :: p.protocol != Udp)
    decreases |ops|
  {
    hide LedgerStep, Step, Enabled;
    if ops != [] {
      StepKeepsWellFormed(s, ops[0]);
      StepFollows(l, s, ops[0]);
      LedgerStepExtends(l, s, ops[0]);
      Conservation(LedgerStep(l, s, ops[0]), Step(s, ops[0]), ops[1..]);
    }
  }
}
