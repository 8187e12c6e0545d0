/** Routing in plain numbers: who gets a datagram and what arrives, and that echoes reach nobody. */
module RoutingLaws {
  import opened BsdTypes
  import opened ProxySocket
  import opened PortPool
  import opened Network
  import opened NetworkRuns
  import opened SocketLaws
  import L = Ledger
  import Ring

  // ---- Addresses ----

  // 255.255.255.255, and 224.0.0.0 to 239.255.255.255.
  predicate ToEverybody(destIp: uint32) {
    destIp == 0xFFFF_FFFF || 0xE000_0000 <= destIp <= 0xEFFF_FFFF
  }

  // In addition the addresses that end in 255.
  predicate ToMany(destIp: uint32) {
    destIp % 0x100 == 0xFF || ToEverybody(destIp)
  }

  // A socket on `ip` may get what is sent to `destIp`.
  predicate MayReceive(ip: uint32, destIp: uint32) {
    || ip == 0 || ip == destIp || ToEverybody(destIp)
    || (destIp % 0x100 == 0xFF && ip / 0x1_0000 == destIp / 0x1_0000)
  }

  predicate Reachable(v: SocketView, d: Datagram) {
    v.protocol == d.protocol && v.local.GetPort() == d.destPort && MayReceive(v.local.GetAddr(), d.destIp)
  }

  lemma ManyInNumbers(destIp: uint32)
    ensures IsFanOut(destIp) <==> ToMany(destIp)
    ensures IsEverybodyAddress(destIp) <==> ToEverybody(destIp)
  {
    assert destIp % 0x1_0000 == 0xFFFF ==> destIp % 0x100 == 0xFF;
  }

  lemma EligibleInNumbers(v: SocketView, d: Datagram)
    ensures Eligible(v, d.destIp, d.destPort, d.protocol) <==> Reachable(v, d)
  {
    ManyInNumbers(d.destIp);
    hide SockAddrIn.GetAddr, SockAddrIn.GetPort;
  }

  // ---- One datagram ----

  function Receivers(s: NetState, d: Datagram): set<int> {
    set fd | fd in s.sockets && Reachable(s.sockets[fd], d)
  }

  // The packet carries the source of the datagram and its first 2000 bytes.
  predicate Carries(p: Packet, d: Datagram) {
    p.from.sinFamily == 2 && p.from.GetAddr() == d.sourceIp && p.from.GetPort() == d.sourcePort
    && FirstBytes(p.data, d.data, 2000)
  }

  // From v to w the datagram came in as the newest packet; of 64 packets the oldest one went.
  predicate TookIn(v: SocketView, w: SocketView, d: Datagram) {
    && w.queue != [] && Carries(w.queue[|w.queue| - 1], d)
    && w.queue[..|w.queue| - 1] == (if |v.queue| < 64 then v.queue else v.queue[1..])
    && w == v.(queue := w.queue, signalled := true)
  }

  // The datagram as it waits: its addresses, the time, and its first 1400 bytes.
  predicate WaitsAs(p: PendingPacket, d: Datagram, now: uint64) {
    && p.sourceIp == d.sourceIp && p.sourcePort == d.sourcePort && p.destIp == d.destIp && p.destPort == d.destPort
    && p.protocol == d.protocol && p.enqueueTime == now && FirstBytes(p.data, d.data, 1400)
  }

  // From s to t the datagram became the newest waiting packet; of 32 the oldest one went.
  predicate StartedToWait(s: NetState, t: NetState, d: Datagram, now: uint64) {
    && t.pending != [] && WaitsAs(t.pending[|t.pending| - 1], d, now)
    && t.pending[..|t.pending| - 1] == (if |s.pending| < 32 then s.pending else s.pending[1..])
    && t == s.(pending := t.pending)
  }

  lemma IncomingTakesIn(v: SocketView, d: Datagram)
    ensures TookIn(v, v.Incoming(d.data, MakeSockAddr(d.sourceIp, d.sourcePort)), d)
  {
    SockAddrRoundTrip(d.sourceIp, d.sourcePort);
    PrefixIsFirstBytes(d.data, 2000);
    hide Prefix, FirstBytes, BSwap16, BSwap32;
  }

  lemma PendingWaitsAs(d: Datagram, now: uint64)
    ensures WaitsAs(ToPending(d, now), d, now)
  {
    PrefixIsFirstBytes(d.data, 1400);
    hide Prefix, FirstBytes;
  }

  // What the search finds, in numbers.
  lemma TargetsInNumbers(s: NetState, d: Datagram, order: seq<int>) returns (reached: set<int>)
    requires IsOrder(order, s.sockets.Keys)
    ensures reached == set fd | fd in FindTargets(s.sockets, d.destIp, d.destPort, d.protocol, order, MAX_TARGETS)
    ensures reached <= Receivers(s, d) && (reached == {} <==> Receivers(s, d) == {})
    ensures ToMany(d.destIp) ==> if |Receivers(s, d)| <= 8 then reached == Receivers(s, d) else |reached| == 8
    ensures !ToMany(d.destIp) ==> |reached| <= 1
    ensures !ToMany(d.destIp) && (exists fd | fd in Receivers(s, d) :: s.sockets[fd].local.GetAddr() == d.destIp) ==>
              forall fd | fd in reached :: s.sockets[fd].local.GetAddr() == d.destIp
  {
    var targets := FindTargets(s.sockets, d.destIp, d.destPort, d.protocol, order, MAX_TARGETS);
    reached := set fd | fd in targets;
    SameReceivers(s, d);
    ManyInNumbers(d.destIp);
    TargetsAreEligible(s.sockets, d.destIp, d.destPort, d.protocol, order);
    hide FindTargets, Eligible, SockAddrIn.GetAddr, SockAddrIn.GetPort, MayReceive;
    if ToMany(d.destIp) {
      FanOutInNumbers(s, d, order);
    } else {
      UnicastInNumbers(s, d, order);
    }
    assert targets != [] ==> targets[0] in reached;
  }

  lemma SameReceivers(s: NetState, d: Datagram)
    ensures EligibleFds(s.sockets, d.destIp, d.destPort, d.protocol) == Receivers(s, d)
  {
    hide Eligible, Reachable;
    forall fd | fd in s.sockets
      ensures Eligible(s.sockets[fd], d.destIp, d.destPort, d.protocol) <==> Reachable(s.sockets[fd], d)
    {
      EligibleInNumbers(s.sockets[fd], d);
    }
  }

  lemma FanOutInNumbers(s: NetState, d: Datagram, order: seq<int>)
    requires IsOrder(order, s.sockets.Keys) && ToMany(d.destIp)
    ensures var reached := set fd | fd in FindTargets(s.sockets, d.destIp, d.destPort, d.protocol, order, MAX_TARGETS);
            if |Receivers(s, d)| <= 8 then reached == Receivers(s, d) else |reached| == 8
  {
    SameReceivers(s, d);
    ManyInNumbers(d.destIp);
    hide FindTargets, Eligible, IsFanOut, Receivers;
    FanOutRouting(s.sockets, d.destIp, d.destPort, d.protocol, order);
    var targets := FindTargets(s.sockets, d.destIp, d.destPort, d.protocol, order, MAX_TARGETS);
    DistinctSize(targets);
  }

  lemma UnicastInNumbers(s: NetState, d: Datagram, order: seq<int>)
    requires IsOrder(order, s.sockets.Keys) && !ToMany(d.destIp)
    ensures var reached := set fd | fd in FindTargets(s.sockets, d.destIp, d.destPort, d.protocol, order, MAX_TARGETS);
      && |reached| <= 1
      && ((exists fd | fd in Receivers(s, d) :: s.sockets[fd].local.GetAddr() == d.destIp) ==>
            forall fd | fd in reached :: fd in s.sockets && s.sockets[fd].local.GetAddr() == d.destIp)
  {
    ManyInNumbers(d.destIp);
    hide FindTargets, IsFanOut, SockAddrIn.GetAddr, SockAddrIn.GetPort;
    UnicastRouting(s.sockets, d.destIp, d.destPort, d.protocol, order);
    var targets := FindTargets(s.sockets, d.destIp, d.destPort, d.protocol, order, MAX_TARGETS);
    assert |targets| <= 1;
    assert (set fd | fd in targets) == if targets == [] then {} else {targets[0]};
    if fd :| fd in Receivers(s, d) && s.sockets[fd].local.GetAddr() == d.destIp {
      assert fd in FdsBoundTo(s.sockets, d.destIp, d.destPort, d.protocol);
    }
  }

  // The outcome of routing a datagram that is no echo. `reached` are the sockets that got it.
  lemma RoutedExactly(s: NetState, d: Datagram, now: uint64, order: seq<int>) returns (reached: set<int>)
    requires s.pool.Valid() && IsOrder(order, s.sockets.Keys) && (s.localIp == 0 || d.sourceIp != s.localIp)
    ensures reached <= Receivers(s, d) && (reached == {} <==> Receivers(s, d) == {})
    ensures ToMany(d.destIp) ==> if |Receivers(s, d)| <= 8 then reached == Receivers(s, d) else |reached| == 8
    ensures !ToMany(d.destIp) ==> |reached| <= 1
    ensures !ToMany(d.destIp) && (exists fd | fd in Receivers(s, d) :: s.sockets[fd].local.GetAddr() == d.destIp) ==>
              forall fd | fd in reached :: s.sockets[fd].local.GetAddr() == d.destIp
    ensures var t := Step(s, OpRoute(d, now, order));
      && (Route(s, d, now, order).1 <==> reached != {})
      && t.sockets.Keys == s.sockets.Keys
      && (forall fd | fd in reached :: TookIn(s.sockets[fd], t.sockets[fd], d))
      && (forall fd | fd in s.sockets && fd !in reached :: t.sockets[fd] == s.sockets[fd])
      && t.localIp == s.localIp && t.pool == s.pool
      && (reached != {} ==> t.pending == s.pending)
      && (reached == {} && d.protocol == Udp ==> t == s)
      && (reached == {} && d.protocol != Udp ==> StartedToWait(s, t, d, now))
  {
    reached := TargetsInNumbers(s, d, order);
    StartsToWait(s, d, now);
    var targets := FindTargets(s.sockets, d.destIp, d.destPort, d.protocol, order, MAX_TARGETS);
    FannedOut(s, targets, d);
    hide FindTargets, Receivers, SockAddrIn.GetAddr, SockAddrIn.GetPort, TookIn, StartedToWait, Fan, Ring.PushBounded, ToPending;
    assert targets == [] <==> reached == {} by { assert targets != [] ==> targets[0] in reached; }
  }

  lemma FannedOut(s: NetState, targets: seq<int>, d: Datagram)
    ensures var t := Fan(s.sockets, targets, d);
      && t.Keys == s.sockets.Keys
      && (forall fd | fd in s.sockets && fd in targets :: TookIn(s.sockets[fd], t[fd], d))
      && (forall fd | fd in s.sockets && fd !in targets :: t[fd] == s.sockets[fd])
  {
    hide TookIn, SocketView.Incoming, MakeSockAddr;
    forall fd | fd in s.sockets && fd in targets
      ensures TookIn(s.sockets[fd], Fan(s.sockets, targets, d)[fd], d)
    {
      IncomingTakesIn(s.sockets[fd], d);
    }
  }

  lemma StartsToWait(s: NetState, d: Datagram, now: uint64)
    ensures StartedToWait(s, s.(pending := Ring.PushBounded(s.pending, ToPending(d, now), MAX_PENDING)), d, now)
  {
    PendingWaitsAs(d, now);
    hide WaitsAs, ToPending;
    var p := ToPending(d, now);
    assert (s.pending[..] + [p])[..|s.pending|] == s.pending;
    assert s.pending != [] ==> (s.pending[1..] + [p])[..|s.pending| - 1] == s.pending[1..];
  }

  // ---- Echoes ----

  // A datagram whose source is the known local address changes nothing and is reported as handled.
  lemma EchoReachesNobody(s: NetState, d: Datagram, now: uint64, order: seq<int>)
    requires s.pool.Valid() && s.localIp != 0 && d.sourceIp == s.localIp
    ensures Step(s, OpRoute(d, now, order)) == s && Route(s, d, now, order).1
  {}

  // The packet is queued at some socket, or waits for one.
  ghost predicate Present(s: NetState, p: Packet) {
    || (exists fd | fd in s.sockets :: p in s.sockets[fd].queue)
    || (exists w | w in s.pending :: Waits(w, p))
  }

  predicate Waits(w: PendingPacket, p: Packet) {
    w.sourceIp == p.from.GetAddr() && w.sourcePort == p.from.GetPort() && w.data == p.data
  }

  lemma DeliveredWaited(w: PendingPacket)
    requires |w.data| <= PENDING_PAYLOAD_MAX
    ensures Waits(w, ToPacket(w)) && Prefix(w.data, MAX_PAYLOAD) == w.data
  {
    SockAddrRoundTrip(w.sourceIp, w.sourcePort);
    hide BSwap16, BSwap32;
  }

  lemma {:induction false} QueuedAfterAll(v: SocketView, packets: seq<Packet>, p: Packet)
    requires forall x | x in packets :: |x.data| <= MAX_PAYLOAD
    requires p in v.IncomingAll(packets).queue
    ensures p in v.queue || p in packets
    decreases |packets|
  {
    if packets != [] {
      QueuedAfterAll(v.Incoming(packets[0].data, packets[0].from), packets[1..], p);
    }
  }

  lemma DeliverAddsNothing(s: NetState, fd: int, port: uint16, protocol: Protocol, now: uint64, p: Packet)
    requires WellFormed(s) && fd in s.sockets && Present(Deliver(s, fd, port, protocol, now), p)
    ensures Present(s, p)
  {
    hide PassFor, Judge, SocketView.IncomingAll, ToPacket, Waits;
    var t := Deliver(s, fd, port, protocol, now);
    var pass := PassFor(s.sockets[fd], port, protocol, now);
    JudgedIsPart(s.pending, pass, Keep);
    JudgedIsPart(s.pending, pass, Give);
    var given := ToPackets(Judged(s.pending, pass, Give));
    forall x | x in given
      ensures |x.data| <= MAX_PAYLOAD && exists w | w in s.pending :: Waits(w, x)
    {
      var i :| 0 <= i < |given| && given[i] == x;
      var w := Judged(s.pending, pass, Give)[i];
      assert w in Judged(s.pending, pass, Give);
      GivenPacket(w);
    }
    if p in t.sockets[fd].queue {
      QueuedAfterAll(s.sockets[fd], given, p);
    }
  }

  lemma GivenPacket(w: PendingPacket)
    requires |w.data| <= PENDING_PAYLOAD_MAX
    ensures Waits(w, ToPacket(w)) && |ToPacket(w).data| <= MAX_PAYLOAD
  {
    DeliveredWaited(w);
    hide Waits, MakeSockAddr;
  }

  lemma RouteAddsNoEcho(s: NetState, d: Datagram, now: uint64, order: seq<int>, p: Packet)
    requires s.pool.Valid() && IsOrder(order, s.sockets.Keys) && s.localIp != 0 && p.from.GetAddr() == s.localIp
    requires Present(Step(s, OpRoute(d, now, order)), p)
    ensures Present(s, p)
  {
    hide Step, Route, SockAddrIn.GetAddr, SockAddrIn.GetPort, Receivers, FirstBytes;
    if d.sourceIp == s.localIp {
      EchoReachesNobody(s, d, now, order);
    } else {
      var reached := RoutedExactly(s, d, now, order);
      var t := Step(s, OpRoute(d, now, order));
      if fd :| fd in t.sockets && p in t.sockets[fd].queue {
        if fd in reached {
          TakenInFromOthers(s.sockets[fd], t.sockets[fd], d, p);
        }
        assert p in s.sockets[fd].queue;
      } else {
        var w :| w in t.pending && Waits(w, p);
        WaitingFromOthers(s, t, d, now, w);
      }
    }
  }

  lemma TakenInFromOthers(v: SocketView, w: SocketView, d: Datagram, p: Packet)
    requires TookIn(v, w, d) && p.from.GetAddr() != d.sourceIp && p in w.queue
    ensures p in v.queue
  {
    hide SockAddrIn.GetAddr, SockAddrIn.GetPort, FirstBytes;
    var n := |w.queue| - 1;
    assert w.queue == w.queue[..n] + [w.queue[n]];
    assert p in w.queue[..n];
  }

  lemma WaitingFromOthers(s: NetState, t: NetState, d: Datagram, now: uint64, w: PendingPacket)
    requires t == s || t.pending == s.pending || StartedToWait(s, t, d, now)
    requires w in t.pending && w.sourceIp != d.sourceIp
    ensures w in s.pending
  {
    hide FirstBytes;
    if t.pending != s.pending {
      var n := |t.pending| - 1;
      assert t.pending == t.pending[..n] + [t.pending[n]];
      assert w in t.pending[..n];
    }
  }

  lemma BoundIsWellFormed(s: NetState, fd: int, stype: SocketType, protocol: Protocol, addr: SockAddrIn)
    requires WellFormed(s) && addr.sinFamily == AF_INET
    ensures WellFormed(ClaimAndBind(s, fd, stype, protocol, addr).0)
  {
    ClaimAndBindMeaning(s, fd, stype, protocol, addr);
    hide ClaimAndBind, PortOf;
  }

  // Binding brings nothing into a queue; a new socket has an empty one.
  lemma BindQueues(s: NetState, fd: int, stype: SocketType, protocol: Protocol, addr: SockAddrIn)
    requires s.pool.Valid()
    ensures OnlyOldQueues(s, ClaimAndBind(s, fd, stype, protocol, addr).0)
  {
    hide ClaimPort, BSwap16, BSwap32;
  }

  lemma AutoBindQueues(s: NetState, fd: int, stype: SocketType, protocol: Protocol)
    requires s.pool.Valid()
    ensures OnlyOldQueues(s, AutoBind(s, fd, stype, protocol).0)
  {
    hide BSwap16, BSwap32, PoolView.AllocatePort;
  }

  ghost predicate OnlyOldQueues(s: NetState, t: NetState) {
    && t.pending == s.pending
    && forall fd | fd in t.sockets :: t.sockets[fd].queue == if fd in s.sockets then s.sockets[fd].queue else []
  }

  lemma SameQueuesPresent(s: NetState, t: NetState, p: Packet)
    requires OnlyOldQueues(s, t) && Present(t, p)
    ensures Present(s, p)
  {
    hide Waits;
    if fd :| fd in t.sockets && p in t.sockets[fd].queue {
      assert fd in s.sockets;
    }
  }

  lemma CloseAddsNothing(s: NetState, fd: int, p: Packet)
    requires Present(Close(s, fd), p)
    ensures Present(s, p)
  {
    hide Waits, HasTwin, Judge, PoolView.ReleasePort, SockAddrIn.GetPort;
    if fd in s.sockets {
      var v := s.sockets[fd];
      JudgedIsPart(s.pending, PurgePass(v.local.GetPort(), v.protocol), Keep);
    }
  }

  // No step brings in a packet with the known local address as its source.
  lemma StepAddsNoEcho(s: NetState, op: Op, p: Packet)
    requires WellFormed(s) && Enabled(s, op) && s.localIp != 0 && p.from.GetAddr() == s.localIp
    requires Present(Step(s, op), p)
    ensures Present(s, p)
  {
    hide Present, OnlyOldQueues, SockAddrIn.GetAddr, SockAddrIn.GetPort, Route, ClaimAndBind, Deliver, AutoBind, Close;
    match op
    case OpBind(fd, stype, protocol, addr, now) =>
      BindQueues(s, fd, stype, protocol, addr);
      BoundIsWellFormed(s, fd, stype, protocol, addr);
      var (bound, port, error) := ClaimAndBind(s, fd, stype, protocol, addr);
      if error == None {
        DeliverAddsNothing(bound, fd, port, protocol, now, p);
      }
      SameQueuesPresent(s, bound, p);
    case OpAutoBind(fd, stype, protocol) =>
      AutoBindQueues(s, fd, stype, protocol);
      SameQueuesPresent(s, Step(s, op), p);
    case OpClose(fd) => CloseAddsNothing(s, fd, p);
    case OpRoute(d, now, order) => RouteAddsNoEcho(s, d, now, order, p);
    case _ => OtherStepsAddNothing(s, op, p);
  }

  lemma OtherStepsAddNothing(s: NetState, op: Op, p: Packet)
    requires s.pool.Valid() && Enabled(s, op) && Present(Step(s, op), p)
    requires op.OpCloseAll? || op.OpReset? || op.OpSetLocalIp? || op.OpSocket?
    ensures Present(s, p)
  {
    hide Waits;
  }

  // The local address is `ip` before every step of the run.
  ghost predicate LocalIpStays(s: NetState, ops: seq<Op>, ip: uint32)
    requires WellFormed(s) && L.ValidRun(s, ops)
    decreases |ops|
  {
    ops != [] ==> s.localIp == ip && (StepKeepsWellFormed(s, ops[0]); LocalIpStays(Step(s, ops[0]), ops[1..], ip))
  }

  // Over every run with an unchanged known local address, every packet from that address that is queued
  // or waits afterwards was there before.
  lemma {:induction false} RunAddsNoEcho(s: NetState, ops: seq<Op>, ip: uint32, p: Packet)
    requires WellFormed(s) && L.ValidRun(s, ops) && ip != 0 && LocalIpStays(s, ops, ip)
    requires p.from.GetAddr() == ip && Present(L.Run(s, ops), p)
    ensures Present(s, p)
    decreases |ops|
  {
    hide Step, Enabled, Present, SockAddrIn.GetAddr;
    if ops != [] {
      StepKeepsWellFormed(s, ops[0]);
      RunAddsNoEcho(Step(s, ops[0]), ops[1..], ip, p);
      StepAddsNoEcho(s, ops[0], p);
    }
  }
}
