/**
 Early packets: does it matter whether packets for a socket arrive before it is bound (they wait in
 the pending ring and the bind delivers them) or after (they are routed to it at once)?
 */
module BindOrder {
  import opened BsdTypes
  import opened ProxySocket
  import opened PortPool
  import opened Network
  import opened NetworkRuns
  import opened RoutingLaws
  import opened PendingLaws
  import Ring

  datatype Arrival = Arrival(d: Datagram, now: uint64, order: seq<int>)

  function RouteAll(s: NetState, arrivals: seq<Arrival>): NetState
    decreases |arrivals|
  {
    if arrivals == [] then s
    else
      var a := arrivals[0];
      RouteAll(Route(s, a.d, a.now, a.order).0, arrivals[1..])
  }

  ghost predicate OrdersFit(arrivals: seq<Arrival>, keys: set<int>) {
    forall a | a in arrivals :: IsOrder(a.order, keys)
  }

  // Nobody in `sockets` would get `d`, and `d` is neither UDP nor an echo of our own packet.
  ghost predicate Unclaimed(s: NetState, d: Datagram) {
    && d.protocol != Udp
    && (s.localIp == 0 || d.sourceIp != s.localIp)
    && EligibleFds(s.sockets, d.destIp, d.destPort, d.protocol) == {}
  }

  function Waiting(arrivals: seq<Arrival>): seq<PendingPacket> {
    seq(|arrivals|, i requires 0 <= i < |arrivals| => ToPending(arrivals[i].d, arrivals[i].now))
  }

  function Direct(d: Datagram): Packet {
    Packet(MakeSockAddr(d.sourceIp, d.sourcePort), Prefix(d.data, MAX_PAYLOAD))
  }

  function DirectAll(arrivals: seq<Arrival>): seq<Packet> {
    seq(|arrivals|, i requires 0 <= i < |arrivals| => Direct(arrivals[i].d))
  }

  // ---- Routed before the bind ----

  lemma {:induction false} UnclaimedWait(s: NetState, arrivals: seq<Arrival>)
    requires OrdersFit(arrivals, s.sockets.Keys)
    requires forall a | a in arrivals :: Unclaimed(s, a.d)
    ensures RouteAll(s, arrivals) == s.(pending := Ring.PushAll(s.pending, Waiting(arrivals), MAX_PENDING))
    decreases |arrivals|
  {
    hide EligibleFds, FindTargets, Ring.PushBounded, Prefix;
    if arrivals != [] {
      var a := arrivals[0];
      assert Unclaimed(s, a.d) && IsOrder(a.order, s.sockets.Keys);
      TargetsAreEligible(s.sockets, a.d.destIp, a.d.destPort, a.d.protocol, a.order);
      var t := Route(s, a.d, a.now, a.order).0;
      assert t == s.(pending := Ring.PushBounded(s.pending, ToPending(a.d, a.now), MAX_PENDING));
      UnclaimedWait(t, arrivals[1..]);
      assert Waiting(arrivals)[1..] == Waiting(arrivals[1..]);
    }
  }

  // The outcome of the claim does not depend on what is pending.
  lemma ClaimIgnoresPending(s: NetState, q: seq<PendingPacket>, fd: int, stype: SocketType, protocol: Protocol, addr: SockAddrIn)
    requires s.pool.Valid()
    ensures var (t, port, error) := ClaimAndBind(s, fd, stype, protocol, addr);
            ClaimAndBind(s.(pending := q), fd, stype, protocol, addr) == (t.(pending := q), port, error)
  {
    hide BSwap16, BSwap32, ClaimPort;
  }

  // ---- Routed after the bind ----

  // `fd` is the only socket that would get `d`.
  ghost predicate OnlyFor(s: NetState, fd: int, d: Datagram) {
    && (s.localIp == 0 || d.sourceIp != s.localIp)
    && EligibleFds(s.sockets, d.destIp, d.destPort, d.protocol) == {fd}
  }

  lemma OnlyTarget(s: NetState, fd: int, d: Datagram, order: seq<int>)
    requires OnlyFor(s, fd, d) && IsOrder(order, s.sockets.Keys)
    ensures FindTargets(s.sockets, d.destIp, d.destPort, d.protocol, order, MAX_TARGETS) == [fd]
  {
    hide EligibleFds, FindTargets;
    TargetsAreEligible(s.sockets, d.destIp, d.destPort, d.protocol, order);
    var r := FindTargets(s.sockets, d.destIp, d.destPort, d.protocol, order, MAX_TARGETS);
    assert |r| >= 2 ==> r[0] != r[1];
    assert fd in EligibleFds(s.sockets, d.destIp, d.destPort, d.protocol);
    forall i | 0 <= i < |r|
      ensures r[i] == fd
    {
      assert r[i] in r;
    }
  }

  lemma SameAddressesSameEligible(s: map<int, SocketView>, t: map<int, SocketView>, d: Datagram)
    requires t.Keys == s.Keys
    requires forall fd | fd in s :: t[fd].local == s[fd].local && t[fd].protocol == s[fd].protocol
    ensures EligibleFds(s, d.destIp, d.destPort, d.protocol) == EligibleFds(t, d.destIp, d.destPort, d.protocol)
  {
    hide BSwap16, BSwap32;
    forall fd | fd in s
      ensures Eligible(s[fd], d.destIp, d.destPort, d.protocol) == Eligible(t[fd], d.destIp, d.destPort, d.protocol)
    {}
  }

  lemma {:induction false} OnlyForArrive(s: NetState, fd: int, arrivals: seq<Arrival>)
    requires fd in s.sockets && OrdersFit(arrivals, s.sockets.Keys)
    requires forall a | a in arrivals :: OnlyFor(s, fd, a.d)
    ensures RouteAll(s, arrivals) == s.(sockets := s.sockets[fd := s.sockets[fd].IncomingAll(DirectAll(arrivals))])
    decreases |arrivals|
  {
    hide EligibleFds, FindTargets, MakeSockAddr;
    if arrivals == [] {
      assert s.sockets[fd := s.sockets[fd]] == s.sockets;
    } else {
      var a := arrivals[0];
      assert OnlyFor(s, fd, a.d);
      OnlyTarget(s, fd, a.d, a.order);
      var p := Direct(a.d);
      var v := s.sockets[fd].Incoming(p.data, p.from);
      IncomingOfClamped(s.sockets[fd], a.d);
      var t := s.(sockets := s.sockets[fd := v]);
      assert Fan(s.sockets, [fd], a.d) == t.sockets;
      forall b | b in arrivals[1..]
        ensures OnlyFor(t, fd, b.d)
      {
        assert OnlyFor(s, fd, b.d);
        SameAddressesSameEligible(s.sockets, t.sockets, b.d);
      }
      assert t.sockets.Keys == s.sockets.Keys;
      OnlyForArrive(t, fd, arrivals[1..]);
      assert DirectAll(arrivals)[1..] == DirectAll(arrivals[1..]);
      assert t.sockets[fd := v.IncomingAll(DirectAll(arrivals[1..]))]
          == s.sockets[fd := v.IncomingAll(DirectAll(arrivals[1..]))];
    }
  }

  lemma IncomingOfClamped(v: SocketView, d: Datagram)
    ensures v.Incoming(Direct(d).data, Direct(d).from) == v.Incoming(d.data, MakeSockAddr(d.sourceIp, d.sourcePort))
  {
    hide MakeSockAddr;
    assert Prefix(Prefix(d.data, MAX_PAYLOAD), MAX_PAYLOAD) == Prefix(d.data, MAX_PAYLOAD);
  }

  // ---- Comparing the two ----

  lemma {:induction false} JudgedAll(q: seq<PendingPacket>, pass: Pass, verdict: Verdict)
    ensures |Judged(q, pass, verdict)| <= |q|
    ensures |Judged(q, pass, verdict)| == |q| <==> forall i | 0 <= i < |q| :: Judge(pass, q[i]) == verdict
    ensures |Judged(q, pass, verdict)| == |q| ==> Judged(q, pass, verdict) == q
  {
    if q != [] {
      hide Judge;
      var k := |q| - 1;
      var front, last := q[..k], q[k];
      assert Judged(q, pass, verdict) == Judged(front, pass, verdict) + if Judge(pass, last) == verdict then [last] else [];
      hide Judged;
      JudgedAll(front, pass, verdict);
      assert q == front + [last];
      AllOfSnoc(front, last, pass, verdict);
    }
  }

  lemma AllOfSnoc(front: seq<PendingPacket>, last: PendingPacket, pass: Pass, verdict: Verdict)
    ensures var q := front + [last];
            (forall i | 0 <= i < |q| :: Judge(pass, q[i]) == verdict) <==>
            (forall i | 0 <= i < |front| :: Judge(pass, front[i]) == verdict) && Judge(pass, last) == verdict
  {
    hide Judge;
    var q := front + [last];
    assert q[|front|] == last && forall i | 0 <= i < |front| :: q[i] == front[i];
  }

  lemma {:induction false} NoneKept(q: seq<PendingPacket>, pass: Pass)
    requires forall i | 0 <= i < |q| :: Judge(pass, q[i]) == Give
    ensures Judged(q, pass, Keep) == []
  {
    if q != [] {
      NoneKept(q[..|q| - 1], pass);
    }
  }

  // What an early packet needs so that nothing is lost by waiting: it is not cut, it is at most
  // 500 ms old at the bind, and its destination satisfies the rule used for waiting packets.
  predicate SurvivesWaiting(a: Arrival, localIp: uint32, now: uint64) {
    |a.d.data| <= 1400 && now <= a.now + 500 && TakesWaiting(localIp, a.d.destIp)
  }

  lemma SurvivorsArriveAlike(arrivals: seq<Arrival>, pass: Pass)
    requires pass.DeliverPass?
    requires forall i | 0 <= i < |arrivals| ::
               && arrivals[i].d.protocol == pass.protocol && arrivals[i].d.destPort == pass.port
               && SurvivesWaiting(arrivals[i], pass.localIp, pass.now)
    ensures ToPackets(Judged(Waiting(arrivals), pass, Give)) == DirectAll(arrivals)
    ensures Judged(Waiting(arrivals), pass, Keep) == []
  {
    hide MakeSockAddr, PacketMatches, Judged, SurvivesWaiting, Judge;
    var q := Waiting(arrivals);
    forall i | 0 <= i < |q|
      ensures Judge(pass, q[i]) == Give && ToPacket(q[i]) == Direct(arrivals[i].d)
    {
      SurvivorIsGiven(arrivals[i], pass);
    }
    JudgedAll(q, pass, Give);
    NoneKept(q, pass);
    assert ToPackets(q) == DirectAll(arrivals);
  }

  lemma SurvivorIsGiven(a: Arrival, pass: Pass)
    requires pass.DeliverPass? && a.d.protocol == pass.protocol && a.d.destPort == pass.port
    requires SurvivesWaiting(a, pass.localIp, pass.now)
    ensures Judge(pass, ToPending(a.d, a.now)) == Give && ToPacket(ToPending(a.d, a.now)) == Direct(a.d)
  {
    VerdictInNumbers(pass.localIp, pass.port, pass.protocol, pass.now, ToPending(a.d, a.now));
    hide MakeSockAddr, Judge, TakesWaiting;
  }

  lemma AlikeMeansSurvived(arrivals: seq<Arrival>, pass: Pass)
    requires pass.DeliverPass? && ToPackets(Judged(Waiting(arrivals), pass, Give)) == DirectAll(arrivals)
    ensures forall i | 0 <= i < |arrivals| :: SurvivesWaiting(arrivals[i], pass.localIp, pass.now)
  {
    hide MakeSockAddr, TakesWaiting, Judge;
    var q := Waiting(arrivals);
    JudgedAll(q, pass, Give);
    assert |ToPackets(Judged(q, pass, Give))| == |DirectAll(arrivals)|;
    forall i | 0 <= i < |arrivals|
      ensures SurvivesWaiting(arrivals[i], pass.localIp, pass.now)
    {
      assert Judge(pass, q[i]) == Give;
      VerdictInNumbers(pass.localIp, pass.port, pass.protocol, pass.now, q[i]);
      assert ToPackets(q)[i] == ToPacket(q[i]) && DirectAll(arrivals)[i] == Direct(arrivals[i].d);
      assert |Prefix(arrivals[i].d.data, PENDING_PAYLOAD_MAX)| == |Prefix(arrivals[i].d.data, MAX_PAYLOAD)|;
    }
  }

  ghost predicate AllSurvive(arrivals: seq<Arrival>, localIp: uint32, now: uint64) {
    |arrivals| <= 32 && forall i | 0 <= i < |arrivals| :: SurvivesWaiting(arrivals[i], localIp, now)
  }

  lemma SameQueueExactly(arrivals: seq<Arrival>, pass: Pass)
    requires pass.DeliverPass?
    requires forall i | 0 <= i < |arrivals| ::
               arrivals[i].d.protocol == pass.protocol && arrivals[i].d.destPort == pass.port
    ensures var late := Ring.Last(DirectAll(arrivals), MAX_QUEUE_SIZE);
            var early := ToPackets(Judged(Ring.Last(Waiting(arrivals), MAX_PENDING), pass, Give));
            early == late <==> AllSurvive(arrivals, pass.localIp, pass.now)
  {
    hide SurvivesWaiting, ToPacket, Direct, Judge;
    var late := Ring.Last(DirectAll(arrivals), MAX_QUEUE_SIZE);
    var early := ToPackets(Judged(Ring.Last(Waiting(arrivals), MAX_PENDING), pass, Give));
    if |arrivals| <= MAX_PENDING {
      if AllSurvive(arrivals, pass.localIp, pass.now) {
        SurvivorsArriveAlike(arrivals, pass);
      }
      if early == late {
        AlikeMeansSurvived(arrivals, pass);
      }
    } else {
      JudgedAll(Ring.Last(Waiting(arrivals), MAX_PENDING), pass, Give);
      assert |early| < |late|;
    }
  }

  // Nothing is queued at the socket, if it is registered: it may be a new one, or one that an earlier
  // refused bind left behind.
  ghost predicate NothingQueued(s: NetState, fd: int) {
    fd in s.sockets ==> s.sockets[fd].queue == []
  }

  lemma BoundIsFresh(s: NetState, fd: int, stype: SocketType, protocol: Protocol, addr: SockAddrIn)
    requires WellFormed(s) && NothingQueued(s, fd) && addr.sinFamily == AF_INET
    requires ClaimAndBind(s, fd, stype, protocol, addr).2 == None
    ensures var (bound, port, _) := ClaimAndBind(s, fd, stype, protocol, addr);
      && bound.pending == s.pending && bound.sockets.Keys == s.sockets.Keys + {fd}
      && bound.sockets[fd].queue == [] && PortOf(bound.sockets[fd]) == port
      && bound.sockets[fd].protocol == if fd in s.sockets then s.sockets[fd].protocol else protocol
  {
    ClaimAndBindMeaning(s, fd, stype, protocol, addr);
    hide BSwap16, BSwap32, ClaimPort;
  }

  lemma FreshQueue(v: SocketView, packets: seq<Packet>)
    requires v.queue == [] && forall i | 0 <= i < |packets| :: |packets[i].data| <= MAX_PAYLOAD
    ensures v.IncomingAll(packets)
         == v.(queue := Ring.Last(packets, MAX_QUEUE_SIZE), signalled := v.signalled || packets != [])
  {
    IncomingAllQueue(v, packets);
    Ring.PushAllKeepsNewest([], packets, MAX_QUEUE_SIZE);
    assert [] + packets == packets;
  }

  lemma EarlyPath(s: NetState, fd: int, stype: SocketType, protocol: Protocol, addr: SockAddrIn,
                  now: uint64, arrivals: seq<Arrival>)
    requires WellFormed(s) && s.pending == []
    requires ClaimAndBind(s, fd, stype, protocol, addr).2 == None
    requires OrdersFit(arrivals, s.sockets.Keys)
    requires forall a | a in arrivals :: Unclaimed(s, a.d)
    ensures RouteAll(s, arrivals).pool.Valid()
    ensures var (bound, port, _) := ClaimAndBind(s, fd, stype, protocol, addr);
            var q := Ring.Last(Waiting(arrivals), MAX_PENDING);
            BindFd(RouteAll(s, arrivals), fd, stype, protocol, addr, now).0
            == Deliver(bound.(pending := q), fd, port, protocol, now)
  {
    hide ClaimAndBind, RouteAll, Unclaimed, Deliver, OrdersFit;
    var q := Ring.Last(Waiting(arrivals), MAX_PENDING);
    UnclaimedWait(s, arrivals);
    Ring.PushAllKeepsNewest([], Waiting(arrivals), MAX_PENDING);
    assert [] + Waiting(arrivals) == Waiting(arrivals);
    ClaimIgnoresPending(s, q, fd, stype, protocol, addr);
  }

  lemma OnlyForMeansOnPort(s: NetState, fd: int, d: Datagram)
    requires fd in s.sockets && OnlyFor(s, fd, d)
    ensures d.protocol == s.sockets[fd].protocol && d.destPort == PortOf(s.sockets[fd])
  {
    hide BSwap16, BSwap32, IsFanOut;
    assert fd in EligibleFds(s.sockets, d.destIp, d.destPort, d.protocol);
  }

  lemma LatePath(bound: NetState, fd: int, port: uint16, protocol: Protocol, now: uint64, arrivals: seq<Arrival>)
    requires fd in bound.sockets && bound.pending == [] && OrdersFit(arrivals, bound.sockets.Keys)
    requires forall a | a in arrivals :: OnlyFor(bound, fd, a.d)
    ensures RouteAll(Deliver(bound, fd, port, protocol, now), arrivals)
         == bound.(sockets := bound.sockets[fd := bound.sockets[fd].IncomingAll(DirectAll(arrivals))])
  {
    hide PassFor, OnlyFor, OrdersFit, RouteAll;
    assert ToPackets([]) == [];
    assert bound.sockets[fd := bound.sockets[fd]] == bound.sockets;
    assert Deliver(bound, fd, port, protocol, now) == bound;
    OnlyForArrive(bound, fd, arrivals);
  }

  // All early packets survive, and the bind claims for the protocol that the socket counts as.
  ghost predicate SurvivesBind(early: seq<Arrival>, v: SocketView, protocol: Protocol, now: uint64) {
    AllSurvive(early, v.local.GetAddr(), now) && (early != [] ==> v.protocol == protocol)
  }

  lemma Compare(bound: NetState, fd: int, port: uint16, protocol: Protocol, now: uint64,
                early: seq<Arrival>, late: seq<Arrival>)
    requires fd in bound.sockets && bound.sockets[fd].queue == [] && bound.pending == []
    requires |early| == |late| && forall i | 0 <= i < |early| :: early[i].d == late[i].d
    requires forall i | 0 <= i < |early| :: early[i].d.protocol == bound.sockets[fd].protocol && early[i].d.destPort == port
    ensures var waited := Deliver(bound.(pending := Ring.Last(Waiting(early), MAX_PENDING)), fd, port, protocol, now);
            var routed := bound.(sockets := bound.sockets[fd := bound.sockets[fd].IncomingAll(DirectAll(late))]);
            var survive := SurvivesBind(early, bound.sockets[fd], protocol, now);
            && fd in waited.sockets && fd in routed.sockets
            && (waited.sockets[fd].queue == routed.sockets[fd].queue <==> survive)
            && (waited == routed <==> survive)
  {
    hide Judge, SurvivesWaiting, SockAddrIn.GetAddr, ToPacket, Direct;
    var v := bound.sockets[fd];
    var pass := PassFor(v, port, protocol, now);
    var q := Ring.Last(Waiting(early), MAX_PENDING);
    assert DirectAll(early) == DirectAll(late);
    GivenFits(q, pass);
    FreshQueue(v, ToPackets(Judged(q, pass, Give)));
    DirectFits(late);
    FreshQueue(v, DirectAll(late));
    if early == [] || v.protocol == protocol {
      SameQueueExactly(early, pass);
      if AllSurvive(early, v.local.GetAddr(), now) {
        SurvivorsArriveAlike(early, pass);
      }
    } else {
      OtherProtocolGetsNothing(early, q, v.protocol, pass);
      assert |Ring.Last(DirectAll(late), MAX_QUEUE_SIZE)| > 0;
    }
  }

  lemma OtherProtocolGetsNothing(early: seq<Arrival>, q: seq<PendingPacket>, own: Protocol, pass: Pass)
    requires pass.DeliverPass? && pass.protocol != own && q == Ring.Last(Waiting(early), MAX_PENDING)
    requires forall i | 0 <= i < |early| :: early[i].d.protocol == own
    ensures ToPackets(Judged(q, pass, Give)) == []
  {
    assert forall i | 0 <= i < |q| :: q[i].protocol == own;
    hide ToPending, Waiting, ToPacket;
    NoneGiven(q, pass);
  }

  lemma {:induction false} NoneGiven(q: seq<PendingPacket>, pass: Pass)
    requires pass.DeliverPass? && forall i | 0 <= i < |q| :: q[i].protocol != pass.protocol
    ensures Judged(q, pass, Give) == []
  {
    if q != [] {
      NoneGiven(q[..|q| - 1], pass);
    }
  }

  lemma GivenFits(q: seq<PendingPacket>, pass: Pass)
    requires |q| <= MAX_PENDING && forall i | 0 <= i < |q| :: |q[i].data| <= PENDING_PAYLOAD_MAX
    ensures var ps := ToPackets(Judged(q, pass, Give));
            |ps| <= MAX_PENDING && forall i | 0 <= i < |ps| :: |ps[i].data| <= MAX_PAYLOAD
  {
    hide Judge, MakeSockAddr;
    JudgedIsPart(q, pass, Give);
    assert forall p | p in Judged(q, pass, Give) :: |p.data| <= PENDING_PAYLOAD_MAX;
  }

  lemma DirectFits(arrivals: seq<Arrival>)
    ensures forall i | 0 <= i < |arrivals| :: |DirectAll(arrivals)[i].data| <= MAX_PAYLOAD
  {
    hide MakeSockAddr;
  }

  // The whole comparison. In `s` nothing is pending, nothing is queued at `fd`, and the datagrams are for
  // nobody registered but would go to `fd` once it is bound. Routing them first and binding then, or
  // binding first and routing then, end in the same state exactly when all of them survive waiting and the
  // bind names the protocol of the socket.
  lemma WaitingCommutesExactly(s: NetState, fd: int, stype: SocketType, protocol: Protocol, addr: SockAddrIn,
                               now: uint64, early: seq<Arrival>, late: seq<Arrival>)
    requires WellFormed(s) && s.pending == [] && NothingQueued(s, fd) && addr.sinFamily == AF_INET
    requires ClaimAndBind(s, fd, stype, protocol, addr).2 == None
    requires |early| == |late| && forall i | 0 <= i < |early| :: early[i].d == late[i].d
    requires OrdersFit(early, s.sockets.Keys) && OrdersFit(late, s.sockets.Keys + {fd})
    requires forall a | a in early :: Unclaimed(s, a.d)
    requires forall a | a in late :: OnlyFor(ClaimAndBind(s, fd, stype, protocol, addr).0, fd, a.d)
    ensures RouteAll(s, early).pool.Valid()
    ensures var bound := ClaimAndBind(s, fd, stype, protocol, addr).0;
            var waited := BindFd(RouteAll(s, early), fd, stype, protocol, addr, now).0;
            var routed := RouteAll(BindFd(s, fd, stype, protocol, addr, now).0, late);
            var survive := SurvivesBind(early, bound.sockets[fd], protocol, now);
            && fd in waited.sockets && fd in routed.sockets
            && (waited.sockets[fd].queue == routed.sockets[fd].queue <==> survive)
            && (waited == routed <==> survive)
  {
    hide ClaimAndBind, RouteAll, Unclaimed, OnlyFor, OrdersFit, Deliver, SurvivesBind, SockAddrIn.GetAddr, PortOf;
    hide Waiting, DirectAll, SocketView.IncomingAll, Ring.Last;
    var (bound, port, _) := ClaimAndBind(s, fd, stype, protocol, addr);
    BoundIsFresh(s, fd, stype, protocol, addr);
    EarlyPath(s, fd, stype, protocol, addr, now, early);
    LatePath(bound, fd, port, protocol, now, late);
    forall i | 0 <= i < |early|
      ensures early[i].d.protocol == bound.sockets[fd].protocol && early[i].d.destPort == port
    {
      assert OnlyFor(bound, fd, late[i].d);
      OnlyForMeansOnPort(bound, fd, late[i].d);
    }
    Compare(bound, fd, port, protocol, now, early, late);
  }

  lemma OrdinaryDestinationsSurvive(s: NetState, fd: int, a: Arrival, now: uint64)
    requires fd in s.sockets && OnlyFor(s, fd, a.d)
    requires |a.d.data| <= 1400 && now <= a.now + 500 && !ToEverybody(a.d.destIp)
    ensures SurvivesWaiting(a, s.sockets[fd].local.GetAddr(), now)
  {
    ManyInNumbers(a.d.destIp);
    MatchInNumbers(s.sockets[fd].local.GetAddr(), a.d.destIp);
    hide SockAddrIn.GetAddr, BSwap16, PacketMatches, TakesWaiting, ToEverybody, IsEverybodyAddress;
    assert fd in EligibleFds(s.sockets, a.d.destIp, a.d.destPort, a.d.protocol);
    RulesAgree(s.sockets[fd], a.d.destIp, a.d.destPort, a.d.protocol);
  }

  // In particular, up to 32 packets of at most 1400 bytes and 500 ms, sent to unicast or subnet
  // broadcast addresses, may as well wait.
  lemma OrdinaryPacketsMayWait(s: NetState, fd: int, stype: SocketType, protocol: Protocol, addr: SockAddrIn,
                               now: uint64, early: seq<Arrival>, late: seq<Arrival>)
    requires WellFormed(s) && s.pending == [] && NothingQueued(s, fd) && addr.sinFamily == AF_INET
    requires fd in s.sockets ==> s.sockets[fd].protocol == protocol
    requires ClaimAndBind(s, fd, stype, protocol, addr).2 == None
    requires |early| == |late| <= 32 && forall i | 0 <= i < |early| :: early[i].d == late[i].d
    requires OrdersFit(early, s.sockets.Keys) && OrdersFit(late, s.sockets.Keys + {fd})
    requires forall a | a in early :: Unclaimed(s, a.d)
    requires forall a | a in late :: OnlyFor(ClaimAndBind(s, fd, stype, protocol, addr).0, fd, a.d)
    requires forall i | 0 <= i < |early| ::
               |early[i].d.data| <= 1400 && now <= early[i].now + 500 && !ToEverybody(early[i].d.destIp)
    ensures RouteAll(s, early).pool.Valid()
    ensures BindFd(RouteAll(s, early), fd, stype, protocol, addr, now).0
         == RouteAll(BindFd(s, fd, stype, protocol, addr, now).0, late)
  {
    hide ClaimAndBind, RouteAll, Unclaimed, OrdersFit, BindFd, SockAddrIn.GetAddr, SurvivesWaiting, OnlyFor;
    hide ToEverybody;
    WaitingCommutesExactly(s, fd, stype, protocol, addr, now, early, late);
    BoundIsFresh(s, fd, stype, protocol, addr);
    var bound := ClaimAndBind(s, fd, stype, protocol, addr).0;
    forall i | 0 <= i < |early|
      ensures SurvivesWaiting(early[i], bound.sockets[fd].local.GetAddr(), now)
    {
      assert OnlyFor(bound, fd, late[i].d);
      OnlyForDatagram(bound, fd, late[i].d, early[i].d);
      OrdinaryDestinationsSurvive(bound, fd, early[i], now);
    }
  }

  lemma OnlyForDatagram(s: NetState, fd: int, d: Datagram, e: Datagram)
    requires OnlyFor(s, fd, d) && d == e
    ensures OnlyFor(s, fd, e)
  {}

  // ---- A packet that does not survive ----

  // One TCP datagram to the limited broadcast address, port 5000, for a socket on 10.114.0.1:5000.
  const EARLY_ADDR: SockAddrIn := MakeSockAddr(0x0A72_0001, 5000)
  const EARLY_DATAGRAM: Datagram := Datagram(0x0A72_0002, 5000, LIMITED_BROADCAST, 5000, Tcp, [1])

  function BoundSocket(): SocketView {
    NewSocket(Stream, Tcp).(local := EARLY_ADDR, state := Bound)
  }

  lemma EarlyAddress()
    ensures EARLY_ADDR.GetPort() == 5000 && EARLY_ADDR.GetAddr() == 0x0A72_0001
    ensures EARLY_ADDR.sinFamily == AF_INET && EARLY_ADDR.sinAddr != 0
    ensures EARLY_ADDR.(sinPort := BSwap16(5000)) == EARLY_ADDR
  {
    SockAddrRoundTrip(0x0A72_0001, 5000);
    hide BSwap16, BSwap32;
  }

  lemma LowPortIsGranted(addr: SockAddrIn)
    requires addr.GetPort() == 5000
    ensures EMPTY_POOL.Valid() && ClaimPort(EMPTY_POOL, addr, Tcp) == (EMPTY_POOL, 5000)
  {
    hide BSwap16;
  }

  lemma BoundHere()
    ensures EARLY_ADDR.GetPort() == 5000 && EARLY_ADDR.GetAddr() == 0x0A72_0001
    ensures EMPTY_NET.pool.Valid()
    ensures ClaimAndBind(EMPTY_NET, 3, Stream, Tcp, EARLY_ADDR)
         == (EMPTY_NET.(sockets := map[3 := BoundSocket()]), 5000, None)
  {
    EarlyAddress();
    LowPortIsGranted(EARLY_ADDR);
    hide BSwap16, BSwap32, SockAddrIn.GetAddr, SockAddrIn.GetPort, ClaimPort, EARLY_ADDR;
    var created := Create(EMPTY_NET, 3, Stream, Tcp);
    assert |EMPTY_NET.sockets| == 0;
    assert created.sockets[3].Bind(EARLY_ADDR) == (BoundSocket(), None);
    assert created.sockets[3 := BoundSocket()] == map[3 := BoundSocket()];
  }

  lemma EarlyDatagramIsForIt()
    ensures WellFormed(EMPTY_NET) && Unclaimed(EMPTY_NET, EARLY_DATAGRAM)
    ensures OnlyFor(EMPTY_NET.(sockets := map[3 := BoundSocket()]), 3, EARLY_DATAGRAM)
  {
    BoundHere();
    hide SockAddrIn.GetAddr, SockAddrIn.GetPort, EARLY_ADDR;
    var sockets := map[3 := BoundSocket()];
    assert Eligible(sockets[3], LIMITED_BROADCAST, 5000, Tcp);
  }

  // Routed before the bind it is lost; routed after the bind it is received. So AllSurvive is not idle.
  lemma BroadcastBeforeBindIsLost()
    ensures EMPTY_NET.pool.Valid()
    ensures var early, late := [Arrival(EARLY_DATAGRAM, 0, [])], [Arrival(EARLY_DATAGRAM, 0, [3])];
      && RouteAll(EMPTY_NET, early).pool.Valid()
      && var waited := BindFd(RouteAll(EMPTY_NET, early), 3, Stream, Tcp, EARLY_ADDR, 0).0;
         var routed := RouteAll(BindFd(EMPTY_NET, 3, Stream, Tcp, EARLY_ADDR, 0).0, late);
         && 3 in waited.sockets && 3 in routed.sockets
         && waited.sockets[3].queue == [] && routed.sockets[3].queue == [Direct(EARLY_DATAGRAM)]
  {
    hide EARLY_ADDR, BindFd, RouteAll, Direct;
    LostBefore();
    ReceivedAfter();
  }

  lemma LostBefore()
    ensures EMPTY_NET.pool.Valid()
    ensures var early := [Arrival(EARLY_DATAGRAM, 0, [])];
      && RouteAll(EMPTY_NET, early).pool.Valid()
      && var waited := BindFd(RouteAll(EMPTY_NET, early), 3, Stream, Tcp, EARLY_ADDR, 0).0;
         3 in waited.sockets && waited.sockets[3].queue == []
  {
    BoundHere();
    EarlyDatagramIsForIt();
    hide ClaimPort, BSwap16, BSwap32, EARLY_ADDR;
    hide ClaimAndBind, RouteAll, Unclaimed, OnlyFor, Deliver, SockAddrIn.GetAddr, SockAddrIn.GetPort, MakeSockAddr;
    var early := [Arrival(EARLY_DATAGRAM, 0, [])];
    var bound := EMPTY_NET.(sockets := map[3 := BoundSocket()]);
    EarlyPath(EMPTY_NET, 3, Stream, Tcp, EARLY_ADDR, 0, early);
    NotGiven(bound, EARLY_DATAGRAM);
    assert Waiting(early) == [ToPending(EARLY_DATAGRAM, 0)] == Ring.Last(Waiting(early), MAX_PENDING);
  }

  lemma ReceivedAfter()
    ensures EMPTY_NET.pool.Valid()
    ensures var late := [Arrival(EARLY_DATAGRAM, 0, [3])];
            var routed := RouteAll(BindFd(EMPTY_NET, 3, Stream, Tcp, EARLY_ADDR, 0).0, late);
            3 in routed.sockets && routed.sockets[3].queue == [Direct(EARLY_DATAGRAM)]
  {
    BoundHere();
    EarlyDatagramIsForIt();
    hide ClaimPort, BSwap16, BSwap32, EARLY_ADDR;
    hide ClaimAndBind, RouteAll, Unclaimed, OnlyFor, Deliver, SockAddrIn.GetAddr, SockAddrIn.GetPort, MakeSockAddr;
    var late := [Arrival(EARLY_DATAGRAM, 0, [3])];
    var bound := EMPTY_NET.(sockets := map[3 := BoundSocket()]);
    assert bound.sockets.Keys == {3};
    LatePath(bound, 3, 5000, Tcp, 0, late);
    NothingPendingYet(bound);
    FreshQueue(BoundSocket(), DirectAll(late)) by { DirectFits(late); }
    assert DirectAll(late) == [Direct(EARLY_DATAGRAM)] == Ring.Last(DirectAll(late), MAX_QUEUE_SIZE);
  }

  lemma NothingPendingYet(bound: NetState)
    requires 3 in bound.sockets && bound.pending == []
    ensures Deliver(bound, 3, 5000, Tcp, 0) == bound
  {
    assert bound.sockets[3 := bound.sockets[3]] == bound.sockets;
    assert ToPackets([]) == [];
  }

  lemma NotGiven(bound: NetState, d: Datagram)
    requires 3 in bound.sockets && bound.sockets[3] == BoundSocket() && d.destIp == LIMITED_BROADCAST
    ensures var t := Deliver(bound.(pending := [ToPending(d, 0)]), 3, 5000, Tcp, 0);
            3 in t.sockets && t.sockets[3].queue == []
  {
    BoundHere();
    hide BSwap16, BSwap32, MakeSockAddr, Prefix, SockAddrIn.GetAddr;
    var p := ToPending(d, 0);
    var pass := PassFor(bound.sockets[3], 5000, Tcp, 0);
    assert Judge(pass, p) != Give;
    assert [p][..0] == [];
    assert Judged([p], pass, Give) == [];
    assert ToPackets([]) == [];
  }
}
