/** Concrete runs from the empty network in which a port loses its owner. */
module PortWitnesses {
  import opened BsdTypes
  import opened ProxySocket
  import opened PortPool
  import opened Network
  import opened NetworkRuns
  import opened PortOwnership
  import L = Ledger

  // 10.114.0.1
  const LOCAL_IP: uint32 := 0x0A72_0001

  function BindTo(fd: int, protocol: Protocol, port: uint16): (op: Op)
    ensures op.OpBind? && op.addr.sinFamily == AF_INET
  {
    OpBind(fd, if protocol.Tcp? then Stream else Dgram, protocol, MakeSockAddr(LOCAL_IP, port), 0)
  }

  lemma RunOne(s: NetState, op: Op, rest: seq<Op>)
    requires WellFormed(s) && Enabled(s, op)
    ensures WellFormed(Step(s, op))
    ensures L.ValidRun(s, [op] + rest) <==> L.ValidRun(Step(s, op), rest)
    ensures L.ValidRun(Step(s, op), rest) ==> L.Run(s, [op] + rest) == L.Run(Step(s, op), rest)
  {
    hide Step, Enabled;
    StepKeepsWellFormed(s, op);
    assert ([op] + rest)[1..] == rest;
  }

  // What a bind to a named port does to the registry and the pools.
  lemma NamedBind(s: NetState, fd: int, protocol: Protocol, port: uint16)
    requires WellFormed(s) && port != 0 && (fd in s.sockets || |s.sockets| < MAX_PROXY_SOCKETS)
    ensures var op := BindTo(fd, protocol, port);
      var t := Step(s, op);
      var refused := IsEphemeral(port) && s.pool.Holds(protocol, port);
      && ClaimedPort(s, op) == (if refused then 0 else port)
      && fd in t.sockets && t.sockets.Keys == s.sockets.Keys + {fd}
      && (forall other | other in s.sockets && other != fd :: t.sockets[other].protocol == s.sockets[other].protocol
            && PortOf(t.sockets[other]) == PortOf(s.sockets[other]))
      && t.sockets[fd].protocol == (if fd in s.sockets then s.sockets[fd].protocol else protocol)
      && Claims(s.pool, t.pool, protocol, ClaimedPort(s, op))
      && (!refused && (fd in s.sockets ==> s.sockets[fd].state == Created) ==>
            PortOf(t.sockets[fd]) == port && t.sockets[fd].state == Bound)
      && (refused && fd !in s.sockets ==> t.sockets[fd].state == Created)
  {
    hide Claims, ClaimAndBind, ClaimPort, Deliver, PortOf, PoolView.Holds, BSwap16, BSwap32;
    var op := BindTo(fd, protocol, port);
    SockAddrRoundTrip(LOCAL_IP, port);
    ClaimPortMeaning(s.pool, op.addr, protocol);
    BindAddressKeepsPort(s, op.addr, protocol);
    ClaimAndBindMeaning(s, fd, op.stype, protocol, op.addr);
    var (bound, claimed, error) := ClaimAndBind(s, fd, op.stype, protocol, op.addr);
    assert error != Some(NoMem) by { CreateHasRoom(s, fd, op.stype, protocol, op.addr); }
    if error == None {
      DeliverKeepsEndpoints(bound, fd, claimed, protocol, 0);
      DeliverKeepsAddresses(bound, fd, claimed, protocol, 0);
    }
  }

  lemma CreateHasRoom(s: NetState, fd: int, stype: SocketType, protocol: Protocol, addr: SockAddrIn)
    requires WellFormed(s) && (fd in s.sockets || |s.sockets| < MAX_PROXY_SOCKETS)
    ensures ClaimAndBind(s, fd, stype, protocol, addr).2 != Some(NoMem)
  {
    hide ClaimPort, BSwap16, BSwap32;
  }

  lemma EmptyNetStarts()
    ensures WellFormed(EMPTY_NET) && OwnsPorts(EMPTY_NET) && UnboundHaveNoPort(EMPTY_NET) && NoOrphans(EMPTY_NET)
    ensures forall protocol: Protocol, port: uint16 | IsEphemeral(port) :: !EMPTY_NET.pool.Holds(protocol, port)
  {
    L.EmptyNetFollows();
    EmptyNetOwnsPorts(EMPTY_NET);
  }

  // Descriptor 9 has UDP port 50000. A UDP bind of descriptor 3 to it is refused, but leaves a socket
  // behind; descriptor 3 comes back as a TCP socket, and now its bind to 50000 is granted in the TCP pool.
  // The socket counts as UDP, so it shares the port with descriptor 9, and the TCP port has no owner.
  lemma ReusedDescriptorMixesPools()
    ensures WellFormed(EMPTY_NET)
    ensures var ops := [BindTo(9, Udp, 50000)] + ([BindTo(3, Udp, 50000)] + ([BindTo(3, Tcp, 50000)] + []));
      && L.ValidRun(EMPTY_NET, ops)
      && var t := L.Run(EMPTY_NET, ops);
         && 3 in t.sockets && 9 in t.sockets && SharePort(t, 3, 9) && !OwnsPorts(t)
         && t.pool.Holds(Tcp, 50000) && !Owned(t, Tcp, 50000) && !NoOrphans(t)
  {
    EmptyNetStarts();
    hide Step, Claims, PortOf, PoolView.Holds, MakeSockAddr, ClaimPort, OwnsPorts, NoOrphans, L.Run, L.ValidRun;
    var first, second, third := BindTo(9, Udp, 50000), BindTo(3, Udp, 50000), BindTo(3, Tcp, 50000);
    var s1 := Step(EMPTY_NET, first);
    NamedBind(EMPTY_NET, 9, Udp, 50000);
    ClaimedPorts(EMPTY_NET.pool, s1.pool, Udp, 50000);
    OneSocket(s1, 9);
    RunThree(first, second, third);
    var s2 := Step(s1, second);
    NamedBind(s1, 3, Udp, 50000);
    ClaimedPorts(s1.pool, s2.pool, Udp, 0);
    var t := Step(s2, third);
    NamedBind(s2, 3, Tcp, 50000);
    ClaimedPorts(s2.pool, t.pool, Tcp, 50000);
    assert t.sockets.Keys == {3, 9};
    SharedMeansNotOwned(t, 3, 9);
    HeldMeansOrphan(t, Tcp, 50000);
  }

  lemma OneSocket(s: NetState, fd: int)
    requires s.sockets.Keys == {} + {fd}
    ensures |s.sockets| == 1
  {
    assert |s.sockets| == |s.sockets.Keys| == |{fd}|;
  }

  lemma SharedMeansNotOwned(t: NetState, fd: int, other: int)
    requires fd in t.sockets && other in t.sockets && fd != other && SharePort(t, fd, other)
    ensures !OwnsPorts(t)
  {}

  lemma HeldMeansOrphan(t: NetState, protocol: Protocol, port: uint16)
    requires IsEphemeral(port) && t.pool.Holds(protocol, port) && !Owned(t, protocol, port)
    ensures !NoOrphans(t)
  {}

  lemma RunThree(first: Op, second: Op, third: Op)
    requires WellFormed(EMPTY_NET) && Enabled(EMPTY_NET, first) && first.OpBind? && second.OpBind? && third.OpBind?
    requires second.addr.sinFamily == AF_INET && third.addr.sinFamily == AF_INET
    ensures var s1 := Step(EMPTY_NET, first);
            WellFormed(s1) && WellFormed(Step(s1, second))
    ensures var ops := [first] + ([second] + ([third] + []));
            && L.ValidRun(EMPTY_NET, ops)
            && L.Run(EMPTY_NET, ops) == Step(Step(Step(EMPTY_NET, first), second), third)
  {
    hide Step;
    RunOne(EMPTY_NET, first, [second] + ([third] + []));
    RunTwo(Step(EMPTY_NET, first), second, third);
  }

  lemma RunTwo(s: NetState, first: Op, second: Op)
    requires WellFormed(s) && first.OpBind? && second.OpBind?
    requires first.addr.sinFamily == AF_INET && second.addr.sinFamily == AF_INET
    ensures WellFormed(Step(s, first)) && WellFormed(Step(Step(s, first), second))
    ensures var ops := [first] + ([second] + []);
            L.ValidRun(s, ops) && L.Run(s, ops) == Step(Step(s, first), second)
  {
    hide Step;
    RunOne(s, first, [second] + []);
    RunOne(Step(s, first), second, []);
  }

  // Descriptor 3 is bound to port 5000 and then bound once more, to any port: the second bind fails and
  // the port claimed for it stays held by nobody.
  lemma SecondBindLeaks()
    ensures WellFormed(EMPTY_NET)
    ensures var ops := [BindTo(3, Tcp, 5000)] + ([BindTo(3, Tcp, 0)] + []);
      && L.ValidRun(EMPTY_NET, ops)
      && !NoOrphans(L.Run(EMPTY_NET, ops))
  {
    EmptyNetStarts();
    hide Step, Claims, PortOf, PoolView.Holds, ClaimPort, MakeSockAddr, NoOrphans, L.Run, L.ValidRun;
    var first, second := BindTo(3, Tcp, 5000), BindTo(3, Tcp, 0);
    RunTwo(EMPTY_NET, first, second);
    var s1 := Step(EMPTY_NET, first);
    NamedBind(EMPTY_NET, 3, Tcp, 5000);
    ClaimedPorts(EMPTY_NET.pool, s1.pool, Tcp, 5000);
    StepKeepsUnbound(EMPTY_NET, first);
    PortsLeakExactlyOnRebind(EMPTY_NET, first);
    FreshPortIsClaimed(s1, second);
    PortsLeakExactlyOnRebind(s1, second);
  }

  lemma FreshPortIsClaimed(s: NetState, op: Op)
    requires s.pool.Valid() && op == BindTo(3, Tcp, 0) && !s.pool.Holds(Tcp, 50000)
    ensures IsEphemeral(ClaimedPort(s, op))
  {
    hide PoolView.Holds;
    SockAddrRoundTrip(LOCAL_IP, 0);
    ClaimPortMeaning(s.pool, op.addr, Tcp);
  }
}
