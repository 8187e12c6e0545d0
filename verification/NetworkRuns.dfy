/**
 Runs of the manager: any sequence of its operations, each with its own clock value and its own
 iteration order. The ledger follows every packet that was ever accepted into the pending ring.
 */
module NetworkRuns {
  import opened BsdTypes
  import opened ProxySocket
  import opened PortPool
  import opened Network

  datatype Op =
    | OpBind(fd: int, stype: SocketType, protocol: Protocol, addr: SockAddrIn, now: uint64)
    | OpAutoBind(fd: int, stype: SocketType, protocol: Protocol)
    | OpClose(fd: int)
    | OpCloseAll
    | OpReset
    | OpSetLocalIp(ip: uint32)
    | OpRoute(d: Datagram, now: uint64, order: seq<int>)
    // Any operation of one socket that keeps its protocol and address and puts nothing into its queue:
    // reads, shutdown, connect, ...
    | OpSocket(fd: int, v: SocketView)

  ghost predicate Enabled(s: NetState, op: Op) {
    match op
    case OpBind(_, _, _, addr, _) => addr.sinFamily == AF_INET
    case OpRoute(_, _, order) => IsOrder(order, s.sockets.Keys)
    case OpSocket(fd, v) =>
      && fd in s.sockets && v.protocol == s.sockets[fd].protocol && v.local == s.sockets[fd].local
      && (v.state == Created ==> s.sockets[fd].state == Created)
      && forall p | p in v.queue :: p in s.sockets[fd].queue
    case _ => true
  }

  function Step(s: NetState, op: Op): NetState
    requires s.pool.Valid()
  {
    match op
    case OpBind(fd, stype, protocol, addr, now) => BindFd(s, fd, stype, protocol, addr, now).0
    case OpAutoBind(fd, stype, protocol) => AutoBind(s, fd, stype, protocol).0
    case OpClose(fd) => Close(s, fd)
    case OpCloseAll => CloseAll(s)
    case OpReset => Reset(s)
    case OpSetLocalIp(ip) => SetLocalIp(s, ip)
    case OpRoute(d, now, order) => Route(s, d, now, order).0
    case OpSocket(fd, v) => if fd in s.sockets then s.(sockets := s.sockets[fd := v]) else s
  }

  // ---- What the two binding operations change, in terms of ports ----

  function PortOf(v: SocketView): uint16 {
    v.local.GetPort()
  }

  // `pool'` is `pool`, except that an ephemeral `port` went from free to held.
  ghost predicate Claims(pool: PoolView, pool': PoolView, protocol: Protocol, port: uint16) {
    && pool'.Valid()
    && (port == 0 || !IsEphemeral(port) ==> pool' == pool)
    && (IsEphemeral(port) ==>
          && !pool.Holds(protocol, port)
          && pool' == pool.With(protocol, pool'.Of(protocol))
          && pool'.Of(protocol).held == pool.Of(protocol).held + {PortToIndex(port)})
  }

  lemma ClaimPortMeaning(pool: PoolView, addr: SockAddrIn, protocol: Protocol)
    requires pool.Valid()
    ensures var (pool', port) := ClaimPort(pool, addr, protocol);
            Claims(pool, pool', protocol, port)
    ensures ClaimPort(pool, addr, protocol).1 == 0 <==>
            if addr.GetPort() == 0 then forall p: uint16 | IsEphemeral(p) :: pool.Holds(protocol, p)
            else IsEphemeral(addr.GetPort()) && pool.Holds(protocol, addr.GetPort())
    ensures var port := ClaimPort(pool, addr, protocol).1;
            port != 0 ==> if addr.GetPort() == 0 then IsEphemeral(port) else port == addr.GetPort()
  {
    hide BSwap16;
    AllocatePortMeaning(pool, protocol);
  }

  // From s to t, `fd` is registered if it was not, and nothing else changes but its view and the pool.
  ghost predicate OnlyTouches(s: NetState, t: NetState, fd: int, protocol: Protocol) {
    && t.localIp == s.localIp && t.pending == s.pending
    && |t.sockets| <= MAX_PROXY_SOCKETS
    && fd in t.sockets && t.sockets.Keys == s.sockets.Keys + {fd}
    && (forall other | other in s.sockets && other != fd :: t.sockets[other] == s.sockets[other])
    && t.sockets[fd].protocol == if fd in s.sockets then s.sockets[fd].protocol else protocol
  }

  lemma ClaimAndBindMeaning(s: NetState, fd: int, stype: SocketType, protocol: Protocol, addr: SockAddrIn)
    requires WellFormed(s) && addr.sinFamily == AF_INET
    ensures var (t, port, error) := ClaimAndBind(s, fd, stype, protocol, addr);
      && (error == Some(NoMem) ==> t == s && fd !in s.sockets)
      && (error != Some(NoMem) ==>
            && OnlyTouches(s, t, fd, protocol) && Claims(s.pool, t.pool, protocol, port)
            && port == ClaimPort(s.pool, BindAddress(s, addr), protocol).1
            && (error == None <==> port != 0 && (fd in s.sockets ==> s.sockets[fd].state == Created))
            && (error == None ==> PortOf(t.sockets[fd]) == port && t.sockets[fd].state == Bound)
            && (error != None ==> t.sockets[fd] == if fd in s.sockets then s.sockets[fd] else NewSocket(stype, protocol)))
  {
    hide BSwap16, BSwap32, ClaimPort, SocketView.Bind, Claims, NewSocket, OnlyTouches;
    var wanted := BindAddress(s, addr);
    ClaimPortMeaning(s.pool, wanted, protocol);
    NoClaim(s.pool, protocol);
    CreateTouches(s, fd, stype, protocol);
    var created := Create(s, fd, stype, protocol);
    var (pool, port) := ClaimPort(s.pool, wanted, protocol);
    if fd in created.sockets {
      var addr' := wanted.(sinPort := BSwap16(port));
      BSwap16Involution(port);
      assert PortOf(created.sockets[fd].(local := addr')) == port;
      BindMeaning(created.sockets[fd], addr');
      UpdateTouches(s, created, fd, protocol, pool, created.sockets[fd].Bind(addr').0);
    }
  }

  lemma NoClaim(pool: PoolView, protocol: Protocol)
    requires pool.Valid()
    ensures Claims(pool, pool, protocol, 0)
  {}

  lemma CreateTouches(s: NetState, fd: int, stype: SocketType, protocol: Protocol)
    requires WellFormed(s)
    ensures var t := Create(s, fd, stype, protocol);
      && t.pool == s.pool
      && (fd !in t.sockets ==> t == s)
      && (fd in t.sockets ==> OnlyTouches(s, t, fd, protocol))
      && (fd in t.sockets ==> t.sockets[fd] == if fd in s.sockets then s.sockets[fd] else NewSocket(stype, protocol))
    ensures NewSocket(stype, protocol).state == Created
  {
    var t := Create(s, fd, stype, protocol);
    assert |t.sockets| == |t.sockets.Keys|;
    assert fd !in s.sockets ==> |s.sockets.Keys + {fd}| == |s.sockets.Keys| + 1;
  }

  lemma UpdateTouches(s: NetState, t: NetState, fd: int, protocol: Protocol, pool: PoolView, v: SocketView)
    requires OnlyTouches(s, t, fd, protocol) && v.protocol == t.sockets[fd].protocol
    ensures OnlyTouches(s, t.(pool := pool, sockets := t.sockets[fd := v]), fd, protocol)
  {
    assert |t.sockets[fd := v]| == |t.sockets[fd := v].Keys|;
    assert t.sockets[fd := v].Keys == t.sockets.Keys;
  }

  lemma BindMeaning(v: SocketView, addr: SockAddrIn)
    requires addr.sinFamily == AF_INET
    ensures var (w, error) := v.Bind(addr);
      && w.protocol == v.protocol && error != Some(NoMem)
      && (error == None <==> v.state == Created)
      && (error == None ==> w.local == addr && w.state == Bound)
      && (error != None ==> w == v)
  {}

  lemma AutoBindMeaning(s: NetState, fd: int, stype: SocketType, protocol: Protocol)
    requires WellFormed(s)
    ensures var (t, error) := AutoBind(s, fd, stype, protocol);
      var port := s.pool.AllocatePort(protocol).1;
      && (fd in s.sockets || error == Some(NoMem) ==> t == s)
      && (fd !in s.sockets && error != Some(NoMem) ==>
            && OnlyTouches(s, t, fd, protocol) && Claims(s.pool, t.pool, protocol, port)
            && (error == None <==> port != 0)
            && (error == None ==> PortOf(t.sockets[fd]) == port && t.sockets[fd].state == Bound)
            && (error != None ==> t.sockets[fd] == NewSocket(stype, protocol)))
  {
    hide SockAddrIn.GetPort, PoolView.AllocatePort, SocketView.Bind, NewSocket, OnlyTouches, MakeSockAddr, Claims;
    AllocationClaims(s.pool, protocol);
    NoClaim(s.pool, protocol);
    var (pool, port) := s.pool.AllocatePort(protocol);
    SockAddrRoundTrip(s.localIp, port);
    CreateTouches(s, fd, stype, protocol);
    var created := Create(s, fd, stype, protocol);
    if fd in created.sockets {
      var addr := MakeSockAddr(s.localIp, port);
      assert addr.sinFamily == AF_INET by { MadeForInet(s.localIp, port); }
      BindMeaning(created.sockets[fd], addr);
      UpdateTouches(s, created, fd, protocol, pool, created.sockets[fd].Bind(addr).0);
    }
  }

  lemma MadeForInet(ip: uint32, port: uint16)
    ensures MakeSockAddr(ip, port).sinFamily == AF_INET
  {}

  lemma AllocationClaims(pool: PoolView, protocol: Protocol)
    requires pool.Valid()
    ensures var (pool', port) := pool.AllocatePort(protocol);
            Claims(pool, pool', protocol, port) && (port == 0 ==> pool' == pool)
  {
    hide PoolView.AllocatePort;
    AllocatePortMeaning(pool, protocol);
  }

  lemma {:induction false} IncomingAllKeepsAddress(v: SocketView, packets: seq<Packet>)
    ensures var w := v.IncomingAll(packets);
            w.local == v.local && w.protocol == v.protocol && w.state == v.state
    decreases |packets|
  {
    if packets != [] {
      IncomingAllKeepsAddress(v.Incoming(packets[0].data, packets[0].from), packets[1..]);
    }
  }

  lemma DeliverKeepsAddresses(s: NetState, fd: int, port: uint16, protocol: Protocol, now: uint64)
    requires fd in s.sockets
    ensures var t := Deliver(s, fd, port, protocol, now);
      && t.pool == s.pool && t.localIp == s.localIp && t.sockets.Keys == s.sockets.Keys
      && (forall other | other in s.sockets && other != fd :: t.sockets[other] == s.sockets[other])
      && t.sockets[fd].local == s.sockets[fd].local && t.sockets[fd].protocol == s.sockets[fd].protocol
      && t.sockets[fd].state == s.sockets[fd].state
  {
    hide BSwap16, BSwap32, PassFor;
    var pass := PassFor(s.sockets[fd], port, protocol, now);
    IncomingAllKeepsAddress(s.sockets[fd], ToPackets(Judged(s.pending, pass, Give)));
  }

  // ---- Every step keeps the state well formed ----

  lemma {:induction false} JudgedIsPart(q: seq<PendingPacket>, pass: Pass, verdict: Verdict)
    ensures |Judged(q, pass, verdict)| <= |q|
    ensures forall p | p in Judged(q, pass, verdict) :: p in q && Judge(pass, p) == verdict
  {
    if q != [] {
      JudgedIsPart(q[..|q| - 1], pass, verdict);
    }
  }

  lemma RouteKeepsWellFormed(s: NetState, d: Datagram, now: uint64, order: seq<int>)
    requires WellFormed(s)
    ensures WellFormed(Route(s, d, now, order).0)
  {
    hide FindTargets, BSwap16, BSwap32;
    var targets := FindTargets(s.sockets, d.destIp, d.destPort, d.protocol, order, MAX_TARGETS);
    assert |Fan(s.sockets, targets, d).Keys| == |s.sockets.Keys| by {
      assert Fan(s.sockets, targets, d).Keys == s.sockets.Keys;
    }
  }

  lemma DeliverKeepsWellFormed(s: NetState, fd: int, port: uint16, protocol: Protocol, now: uint64)
    requires WellFormed(s) && fd in s.sockets
    ensures WellFormed(Deliver(s, fd, port, protocol, now))
  {
    hide PassFor, Judge, SocketView.IncomingAll;
    var t := Deliver(s, fd, port, protocol, now);
    JudgedIsPart(s.pending, PassFor(s.sockets[fd], port, protocol, now), Keep);
    assert |t.sockets.Keys| == |s.sockets.Keys| by {
      assert t.sockets.Keys == s.sockets.Keys;
    }
  }

  lemma CloseKeepsWellFormed(s: NetState, fd: int)
    requires WellFormed(s)
    ensures WellFormed(Close(s, fd))
  {
    hide BSwap16, HasTwin;
    if fd in s.sockets {
      var v := s.sockets[fd];
      JudgedIsPart(s.pending, PurgePass(PortOf(v), v.protocol), Keep);
      assert |(s.sockets - {fd}).Keys| <= |s.sockets.Keys| by {
        SubsetSize((s.sockets - {fd}).Keys, s.sockets.Keys);
      }
    }
  }

  lemma StepKeepsWellFormed(s: NetState, op: Op)
    requires WellFormed(s) && Enabled(s, op)
    ensures WellFormed(Step(s, op))
  {
    hide ClaimAndBind, AutoBind, Deliver, Route, Close;
    match op
    case OpBind(fd, stype, protocol, addr, now) =>
      ClaimAndBindMeaning(s, fd, stype, protocol, addr);
      var (bound, port, error) := ClaimAndBind(s, fd, stype, protocol, addr);
      if error == None {
        DeliverKeepsWellFormed(bound, fd, port, protocol, now);
      }
    case OpAutoBind(fd, stype, protocol) => AutoBindMeaning(s, fd, stype, protocol);
    case OpClose(fd) => CloseKeepsWellFormed(s, fd);
    case OpRoute(d, now, order) => RouteKeepsWellFormed(s, d, now, order);
    case OpSocket(fd, v) =>
      assert |s.sockets[fd := v].Keys| == |s.sockets.Keys| by {
        assert s.sockets[fd := v].Keys == s.sockets.Keys;
      }
    case _ =>
  }
}
