/** Bind and Close in plain fields: what waits, what is delivered, what is purged, and where a socket ends up. */
module PendingLaws {
  import opened BsdTypes
  import opened ProxySocket
  import opened PortPool
  import opened PortLaws
  import opened Network
  import opened NetworkRuns
  import opened Filters
  import opened RoutingLaws
  import L = Ledger
  import Ring

  // ---- One waiting packet ----

  // At most 500 ms have passed since it arrived; a clock that went back makes nothing older.
  predicate Young(w: PendingPacket, now: uint64) {
    now <= w.enqueueTime + 500
  }

  predicate IsFor(w: PendingPacket, protocol: Protocol, port: uint16) {
    w.protocol == protocol && w.destPort == port
  }

  // A socket on `ip` takes what waits for `destIp`.
  predicate TakesWaiting(ip: uint32, destIp: uint32) {
    ip == 0 || ip == destIp || (destIp % 0x100 == 0xFF && ip / 0x1_0000 == destIp / 0x1_0000)
  }

  predicate Wanted(w: PendingPacket, ip: uint32, port: uint16, protocol: Protocol) {
    IsFor(w, protocol, port) && TakesWaiting(ip, w.destIp)
  }

  lemma StaleInNumbers(w: PendingPacket, now: uint64)
    ensures IsStale(w, now) <==> !Young(w, now)
  {}

  lemma MatchInNumbers(ip: uint32, destIp: uint32)
    ensures PacketMatches(ip, destIp) <==> TakesWaiting(ip, destIp)
  {
    assert destIp % 0x1_0000 == 0xFFFF ==> destIp % 0x100 == 0xFF;
  }

  lemma VerdictInNumbers(ip: uint32, port: uint16, protocol: Protocol, now: uint64, w: PendingPacket)
    ensures var verdict := Judge(DeliverPass(ip, port, protocol, now), w);
      && (verdict == Expire <==> !Young(w, now))
      && (verdict == Give <==> Young(w, now) && Wanted(w, ip, port, protocol))
      && (verdict == Keep <==> Young(w, now) && !Wanted(w, ip, port, protocol))
    ensures var verdict := Judge(PurgePass(port, protocol), w);
            verdict == (if IsFor(w, protocol, port) then Purge else Keep)
  {
    StaleInNumbers(w, now);
    MatchInNumbers(ip, w.destIp);
    hide IsStale, PacketMatches, TakesWaiting, Young;
  }

  lemma {:induction false} JudgedIsFilter(q: seq<PendingPacket>, pass: Pass, verdict: Verdict, f: PendingPacket -> bool)
    requires forall w | w in q :: f(w) <==> Judge(pass, w) == verdict
    ensures Judged(q, pass, verdict) == Filter(q, f)
  {
    hide Judge;
    if q != [] {
      JudgedIsFilter(q[..|q| - 1], pass, verdict, f);
    }
  }

  // ---- Delivery ----

  // `queue` is the last 64 of the packets queued before followed by the given ones.
  predicate QueuedBehind(before: seq<Packet>, given: seq<PendingPacket>, queue: seq<Packet>) {
    var all := |before| + |given|;
    && |queue| == (if all < 64 then all else 64)
    && forall j | 0 <= j < |queue| ::
         var k := all - |queue| + j;
         if k < |before| then queue[j] == before[k] else Waits(given[k - |before|], queue[j])
  }

  lemma GivenQueue(v: SocketView, given: seq<PendingPacket>)
    requires |v.queue| <= MAX_QUEUE_SIZE && forall w | w in given :: |w.data| <= PENDING_PAYLOAD_MAX
    ensures QueuedBehind(v.queue, given, v.IncomingAll(ToPackets(given)).queue)
  {
    hide Waits, ToPacket, SocketView.IncomingAll;
    var packets := ToPackets(given);
    forall i | 0 <= i < |given|
      ensures Waits(given[i], packets[i]) && |packets[i].data| <= MAX_PAYLOAD
    {
      assert given[i] in given;
      GivenPacket(given[i]);
    }
    IncomingAllQueue(v, packets);
    Ring.PushAllKeepsNewest(v.queue, packets, MAX_QUEUE_SIZE);
  }

  // What waits for a socket is delivered to it if it is at most 500 ms old; older packets vanish, and
  // the others go on waiting. Everything keeps its order.
  lemma DeliverInFields(s: NetState, fd: int, port: uint16, protocol: Protocol, now: uint64)
    requires WellFormed(s) && fd in s.sockets && |s.sockets[fd].queue| <= 64
    ensures var t := Deliver(s, fd, port, protocol, now);
      var ip := s.sockets[fd].local.GetAddr();
      && t.pending == Filter(s.pending, w => Young(w, now) && !Wanted(w, ip, port, protocol))
      && QueuedBehind(s.sockets[fd].queue, Filter(s.pending, w => Young(w, now) && Wanted(w, ip, port, protocol)),
                      t.sockets[fd].queue)
  {
    hide Judge, Judged, Filter, Young, Wanted, QueuedBehind, SocketView.IncomingAll, ToPackets, SockAddrIn.GetAddr;
    var ip := s.sockets[fd].local.GetAddr();
    var pass := PassFor(s.sockets[fd], port, protocol, now);
    forall w
      ensures Judge(pass, w) == Keep <==> Young(w, now) && !Wanted(w, ip, port, protocol)
      ensures Judge(pass, w) == Give <==> Young(w, now) && Wanted(w, ip, port, protocol)
    {
      VerdictInNumbers(ip, port, protocol, now, w);
    }
    JudgedIsFilter(s.pending, pass, Keep, w => Young(w, now) && !Wanted(w, ip, port, protocol));
    JudgedIsFilter(s.pending, pass, Give, w => Young(w, now) && Wanted(w, ip, port, protocol));
    JudgedIsPart(s.pending, pass, Give);
    GivenQueue(s.sockets[fd], Judged(s.pending, pass, Give));
  }

  // ---- Bind ----

  // 0.0.0.0 stands for the local address, if one is known.
  function AskedAddress(s: NetState, addr: SockAddrIn): uint32 {
    if addr.GetAddr() == 0 && s.localIp != 0 then s.localIp else addr.GetAddr()
  }

  // Port 0 asks for any port; the others are refused while they are lent.
  ghost predicate NoPortFor(pool: PoolView, protocol: Protocol, port: uint16) {
    if port == 0 then forall p: uint16 | 49152 <= p :: Lent(pool, protocol, p) else Lent(pool, protocol, port)
  }

  // The socket before the bind; a bind registers a new one if need be.
  function SocketFor(s: NetState, fd: int, stype: SocketType, protocol: Protocol): SocketView {
    if fd in s.sockets then s.sockets[fd] else NewSocket(stype, protocol)
  }

  lemma AnyAddress(addr: SockAddrIn)
    ensures addr.sinAddr == 0 <==> addr.GetAddr() == 0
  {
    assert BSwap32(0) == 0;
    hide BSwap32;
    BSwap32Involution(addr.sinAddr);
  }

  lemma BindAddressInFields(s: NetState, addr: SockAddrIn)
    ensures BindAddress(s, addr).GetAddr() == AskedAddress(s, addr)
    ensures BindAddress(s, addr) == addr.(sinAddr := BindAddress(s, addr).sinAddr)
    ensures BindAddress(s, addr).GetPort() == addr.GetPort()
  {
    AnyAddress(addr);
    BSwap32Involution(s.localIp);
    hide BSwap16, BSwap32;
  }

  lemma ClaimInFields(pool: PoolView, addr: SockAddrIn, protocol: Protocol)
    requires pool.Valid()
    ensures var (pool', port) := ClaimPort(pool, addr, protocol);
      && (port == 0 <==> NoPortFor(pool, protocol, addr.GetPort()))
      && (port == 0 ==> pool' == pool)
      && (port != 0 ==>
            && (if addr.GetPort() == 0 then 49152 <= port else port == addr.GetPort())
            && !Lent(pool, protocol, port) && (Lent(pool', protocol, port) <==> 49152 <= port)
            && OnlyPort(pool, pool', protocol, port))
  {
    AllocateInNumbers(pool, protocol);
    ReserveInNumbers(pool, addr.GetPort(), protocol);
    RefusedUnchanged(pool, addr.GetPort(), protocol);
    hide PoolView.AllocatePort, PoolView.ReservePort, SockAddrIn.GetPort, Lent, OnlyPort;
  }

  lemma RefusedUnchanged(pool: PoolView, port: uint16, protocol: Protocol)
    ensures !pool.ReservePort(port, protocol).1 ==> pool.ReservePort(port, protocol).0 == pool
  {}

  // The answer of a bind, in the order in which the code looks.
  lemma BindAnswers(s: NetState, fd: int, stype: SocketType, protocol: Protocol, addr: SockAddrIn, now: uint64)
    requires WellFormed(s) && addr.sinFamily == 2
    ensures BindFd(s, fd, stype, protocol, addr, now).1 ==
            if fd !in s.sockets && |s.sockets| == 64 then Some(NoMem)
            else if NoPortFor(s.pool, protocol, addr.GetPort()) then Some(AddrInUse)
            else if fd in s.sockets && s.sockets[fd].state != Created then Some(Inval)
            else None
  {
    BindAddressInFields(s, addr);
    ClaimInFields(s.pool, BindAddress(s, addr), protocol);
    hide BindAddress, ClaimPort, NoPortFor, Deliver, BSwap16, BSwap32, SockAddrIn.GetPort, SockAddrIn.GetAddr, Lent, OnlyPort;
  }

  lemma ClaimedInFields(s: NetState, fd: int, stype: SocketType, protocol: Protocol, addr: SockAddrIn)
    requires WellFormed(s) && addr.sinFamily == 2 && ClaimAndBind(s, fd, stype, protocol, addr).2 == None
    ensures var (t, port, _) := ClaimAndBind(s, fd, stype, protocol, addr);
      var v := t.sockets[fd];
      && v.local.sinFamily == 2 && v.local.GetAddr() == AskedAddress(s, addr) && v.local.GetPort() == port
      && v == SocketFor(s, fd, stype, protocol).(local := v.local, state := Bound)
      && t == s.(sockets := s.sockets[fd := v], pool := t.pool)
      && (if addr.GetPort() == 0 then 49152 <= port else port == addr.GetPort())
      && !Lent(s.pool, protocol, port) && (Lent(t.pool, protocol, port) <==> 49152 <= port)
      && OnlyPort(s.pool, t.pool, protocol, port)
  {
    BindAddressInFields(s, addr);
    var wanted := BindAddress(s, addr);
    ClaimInFields(s.pool, wanted, protocol);
    var port := ClaimPort(s.pool, wanted, protocol).1;
    PortWritten(wanted, port);
    hide BindAddress, AskedAddress, ClaimPort, NoPortFor, BSwap16, BSwap32, SockAddrIn.GetPort, SockAddrIn.GetAddr, Lent, OnlyPort;
  }

  lemma PortWritten(addr: SockAddrIn, port: uint16)
    ensures addr.(sinPort := BSwap16(port)).GetPort() == port
    ensures addr.(sinPort := BSwap16(port)).GetAddr() == addr.GetAddr()
  {
    BSwap16Involution(port);
    hide BSwap16, BSwap32;
  }

  // After a successful bind the socket is at the address asked for, with the port asked for or one of
  // the free ones, and that port is lent. Nothing else changes but its queue and what waits.
  lemma BindInFields(s: NetState, fd: int, stype: SocketType, protocol: Protocol, addr: SockAddrIn, now: uint64)
    requires WellFormed(s) && addr.sinFamily == 2 && BindFd(s, fd, stype, protocol, addr, now).1 == None
    ensures var t := BindFd(s, fd, stype, protocol, addr, now).0;
      && fd in t.sockets
      && var v := t.sockets[fd];
      var port := v.local.GetPort();
      && v.local.sinFamily == 2 && v.local.GetAddr() == AskedAddress(s, addr)
      && v == SocketFor(s, fd, stype, protocol).(local := v.local, state := Bound, queue := v.queue, signalled := v.signalled)
      && t == s.(sockets := s.sockets[fd := v], pool := t.pool, pending := t.pending)
      && (if addr.GetPort() == 0 then 49152 <= port else port == addr.GetPort())
      && !Lent(s.pool, protocol, port) && (Lent(t.pool, protocol, port) <==> 49152 <= port)
      && OnlyPort(s.pool, t.pool, protocol, port)
  {
    ClaimedInFields(s, fd, stype, protocol, addr);
    BoundIsWellFormed(s, fd, stype, protocol, addr);
    hide ClaimAndBind, Deliver, IsEphemeral, AskedAddress, SocketFor, SockAddrIn.GetPort, SockAddrIn.GetAddr, Lent, OnlyPort;
    var (bound, port, _) := ClaimAndBind(s, fd, stype, protocol, addr);
    DeliverTouches(bound, fd, port, protocol, now);
    var t := Deliver(bound, fd, port, protocol, now);
    assert t.sockets == s.sockets[fd := t.sockets[fd]];
  }

  lemma DeliverTouches(s: NetState, fd: int, port: uint16, protocol: Protocol, now: uint64)
    requires WellFormed(s) && fd in s.sockets
    ensures var t := Deliver(s, fd, port, protocol, now);
      && fd in t.sockets
      && var v := t.sockets[fd];
      && v == s.sockets[fd].(queue := v.queue, signalled := v.signalled)
      && t == s.(sockets := s.sockets[fd := v], pending := t.pending)
  {
    hide Judge, Judged, PassFor, Ring.PushAll;
    var given := Judged(s.pending, PassFor(s.sockets[fd], port, protocol, now), Give);
    JudgedIsPart(s.pending, PassFor(s.sockets[fd], port, protocol, now), Give);
    forall p | p in ToPackets(given)
      ensures |p.data| <= MAX_PAYLOAD
    {
      var i :| 0 <= i < |given| && p == ToPackets(given)[i];
      assert given[i] in given;
    }
    IncomingAllQueue(s.sockets[fd], ToPackets(given));
  }

  // What such a bind does with the waiting packets: those at most 500 ms old that are for the protocol and
  // port and reach the address are queued, in order; older ones vanish; the others go on waiting.
  lemma BindDelivers(s: NetState, fd: int, stype: SocketType, protocol: Protocol, addr: SockAddrIn, now: uint64)
    requires WellFormed(s) && addr.sinFamily == 2 && BindFd(s, fd, stype, protocol, addr, now).1 == None
    requires |SocketFor(s, fd, stype, protocol).queue| <= 64
    ensures fd in BindFd(s, fd, stype, protocol, addr, now).0.sockets
    ensures var t := BindFd(s, fd, stype, protocol, addr, now).0;
      var ip, port := AskedAddress(s, addr), t.sockets[fd].local.GetPort();
      && t.pending == Filter(s.pending, w => Young(w, now) && !Wanted(w, ip, port, protocol))
      && QueuedBehind(SocketFor(s, fd, stype, protocol).queue,
                      Filter(s.pending, w => Young(w, now) && Wanted(w, ip, port, protocol)), t.sockets[fd].queue)
  {
    ClaimedInFields(s, fd, stype, protocol, addr);
    BoundIsWellFormed(s, fd, stype, protocol, addr);
    hide ClaimAndBind, Deliver, AskedAddress, SockAddrIn.GetPort, SockAddrIn.GetAddr, Lent, OnlyPort, Filter, QueuedBehind, Young, Wanted;
    var (bound, port, _) := ClaimAndBind(s, fd, stype, protocol, addr);
    DeliverInFields(bound, fd, port, protocol, now);
    DeliverTouches(bound, fd, port, protocol, now);
  }

  // So a datagram to the address of the socket and its port arrives there, if nobody else may receive it:
  // after a bind to 0.0.0.0 with a known local address, this is one to the local address.
  lemma BoundHears(s: NetState, fd: int, stype: SocketType, protocol: Protocol, addr: SockAddrIn, now: uint64,
                   d: Datagram, later: uint64, order: seq<int>)
    requires WellFormed(s) && addr.sinFamily == 2 && BindFd(s, fd, stype, protocol, addr, now).1 == None
    requires var t := BindFd(s, fd, stype, protocol, addr, now).0;
      && fd in t.sockets && IsOrder(order, t.sockets.Keys) && Receivers(t, d) <= {fd}
      && d.protocol == t.sockets[fd].protocol && d.destPort == t.sockets[fd].local.GetPort()
    requires d.destIp == AskedAddress(s, addr) && (s.localIp == 0 || d.sourceIp != s.localIp)
    ensures BindFd(s, fd, stype, protocol, addr, now).0.pool.Valid()
    ensures var t := BindFd(s, fd, stype, protocol, addr, now).0;
            var u := Step(t, OpRoute(d, later, order));
            fd in u.sockets && TookIn(t.sockets[fd], u.sockets[fd], d)
  {
    BindInFields(s, fd, stype, protocol, addr, now);
    StepKeepsWellFormed(s, OpBind(fd, stype, protocol, addr, now));
    hide BindFd, AskedAddress, SocketFor, SockAddrIn.GetPort, SockAddrIn.GetAddr, Lent, OnlyPort, TookIn, Step, Route;
    var t := BindFd(s, fd, stype, protocol, addr, now).0;
    assert Reachable(t.sockets[fd], d);
    assert fd in Receivers(t, d);
    var reached := RoutedExactly(t, d, later, order);
    assert reached == {fd};
  }

  // ---- The implicit bind ----

  // A socket without a proxy gets the local address and a free port; one that has a proxy is left alone.
  lemma AutoBindInFields(s: NetState, fd: int, stype: SocketType, protocol: Protocol)
    requires WellFormed(s)
    ensures var (t, error) := AutoBind(s, fd, stype, protocol);
      && error == (if fd in s.sockets then None
                   else if |s.sockets| == 64 then Some(NoMem)
                   else if NoPortFor(s.pool, protocol, 0) then Some(AddrInUse)
                   else None)
      && (fd in s.sockets || error == Some(NoMem) ==> t == s)
      && (error == Some(AddrInUse) ==> t == s.(sockets := s.sockets[fd := NewSocket(stype, protocol)]))
      && (fd !in s.sockets && error == None ==>
            && fd in t.sockets
            && var v := t.sockets[fd];
            var port := v.local.GetPort();
            && v.local.sinFamily == 2 && v.local.GetAddr() == s.localIp && 49152 <= port
            && v == NewSocket(stype, protocol).(local := v.local, state := Bound)
            && t == s.(sockets := s.sockets[fd := v], pool := t.pool)
            && !Lent(s.pool, protocol, port) && Lent(t.pool, protocol, port) && OnlyPort(s.pool, t.pool, protocol, port))
  {
    AllocateInNumbers(s.pool, protocol);
    var port := s.pool.AllocatePort(protocol).1;
    SockAddrRoundTrip(s.localIp, port);
    hide PoolView.AllocatePort, BSwap16, BSwap32, SockAddrIn.GetPort, SockAddrIn.GetAddr, Lent, OnlyPort;
  }

  // ---- Close ----

  // Another registered socket has this protocol and port.
  predicate SharedEndpoint(s: NetState, fd: int, protocol: Protocol, port: uint16) {
    exists other | other in s.sockets ::
      other != fd && s.sockets[other].protocol == protocol && s.sockets[other].local.GetPort() == port
  }

  // Closing a socket purges what waits for its endpoint unless another socket shares it or the port is 0;
  // the rest keep waiting in order, whatever their age. The port is free afterwards, and no other one.
  lemma CloseInFields(s: NetState, fd: int)
    requires fd in s.sockets
    ensures var t, v := Close(s, fd), s.sockets[fd];
      var protocol, port := v.protocol, v.local.GetPort();
      && t.sockets == s.sockets - {fd} && t.localIp == s.localIp
      && t.pending == (if port != 0 && !SharedEndpoint(s, fd, protocol, port)
                       then Filter(s.pending, w => !IsFor(w, protocol, port)) else s.pending)
      && (port == 0 ==> t.pool == s.pool)
      && (port != 0 ==> !Lent(t.pool, protocol, port) && OnlyPort(s.pool, t.pool, protocol, port))
  {
    var v := s.sockets[fd];
    var protocol, port := v.protocol, v.local.GetPort();
    TwinIsShared(s, fd, protocol, port);
    ReleaseInNumbers(s.pool, port, protocol);
    hide Judge, Judged, HasTwin, SharedEndpoint, PoolView.ReleasePort, SockAddrIn.GetPort, IsFor, Lent, OnlyPort;
    forall w
      ensures Judge(PurgePass(port, protocol), w) == Keep <==> !IsFor(w, protocol, port)
    {
      VerdictInNumbers(0, port, protocol, 0, w);
    }
    JudgedIsFilter(s.pending, PurgePass(port, protocol), Keep, w => !IsFor(w, protocol, port));
  }

  lemma TwinIsShared(s: NetState, fd: int, protocol: Protocol, port: uint16)
    ensures HasTwin(s.sockets, fd, port, protocol) <==> SharedEndpoint(s, fd, protocol, port)
  {
    hide SockAddrIn.GetPort;
    if SharedEndpoint(s, fd, protocol, port) {
      var other :| other in s.sockets && other != fd && s.sockets[other].protocol == protocol
                && s.sockets[other].local.GetPort() == port;
      assert OnPort(s.sockets[other], port, protocol);
    }
  }

  // A waiting packet is gone after a close exactly when it is for the endpoint of the closed socket, that
  // endpoint has a port, and nobody else is there.
  lemma GoneExactly(s: NetState, fd: int, w: PendingPacket)
    requires fd in s.sockets && w in s.pending
    ensures var v := s.sockets[fd];
      w !in Close(s, fd).pending <==>
        && v.local.GetPort() != 0 && w.protocol == v.protocol && w.destPort == v.local.GetPort()
        && !SharedEndpoint(s, fd, v.protocol, v.local.GetPort())
  {
    CloseInFields(s, fd);
    hide Close, Filter, SharedEndpoint, SockAddrIn.GetPort;
    var v := s.sockets[fd];
    FilterMembers(s.pending, w => !IsFor(w, v.protocol, v.local.GetPort()));
  }

  // ---- Fates ----

  lemma {:induction false} SettledAt(l: seq<L.Entry>, pass: Pass, fd: int, i: nat)
    requires i < |l|
    ensures |L.SettleAll(l, pass, fd)| == |l| && L.SettleAll(l, pass, fd)[i] == L.Settle(l[i], pass, fd)
  {
    L.SettleAllExtends(l, pass, fd);
    L.SettleAllExtends(l[..|l| - 1], pass, fd);
    if i < |l| - 1 {
      SettledAt(l[..|l| - 1], pass, fd, i);
    }
  }

  // The fates that a close gives: PurgedAtClose to exactly the packets of the closed endpoint.
  lemma CloseFates(l: seq<L.Entry>, s: NetState, fd: int, i: nat)
    requires WellFormed(s) && fd in s.sockets && i < |l| && l[i].fate == L.Waiting
    ensures |L.LedgerStep(l, s, OpClose(fd))| == |l|
    ensures var v, w, fate := s.sockets[fd], l[i].packet, L.LedgerStep(l, s, OpClose(fd))[i].fate;
      var port := v.local.GetPort();
      var purged := port != 0 && w.protocol == v.protocol && w.destPort == port && !SharedEndpoint(s, fd, v.protocol, port);
      fate == if purged then L.PurgedAtClose else L.Waiting
  {
    var v := s.sockets[fd];
    var port := v.local.GetPort();
    TwinIsShared(s, fd, v.protocol, port);
    VerdictInNumbers(0, port, v.protocol, 0, l[i].packet);
    SettledAt(l, PurgePass(port, v.protocol), fd, i);
    hide Judge, L.SettleAll, HasTwin, SharedEndpoint, SockAddrIn.GetPort;
  }

  // The fates that a successful bind gives, by the age of the packet and what it is for.
  lemma BindFates(l: seq<L.Entry>, s: NetState, fd: int, stype: SocketType, protocol: Protocol, addr: SockAddrIn,
                  now: uint64, i: nat)
    requires WellFormed(s) && addr.sinFamily == 2 && i < |l| && l[i].fate == L.Waiting
    requires BindFd(s, fd, stype, protocol, addr, now).1 == None
    ensures fd in BindFd(s, fd, stype, protocol, addr, now).0.sockets
    ensures var m := L.LedgerStep(l, s, OpBind(fd, stype, protocol, addr, now));
      var ip, port := AskedAddress(s, addr), BindFd(s, fd, stype, protocol, addr, now).0.sockets[fd].local.GetPort();
      && |m| == |l|
      && m[i].fate == (if !Young(l[i].packet, now) then L.DroppedStale
                       else if Wanted(l[i].packet, ip, port, protocol) then L.DeliveredTo(fd)
                       else L.Waiting)
  {
    ClaimedInFields(s, fd, stype, protocol, addr);
    BoundIsWellFormed(s, fd, stype, protocol, addr);
    hide ClaimAndBind, Deliver, AskedAddress, SockAddrIn.GetPort, SockAddrIn.GetAddr, Lent, OnlyPort, Young, Wanted, Judge, L.SettleAll;
    var (bound, port, _) := ClaimAndBind(s, fd, stype, protocol, addr);
    DeliverTouches(bound, fd, port, protocol, now);
    VerdictInNumbers(AskedAddress(s, addr), port, protocol, now, l[i].packet);
    SettledAt(l, PassFor(bound.sockets[fd], port, protocol, now), fd, i);
  }
}
