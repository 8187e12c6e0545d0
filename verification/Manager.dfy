/** The proxy-socket manager: the registry, the routing, and the ring of packets that wait for a bind. */
module Manager {
  import opened BsdTypes
  import opened ProxySocket
  import opened PortPool
  import N = Network
  import Ring

  lemma EmptyView(ring: seq<N.PendingPacket>, head: nat)
    requires head < |ring|
    ensures Ring.View(ring, head, 0) == []
  {}

  class ProxySocketManager {
    var sockets: map<int, ProxySocket>
    var localIp: uint32
    const portPool: EphemeralPortPool
    const pendingRing: array<N.PendingPacket>
    var pendingHead: nat
    var pendingTail: nat
    var pendingCount: nat

    ghost predicate Valid()
      reads this, portPool, Sockets()
    {
      && pendingRing.Length == N.MAX_PENDING
      && Ring.WellFormed(N.MAX_PENDING, pendingHead, pendingTail, pendingCount)
      && portPool.Valid()
      && (forall fd | fd in sockets :: sockets[fd].Valid())
      && (forall fd, other | fd in sockets && other in sockets && fd != other ::
            sockets[fd] != sockets[other] && sockets[fd].rxRing != sockets[other].rxRing)
    }

    ghost function Sockets(): set<ProxySocket>
      reads this
    {
      set fd | fd in sockets :: sockets[fd]
    }

    ghost function Rings(): set<object>
      reads this
    {
      set fd | fd in sockets :: sockets[fd].rxRing
    }

    ghost function Repr(): set<object>
      reads this
    {
      {this, pendingRing} + portPool.Repr() + Sockets() + Rings()
    }

    ghost function SocketViews(): map<int, SocketView>
      requires Valid()
      reads this, portPool, Sockets(), Repr()
    {
      map fd | fd in sockets :: sockets[fd].View()
    }

    ghost function Pending(): seq<N.PendingPacket>
      requires Valid()
      reads this, portPool, Sockets(), Repr()
    {
      Ring.View(pendingRing[..], pendingHead, pendingCount)
    }

    ghost function View(): N.NetState
      requires Valid()
      reads this, portPool, Sockets(), Repr()
    {
      N.NetState(SocketViews(), Pending(), localIp, portPool.View())
    }

    constructor ()
      ensures Valid() && fresh(Repr()) && View() == N.EMPTY_NET
    {
      sockets := map[];
      localIp := 0;
      portPool := new EphemeralPortPool();
      pendingRing := new N.PendingPacket[N.MAX_PENDING](_ => N.PendingPacket(0, 0, 0, 0, Unspecified, 0, []));
      pendingHead, pendingTail, pendingCount := 0, 0, 0;
    }

    method CreateProxySocket(fd: int, stype: SocketType, protocol: Protocol) returns (socket: ProxySocket?)
      requires Valid()
      modifies this
      ensures Valid() && fresh(Repr() - old(Repr()))
      ensures sockets == if socket == null then old(sockets) else old(sockets)[fd := socket]
      ensures View() == N.Create(old(View()), fd, stype, protocol)
      ensures socket == null <==> fd !in sockets
      ensures socket != null ==> sockets[fd] == socket
      ensures socket == null <==> fd !in old(sockets) && |old(sockets)| >= 64
    {
      hide Ring.View, ProxySocket.View;
      if fd in sockets {
        return sockets[fd];
      }
      ghost var before := View();
      assert before.sockets.Keys == sockets.Keys && |before.sockets.Keys| == |before.sockets|;
      if |sockets| >= N.MAX_PROXY_SOCKETS {
        return null;
      }
      socket := new ProxySocket(stype, protocol);
      assert Valid() && View() == before;
      Register(fd, socket);
    }

    method Register(fd: int, socket: ProxySocket)
      requires Valid() && fd !in sockets
      requires socket.Valid() && socket !in Sockets() && socket.rxRing !in Rings()
      modifies this`sockets
      ensures Valid() && sockets == old(sockets)[fd := socket]
      ensures Repr() <= old(Repr()) + {socket, socket.rxRing}
      ensures View() == old(View()).(sockets := old(SocketViews())[fd := socket.View()])
    {
      hide Ring.View, ProxySocket.View;
      ghost var before := SocketViews();
      sockets := sockets[fd := socket];
      assert Sockets() <= old(Sockets()) + {socket} && Rings() <= old(Rings()) + {socket.rxRing};
      assert forall other | other in before :: sockets[other].View() == before[other];
      assert SocketViews() == before[fd := socket.View()];
    }

    method GetProxySocket(fd: int) returns (socket: ProxySocket?)
      requires Valid()
      ensures socket != null <==> fd in SocketViews()
      ensures socket != null ==> socket.Valid() && socket.View() == SocketViews()[fd]
    {
      return if fd in sockets then sockets[fd] else null;
    }

    method FindAllSocketsByDestination(destIp: uint32, destPort: uint16, protocol: Protocol,
                                       order: seq<int>, max: nat) returns (targets: seq<int>)
      requires Valid() && N.IsOrder(order, sockets.Keys)
      ensures targets == N.FindTargets(SocketViews(), destIp, destPort, protocol, order, max)
    {
      if max == 0 {
        return [];
      }
      var isMulticast := N.IsMulticast(destIp);
      var isBroadcast := destIp == N.LIMITED_BROADCAST || N.IsBroadcastDestination(destIp) || isMulticast;

      if !isBroadcast {
        targets := FindUnicast(destIp, destPort, protocol, order);
      } else {
        targets := FindFanOut(destIp, destPort, protocol, order, max);
      }
    }

    method FindFanOut(destIp: uint32, destPort: uint16, protocol: Protocol, order: seq<int>, max: nat)
      returns (targets: seq<int>)
      requires Valid() && N.IsOrder(order, sockets.Keys) && N.IsFanOut(destIp) && max > 0
      ensures targets == N.FindTargets(SocketViews(), destIp, destPort, protocol, order, max)
    {
      hide BSwap16, BSwap32, SockAddrIn.GetAddr, SockAddrIn.GetPort;
      var isMulticast := N.IsMulticast(destIp);
      targets := [];
      ghost var eligible := N.EligibleFds(SocketViews(), destIp, destPort, protocol);
      for i := 0 to |order|
        invariant |targets| <= max
        invariant targets + N.Collect(order[i..], eligible, max - |targets|) == N.Collect(order, eligible, max)
      {
        if |targets| >= max {
          break;
        }
        var fd := order[i];
        assert fd in sockets.Keys;
        var socket := sockets[fd];
        assert order[i..][0] == fd && order[i..][1..] == order[i + 1..];
        if socket.protocol != protocol || socket.localAddr.GetPort() != destPort {
          continue;
        }
        var local := socket.localAddr.GetAddr();
        if local == 0 || destIp == N.LIMITED_BROADCAST || isMulticast || local == destIp
           || HighHalf(local) == HighHalf(destIp) {
          targets := targets + [fd];
        }
      }
    }

    method FindUnicast(destIp: uint32, destPort: uint16, protocol: Protocol, order: seq<int>)
      returns (targets: seq<int>)
      requires Valid() && N.IsOrder(order, sockets.Keys) && !N.IsFanOut(destIp)
      ensures forall max: nat | max > 0 :: targets == N.FindTargets(SocketViews(), destIp, destPort, protocol, order, max)
    {
      hide BSwap16, BSwap32;
      var wildcard: Option<int> := None;
      ghost var exact := N.FdsBoundTo(SocketViews(), destIp, destPort, protocol);
      ghost var wild := N.FdsBoundTo(SocketViews(), 0, destPort, protocol);
      for i := 0 to |order|
        invariant N.First(order, exact) == N.First(order[i..], exact)
        invariant N.First(order, wild) == if wildcard.Some? then wildcard else N.First(order[i..], wild)
      {
        var fd := order[i];
        assert fd in sockets.Keys;
        var socket := sockets[fd];
        assert order[i..][0] == fd && order[i..][1..] == order[i + 1..];
        if socket.protocol != protocol || socket.localAddr.GetPort() != destPort {
          continue;
        }
        var local := socket.localAddr.GetAddr();
        if local == destIp {
          return [fd];
        } else if local == 0 {
          if wildcard == None {
            wildcard := Some(fd);
          }
        }
      }
      match wildcard {
        case Some(fd) => return [fd];
        case None => return [];
      }
    }

    method RouteIncomingData(d: N.Datagram, now: uint64, order: seq<int>) returns (handled: bool)
      requires Valid() && N.IsOrder(order, sockets.Keys)
      modifies Repr()
      ensures Valid() && Repr() == old(Repr()) && sockets == old(sockets)
      ensures (View(), handled) == old(N.Route(View(), d, now, order))
      ensures old(localIp) != 0 && d.sourceIp == old(localIp) ==> handled && View() == old(View())
    {
      hide ProxySocket.View, Ring.View, Ring.WellFormed, N.FindTargets, N.Fan, Ring.PushBounded, N.ToPending;
      if localIp != 0 && d.sourceIp == localIp {
        return true;
      }
      var targets := FindAllSocketsByDestination(d.destIp, d.destPort, d.protocol, order, N.MAX_TARGETS);
      if targets == [] {
        if d.protocol == Udp {
          return false;
        }
        Enqueue(N.ToPending(d, now));
        return false;
      }
      N.TargetsAreEligible(SocketViews(), d.destIp, d.destPort, d.protocol, order);
      DeliverToAll(targets, d);
      return true;
    }

    method Enqueue(packet: N.PendingPacket)
      requires Valid()
      modifies this`pendingHead, this`pendingTail, this`pendingCount, pendingRing
      ensures Valid()
      ensures View() == old(View()).(pending := Ring.PushBounded(old(Pending()), packet, N.MAX_PENDING))
    {
      hide ProxySocket.View, Ring.View, Ring.WellFormed;
      PendingSize();
      if pendingCount >= N.MAX_PENDING {
        ForgetOldest();
      }
      AppendPending(packet);
    }

    lemma PendingSize()
      requires Valid()
      ensures |Pending()| == pendingCount <= N.MAX_PENDING
    {}

    method ForgetOldest()
      requires Valid() && pendingCount > 0
      modifies this`pendingHead, this`pendingCount
      ensures Valid() && pendingCount == old(pendingCount) - 1
      ensures View() == old(View()).(pending := old(Pending())[1..])
    {
      hide ProxySocket.View;
      ghost var before := View();
      Ring.DropFront(pendingRing[..], pendingHead, pendingCount);
      pendingHead := (pendingHead + 1) % N.MAX_PENDING;
      pendingCount := pendingCount - 1;
      assert SocketViews() == before.sockets;
    }

    method AppendPending(packet: N.PendingPacket)
      requires Valid() && pendingCount < N.MAX_PENDING
      modifies this`pendingTail, this`pendingCount, pendingRing
      ensures Valid()
      ensures View() == old(View()).(pending := old(Pending()) + [packet])
    {
      hide ProxySocket.View;
      ghost var before := View();
      Ring.WriteBack(pendingRing[..], pendingHead, pendingCount, packet);
      pendingRing[pendingTail] := packet;
      pendingTail := (pendingTail + 1) % N.MAX_PENDING;
      pendingCount := pendingCount + 1;
      assert SocketViews() == before.sockets && portPool.View() == before.pool;
    }

    // Hands one packet to one registered socket.
    method DeliverTo(socket: ProxySocket, ghost fd: int, data: seq<byte>, from: SockAddrIn)
      requires Valid() && fd in sockets && sockets[fd] == socket
      modifies socket, socket.rxRing
      ensures Valid()
      ensures View() == old(View()).(sockets := old(SocketViews())[fd := old(sockets[fd].View()).Incoming(data, from)])
    {
      ghost var before := SocketViews();
      socket.IncomingData(data, from);
      forall other | other in sockets && other != fd
        ensures sockets[other].Valid() && sockets[other].View() == before[other]
      {
        assert sockets[other] != sockets[fd] && sockets[other].rxRing != sockets[fd].rxRing;
      }
      assert SocketViews() == before[fd := sockets[fd].View()];
    }

    method DeliverToAll(targets: seq<int>, d: N.Datagram)
      requires Valid()
      requires forall fd | fd in targets :: fd in sockets
      requires forall i, j | 0 <= i < j < |targets| :: targets[i] != targets[j]
      modifies Sockets(), Rings()
      ensures Valid()
      ensures View() == old(View()).(sockets := N.Fan(old(SocketViews()), targets, d))
    {
      hide N.Fan, MakeSockAddr, Ring.View, Ring.WellFormed;
      ghost var before := View();
      N.FanNobody(before.sockets, d);
      for i := 0 to |targets|
        invariant Valid()
        invariant View() == before.(sockets := N.Fan(before.sockets, targets[..i], d))
      {
        assert targets[i] in targets && targets[i] !in targets[..i];
        assert targets[..i + 1] == targets[..i] + [targets[i]];
        N.FanOneMore(before.sockets, targets[..i], targets[i], d);
        DeliverTo(sockets[targets[i]], targets[i], d.data, MakeSockAddr(d.sourceIp, d.sourcePort));
      }
      assert targets[..|targets|] == targets;
    }

    method CopySlot(readIdx: nat, writeIdx: nat)
      requires Valid() && readIdx < N.MAX_PENDING && writeIdx < N.MAX_PENDING
      modifies pendingRing
      ensures Valid() && SocketViews() == old(SocketViews())
      ensures pendingRing[..] == old(pendingRing[..])[writeIdx := old(pendingRing[readIdx])]
    {
      if writeIdx != readIdx {
        pendingRing[writeIdx] := pendingRing[readIdx];
      }
    }

    // The end of a walk: the kept packets are what is pending now.
    method CommitWalk(writeIdx: nat, kept: nat)
      requires Valid() && kept <= N.MAX_PENDING && writeIdx == Ring.Slot(pendingHead, kept, N.MAX_PENDING)
      modifies this`pendingTail, this`pendingCount
      ensures Valid()
      ensures View() == old(View()).(pending := Ring.View(pendingRing[..], pendingHead, kept))
    {
      hide Ring.View, ProxySocket.View;
      ghost var views := SocketViews();
      pendingTail := writeIdx;
      pendingCount := kept;
      assert SocketViews() == views;
    }

    // Called after a bind, with the socket that was bound (registered as `fd`).
    method DeliverPendingPackets(socket: ProxySocket?, ghost fd: int, port: uint16, protocol: Protocol, now: uint64)
      requires Valid()
      requires socket != null ==> fd in sockets && sockets[fd] == socket
      modifies Repr()
      ensures Valid() && Repr() == old(Repr()) && sockets == old(sockets)
      ensures View() == if socket == null then old(View()) else N.Deliver(old(View()), fd, port, protocol, now)
    {
      if socket == null {
        return;
      }
      hide N.Judged, SocketView.IncomingAll, N.PassFor, Ring.View, Ring.Slot, ProxySocket.View;
      var writeIdx, kept := GiveMatching(socket, fd, port, protocol, now);
      CommitWalk(writeIdx, kept);
    }

    // The walk itself, in arrival order.
    method GiveMatching(socket: ProxySocket, ghost fd: int, port: uint16, protocol: Protocol, now: uint64)
      returns (writeIdx: nat, kept: nat)
      requires Valid() && fd in sockets && sockets[fd] == socket
      modifies pendingRing, socket, socket.rxRing
      ensures Valid() && kept <= N.MAX_PENDING && writeIdx == Ring.Slot(pendingHead, kept, N.MAX_PENDING)
      ensures var after := N.Deliver(old(View()), fd, port, protocol, now);
              Ring.View(pendingRing[..], pendingHead, kept) == after.pending && SocketViews() == after.sockets
    {
      hide N.Walk, N.Judged, SocketView.IncomingAll, SockAddrIn.GetAddr, Ring.Slot;
      ghost var before := View();
      assert |before.pending| == pendingCount;
      assert before.sockets[fd].local == socket.localAddr;
      hide ProxySocket.View;
      var pass := N.DeliverPass(socket.localAddr.GetAddr(), port, protocol, now);
      var readIdx := pendingHead;
      writeIdx := pendingHead;
      var remaining := pendingCount;
      kept := 0;
      ghost var k := 0;
      N.WalkStart(before, fd, pass, pendingRing[..], pendingHead);
      Ring.SlotAtStart(pendingHead, N.MAX_PENDING);
      hide Ring.View, Ring.WellFormed;
      while remaining > 0
        invariant Valid() && k + remaining == pendingCount && kept <= k
        invariant readIdx < N.MAX_PENDING && writeIdx < N.MAX_PENDING
        invariant readIdx == Ring.Slot(pendingHead, k, N.MAX_PENDING)
        invariant writeIdx == Ring.Slot(pendingHead, kept, N.MAX_PENDING)
        invariant N.Walk(before, fd, pass, pendingRing[..], pendingHead, SocketViews(), k, kept)
      {
        N.WalkReads(before, fd, pass, pendingRing[..], pendingHead, SocketViews(), k, kept);
        writeIdx, kept := GiveOrKeep(socket, fd, before, pass, readIdx, writeIdx, k, kept);
        Ring.NextSlot(pendingHead, k, N.MAX_PENDING);
        readIdx := (readIdx + 1) % N.MAX_PENDING;
        remaining := remaining - 1;
        k := k + 1;
      }
      N.WalkDone(before, fd, pass, pendingRing[..], pendingHead, SocketViews(), kept);
    }

    // Decides about the packet in slot readIdx, the k-th of the walk.
    method GiveOrKeep(socket: ProxySocket, ghost fd: int, ghost before: N.NetState, pass: N.Pass,
                      readIdx: nat, writeIdx: nat, ghost k: nat, kept: nat) returns (writeIdx': nat, kept': nat)
      requires Valid() && fd in sockets && sockets[fd] == socket && fd in before.sockets && pass.DeliverPass?
      requires kept <= k < |before.pending| && readIdx < N.MAX_PENDING && writeIdx < N.MAX_PENDING
      requires k < N.MAX_PENDING && pendingRing[readIdx] == before.pending[k]
      requires writeIdx == Ring.Slot(pendingHead, kept, N.MAX_PENDING)
      requires N.Walk(before, fd, pass, pendingRing[..], pendingHead, SocketViews(), k, kept)
      modifies pendingRing, socket, socket.rxRing
      ensures Valid() && kept' <= k + 1 && writeIdx' < N.MAX_PENDING
      ensures writeIdx' == Ring.Slot(pendingHead, kept', N.MAX_PENDING)
      ensures N.Walk(before, fd, pass, pendingRing[..], pendingHead, SocketViews(), k + 1, kept')
    {
      hide N.Walk, SocketView.Incoming, MakeSockAddr, N.PacketMatches, N.IsStale;
      hide Ring.Slot, Ring.View, Ring.WellFormed, ProxySocket.View;
      writeIdx', kept' := writeIdx, kept;
      var pkt := pendingRing[readIdx];
      var isStale := N.IsStale(pkt, pass.now);
      if !isStale && pkt.protocol == pass.protocol && pkt.destPort == pass.port && N.PacketMatches(pass.localIp, pkt.destIp) {
        N.WalkGive(before, fd, pass, pendingRing[..], pendingHead, SocketViews(), k, kept);
        DeliverTo(socket, fd, pkt.data, MakeSockAddr(pkt.sourceIp, pkt.sourcePort));
      } else if !isStale {
        N.WalkKeep(before, fd, pass, pendingRing[..], pendingHead, SocketViews(), k, kept);
        CopySlot(readIdx, writeIdx);
        Ring.NextSlot(pendingHead, kept, N.MAX_PENDING);
        writeIdx', kept' := (writeIdx + 1) % N.MAX_PENDING, kept + 1;
      } else {
        N.WalkDrop(before, fd, pass, pendingRing[..], pendingHead, SocketViews(), k, kept);
      }
    }

    // Is there another registered socket with this protocol and local port?
    method FindTwin(fd: int, port: uint16, protocol: Protocol, order: seq<int>, ghost views: map<int, SocketView>)
      returns (found: bool)
      requires Valid() && N.IsOrder(order, sockets.Keys) && views == SocketViews()
      ensures found <==> N.HasTwin(views, fd, port, protocol)
    {
      hide BSwap16, Ring.View;
      for i := 0 to |order|
        invariant forall j | 0 <= j < i :: order[j] != fd ==> !N.OnPort(views[order[j]], port, protocol)
      {
        var other := order[i];
        assert other in sockets.Keys;
        if other == fd {
          continue;
        }
        if sockets[other].protocol != protocol {
          continue;
        }
        if sockets[other].localAddr.GetPort() == port {
          assert N.OnPort(views[other], port, protocol);
          return true;
        }
      }
      forall other | other in views && other != fd
        ensures !N.OnPort(views[other], port, protocol)
      {
        assert other in sockets.Keys && other in order;
      }
      return false;
    }

    // Compacts the ring to the packets that are not for this protocol and port.
    method PurgeMatching(ghost fd: int, port: uint16, protocol: Protocol) returns (writeIdx: nat, kept: nat)
      requires Valid() && fd in sockets
      modifies pendingRing
      ensures Valid() && kept <= N.MAX_PENDING && writeIdx == Ring.Slot(pendingHead, kept, N.MAX_PENDING)
      ensures SocketViews() == old(SocketViews())
      ensures Ring.View(pendingRing[..], pendingHead, kept) == N.Judged(old(Pending()), N.PurgePass(port, protocol), N.Keep)
    {
      hide N.Walk, N.Judged, SocketView.IncomingAll, Ring.Slot, ProxySocket.View;
      ghost var before := View();
      assert |before.pending| == pendingCount;
      ghost var pass := N.PurgePass(port, protocol);
      var readIdx := pendingHead;
      writeIdx := pendingHead;
      var remaining := pendingCount;
      kept := 0;
      ghost var k := 0;
      N.WalkStart(before, fd, pass, pendingRing[..], pendingHead);
      Ring.SlotAtStart(pendingHead, N.MAX_PENDING);
      hide Ring.View, Ring.WellFormed;
      while remaining > 0
        invariant Valid() && k + remaining == pendingCount && kept <= k
        invariant readIdx < N.MAX_PENDING && writeIdx < N.MAX_PENDING
        invariant readIdx == Ring.Slot(pendingHead, k, N.MAX_PENDING)
        invariant writeIdx == Ring.Slot(pendingHead, kept, N.MAX_PENDING)
        invariant SocketViews() == before.sockets
        invariant N.Walk(before, fd, pass, pendingRing[..], pendingHead, before.sockets, k, kept)
      {
        N.WalkReads(before, fd, pass, pendingRing[..], pendingHead, before.sockets, k, kept);
        var pkt := pendingRing[readIdx];
        var shouldPurge := pkt.protocol == protocol && pkt.destPort == port;
        if !shouldPurge {
          N.WalkKeep(before, fd, pass, pendingRing[..], pendingHead, before.sockets, k, kept);
          CopySlot(readIdx, writeIdx);
          Ring.NextSlot(pendingHead, kept, N.MAX_PENDING);
          writeIdx := (writeIdx + 1) % N.MAX_PENDING;
          kept := kept + 1;
        } else {
          N.WalkDrop(before, fd, pass, pendingRing[..], pendingHead, before.sockets, k, kept);
        }
        Ring.NextSlot(pendingHead, k, N.MAX_PENDING);
        readIdx := (readIdx + 1) % N.MAX_PENDING;
        remaining := remaining - 1;
        k := k + 1;
      }
      N.WalkDone(before, fd, pass, pendingRing[..], pendingHead, before.sockets, kept);
    }

    // Closes a registered socket; it stays registered.
    method CloseSocket(fd: int)
      requires Valid() && fd in sockets
      modifies sockets[fd]
      ensures Valid()
      ensures View() == old(View()).(sockets := old(SocketViews())[fd := old(sockets[fd].View()).Close()])
    {
      hide SocketView.Close;
      ghost var before := SocketViews();
      sockets[fd].Close();
      forall other | other in sockets && other != fd
        ensures sockets[other].Valid() && sockets[other].View() == before[other]
      {
        assert sockets[other] != sockets[fd] && sockets[other].rxRing != sockets[fd].rxRing;
      }
      assert SocketViews() == before[fd := sockets[fd].View()];
    }

    method ReleasePort(port: uint16, protocol: Protocol)
      requires Valid()
      modifies portPool.Repr()
      ensures Valid()
      ensures View() == old(View()).(pool := old(portPool.View()).ReleasePort(port, protocol))
    {
      hide PoolView.ReleasePort;
      ghost var before := View();
      portPool.ReleasePort(port, protocol);
      assert SocketViews() == before.sockets && Pending() == before.pending;
    }

    method AllocatePort(protocol: Protocol) returns (port: uint16)
      requires Valid()
      modifies portPool.Repr()
      ensures Valid()
      ensures (View().pool, port) == old(portPool.View()).AllocatePort(protocol)
      ensures View() == old(View()).(pool := View().pool)
    {
      hide PoolView.AllocatePort;
      ghost var before := View();
      port := portPool.AllocatePort(protocol);
      assert SocketViews() == before.sockets && Pending() == before.pending;
    }

    method ReservePort(port: uint16, protocol: Protocol) returns (ok: bool)
      requires Valid()
      modifies portPool.Repr()
      ensures Valid()
      ensures (View().pool, ok) == old(portPool.View()).ReservePort(port, protocol)
      ensures View() == old(View()).(pool := View().pool)
    {
      hide PoolView.ReservePort;
      ghost var before := View();
      ok := portPool.AllocateSpecificPort(port, protocol);
      assert SocketViews() == before.sockets && Pending() == before.pending;
    }

    method Unregister(fd: int)
      requires Valid()
      modifies this`sockets
      ensures Valid() && sockets == old(sockets) - {fd} && Repr() <= old(Repr())
      ensures View() == old(View()).(sockets := old(SocketViews()) - {fd})
    {
      hide Ring.View, ProxySocket.View;
      ghost var views := SocketViews();
      sockets := sockets - {fd};
      assert SocketViews() == views - {fd};
    }

    // If no other socket uses this endpoint, forget what waits for it.
    method PurgeEndpoint(fd: int, port: uint16, protocol: Protocol, order: seq<int>)
      requires Valid() && fd in sockets && N.IsOrder(order, sockets.Keys)
      modifies this`pendingTail, this`pendingCount, pendingRing
      ensures Valid()
      ensures View() == old(N.PurgeStep(View(), fd, port, protocol))
    {
      hide Ring.Slot, Ring.View, N.HasTwin, N.Judged, N.PurgeStep, ProxySocket.View;
      ghost var before := View();
      N.PurgeStepCases(before, fd, port, protocol);
      if port != 0 && pendingCount > 0 {
        var hasTwin := FindTwin(fd, port, protocol, order, before.sockets);
        if !hasTwin {
          var writeIdx, kept := PurgeMatching(fd, port, protocol);
          CommitWalk(writeIdx, kept);
        }
      } else if pendingCount == 0 {
        EmptyView(pendingRing[..], pendingHead);
      }
    }

    method CloseProxySocket(fd: int, order: seq<int>) returns (closed: bool)
      requires Valid() && N.IsOrder(order, sockets.Keys)
      modifies Repr()
      ensures Valid() && fresh(Repr() - old(Repr()))
      ensures closed <==> fd in old(sockets)
      ensures View() == N.Close(old(View()), fd)
    {
      if fd !in sockets {
        return false;
      }
      hide Ring.View, Ring.Slot, Ring.WellFormed, N.PurgeStep, N.Close, PoolView.ReleasePort, SockAddrIn.GetPort, SocketView.Close;
      N.CloseInSteps(View(), fd);
      var protocol := sockets[fd].protocol;
      var port := sockets[fd].localAddr.GetPort();
      if port != 0 {
        ReleasePort(port, protocol);
      }
      CloseSocket(fd);
      PurgeEndpoint(fd, port, protocol, order);
      Unregister(fd);
      return true;
    }

    method CloseEverySocket(order: seq<int>)
      requires Valid() && N.IsOrder(order, sockets.Keys)
      modifies Sockets()
      ensures Valid()
      ensures View() == old(View()).(sockets := N.CloseEach(old(SocketViews()), order))
    {
      hide SocketView.Close, Ring.View, Ring.Slot, Ring.WellFormed, ProxySocket.View, N.CloseEach;
      ghost var before := View();
      N.CloseNobody(before.sockets);
      for i := 0 to |order|
        invariant Valid() && View() == before.(sockets := N.CloseEach(before.sockets, order[..i]))
      {
        assert order[i] in order;
        assert order[i] in before.sockets && order[i] !in order[..i];
        assert order[..i + 1] == order[..i] + [order[i]];
        N.CloseOneMore(before.sockets, order[..i], order[i]);
        CloseSocket(order[i]);
      }
      assert order[..|order|] == order;
    }

    method ClearRegistry()
      requires Valid()
      modifies this`sockets, portPool.Repr()
      ensures Valid() && Repr() <= old(Repr())
      ensures View() == old(View()).(sockets := map[], pool := EMPTY_POOL)
    {
      hide Ring.View, Ring.WellFormed, ProxySocket.View;
      ghost var before := View();
      sockets := map[];
      portPool.ReleaseAll();
      assert Pending() == before.pending;
      assert SocketViews() == map[];
    }

    method CloseAllProxySockets(order: seq<int>)
      requires Valid() && N.IsOrder(order, sockets.Keys)
      modifies Repr()
      ensures Valid() && fresh(Repr() - old(Repr())) && View() == N.CloseAll(old(View()))
      ensures View() == old(N.NetState(map[], Pending(), localIp, EMPTY_POOL))
    {
      hide Ring.View, Ring.WellFormed, ProxySocket.View, N.CloseEach;
      CloseEverySocket(order);
      ClearRegistry();
    }

    method ClearPending()
      requires Valid()
      modifies this`pendingHead, this`pendingTail, this`pendingCount
      ensures Valid()
      ensures View() == old(View()).(pending := [])
    {
      hide ProxySocket.View;
      ghost var before := View();
      pendingHead := 0;
      pendingTail := 0;
      pendingCount := 0;
      assert SocketViews() == before.sockets && Pending() == [];
    }

    method Reset(order: seq<int>)
      requires Valid() && N.IsOrder(order, sockets.Keys)
      modifies Repr()
      ensures Valid() && fresh(Repr() - old(Repr())) && View() == N.Reset(old(View()))
      ensures View() == N.NetState(map[], [], 0, EMPTY_POOL)
    {
      hide Ring.View, Ring.WellFormed, ProxySocket.View, N.CloseEach;
      CloseEverySocket(order);
      ClearRegistry();
      ClearPending();
      localIp := 0;
    }

    method SetLocalIp(ip: uint32)
      requires Valid()
      modifies this
      ensures Valid() && Repr() == old(Repr()) && sockets == old(sockets) && View() == N.SetLocalIp(old(View()), ip)
      ensures localIp == ip && Pending() == if old(localIp) == 0 || old(localIp) == ip then old(Pending()) else []
    {
      hide ProxySocket.View;
      ghost var before := View();
      assert pendingCount == 0 ==> before.pending == [];
      if localIp != 0 && localIp != ip && pendingCount > 0 {
        ClearPending();
      }
      localIp := ip;
      assert SocketViews() == before.sockets;
    }

    // Binds a registered socket to an address.
    method BindSocket(socket: ProxySocket, ghost fd: int, addr: SockAddrIn) returns (error: Option<Errno>)
      requires Valid() && fd in sockets && sockets[fd] == socket
      modifies socket
      ensures Valid()
      ensures error == old(socket.View()).Bind(addr).1
      ensures View() == old(View()).(sockets := old(SocketViews())[fd := old(socket.View()).Bind(addr).0])
    {
      hide SocketView.Bind;
      ghost var before := SocketViews();
      error := socket.Bind(addr);
      forall other | other in sockets && other != fd
        ensures sockets[other].Valid() && sockets[other].View() == before[other]
      {
        assert sockets[other] != socket && sockets[other].rxRing != socket.rxRing;
      }
      assert SocketViews() == before[fd := socket.View()];
    }
  }
}
