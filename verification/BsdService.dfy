/** The commands of the bsd service that use the proxy sockets: Bind, the implicit bind, Select, Poll. */
module BsdService {
  import opened BsdTypes
  import opened ProxySocket
  import opened PortPool
  import N = Network
  import opened Manager

  datatype SocketInfo = SocketInfo(stype: SocketType, protocol: Protocol)

  // Forwarded: the real service answers, the proxy sockets are not involved.
  datatype Outcome = Forwarded | Answered(error: Option<Errno>)

  // A Bind concerns the proxy when the address is an LDN one or INADDR_ANY and the socket is tracked.
  predicate ConcernsProxy(addr: Option<SockAddrIn>, info: Option<SocketInfo>) {
    && addr.Some? && addr.value.sinFamily == AF_INET && info.Some?
    && (addr.value.IsLdn() || addr.value.sinAddr == 0)
  }

  // In octets: an AF_INET address 10.114.x.y or 0.0.0.0, in network byte order, and a tracked socket.
  lemma ConcernsInOctets(len: byte, family: byte, port: uint16, a: byte, b: byte, c: byte, d: byte, info: Option<SocketInfo>)
    ensures ConcernsProxy(Some(SockAddrIn(len, family, port, Address(d, c, b, a))), info) <==>
              family == 2 && info.Some? && ((a == 10 && b == 114) || (a == 0 && b == 0 && c == 0 && d == 0))
    ensures !ConcernsProxy(None, info)
  {
    hide BSwap32, Address, IsLdnAddress;
    LdnInNetworkOrder(a, b, c, d);
    ZeroAddress(d, c, b, a);
  }

  // `addr` is None when the caller's buffer is too short for an address.
  method Bind(manager: ProxySocketManager, fd: int, addr: Option<SockAddrIn>, info: Option<SocketInfo>, now: uint64)
    returns (outcome: Outcome)
    requires manager.Valid()
    modifies manager.Repr()
    ensures manager.Valid() && fresh(manager.Repr() - old(manager.Repr()))
    ensures !ConcernsProxy(addr, info) ==> outcome == Forwarded && manager.View() == old(manager.View())
    ensures ConcernsProxy(addr, info) ==>
              var (state, error) := N.BindFd(old(manager.View()), fd, info.value.stype, info.value.protocol, addr.value, now);
              outcome == Answered(error) && manager.View() == state
  {
    if addr == None || addr.value.sinFamily != AF_INET {
      return Forwarded;
    }
    var isInaddrAny := addr.value.sinAddr == 0;
    if !(addr.value.IsLdn() || isInaddrAny) || info == None {
      return Forwarded;
    }
    var error := BindProxy(manager, fd, info.value, addr.value, now);
    return Answered(error);
  }

  // A port for the address: a fresh one for port 0, else the named one; 0 if there is none.
  method ClaimPort(manager: ProxySocketManager, addr: SockAddrIn, protocol: Protocol) returns (port: uint16)
    requires manager.Valid()
    modifies manager.portPool.Repr()
    ensures manager.Valid()
    ensures (manager.View().pool, port) == N.ClaimPort(old(manager.View().pool), addr, protocol)
    ensures manager.View() == old(manager.View()).(pool := manager.View().pool)
    ensures port == 0 ==> manager.View() == old(manager.View())
  {
    hide PoolView.AllocatePort, PoolView.ReservePort, BSwap16;
    ghost var pool := manager.View().pool;
    AllocatePortMeaning(pool, protocol);
    ReservePortMeaning(pool, addr.GetPort(), protocol);
    if addr.GetPort() == 0 {
      port := manager.AllocatePort(protocol);
    } else {
      var ok := manager.ReservePort(addr.GetPort(), protocol);
      port := if ok then addr.GetPort() else 0;
    }
  }

  method BindProxy(manager: ProxySocketManager, fd: int, info: SocketInfo, addr: SockAddrIn, now: uint64)
    returns (error: Option<Errno>)
    requires manager.Valid()
    modifies manager.Repr()
    ensures manager.Valid() && fresh(manager.Repr() - old(manager.Repr()))
    ensures (manager.View(), error) == N.BindFd(old(manager.View()), fd, info.stype, info.protocol, addr, now)
  {
    hide BSwap16, BSwap32, SockAddrIn.GetAddr, N.Deliver, SocketView.Bind, N.ClaimPort;
    hide ProxySocket.View;
    ghost var before := manager.View();
    var proxy := manager.CreateProxySocket(fd, info.stype, info.protocol);
    if proxy == null {
      return Some(NoMem);
    }
    var bindAddr := addr;
    if addr.sinAddr == 0 {
      if manager.localIp != 0 {
        bindAddr := bindAddr.(sinAddr := BSwap32(manager.localIp));
      }
    }
    assert bindAddr == N.BindAddress(before, addr);
    var port := ClaimPort(manager, bindAddr, info.protocol);
    if port == 0 {
      return Some(AddrInUse);
    }
    // The port of an address that names one is written back unchanged.
    bindAddr := bindAddr.(sinPort := BSwap16(port));
    error := manager.BindSocket(proxy, fd, bindAddr);
    if error.Some? {
      return;
    }
    manager.DeliverPendingPackets(proxy, fd, port, info.protocol, now);
  }

  // What Connect does before it uses a socket that has no proxy yet.
  method AutoBind(manager: ProxySocketManager, fd: int, info: SocketInfo) returns (error: Option<Errno>)
    requires manager.Valid()
    modifies manager.Repr()
    ensures manager.Valid() && fresh(manager.Repr() - old(manager.Repr()))
    ensures (manager.View(), error) == N.AutoBind(old(manager.View()), fd, info.stype, info.protocol)
  {
    hide BSwap16, BSwap32, PoolView.AllocatePort, ProxySocket.View;
    ghost var before := manager.View();
    AllocatePortMeaning(before.pool, info.protocol);
    if fd in manager.sockets {
      return None;
    }
    var proxy := manager.CreateProxySocket(fd, info.stype, info.protocol);
    if proxy == null {
      return Some(NoMem);
    }
    var ephemeral := manager.AllocatePort(info.protocol);
    if ephemeral == 0 {
      return Some(AddrInUse);
    }
    var localAddr := MakeSockAddr(manager.localIp, ephemeral);
    // A new socket accepts an AF_INET address, so the code's release of the port after a failure never runs.
    error := manager.BindSocket(proxy, fd, localAddr);
  }

  // What SendTo does before it sends to an LDN address; `marked` says that the service already counts the
  // socket as a proxy. Unlike Connect it goes on without a port, and without a socket it reports that the
  // network is unreachable.
  method PrepareSendTo(manager: ProxySocketManager, fd: int, info: Option<SocketInfo>, marked: bool) returns (reachable: bool)
    requires manager.Valid()
    modifies manager.Repr()
    ensures manager.Valid() && fresh(manager.Repr() - old(manager.Repr()))
    ensures info.Some? && !marked ==>
              var (state, error) := N.AutoBind(old(manager.View()), fd, info.value.stype, info.value.protocol);
              manager.View() == state && (reachable <==> error != Some(NoMem))
    ensures info == None || marked ==> manager.View() == old(manager.View())
    ensures reachable <==> fd in manager.View().sockets
  {
    hide BSwap16, BSwap32, PoolView.AllocatePort, ProxySocket.View;
    if info.Some? && !marked {
      var error := AutoBind(manager, fd, info.value);
    }
    reachable := fd in manager.sockets;
  }
}
