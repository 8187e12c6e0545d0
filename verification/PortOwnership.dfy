/** Which socket owns which ephemeral port, over every run of the manager. */
module PortOwnership {
  import opened BsdTypes
  import opened ProxySocket
  import opened PortPool
  import opened Network
  import opened NetworkRuns
  import L = Ledger

  predicate SamePool(p: Protocol, q: Protocol) {
    p.Tcp? == q.Tcp?
  }

  ghost predicate HoldsOwnPort(s: NetState, fd: int)
    requires fd in s.sockets
  {
    IsEphemeral(PortOf(s.sockets[fd])) ==> s.pool.Holds(s.sockets[fd].protocol, PortOf(s.sockets[fd]))
  }

  ghost predicate SharePort(s: NetState, fd: int, other: int)
    requires fd in s.sockets && other in s.sockets
  {
    && SamePool(s.sockets[fd].protocol, s.sockets[other].protocol)
    && IsEphemeral(PortOf(s.sockets[fd])) && PortOf(s.sockets[fd]) == PortOf(s.sockets[other])
  }

  // Every registered socket on an ephemeral port holds it in its pool, and no two share one.
  ghost predicate OwnsPorts(s: NetState) {
    && (forall fd | fd in s.sockets :: HoldsOwnPort(s, fd))
    && (forall fd, other | fd in s.sockets && other in s.sockets && fd != other :: !SharePort(s, fd, other))
  }

  // A socket that has not been bound has no port.
  ghost predicate UnboundHaveNoPort(s: NetState) {
    forall fd | fd in s.sockets :: s.sockets[fd].state == Created ==> PortOf(s.sockets[fd]) == 0
  }

  // Same registered sockets, with the same protocols, ports and (up to boundness) states.
  ghost predicate SameEndpoints(s: NetState, t: NetState) {
    && t.pool == s.pool && t.sockets.Keys == s.sockets.Keys
    && forall fd | fd in s.sockets ::
         && t.sockets[fd].protocol == s.sockets[fd].protocol
         && PortOf(t.sockets[fd]) == PortOf(s.sockets[fd])
         && (t.sockets[fd].state == Created ==> s.sockets[fd].state == Created)
  }

  // What a claim does to one pool, port by port.
  lemma ClaimedPorts(pool: PoolView, pool': PoolView, protocol: Protocol, port: uint16)
    requires Claims(pool, pool', protocol, port)
    ensures forall q: Protocol, p: uint16 | IsEphemeral(p) ::
              pool'.Holds(q, p) <==> pool.Holds(q, p) || (IsEphemeral(port) && SamePool(q, protocol) && p == port)
  {}

  // `fd` took the freshly claimed `port`, or stayed without a port, or stayed as it was.
  ghost predicate TakesClaim(s: NetState, t: NetState, fd: int, protocol: Protocol, port: uint16) {
    && OnlyTouches(s, t, fd, protocol) && Claims(s.pool, t.pool, protocol, port)
    && (fd in s.sockets ==> SamePool(s.sockets[fd].protocol, protocol))
    && (PortOf(t.sockets[fd]) == port || PortOf(t.sockets[fd]) == 0 ||
        (fd in s.sockets && t.sockets[fd] == s.sockets[fd]))
    && (t.sockets[fd].state == Created ==> PortOf(t.sockets[fd]) == 0)
  }

  lemma ClaimKeepsHeld(s: NetState, t: NetState, fd: int, protocol: Protocol, port: uint16, x: int)
    requires OwnsPorts(s) && TakesClaim(s, t, fd, protocol, port) && x in t.sockets
    ensures HoldsOwnPort(t, x)
  {
    ClaimedPorts(s.pool, t.pool, protocol, port);
    hide PortOf, PoolView.Holds, Claims;
    if x in s.sockets && t.sockets[x] == s.sockets[x] {
      assert HoldsOwnPort(s, x);
    }
  }

  // No socket that was there before has the port that was free.
  lemma NobodyHadIt(s: NetState, pool: PoolView, protocol: Protocol, port: uint16, x: int)
    requires OwnsPorts(s) && Claims(s.pool, pool, protocol, port) && x in s.sockets
    requires IsEphemeral(port) && SamePool(s.sockets[x].protocol, protocol)
    ensures PortOf(s.sockets[x]) != port
  {
    hide PortOf;
    assert HoldsOwnPort(s, x);
  }

  lemma ClaimKeepsUnshared(s: NetState, t: NetState, fd: int, protocol: Protocol, port: uint16, x: int, y: int)
    requires OwnsPorts(s) && TakesClaim(s, t, fd, protocol, port)
    requires x in t.sockets && y in t.sockets && x != y
    ensures !SharePort(t, x, y)
  {
    hide PortOf, Claims, HoldsOwnPort;
    if x in s.sockets && y in s.sockets && t.sockets[x] == s.sockets[x] && t.sockets[y] == s.sockets[y] {
      assert !SharePort(s, x, y);
    } else if SharePort(t, x, y) {
      NobodyHadIt(s, t.pool, protocol, port, if x == fd then y else x);
    }
  }

  lemma ClaimKeepsOwnership(s: NetState, t: NetState, fd: int, protocol: Protocol, port: uint16)
    requires OwnsPorts(s) && UnboundHaveNoPort(s) && TakesClaim(s, t, fd, protocol, port)
    ensures OwnsPorts(t) && UnboundHaveNoPort(t)
  {
    hide PortOf, HoldsOwnPort, SharePort, Claims;
    forall x | x in t.sockets
      ensures HoldsOwnPort(t, x)
    {
      ClaimKeepsHeld(s, t, fd, protocol, port, x);
    }
    forall x, y | x in t.sockets && y in t.sockets && x != y
      ensures !SharePort(t, x, y)
    {
      ClaimKeepsUnshared(s, t, fd, protocol, port, x, y);
    }
  }

  // The port that a bind claims, 0 if there is none to claim.
  function ClaimedPort(s: NetState, op: Op): uint16
    requires s.pool.Valid() && op.OpBind?
  {
    ClaimPort(s.pool, op.addr, op.protocol).1
  }

  // Some registered socket has this port and would release it in this pool.
  ghost predicate Owned(s: NetState, protocol: Protocol, port: uint16) {
    exists fd | fd in s.sockets :: SamePool(s.sockets[fd].protocol, protocol) && PortOf(s.sockets[fd]) == port
  }

  // The bind claims a port in one pool for a socket that counts as belonging to the other. The service
  // gets there when a refused bind left a socket behind and the descriptor was reused.
  ghost predicate ClaimsInOtherPool(s: NetState, op: Op)
    requires s.pool.Valid()
  {
    && op.OpBind? && op.fd in s.sockets && !SamePool(s.sockets[op.fd].protocol, op.protocol)
    && IsEphemeral(ClaimedPort(s, op))
  }

  // And the socket takes it, while its own pool does not hold the port, or holds it for somebody else.
  ghost predicate BreaksOwnership(s: NetState, op: Op)
    requires s.pool.Valid()
  {
    && ClaimsInOtherPool(s, op) && s.sockets[op.fd].state == Created
    && var protocol, port := s.sockets[op.fd].protocol, ClaimedPort(s, op);
       s.pool.Holds(protocol, port) ==> Owned(s, protocol, port)
  }

  lemma BindAddressKeepsPort(s: NetState, addr: SockAddrIn, protocol: Protocol)
    requires s.pool.Valid()
    ensures ClaimPort(s.pool, BindAddress(s, addr), protocol) == ClaimPort(s.pool, addr, protocol)
  {
    assert BindAddress(s, addr).sinPort == addr.sinPort;
  }

  lemma MisplacedClaim(s: NetState, t: NetState, fd: int, protocol: Protocol, port: uint16)
    requires OwnsPorts(s) && UnboundHaveNoPort(s) && fd in s.sockets && s.sockets[fd].state == Created
    requires OnlyTouches(s, t, fd, protocol) && Claims(s.pool, t.pool, protocol, port)
    requires !SamePool(s.sockets[fd].protocol, protocol) && IsEphemeral(port) && PortOf(t.sockets[fd]) == port
    ensures OwnsPorts(t) <==> s.pool.Holds(s.sockets[fd].protocol, port) && !Owned(s, s.sockets[fd].protocol, port)
  {
    ClaimedPorts(s.pool, t.pool, protocol, port);
    hide PortOf, PoolView.Holds, Claims;
    var own := s.sockets[fd].protocol;
    if s.pool.Holds(own, port) && Owned(s, own, port) {
      var x :| x in s.sockets && SamePool(s.sockets[x].protocol, own) && PortOf(s.sockets[x]) == port;
      assert x != fd && SharePort(t, fd, x);
    } else if !s.pool.Holds(own, port) {
      assert !HoldsOwnPort(t, fd);
    } else {
      forall x | x in t.sockets
        ensures HoldsOwnPort(t, x)
      {
        assert HoldsOwnPort(s, x);
      }
      forall x, y | x in t.sockets && y in t.sockets && x != y
        ensures !SharePort(t, x, y)
      {
        assert !SharePort(s, x, y);
      }
    }
  }

  lemma DeliverKeepsEndpoints(s: NetState, fd: int, port: uint16, protocol: Protocol, now: uint64)
    requires fd in s.sockets
    ensures SameEndpoints(s, Deliver(s, fd, port, protocol, now)) && SameEndpoints(Deliver(s, fd, port, protocol, now), s)
  {
    hide PortOf, Deliver;
    DeliverKeepsAddresses(s, fd, port, protocol, now);
    AddressGivesPort(s.sockets[fd], Deliver(s, fd, port, protocol, now).sockets[fd]);
  }

  lemma BindKeepsUnbound(s: NetState, op: Op)
    requires WellFormed(s) && Enabled(s, op) && UnboundHaveNoPort(s) && op.OpBind?
    ensures UnboundHaveNoPort(Step(s, op))
  {
    hide ClaimAndBind, ClaimPort, Deliver, PortOf, Claims;
    var OpBind(fd, stype, protocol, addr, now) := op;
    ClaimAndBindMeaning(s, fd, stype, protocol, addr);
    var (bound, port, error) := ClaimAndBind(s, fd, stype, protocol, addr);
    NewSocketPort(stype, protocol);
    if error == None {
      DeliverKeepsEndpoints(bound, fd, port, protocol, now);
    }
  }

  lemma BindKeepsOwnership(s: NetState, op: Op)
    requires WellFormed(s) && Enabled(s, op) && OwnsPorts(s) && UnboundHaveNoPort(s) && op.OpBind?
    ensures OwnsPorts(Step(s, op)) <==> !BreaksOwnership(s, op)
  {
    hide ClaimAndBind, ClaimPort, Deliver, PortOf, Claims, OwnsPorts, UnboundHaveNoPort, PoolView.Holds, Owned, SameEndpoints;
    var OpBind(fd, stype, protocol, addr, now) := op;
    ClaimAndBindMeaning(s, fd, stype, protocol, addr);
    BindAddressKeepsPort(s, addr, protocol);
    var (bound, port, error) := ClaimAndBind(s, fd, stype, protocol, addr);
    if error != Some(NoMem) {
      ClaimForSocket(s, op, bound, port, error);
      if error == None {
        DeliverKeepsEndpoints(bound, fd, port, protocol, now);
        SameEndpointsAlike(bound, Deliver(bound, fd, port, protocol, now));
      }
    }
  }

  lemma SameEndpointsAlike(s: NetState, t: NetState)
    requires SameEndpoints(s, t)
    ensures OwnsPorts(s) <==> OwnsPorts(t)
  {
    hide PortOf, PoolView.Holds;
  }

  // What the claim and the bind of one socket make of ownership.
  lemma ClaimForSocket(s: NetState, op: Op, t: NetState, port: uint16, error: Option<Errno>)
    requires s.pool.Valid() && OwnsPorts(s) && UnboundHaveNoPort(s) && op.OpBind? && port == ClaimedPort(s, op)
    requires OnlyTouches(s, t, op.fd, op.protocol) && Claims(s.pool, t.pool, op.protocol, port)
    requires error == None <==> port != 0 && (op.fd in s.sockets ==> s.sockets[op.fd].state == Created)
    requires error == None ==> PortOf(t.sockets[op.fd]) == port && t.sockets[op.fd].state == Bound
    requires error != None ==>
               t.sockets[op.fd] == if op.fd in s.sockets then s.sockets[op.fd] else NewSocket(op.stype, op.protocol)
    ensures OwnsPorts(t) <==> !BreaksOwnership(s, op)
  {
    hide PortOf, OwnsPorts, ClaimPort, PoolView.Holds, Owned, Claims;
    var fd := op.fd;
    NewSocketPort(op.stype, op.protocol);
    if fd in s.sockets && !SamePool(s.sockets[fd].protocol, op.protocol) {
      if error == None && IsEphemeral(port) {
        MisplacedClaim(s, t, fd, op.protocol, port);
      } else {
        UnrelatedClaim(s, t, fd, op.protocol, port);
      }
    } else {
      ClaimKeepsOwnership(s, t, fd, op.protocol, port);
    }
  }

  // A claim that the socket does not take, or of a port outside the pools.
  lemma UnrelatedClaim(s: NetState, t: NetState, fd: int, protocol: Protocol, port: uint16)
    requires OwnsPorts(s) && OnlyTouches(s, t, fd, protocol) && Claims(s.pool, t.pool, protocol, port)
    requires fd in s.sockets
    requires t.sockets[fd] == s.sockets[fd] || (PortOf(t.sockets[fd]) == port && !IsEphemeral(port))
    ensures OwnsPorts(t)
  {
    ClaimedPorts(s.pool, t.pool, protocol, port);
    hide PortOf, PoolView.Holds, Claims;
    forall x | x in t.sockets
      ensures HoldsOwnPort(t, x)
    {
      assert HoldsOwnPort(s, x);
    }
    forall x, y | x in t.sockets && y in t.sockets && x != y
      ensures !SharePort(t, x, y)
    {
      assert !SharePort(s, x, y);
    }
  }

  lemma NewSocketPort(stype: SocketType, protocol: Protocol)
    ensures PortOf(NewSocket(stype, protocol)) == 0
  {}

  lemma AddressGivesPort(v: SocketView, w: SocketView)
    requires v.local == w.local
    ensures PortOf(v) == PortOf(w)
  {
    hide BSwap16;
  }

  lemma AutoBindKeepsUnbound(s: NetState, op: Op)
    requires WellFormed(s) && UnboundHaveNoPort(s) && op.OpAutoBind?
    ensures UnboundHaveNoPort(Step(s, op))
  {
    hide AutoBind, PortOf, Claims, PoolView.AllocatePort;
    AutoBindMeaning(s, op.fd, op.stype, op.protocol);
    NewSocketPort(op.stype, op.protocol);
  }

  lemma AutoBindKeepsOwnership(s: NetState, op: Op)
    requires WellFormed(s) && OwnsPorts(s) && UnboundHaveNoPort(s) && op.OpAutoBind?
    ensures OwnsPorts(Step(s, op))
  {
    hide AutoBind, PortOf, Claims, OwnsPorts, PoolView.AllocatePort;
    AutoBindMeaning(s, op.fd, op.stype, op.protocol);
    NewSocketPort(op.stype, op.protocol);
    var port := s.pool.AllocatePort(op.protocol).1;
    if op.fd !in s.sockets && AutoBind(s, op.fd, op.stype, op.protocol).1 != Some(NoMem) {
      ClaimKeepsOwnership(s, Step(s, op), op.fd, op.protocol, port);
    }
  }

  // Closing a socket frees exactly its own port.
  lemma CloseFreesItsPort(s: NetState, fd: int)
    requires fd in s.sockets
    ensures var v, t := s.sockets[fd], Close(s, fd);
      && t.sockets == s.sockets - {fd}
      && forall protocol: Protocol, port: uint16 | IsEphemeral(port) ::
           t.pool.Holds(protocol, port) <==>
           s.pool.Holds(protocol, port) && !(SamePool(protocol, v.protocol) && port == PortOf(v))
  {
    hide BSwap16, HasTwin, Judged;
  }

  lemma CloseKeepsOwnership(s: NetState, fd: int)
    ensures OwnsPorts(s) ==> OwnsPorts(Close(s, fd))
    ensures UnboundHaveNoPort(s) ==> UnboundHaveNoPort(Close(s, fd))
  {
    if fd in s.sockets {
      CloseFreesItsPort(s, fd);
      hide PortOf, Close, PoolView.Holds;
      var t := Close(s, fd);
      assert forall other | other in t.sockets :: other in s.sockets && other != fd && t.sockets[other] == s.sockets[other];
    }
  }

  // Steps that bind, close and reset nothing.
  lemma QuietStep(s: NetState, op: Op)
    requires WellFormed(s) && Enabled(s, op) && (op.OpRoute? || op.OpSetLocalIp? || op.OpSocket?)
    ensures SameEndpoints(s, Step(s, op))
  {
    hide FindTargets, BSwap32, Prefix, PortOf;
    var t := Step(s, op);
    assert t.sockets.Keys == s.sockets.Keys by {
      if op.OpRoute? {
        var targets := FindTargets(s.sockets, op.d.destIp, op.d.destPort, op.d.protocol, op.order, MAX_TARGETS);
        assert Fan(s.sockets, targets, op.d).Keys == s.sockets.Keys;
      }
    }
    forall fd | fd in s.sockets
      ensures t.sockets[fd].protocol == s.sockets[fd].protocol && PortOf(t.sockets[fd]) == PortOf(s.sockets[fd])
    {
      AddressGivesPort(s.sockets[fd], t.sockets[fd]);
    }
  }

  lemma EmptyNetOwnsPorts(t: NetState)
    requires t.sockets == map[] && t.pool == EMPTY_POOL
    ensures OwnsPorts(t) && UnboundHaveNoPort(t) && NoOrphans(t)
  {
    hide PortOf;
  }

  lemma StepKeepsUnbound(s: NetState, op: Op)
    requires WellFormed(s) && Enabled(s, op) && UnboundHaveNoPort(s)
    ensures UnboundHaveNoPort(Step(s, op))
  {
    hide OwnsPorts, BindFd, AutoBind, Close, Route, SetLocalIp, PortOf;
    match op
    case OpBind(_, _, _, _, _) => BindKeepsUnbound(s, op);
    case OpAutoBind(_, _, _) => AutoBindKeepsUnbound(s, op);
    case OpClose(fd) => CloseKeepsOwnership(s, fd);
    case OpCloseAll => EmptyNetOwnsPorts(Step(s, op));
    case OpReset => EmptyNetOwnsPorts(Step(s, op));
    case _ => QuietStep(s, op);
  }

  // A step keeps ownership exactly when it is not a bind of the kind `BreaksOwnership` describes.
  lemma OwnershipKeptExactly(s: NetState, op: Op)
    requires WellFormed(s) && Enabled(s, op) && OwnsPorts(s) && UnboundHaveNoPort(s)
    ensures OwnsPorts(Step(s, op)) <==> !BreaksOwnership(s, op)
  {
    hide OwnsPorts, UnboundHaveNoPort, SameEndpoints, BindFd, AutoBind, Close, Route, SetLocalIp;
    match op
    case OpBind(_, _, _, _, _) => BindKeepsOwnership(s, op);
    case OpAutoBind(_, _, _) => AutoBindKeepsOwnership(s, op);
    case OpClose(fd) => CloseKeepsOwnership(s, fd);
    case OpCloseAll => EmptyNetOwnsPorts(Step(s, op));
    case OpReset => EmptyNetOwnsPorts(Step(s, op));
    case _ => QuietStep(s, op); SameEndpointsAlike(s, Step(s, op));
  }

  ghost predicate OwnsThroughout(s: NetState, ops: seq<Op>)
    requires WellFormed(s) && L.ValidRun(s, ops)
    decreases |ops|
  {
    OwnsPorts(s) && (ops != [] ==> (StepKeepsWellFormed(s, ops[0]); OwnsThroughout(Step(s, ops[0]), ops[1..])))
  }

  ghost predicate NeverBreaks(s: NetState, ops: seq<Op>)
    requires WellFormed(s) && L.ValidRun(s, ops)
    decreases |ops|
  {
    ops != [] ==>
      !BreaksOwnership(s, ops[0]) && (StepKeepsWellFormed(s, ops[0]); NeverBreaks(Step(s, ops[0]), ops[1..]))
  }

  // Over every run from a state with proper ownership (such as the initial one): it holds all along
  // exactly when no step of the run breaks it.
  lemma {:induction false} RunOwnsPortsExactly(s: NetState, ops: seq<Op>)
    requires WellFormed(s) && L.ValidRun(s, ops) && OwnsPorts(s) && UnboundHaveNoPort(s)
    ensures OwnsThroughout(s, ops) <==> NeverBreaks(s, ops)
    decreases |ops|
  {
    hide Step, Enabled, OwnsPorts, UnboundHaveNoPort, BreaksOwnership;
    if ops != [] {
      StepKeepsWellFormed(s, ops[0]);
      StepKeepsUnbound(s, ops[0]);
      OwnershipKeptExactly(s, ops[0]);
      var t := Step(s, ops[0]);
      if OwnsPorts(t) {
        RunOwnsPortsExactly(t, ops[1..]);
      } else {
        NotThroughout(t, ops[1..]);
      }
    }
  }

  lemma NotThroughout(s: NetState, ops: seq<Op>)
    requires WellFormed(s) && L.ValidRun(s, ops) && !OwnsPorts(s)
    ensures !OwnsThroughout(s, ops)
  {
    hide OwnsPorts;
  }

  // ---- Ports without an owner ----

  // Every held port belongs to a registered socket.
  ghost predicate NoOrphans(s: NetState) {
    forall protocol: Protocol, port: uint16 | IsEphemeral(port) && s.pool.Holds(protocol, port) ::
      Owned(s, protocol, port)
  }

  // The bind claims a port for a registered socket that refuses it, being past Created, or that would
  // release it in the other pool; and no socket of the pool has the port already.
  ghost predicate Leaks(s: NetState, op: Op)
    requires s.pool.Valid()
  {
    && op.OpBind? && op.fd in s.sockets
    && (s.sockets[op.fd].state != Created || !SamePool(s.sockets[op.fd].protocol, op.protocol))
    && IsEphemeral(ClaimedPort(s, op)) && !Owned(s, op.protocol, ClaimedPort(s, op))
  }

  lemma SameEndpointsOrphans(s: NetState, t: NetState)
    requires SameEndpoints(s, t)
    ensures NoOrphans(s) ==> NoOrphans(t)
  {
    hide PortOf, PoolView.Holds;
    if NoOrphans(s) {
      forall protocol: Protocol, port: uint16 | IsEphemeral(port) && t.pool.Holds(protocol, port)
        ensures Owned(t, protocol, port)
      {
        assert Owned(s, protocol, port);
        var fd :| fd in s.sockets && SamePool(s.sockets[fd].protocol, protocol) && PortOf(s.sockets[fd]) == port;
        assert fd in t.sockets && PortOf(t.sockets[fd]) == port;
      }
    }
  }

  // A claim orphans no port if the claimed one has an owner and the socket gave up no port for it.
  lemma OwnedClaimLeavesNoOrphan(s: NetState, t: NetState, fd: int, protocol: Protocol, port: uint16)
    requires NoOrphans(s) && OnlyTouches(s, t, fd, protocol) && Claims(s.pool, t.pool, protocol, port)
    requires fd in s.sockets && t.sockets[fd] != s.sockets[fd] ==> PortOf(s.sockets[fd]) == 0
    requires IsEphemeral(port) ==> Owned(t, protocol, port)
    ensures NoOrphans(t)
  {
    ClaimedPorts(s.pool, t.pool, protocol, port);
    hide PortOf, PoolView.Holds, Claims;
    forall q: Protocol, p: uint16 | IsEphemeral(p) && t.pool.Holds(q, p)
      ensures Owned(t, q, p)
    {
      if s.pool.Holds(q, p) {
        assert Owned(s, q, p);
        var owner :| owner in s.sockets && SamePool(s.sockets[owner].protocol, q) && PortOf(s.sockets[owner]) == p;
        assert owner in t.sockets && PortOf(t.sockets[owner]) == p;
      } else {
        var owner :| owner in t.sockets && SamePool(t.sockets[owner].protocol, protocol) && PortOf(t.sockets[owner]) == port;
        assert SamePool(t.sockets[owner].protocol, q);
      }
    }
  }

  lemma UnownedClaimIsOrphan(s: NetState, t: NetState, protocol: Protocol, port: uint16)
    requires Claims(s.pool, t.pool, protocol, port) && IsEphemeral(port) && !Owned(t, protocol, port)
    ensures !NoOrphans(t)
  {
    hide Owned;
    assert t.pool.Holds(protocol, port);
  }

  // Who owns the claimed port after the claim and the bind of one socket.
  lemma OwnerOfClaim(s: NetState, op: Op, t: NetState, port: uint16, error: Option<Errno>)
    requires s.pool.Valid() && UnboundHaveNoPort(s) && op.OpBind? && port == ClaimedPort(s, op) && IsEphemeral(port)
    requires OnlyTouches(s, t, op.fd, op.protocol)
    requires error == None <==> op.fd in s.sockets ==> s.sockets[op.fd].state == Created
    requires error == None ==> PortOf(t.sockets[op.fd]) == port
    requires error != None ==> t.sockets[op.fd] == s.sockets[op.fd]
    ensures Owned(t, op.protocol, port) <==> !Leaks(s, op)
  {
    hide PortOf, ClaimPort;
    var fd, protocol := op.fd, op.protocol;
    if error == None && (fd in s.sockets ==> SamePool(s.sockets[fd].protocol, protocol)) {
      assert Owned(t, protocol, port);
    } else {
      if Owned(s, protocol, port) {
        var owner :| owner in s.sockets && SamePool(s.sockets[owner].protocol, protocol) && PortOf(s.sockets[owner]) == port;
        assert owner in t.sockets && t.sockets[owner] == s.sockets[owner];
      }
      if Owned(t, protocol, port) {
        var owner :| owner in t.sockets && SamePool(t.sockets[owner].protocol, protocol) && PortOf(t.sockets[owner]) == port;
        assert owner in s.sockets && t.sockets[owner] == s.sockets[owner];
      }
    }
  }

  lemma BindLeaks(s: NetState, op: Op)
    requires WellFormed(s) && Enabled(s, op) && UnboundHaveNoPort(s) && NoOrphans(s) && op.OpBind?
    ensures NoOrphans(Step(s, op)) <==> !Leaks(s, op)
  {
    hide ClaimAndBind, ClaimPort, Deliver, PortOf, NoOrphans, Claims, Owned, SameEndpoints, PoolView.Holds;
    var OpBind(fd, stype, protocol, addr, now) := op;
    ClaimAndBindMeaning(s, fd, stype, protocol, addr);
    BindAddressKeepsPort(s, addr, protocol);
    var (bound, port, error) := ClaimAndBind(s, fd, stype, protocol, addr);
    if error != Some(NoMem) {
      if IsEphemeral(port) {
        OwnerOfClaim(s, op, bound, port, error);
      }
      if IsEphemeral(port) && !Owned(bound, protocol, port) {
        UnownedClaimIsOrphan(s, bound, protocol, port);
      } else {
        OwnedClaimLeavesNoOrphan(s, bound, fd, protocol, port);
      }
      if error == None {
        DeliverKeepsEndpoints(bound, fd, port, protocol, now);
        SameEndpointsOrphans(bound, Deliver(bound, fd, port, protocol, now));
        SameEndpointsOrphans(Deliver(bound, fd, port, protocol, now), bound);
      }
    }
  }

  lemma AutoBindLeavesNoOrphan(s: NetState, op: Op)
    requires WellFormed(s) && UnboundHaveNoPort(s) && NoOrphans(s) && op.OpAutoBind?
    ensures NoOrphans(Step(s, op))
  {
    hide AutoBind, PortOf, Claims, NoOrphans, UnboundHaveNoPort, PoolView.AllocatePort;
    AutoBindMeaning(s, op.fd, op.stype, op.protocol);
    NewSocketPort(op.stype, op.protocol);
    var port := s.pool.AllocatePort(op.protocol).1;
    if op.fd !in s.sockets && AutoBind(s, op.fd, op.stype, op.protocol).1 != Some(NoMem) {
      OwnedClaimLeavesNoOrphan(s, Step(s, op), op.fd, op.protocol, port);
    }
  }

  lemma CloseLeavesNoOrphan(s: NetState, fd: int)
    requires NoOrphans(s)
    ensures NoOrphans(Close(s, fd))
  {
    if fd in s.sockets {
      CloseFreesItsPort(s, fd);
      hide PortOf, Close, PoolView.Holds;
      var t := Close(s, fd);
      forall q: Protocol, p: uint16 | IsEphemeral(p) && t.pool.Holds(q, p)
        ensures Owned(t, q, p)
      {
        assert Owned(s, q, p);
        var owner :| owner in s.sockets && SamePool(s.sockets[owner].protocol, q) && PortOf(s.sockets[owner]) == p;
        assert owner in t.sockets && t.sockets[owner] == s.sockets[owner];
      }
    }
  }

  // A step orphans a port exactly when it is a bind of the kind `Leaks` describes, whether ownership is
  // intact or not.
  lemma PortsLeakExactlyOnRebind(s: NetState, op: Op)
    requires WellFormed(s) && Enabled(s, op) && UnboundHaveNoPort(s) && NoOrphans(s)
    ensures NoOrphans(Step(s, op)) <==> !Leaks(s, op)
  {
    hide BindFd, AutoBind, Close, Route, SetLocalIp, NoOrphans, SameEndpoints, UnboundHaveNoPort;
    match op
    case OpBind(_, _, _, _, _) => BindLeaks(s, op);
    case OpAutoBind(_, _, _) => AutoBindLeavesNoOrphan(s, op);
    case OpClose(fd) => CloseLeavesNoOrphan(s, fd);
    case OpCloseAll => EmptyNetOwnsPorts(Step(s, op));
    case OpReset => EmptyNetOwnsPorts(Step(s, op));
    case _ => QuietStep(s, op); SameEndpointsOrphans(s, Step(s, op));
  }

  ghost predicate NoOrphansThroughout(s: NetState, ops: seq<Op>)
    requires WellFormed(s) && L.ValidRun(s, ops)
    decreases |ops|
  {
    NoOrphans(s) && (ops != [] ==> (StepKeepsWellFormed(s, ops[0]); NoOrphansThroughout(Step(s, ops[0]), ops[1..])))
  }

  ghost predicate NeverLeaks(s: NetState, ops: seq<Op>)
    requires WellFormed(s) && L.ValidRun(s, ops)
    decreases |ops|
  {
    ops != [] ==>
      !Leaks(s, ops[0]) && (StepKeepsWellFormed(s, ops[0]); NeverLeaks(Step(s, ops[0]), ops[1..]))
  }

  // Over every run from a state without orphans: there are none all along exactly when no step leaks.
  lemma {:induction false} RunLeaksExactly(s: NetState, ops: seq<Op>)
    requires WellFormed(s) && L.ValidRun(s, ops) && UnboundHaveNoPort(s) && NoOrphans(s)
    ensures NoOrphansThroughout(s, ops) <==> NeverLeaks(s, ops)
    decreases |ops|
  {
    hide Step, Enabled, NoOrphans, UnboundHaveNoPort, Leaks;
    if ops != [] {
      StepKeepsWellFormed(s, ops[0]);
      StepKeepsUnbound(s, ops[0]);
      PortsLeakExactlyOnRebind(s, ops[0]);
      var t := Step(s, ops[0]);
      if NoOrphans(t) {
        RunLeaksExactly(t, ops[1..]);
      } else {
        OrphansNow(t, ops[1..]);
      }
    }
  }

  lemma OrphansNow(s: NetState, ops: seq<Op>)
    requires WellFormed(s) && L.ValidRun(s, ops) && !NoOrphans(s)
    ensures !NoOrphansThroughout(s, ops)
  {
    hide NoOrphans;
  }
}
