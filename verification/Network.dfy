/** The state of the proxy-socket manager, and what each of its operations does to that state. */
module Network {
  import opened BsdTypes
  import opened ProxySocket
  import opened PortPool
  import Ring

  const MAX_PROXY_SOCKETS: nat := 64
  const MAX_TARGETS: nat := 8
  const MAX_PENDING: nat := 32
  const PENDING_PAYLOAD_MAX: nat := 1400
  const MAX_PENDING_AGE_MS: nat := 500

  datatype Datagram = Datagram(
    sourceIp: uint32, sourcePort: uint16, destIp: uint32, destPort: uint16,
    protocol: Protocol, data: seq<byte>)

  // A datagram kept until some socket binds; its payload is at most 1400 bytes.
  datatype PendingPacket = PendingPacket(
    sourceIp: uint32, sourcePort: uint16, destIp: uint32, destPort: uint16,
    protocol: Protocol, enqueueTime: uint64, data: seq<byte>)

  datatype NetState = NetState(
    sockets: map<int, SocketView>, pending: seq<PendingPacket>, localIp: uint32, pool: PoolView)

  const EMPTY_NET := NetState(map[], [], 0, EMPTY_POOL)

  ghost predicate WellFormed(s: NetState) {
    && s.pool.Valid()
    && |s.sockets| <= MAX_PROXY_SOCKETS
    && |s.pending| <= MAX_PENDING
    && forall p | p in s.pending :: p.protocol != Udp && |p.data| <= PENDING_PAYLOAD_MAX
  }

  // ---- Who receives a datagram ----

  const LIMITED_BROADCAST: uint32 := 0xFFFF_FFFF

  // 224.0.0.0/4, section 4 of RFC 1112.
  predicate IsMulticast(ip: uint32) {
    ip / 0x1000_0000 == 0xE
  }

  predicate IsBroadcastDestination(ip: uint32) {
    ip % 0x100 == 0xFF || ip % 0x1_0000 == 0xFFFF
  }

  predicate IsFanOut(ip: uint32) {
    ip == LIMITED_BROADCAST || IsBroadcastDestination(ip) || IsMulticast(ip)
  }

  predicate OnPort(v: SocketView, port: uint16, protocol: Protocol) {
    v.protocol == protocol && v.local.GetPort() == port
  }

  predicate AcceptsFanOut(localIp: uint32, destIp: uint32) {
    localIp == 0 || destIp == LIMITED_BROADCAST || IsMulticast(destIp)
    || localIp == destIp || HighHalf(localIp) == HighHalf(destIp)
  }

  // The order-free meaning of the routing rules: may this socket get a datagram for destIp?
  predicate Eligible(v: SocketView, destIp: uint32, destPort: uint16, protocol: Protocol) {
    OnPort(v, destPort, protocol) &&
    var localIp := v.local.GetAddr();
    if IsFanOut(destIp) then AcceptsFanOut(localIp, destIp) else localIp == destIp || localIp == 0
  }

  function EligibleFds(sockets: map<int, SocketView>, destIp: uint32, destPort: uint16, protocol: Protocol): set<int> {
    set fd | fd in sockets && Eligible(sockets[fd], destIp, destPort, protocol)
  }

  function FdsBoundTo(sockets: map<int, SocketView>, localIp: uint32, port: uint16, protocol: Protocol): set<int> {
    set fd | fd in sockets && OnPort(sockets[fd], port, protocol) && sockets[fd].local.GetAddr() == localIp
  }

  // An order in which the unordered map may be walked.
  ghost predicate IsOrder(order: seq<int>, keys: set<int>) {
    && (forall i, j | 0 <= i < j < |order| :: order[i] != order[j])
    && (forall fd :: fd in order <==> fd in keys)
  }

  function First(order: seq<int>, good: set<int>): Option<int> {
    if order == [] then None
    else if order[0] in good then Some(order[0])
    else First(order[1..], good)
  }

  function Collect(order: seq<int>, good: set<int>, max: nat): seq<int> {
    if order == [] || max == 0 then []
    else if order[0] in good then [order[0]] + Collect(order[1..], good, max - 1)
    else Collect(order[1..], good, max)
  }

  // What the search loops compute for one iteration order.
  function FindTargets(sockets: map<int, SocketView>, destIp: uint32, destPort: uint16, protocol: Protocol,
                       order: seq<int>, max: nat): seq<int>
  {
    if max == 0 then []
    else if IsFanOut(destIp) then Collect(order, EligibleFds(sockets, destIp, destPort, protocol), max)
    else
      match First(order, FdsBoundTo(sockets, destIp, destPort, protocol))
      case Some(fd) => [fd]
      case None =>
        match First(order, FdsBoundTo(sockets, 0, destPort, protocol))
        case Some(fd) => [fd]
        case None => []
  }

  lemma {:induction false} FirstMeaning(order: seq<int>, good: set<int>)
    ensures First(order, good) == None <==> forall fd | fd in order :: fd !in good
    ensures First(order, good).Some? ==> First(order, good).value in order && First(order, good).value in good
  {
    if order != [] {
      FirstMeaning(order[1..], good);
      assert forall fd :: fd in order <==> fd == order[0] || fd in order[1..];
    }
  }

  lemma {:induction false} CollectMeaning(order: seq<int>, good: set<int>, max: nat)
    requires forall i, j | 0 <= i < j < |order| :: order[i] != order[j]
    ensures var r := Collect(order, good, max);
      && |r| <= max
      && (forall i, j | 0 <= i < j < |r| :: r[i] != r[j])
      && (forall fd | fd in r :: fd in order && fd in good)
      && (|r| < max ==> forall fd | fd in order && fd in good :: fd in r)
  {
    if order != [] && max != 0 {
      var m := if order[0] in good then max - 1 else max;
      CollectMeaning(order[1..], good, m);
      assert forall fd :: fd in order <==> fd == order[0] || fd in order[1..];
      var rest := Collect(order[1..], good, m);
      assert order[0] !in order[1..];
      if order[0] in good {
        var r := Collect(order, good, max);
        assert r == [order[0]] + rest;
        assert forall fd :: fd in r <==> fd == order[0] || fd in rest;
      }
    }
  }

  lemma {:induction false} DistinctSize(s: seq<int>)
    requires forall i, j | 0 <= i < j < |s| :: s[i] != s[j]
    ensures |set fd | fd in s| == |s|
  {
    if s != [] {
      DistinctSize(s[1..]);
      assert (set fd | fd in s) == {s[0]} + set fd | fd in s[1..];
      assert s[0] !in s[1..];
    }
  }

  lemma SubsetSize(a: set<int>, b: set<int>)
    requires a <= b
    ensures |a| <= |b| && (|a| == |b| ==> a == b)
  {
    assert b == a + (b - a);
  }

  lemma EligibleForUnicast(sockets: map<int, SocketView>, destIp: uint32, destPort: uint16, protocol: Protocol)
    requires !IsFanOut(destIp)
    ensures EligibleFds(sockets, destIp, destPort, protocol)
         == FdsBoundTo(sockets, destIp, destPort, protocol) + FdsBoundTo(sockets, 0, destPort, protocol)
  {
    hide BSwap32, BSwap16;
    var l, r := EligibleFds(sockets, destIp, destPort, protocol),
        FdsBoundTo(sockets, destIp, destPort, protocol) + FdsBoundTo(sockets, 0, destPort, protocol);
    forall fd
      ensures fd in l <==> fd in r
    {
      if fd in sockets {
        assert Eligible(sockets[fd], destIp, destPort, protocol) <==>
          OnPort(sockets[fd], destPort, protocol) && (sockets[fd].local.GetAddr() == destIp || sockets[fd].local.GetAddr() == 0);
      }
    }
  }

  // Unicast: at most one receiver, one bound to that very address if there is any, otherwise a
  // wildcard one if there is any; for every iteration order.
  lemma UnicastRouting(sockets: map<int, SocketView>, destIp: uint32, destPort: uint16, protocol: Protocol,
                       order: seq<int>)
    requires IsOrder(order, sockets.Keys) && !IsFanOut(destIp)
    ensures var r := FindTargets(sockets, destIp, destPort, protocol, order, MAX_TARGETS);
      var exact := FdsBoundTo(sockets, destIp, destPort, protocol);
      var wild := FdsBoundTo(sockets, 0, destPort, protocol);
      && EligibleFds(sockets, destIp, destPort, protocol) == exact + wild
      && (r == [] <==> exact + wild == {})
      && |r| <= 1
      && (exact != {} ==> |r| == 1 && r[0] in exact)
      && (exact == {} && wild != {} ==> |r| == 1 && r[0] in wild)
  {
    hide IsFanOut, BSwap32, BSwap16;
    EligibleForUnicast(sockets, destIp, destPort, protocol);
    var exact := FdsBoundTo(sockets, destIp, destPort, protocol);
    var wild := FdsBoundTo(sockets, 0, destPort, protocol);
    FdsAreRegistered(sockets, destIp, destPort, protocol);
    FirstMeaning(order, exact);
    FirstMeaning(order, wild);
    forall fd | fd in exact || fd in wild
      ensures fd in order
    {
      assert fd in sockets.Keys;
    }
  }

  lemma FdsAreRegistered(sockets: map<int, SocketView>, destIp: uint32, destPort: uint16, protocol: Protocol)
    ensures EligibleFds(sockets, destIp, destPort, protocol) <= sockets.Keys
    ensures FdsBoundTo(sockets, destIp, destPort, protocol) <= sockets.Keys
    ensures FdsBoundTo(sockets, 0, destPort, protocol) <= sockets.Keys
  {
    hide BSwap32, BSwap16, Eligible;
  }

  // Broadcast and multicast: exactly the eligible sockets when there are at most 8 of them,
  // otherwise 8 different eligible ones; for every iteration order.
  lemma FanOutRouting(sockets: map<int, SocketView>, destIp: uint32, destPort: uint16, protocol: Protocol,
                      order: seq<int>)
    requires IsOrder(order, sockets.Keys) && IsFanOut(destIp)
    ensures var r := FindTargets(sockets, destIp, destPort, protocol, order, MAX_TARGETS);
      var eligible := EligibleFds(sockets, destIp, destPort, protocol);
      && (forall i, j | 0 <= i < j < |r| :: r[i] != r[j])
      && (set fd | fd in r) <= eligible
      && |r| == (if |eligible| <= MAX_TARGETS then |eligible| else MAX_TARGETS)
      && (|eligible| <= MAX_TARGETS ==> (set fd | fd in r) == eligible)
  {
    hide IsFanOut, BSwap32, BSwap16, Eligible;
    var eligible := EligibleFds(sockets, destIp, destPort, protocol);
    FdsAreRegistered(sockets, destIp, destPort, protocol);
    CollectMeaning(order, eligible, MAX_TARGETS);
    var r := Collect(order, eligible, MAX_TARGETS);
    DistinctSize(r);
    SubsetSize((set fd | fd in r), eligible);
    if |r| < MAX_TARGETS {
      forall fd | fd in eligible
        ensures fd in r
      {
        assert fd in sockets.Keys && fd in order;
      }
      assert (set fd | fd in r) == eligible;
    }
  }

  // Either way a datagram finds nobody exactly when nobody is eligible, and goes to eligible sockets only.
  lemma TargetsAreEligible(sockets: map<int, SocketView>, destIp: uint32, destPort: uint16, protocol: Protocol,
                           order: seq<int>)
    requires IsOrder(order, sockets.Keys)
    ensures var r := FindTargets(sockets, destIp, destPort, protocol, order, MAX_TARGETS);
      && (r == [] <==> EligibleFds(sockets, destIp, destPort, protocol) == {})
      && (forall fd | fd in r :: fd in EligibleFds(sockets, destIp, destPort, protocol))
      && (forall i, j | 0 <= i < j < |r| :: r[i] != r[j])
  {
    var r := FindTargets(sockets, destIp, destPort, protocol, order, MAX_TARGETS);
    if IsFanOut(destIp) {
      FanOutRouting(sockets, destIp, destPort, protocol, order);
      assert forall fd | fd in r :: fd in set x | x in r;
    } else {
      UnicastRouting(sockets, destIp, destPort, protocol, order);
    }
  }

  // ---- The second rule, used for packets that waited for a bind ----

  predicate PacketMatches(localIp: uint32, destIp: uint32) {
    localIp == 0 || localIp == destIp
    || (IsBroadcastDestination(destIp) && HighHalf(localIp) == HighHalf(destIp))
  }

  predicate IsEverybodyAddress(ip: uint32) {
    ip == LIMITED_BROADCAST || IsMulticast(ip)
  }

  // The two rules agree on unicast and subnet broadcast. On limited broadcast and multicast the
  // routing rule accepts every socket, the other one only those it would accept anyway.
  lemma RulesAgree(v: SocketView, destIp: uint32, destPort: uint16, protocol: Protocol)
    requires OnPort(v, destPort, protocol)
    ensures !IsEverybodyAddress(destIp) ==>
              (Eligible(v, destIp, destPort, protocol) <==> PacketMatches(v.local.GetAddr(), destIp))
    ensures IsEverybodyAddress(destIp) ==> Eligible(v, destIp, destPort, protocol)
    ensures PacketMatches(v.local.GetAddr(), destIp) ==> Eligible(v, destIp, destPort, protocol)
  {
    assert destIp % 0x1_0000 == 0xFFFF ==> destIp % 0x100 == 0xFF;
  }

  // ---- Operations ----

  function Route(s: NetState, d: Datagram, now: uint64, order: seq<int>): (NetState, bool) {
    if s.localIp != 0 && d.sourceIp == s.localIp then (s, true)
    else
      var targets := FindTargets(s.sockets, d.destIp, d.destPort, d.protocol, order, MAX_TARGETS);
      if targets != [] then (s.(sockets := Fan(s.sockets, targets, d)), true)
      else if d.protocol == Udp then (s, false)
      else (s.(pending := Ring.PushBounded(s.pending, ToPending(d, now), MAX_PENDING)), false)
  }

  function ToPending(d: Datagram, now: uint64): PendingPacket {
    PendingPacket(d.sourceIp, d.sourcePort, d.destIp, d.destPort, d.protocol, now, Prefix(d.data, PENDING_PAYLOAD_MAX))
  }

  function Fan(sockets: map<int, SocketView>, targets: seq<int>, d: Datagram): map<int, SocketView> {
    map fd | fd in sockets ::
      if fd in targets then sockets[fd].Incoming(d.data, MakeSockAddr(d.sourceIp, d.sourcePort)) else sockets[fd]
  }

  lemma FanNobody(sockets: map<int, SocketView>, d: Datagram)
    ensures Fan(sockets, [], d) == sockets
  {}

  lemma FanOneMore(sockets: map<int, SocketView>, targets: seq<int>, fd: int, d: Datagram)
    requires fd in sockets && fd !in targets
    ensures Fan(sockets, targets + [fd], d)
         == Fan(sockets, targets, d)[fd := Fan(sockets, targets, d)[fd].Incoming(d.data, MakeSockAddr(d.sourceIp, d.sourcePort))]
  {
    hide MakeSockAddr, SocketView.Incoming;
    assert forall x | x in sockets && x != fd :: x in targets + [fd] <==> x in targets;
  }

  // The two walks over the pending ring, and what each decides about one packet.
  datatype Pass =
    | DeliverPass(localIp: uint32, port: uint16, protocol: Protocol, now: uint64)
    | PurgePass(port: uint16, protocol: Protocol)

  datatype Verdict = Keep | Give | Expire | Purge

  predicate IsStale(p: PendingPacket, now: uint64) {
    now > p.enqueueTime && now - p.enqueueTime > MAX_PENDING_AGE_MS
  }

  function Judge(pass: Pass, p: PendingPacket): Verdict {
    match pass
    case DeliverPass(localIp, port, protocol, now) =>
      if IsStale(p, now) then Expire
      else if p.protocol == protocol && p.destPort == port && PacketMatches(localIp, p.destIp) then Give
      else Keep
    case PurgePass(port, protocol) =>
      if p.protocol == protocol && p.destPort == port then Purge else Keep
  }

  // The packets with the given verdict, in order.
  function Judged(q: seq<PendingPacket>, pass: Pass, verdict: Verdict): seq<PendingPacket> {
    if q == [] then []
    else
      var last := q[|q| - 1];
      Judged(q[..|q| - 1], pass, verdict) + (if Judge(pass, last) == verdict then [last] else [])
  }

  function ToPacket(p: PendingPacket): Packet {
    Packet(MakeSockAddr(p.sourceIp, p.sourcePort), p.data)
  }

  function ToPackets(ps: seq<PendingPacket>): seq<Packet> {
    seq(|ps|, i requires 0 <= i < |ps| => ToPacket(ps[i]))
  }

  function PassFor(v: SocketView, port: uint16, protocol: Protocol, now: uint64): Pass {
    DeliverPass(v.local.GetAddr(), port, protocol, now)
  }

  lemma JudgedSnoc(q: seq<PendingPacket>, p: PendingPacket, pass: Pass, verdict: Verdict)
    ensures Judged(q + [p], pass, verdict) == Judged(q, pass, verdict) + (if Judge(pass, p) == verdict then [p] else [])
  {
    hide Judge;
    assert (q + [p])[..|q|] == q;
  }

  function Deliver(s: NetState, fd: int, port: uint16, protocol: Protocol, now: uint64): NetState
    requires fd in s.sockets
  {
    var v := s.sockets[fd];
    var pass := PassFor(v, port, protocol, now);
    s.(pending := Judged(s.pending, pass, Keep),
       sockets := s.sockets[fd := v.IncomingAll(ToPackets(Judged(s.pending, pass, Give)))])
  }

  // A walk over the pending ring has judged the first k packets: the kept ones are in front, in order,
  // the others are untouched, and socket fd has received what it was given.
  ghost predicate Walk(s: NetState, fd: int, pass: Pass, ring: seq<PendingPacket>, head: nat,
                       views: map<int, SocketView>, k: nat, kept: nat)
    requires fd in s.sockets
  {
    && k <= |s.pending|
    && |Judged(s.pending[..k], pass, Keep)| == kept
    && Ring.Compacted(ring, head, s.pending, k, Judged(s.pending[..k], pass, Keep))
    && views == s.sockets[fd := s.sockets[fd].IncomingAll(ToPackets(Judged(s.pending[..k], pass, Give)))]
  }

  lemma WalkStart(s: NetState, fd: int, pass: Pass, ring: seq<PendingPacket>, head: nat)
    requires fd in s.sockets && head < |ring| && |s.pending| <= |ring| && Ring.View(ring, head, |s.pending|) == s.pending
    ensures Walk(s, fd, pass, ring, head, s.sockets, 0, 0)
  {
    assert s.pending[..0] == [];
    assert ToPackets([]) == [];
    assert s.sockets[fd := s.sockets[fd].IncomingAll([])] == s.sockets;
    assert forall j | 0 <= j < |s.pending| :: s.pending[j] == Ring.View(ring, head, |s.pending|)[j];
  }

  lemma WalkNext(s: NetState, k: nat, pass: Pass, verdict: Verdict)
    requires k < |s.pending|
    ensures Judged(s.pending[..k + 1], pass, verdict)
         == Judged(s.pending[..k], pass, verdict) + (if Judge(pass, s.pending[k]) == verdict then [s.pending[k]] else [])
  {
    hide Judge, Judged;
    assert s.pending[..k + 1] == s.pending[..k] + [s.pending[k]];
    JudgedSnoc(s.pending[..k], s.pending[k], pass, verdict);
  }

  lemma WalkGive(s: NetState, fd: int, pass: Pass, ring: seq<PendingPacket>, head: nat,
                 views: map<int, SocketView>, k: nat, kept: nat)
    requires fd in s.sockets && Walk(s, fd, pass, ring, head, views, k, kept)
    requires k < |s.pending| && Judge(pass, s.pending[k]) == Give
    ensures fd in views
    ensures var p := s.pending[k];
            Walk(s, fd, pass, ring, head, views[fd := views[fd].Incoming(p.data, MakeSockAddr(p.sourceIp, p.sourcePort))], k + 1, kept)
  {
    hide Judge, Judged, MakeSockAddr, SocketView.IncomingAll, SocketView.Incoming;
    WalkNext(s, k, pass, Keep);
    WalkNext(s, k, pass, Give);
    var given := Judged(s.pending[..k], pass, Give);
    var p := s.pending[k];
    assert ToPackets(given + [p]) == ToPackets(given) + [ToPacket(p)];
    IncomingAllSnoc(s.sockets[fd], ToPackets(given), ToPacket(p));
    Ring.CompactSkip(ring, head, s.pending, k, Judged(s.pending[..k], pass, Keep));
  }

  lemma WalkKeep(s: NetState, fd: int, pass: Pass, ring: seq<PendingPacket>, head: nat,
                 views: map<int, SocketView>, k: nat, kept: nat)
    requires fd in s.sockets && Walk(s, fd, pass, ring, head, views, k, kept)
    requires k < |s.pending| && Judge(pass, s.pending[k]) == Keep
    ensures kept <= k < |ring| && head < |ring|
    ensures Walk(s, fd, pass, ring[Ring.Slot(head, kept, |ring|) := s.pending[k]], head, views, k + 1, kept + 1)
  {
    hide Judge, Judged, SocketView.IncomingAll;
    WalkNext(s, k, pass, Keep);
    WalkNext(s, k, pass, Give);
    assert forall verdict :: Judged(s.pending[..k], pass, verdict) + [] == Judged(s.pending[..k], pass, verdict);
    Ring.CompactKeep(ring, head, s.pending, k, Judged(s.pending[..k], pass, Keep));
  }

  lemma WalkDrop(s: NetState, fd: int, pass: Pass, ring: seq<PendingPacket>, head: nat,
                 views: map<int, SocketView>, k: nat, kept: nat)
    requires fd in s.sockets && Walk(s, fd, pass, ring, head, views, k, kept)
    requires k < |s.pending| && Judge(pass, s.pending[k]) != Keep && Judge(pass, s.pending[k]) != Give
    ensures Walk(s, fd, pass, ring, head, views, k + 1, kept)
  {
    hide Judge, Judged, SocketView.IncomingAll;
    WalkNext(s, k, pass, Keep);
    WalkNext(s, k, pass, Give);
    assert forall verdict :: Judged(s.pending[..k], pass, verdict) + [] == Judged(s.pending[..k], pass, verdict);
    Ring.CompactSkip(ring, head, s.pending, k, Judged(s.pending[..k], pass, Keep));
  }

  lemma WalkReads(s: NetState, fd: int, pass: Pass, ring: seq<PendingPacket>, head: nat,
                  views: map<int, SocketView>, k: nat, kept: nat)
    requires fd in s.sockets && Walk(s, fd, pass, ring, head, views, k, kept)
    requires k < |s.pending|
    ensures kept <= k < |ring| && head < |ring| && ring[Ring.Slot(head, k, |ring|)] == s.pending[k]
  {
    hide Judged, SocketView.IncomingAll;
  }

  lemma WalkDone(s: NetState, fd: int, pass: Pass, ring: seq<PendingPacket>, head: nat,
                 views: map<int, SocketView>, kept: nat)
    requires fd in s.sockets && Walk(s, fd, pass, ring, head, views, |s.pending|, kept)
    ensures head < |ring| && kept <= |ring| && Ring.View(ring, head, kept) == Judged(s.pending, pass, Keep)
    ensures views == s.sockets[fd := s.sockets[fd].IncomingAll(ToPackets(Judged(s.pending, pass, Give)))]
  {
    hide Judged, SocketView.IncomingAll;
    assert s.pending[..|s.pending|] == s.pending;
    Ring.CompactDone(ring, head, s.pending, Judged(s.pending, pass, Keep));
  }

  // Some other registered socket has the same protocol and local port.
  predicate HasTwin(sockets: map<int, SocketView>, fd: int, port: uint16, protocol: Protocol) {
    exists other | other in sockets :: other != fd && OnPort(sockets[other], port, protocol)
  }

  lemma TwinIgnoresItself(sockets: map<int, SocketView>, fd: int, v: SocketView, port: uint16, protocol: Protocol)
    requires fd in sockets
    ensures HasTwin(sockets[fd := v], fd, port, protocol) <==> HasTwin(sockets, fd, port, protocol)
    ensures sockets[fd := v] - {fd} == sockets - {fd}
  {
    hide OnPort;
    if HasTwin(sockets, fd, port, protocol) {
      var other :| other in sockets && other != fd && OnPort(sockets[other], port, protocol);
      assert other in sockets[fd := v] && sockets[fd := v][other] == sockets[other];
    }
  }

  function Close(s: NetState, fd: int): NetState {
    if fd !in s.sockets then s
    else
      var v := s.sockets[fd];
      var port := v.local.GetPort();
      NetState(
        s.sockets - {fd},
        if port != 0 && !HasTwin(s.sockets, fd, port, v.protocol)
        then Judged(s.pending, PurgePass(port, v.protocol), Keep) else s.pending,
        s.localIp,
        if port != 0 then s.pool.ReleasePort(port, v.protocol) else s.pool)
  }

  function PurgeStep(s: NetState, fd: int, port: uint16, protocol: Protocol): NetState {
    if port != 0 && !HasTwin(s.sockets, fd, port, protocol)
    then s.(pending := Judged(s.pending, PurgePass(port, protocol), Keep)) else s
  }

  lemma PurgeStepCases(s: NetState, fd: int, port: uint16, protocol: Protocol)
    ensures port == 0 || s.pending == [] || HasTwin(s.sockets, fd, port, protocol) ==>
              PurgeStep(s, fd, port, protocol) == s
    ensures port != 0 && !HasTwin(s.sockets, fd, port, protocol) ==>
              PurgeStep(s, fd, port, protocol) == s.(pending := Judged(s.pending, PurgePass(port, protocol), Keep))
  {
    hide HasTwin;
    assert Judged([], PurgePass(port, protocol), Keep) == [];
  }

  // The code first releases the port and closes the socket, then purges, then unregisters it.
  lemma CloseInSteps(s: NetState, fd: int)
    requires fd in s.sockets
    ensures var v := s.sockets[fd];
      var port := v.local.GetPort();
      var released := s.(sockets := s.sockets[fd := v.Close()],
                         pool := if port != 0 then s.pool.ReleasePort(port, v.protocol) else s.pool);
      var purged := PurgeStep(released, fd, port, v.protocol);
      Close(s, fd) == purged.(sockets := purged.sockets - {fd})
  {
    hide Judged, HasTwin, BSwap16, PoolView.ReleasePort;
    var v := s.sockets[fd];
    TwinIgnoresItself(s.sockets, fd, v.Close(), v.local.GetPort(), v.protocol);
  }

  // All of `fds` closed, still registered.
  function CloseEach(sockets: map<int, SocketView>, fds: seq<int>): map<int, SocketView> {
    map fd | fd in sockets :: if fd in fds then sockets[fd].Close() else sockets[fd]
  }

  lemma CloseNobody(sockets: map<int, SocketView>)
    ensures CloseEach(sockets, []) == sockets
  {}

  lemma CloseOneMore(sockets: map<int, SocketView>, fds: seq<int>, fd: int)
    requires fd in sockets && fd !in fds
    ensures CloseEach(sockets, fds + [fd]) == CloseEach(sockets, fds)[fd := CloseEach(sockets, fds)[fd].Close()]
  {
    hide SocketView.Close;
    assert forall x | x in sockets && x != fd :: x in fds + [fd] <==> x in fds;
  }

  // Pending packets survive this one, unlike Reset.
  function CloseAll(s: NetState): NetState {
    s.(sockets := map[], pool := EMPTY_POOL)
  }

  function Reset(s: NetState): NetState {
    EMPTY_NET
  }

  function SetLocalIp(s: NetState, ip: uint32): NetState {
    if s.localIp != 0 && s.localIp != ip then s.(pending := [], localIp := ip) else s.(localIp := ip)
  }

  // The socket exists afterwards unless all 64 places were taken.
  function Create(s: NetState, fd: int, stype: SocketType, protocol: Protocol): NetState {
    if fd in s.sockets || |s.sockets| >= MAX_PROXY_SOCKETS then s
    else s.(sockets := s.sockets[fd := NewSocket(stype, protocol)])
  }

  // ---- The callers that reserve ports ----

  function BindAddress(s: NetState, addr: SockAddrIn): SockAddrIn {
    if addr.sinAddr == 0 && s.localIp != 0 then addr.(sinAddr := BSwap32(s.localIp)) else addr
  }

  // A port for `addr`: a fresh one if it asks for port 0, else the one it names; 0 if there is none.
  function ClaimPort(pool: PoolView, addr: SockAddrIn, protocol: Protocol): (PoolView, uint16)
    requires pool.Valid()
  {
    if addr.GetPort() == 0 then pool.AllocatePort(protocol)
    else
      var (pool', ok) := pool.ReservePort(addr.GetPort(), protocol);
      (pool', if ok then addr.GetPort() else 0)
  }

  // Bind command on an LDN or INADDR_ANY address, up to the delivery of what waited for it. The
  // port is 0 when none could be claimed.
  function ClaimAndBind(s: NetState, fd: int, stype: SocketType, protocol: Protocol, addr: SockAddrIn)
    : (r: (NetState, uint16, Option<Errno>))
    requires s.pool.Valid()
    ensures r.2 == None ==> fd in r.0.sockets
  {
    var created := Create(s, fd, stype, protocol);
    if fd !in created.sockets then (created, 0, Some(NoMem))
    else
      var wanted := BindAddress(s, addr);
      var (pool, port) := ClaimPort(s.pool, wanted, protocol);
      if port == 0 then (created, 0, Some(AddrInUse))
      else
        var (v, error) := created.sockets[fd].Bind(wanted.(sinPort := BSwap16(port)));
        (created.(pool := pool, sockets := created.sockets[fd := v]), port, error)
  }

  function BindFd(s: NetState, fd: int, stype: SocketType, protocol: Protocol, addr: SockAddrIn, now: uint64)
    : (NetState, Option<Errno>)
    requires s.pool.Valid()
  {
    var (bound, port, error) := ClaimAndBind(s, fd, stype, protocol, addr);
    if error.Some? then (bound, error) else (Deliver(bound, fd, port, protocol, now), None)
  }

  // Connect and SendTo bind a socket that has no proxy yet.
  function AutoBind(s: NetState, fd: int, stype: SocketType, protocol: Protocol): (NetState, Option<Errno>)
    requires s.pool.Valid()
  {
    if fd in s.sockets then (s, None)
    else
      var created := Create(s, fd, stype, protocol);
      if fd !in created.sockets then (created, Some(NoMem))
      else
        var (pool, port) := s.pool.AllocatePort(protocol);
        if port == 0 then (created, Some(AddrInUse))
        else
          var v := created.sockets[fd].Bind(MakeSockAddr(s.localIp, port)).0;
          (created.(pool := pool, sockets := created.sockets[fd := v]), None)
  }
}
