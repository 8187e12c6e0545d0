/** One proxy socket: its state, its receive ring of 64 packets, and its receive event. */
module ProxySocket {
  import opened BsdTypes
  import Ring

  const MAX_QUEUE_SIZE: nat := 64
  const MAX_PAYLOAD: nat := 2000

  // A filled slot: the bytes are the first `len` of the slot's fixed buffer.
  datatype Packet = Packet(from: SockAddrIn, data: seq<byte>)

  datatype SocketState = Created | Bound | Connecting | Connected | Listening | Closed

  datatype ShutdownHow = ShutRead | ShutWrite | ShutBoth | ShutOther(how: int)

  // MustWait: the queue was empty and the caller now blocks on the receive event.
  datatype RecvOutcome = Eof | Failed(errno: Errno) | Received(data: seq<byte>, from: SockAddrIn) | MustWait

  // Bit tests on an s32 in two's complement.
  predicate WantsPeek(flags: int) {
    flags / 0x2 % 2 == 1
  }

  predicate WantsNoWait(flags: int) {
    flags / 0x80 % 2 == 1
  }

  function Prefix(data: seq<byte>, len: nat): seq<byte> {
    if len < |data| then data[..len] else data
  }

  // ---- What one socket is and what each operation does to it ----

  datatype SocketView = SocketView(
    stype: SocketType, protocol: Protocol, state: SocketState, nonBlocking: bool,
    shutdownRead: bool, shutdownWrite: bool, local: SockAddrIn,
    queue: seq<Packet>, signalled: bool)
  {
    function Bind(addr: SockAddrIn): (SocketView, Option<Errno>) {
      if state != Created then (this, Some(Inval))
      else if addr.sinFamily != AF_INET then (this, Some(AfNoSupport))
      else (this.(local := addr, state := Bound), None)
    }

    function Incoming(data: seq<byte>, from: SockAddrIn): SocketView {
      this.(queue := Ring.PushBounded(queue, Packet(from, Prefix(data, MAX_PAYLOAD)), MAX_QUEUE_SIZE),
            signalled := true)
    }

    function IncomingAll(packets: seq<Packet>): SocketView
      decreases |packets|
    {
      if packets == [] then this
      else Incoming(packets[0].data, packets[0].from).IncomingAll(packets[1..])
    }

    function ConsumeFront(len: nat, peek: bool): (SocketView, RecvOutcome)
      requires queue != []
    {
      var rest := if peek then queue else queue[1..];
      (this.(queue := rest, signalled := signalled && rest != []),
       Received(Prefix(queue[0].data, len), queue[0].from))
    }

    function RecvTry(hasBuffer: bool, len: nat, peek: bool, noWait: bool): (SocketView, RecvOutcome) {
      if shutdownRead then (this, Eof)
      else if state == Closed then (this, Failed(BadF))
      else if !hasBuffer && len > 0 then (this, Failed(Fault))
      else if queue != [] then ConsumeFront(len, peek)
      else if noWait || nonBlocking then (this, Failed(Again))
      else (this, MustWait)
    }

    // The second critical section of RecvFrom, after the receive event let the reader through.
    function RecvWoken(len: nat, peek: bool): (SocketView, RecvOutcome) {
      if queue != [] then ConsumeFront(len, peek) else (this, Failed(Again))
    }

    function Shutdown(how: ShutdownHow): (SocketView, Option<Errno>) {
      match how
      case ShutRead => (this.(shutdownRead := true, signalled := true), None)
      case ShutWrite => (this.(shutdownWrite := true, signalled := true), None)
      case ShutBoth => (this.(shutdownRead := true, shutdownWrite := true, signalled := true), None)
      case ShutOther(_) => (this, Some(Inval))
    }

    // Close works in two steps: flags and event first, then the queue under its own lock.
    function CloseBegin(): SocketView {
      this.(state := Closed, shutdownRead := true, shutdownWrite := true, signalled := true)
    }

    function CloseEnd(): SocketView {
      this.(queue := [])
    }

    function Close(): SocketView {
      CloseBegin().CloseEnd()
    }
  }

  const UNBOUND_ADDR := SockAddrIn(SOCK_ADDR_IN_SIZE, AF_INET, 0, 0)

  function NewSocket(stype: SocketType, protocol: Protocol): SocketView {
    SocketView(stype, protocol, Created, false, false, false, UNBOUND_ADDR, [], false)
  }

  function TotalLength(queue: seq<Packet>): nat {
    if queue == [] then 0 else |queue[0].data| + TotalLength(queue[1..])
  }

  lemma {:induction false} TotalLengthSnoc(queue: seq<Packet>, p: Packet)
    ensures TotalLength(queue + [p]) == TotalLength(queue) + |p.data|
  {
    if queue == [] {
      assert queue + [p] == [p];
    } else {
      TotalLengthSnoc(queue[1..], p);
      assert (queue + [p])[1..] == queue[1..] + [p];
    }
  }

  lemma {:induction false} IncomingAllQueue(s: SocketView, packets: seq<Packet>)
    requires forall p | p in packets :: |p.data| <= MAX_PAYLOAD
    ensures s.IncomingAll(packets) ==
            s.(queue := Ring.PushAll(s.queue, packets, MAX_QUEUE_SIZE), signalled := s.signalled || packets != [])
    decreases |packets|
  {
    if packets != [] {
      IncomingAllQueue(s.Incoming(packets[0].data, packets[0].from), packets[1..]);
    }
  }

  lemma {:induction false} IncomingAllSnoc(s: SocketView, packets: seq<Packet>, p: Packet)
    ensures s.IncomingAll(packets + [p]) == s.IncomingAll(packets).Incoming(p.data, p.from)
    decreases |packets|
  {
    if packets == [] {
      assert packets + [p] == [p];
    } else {
      assert (packets + [p])[1..] == packets[1..] + [p];
      IncomingAllSnoc(s.Incoming(packets[0].data, packets[0].from), packets[1..], p);
    }
  }

  // ---- The object ----

  class ProxySocket {
    const stype: SocketType
    const protocol: Protocol
    const rxRing: array<Packet>
    var state: SocketState
    var nonBlocking: bool
    var shutdownRead: bool
    var shutdownWrite: bool
    var localAddr: SockAddrIn
    var rxHead: nat
    var rxTail: nat
    var rxCount: nat
    var receiveEvent: bool

    ghost predicate Valid()
      reads this
    {
      rxRing.Length == MAX_QUEUE_SIZE && Ring.WellFormed(MAX_QUEUE_SIZE, rxHead, rxTail, rxCount)
    }

    ghost function Repr(): set<object> {
      {this, rxRing}
    }

    ghost function View(): SocketView
      requires Valid()
      reads this, rxRing
    {
      SocketView(stype, protocol, state, nonBlocking, shutdownRead, shutdownWrite, localAddr,
                 Ring.View(rxRing[..], rxHead, rxCount), receiveEvent)
    }

    constructor (stype: SocketType, protocol: Protocol)
      ensures Valid() && fresh(Repr())
      ensures View() == NewSocket(stype, protocol)
    {
      this.stype, this.protocol := stype, protocol;
      rxRing := new Packet[MAX_QUEUE_SIZE](_ => Packet(UNBOUND_ADDR, []));
      state := Created;
      nonBlocking, shutdownRead, shutdownWrite := false, false, false;
      localAddr := UNBOUND_ADDR;
      rxHead, rxTail, rxCount := 0, 0, 0;
      receiveEvent := false;
    }

    method Bind(addr: SockAddrIn) returns (error: Option<Errno>)
      requires Valid()
      modifies this
      ensures Valid()
      ensures (View(), error) == old(View().Bind(addr))
      ensures error == None <==> old(state) == Created && addr.sinFamily == 2
      ensures error == None ==> View() == old(View()).(local := addr, state := Bound)
      ensures error != None ==> View() == old(View())
    {
      if state != Created {
        return Some(Inval);
      }
      if addr.sinFamily != AF_INET {
        return Some(AfNoSupport);
      }
      localAddr := addr;
      state := Bound;
      return None;
    }

    method IncomingData(data: seq<byte>, from: SockAddrIn)
      requires Valid()
      modifies this, rxRing
      ensures Valid()
      ensures View() == old(View().Incoming(data, from))
    {
      if rxCount >= MAX_QUEUE_SIZE {
        Ring.DropFront(rxRing[..], rxHead, rxCount);
        rxHead := (rxHead + 1) % MAX_QUEUE_SIZE;
        rxCount := rxCount - 1;
      }
      var packet := Packet(from, Prefix(data, MAX_PAYLOAD));
      Ring.WriteBack(rxRing[..], rxHead, rxCount, packet);
      rxRing[rxTail] := packet;
      rxTail := (rxTail + 1) % MAX_QUEUE_SIZE;
      rxCount := rxCount + 1;
      receiveEvent := true;
    }

    method ConsumeFront(len: nat, peek: bool) returns (outcome: RecvOutcome)
      requires Valid() && rxCount > 0
      modifies this
      ensures Valid()
      ensures (View(), outcome) == old(View().ConsumeFront(len, peek))
    {
      var slot := rxRing[rxHead];
      Ring.DropFront(rxRing[..], rxHead, rxCount);
      if !peek {
        rxHead := (rxHead + 1) % MAX_QUEUE_SIZE;
        rxCount := rxCount - 1;
      }
      if rxCount == 0 {
        receiveEvent := false;
      }
      outcome := Received(Prefix(slot.data, len), slot.from);
    }

    // RecvFrom up to the point where it either returns or starts to wait.
    method RecvTry(hasBuffer: bool, len: nat, flags: int) returns (outcome: RecvOutcome)
      requires Valid()
      modifies this
      ensures Valid()
      ensures (View(), outcome) == old(View().RecvTry(hasBuffer, len, WantsPeek(flags), WantsNoWait(flags)))
    {
      if shutdownRead {
        return Eof;
      }
      if state == Closed {
        return Failed(BadF);
      }
      if !hasBuffer && len > 0 {
        return Failed(Fault);
      }
      var dontWait := WantsNoWait(flags) || nonBlocking;
      if rxCount == 0 {
        if dontWait {
          return Failed(Again);
        }
      } else {
        outcome := ConsumeFront(len, WantsPeek(flags));
        return;
      }
      return MustWait;
    }

    // The rest of RecvFrom, entered when the wait on the event is over.
    method RecvWoken(len: nat, peek: bool) returns (outcome: RecvOutcome)
      requires Valid()
      modifies this
      ensures Valid()
      ensures (View(), outcome) == old(View().RecvWoken(len, peek))
    {
      if rxCount > 0 {
        outcome := ConsumeFront(len, peek);
        return;
      }
      return Failed(Again);
    }

    method Shutdown(how: ShutdownHow) returns (error: Option<Errno>)
      requires Valid()
      modifies this
      ensures Valid()
      ensures (View(), error) == old(View().Shutdown(how))
    {
      match how {
        case ShutRead => shutdownRead := true;
        case ShutWrite => shutdownWrite := true;
        case ShutBoth => shutdownRead, shutdownWrite := true, true;
        case ShutOther(_) => return Some(Inval);
      }
      receiveEvent := true;
      return None;
    }

    method Close()
      requires Valid()
      modifies this
      ensures Valid()
      ensures View() == old(View().Close())
    {
      state := Closed;
      shutdownRead := true;
      shutdownWrite := true;
      receiveEvent := true;
      rxHead := 0;
      rxTail := 0;
      rxCount := 0;
    }

    method HasPendingData() returns (pending: bool)
      requires Valid()
      ensures pending <==> View().queue != []
    {
      pending := rxCount > 0;
    }

    method GetPendingDataSize() returns (total: nat)
      requires Valid()
      ensures total == TotalLength(View().queue)
    {
      total := 0;
      var idx := rxHead;
      ghost var queue := View().queue;
      for i := 0 to rxCount
        invariant idx == (if i == MAX_QUEUE_SIZE then rxHead else Ring.Slot(rxHead, i, MAX_QUEUE_SIZE))
        invariant total == TotalLength(queue[..i])
      {
        TotalLengthSnoc(queue[..i], queue[i]);
        assert queue[..i + 1] == queue[..i] + [queue[i]];
        total := total + |rxRing[idx].data|;
        idx := (idx + 1) % MAX_QUEUE_SIZE;
      }
      assert queue[..rxCount] == queue;
    }
  }
}
