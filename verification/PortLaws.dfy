/** The port pools in plain numbers: which ports they lend, whose they are, and where the search goes on. */
module PortLaws {
  import opened BsdTypes
  import opened PortPool

  // The bitset entry of a port, and the pool of a protocol: TCP has one, everybody else shares the other.
  predicate Lent(v: PoolView, protocol: Protocol, port: uint16) {
    49152 <= port && (port - 49152) in (if protocol == Tcp then v.tcp.held else v.udp.held)
  }

  function HintOf(v: PoolView, protocol: Protocol): nat {
    if protocol == Tcp then v.tcp.hint else v.udp.hint
  }

  // How many ports the search tries before `port`, upwards from the hint and round at 65535.
  function TriedBefore(v: PoolView, protocol: Protocol, port: uint16): int {
    (port - 49152 - HintOf(v, protocol)) % 16384
  }

  // From v to w only the answers for `port` in the pool of `protocol` may differ.
  ghost predicate OnlyPort(v: PoolView, w: PoolView, protocol: Protocol, port: uint16) {
    forall other: Protocol, p: uint16 | p != port || (other == Tcp) != (protocol == Tcp) ::
      Lent(w, other, p) == Lent(v, other, p)
  }

  // The hints of v and w agree, except that of the pool of `protocol`.
  predicate OtherHintStays(v: PoolView, w: PoolView, protocol: Protocol) {
    (protocol == Tcp || w.tcp.hint == v.tcp.hint) && (protocol != Tcp || w.udp.hint == v.udp.hint)
  }

  lemma DistanceInNumbers(hint: nat, index: nat)
    requires hint < 16384 && index < 16384
    ensures Distance(hint, index) == (index - hint) % 16384
  {}

  lemma LentIsHeld(v: PoolView, protocol: Protocol)
    ensures forall p: uint16 | 49152 <= p :: Lent(v, protocol, p) <==> IsEphemeral(p) && v.Holds(protocol, p)
  {}

  // An allocation lends a port that was not lent, and the next search begins one port further. It fails
  // exactly when all 16384 ports are lent.
  lemma AllocateInNumbers(v: PoolView, protocol: Protocol)
    requires v.Valid()
    ensures var (w, port) := v.AllocatePort(protocol);
      && (port == 0 <==> forall p: uint16 | 49152 <= p :: Lent(v, protocol, p))
      && (port == 0 ==> w == v)
      && (port != 0 ==>
            && 49152 <= port && !Lent(v, protocol, port)
            && Lent(w, protocol, port) && OnlyPort(v, w, protocol, port)
            && HintOf(w, protocol) == (port - 49152 + 1) % 16384 && OtherHintStays(v, w, protocol))
  {
    AllocatePortMeaning(v, protocol);
    LentIsHeld(v, protocol);
    hide PoolView.AllocatePort;
  }

  // Which one: the first that is not lent, counting upwards from the hint and round at 65535.
  lemma AllocateTakesTheFirst(v: PoolView, protocol: Protocol, p: uint16)
    requires v.Valid() && 49152 <= p && !Lent(v, protocol, p)
    ensures var port := v.AllocatePort(protocol).1;
            TriedBefore(v, protocol, port) <= TriedBefore(v, protocol, p)
  {
    var s := v.Of(protocol);
    AllocateIsNearestFree(s);
    hide Allocate;
    assert s.Free(p - 49152);
    DistanceInNumbers(s.hint, p - 49152);
    DistanceInNumbers(s.hint, Allocate(s).1.value);
  }

  // A named port is refused exactly when it is lent already; below 49152 nothing is lent or refused.
  lemma ReserveInNumbers(v: PoolView, port: uint16, protocol: Protocol)
    ensures var (w, ok) := v.ReservePort(port, protocol);
      && (ok <==> !Lent(v, protocol, port))
      && (Lent(w, protocol, port) <==> 49152 <= port)
      && OnlyPort(v, w, protocol, port) && w.tcp.hint == v.tcp.hint && w.udp.hint == v.udp.hint
  {}

  // After a release the port is not lent, and the search does not start over.
  lemma ReleaseInNumbers(v: PoolView, port: uint16, protocol: Protocol)
    ensures var w := v.ReleasePort(port, protocol);
      && !Lent(w, protocol, port)
      && OnlyPort(v, w, protocol, port) && w.tcp.hint == v.tcp.hint && w.udp.hint == v.udp.hint
  {}
}
