/** The round-robin allocator of ephemeral ports: one bitset and one hint for UDP, one of each for TCP. */
module PortPool {
  import opened BsdTypes
  import Ring

  const EPHEMERAL_PORT_MIN: uint16 := 49152
  const EPHEMERAL_PORT_COUNT: nat := 16384

  function PortToIndex(port: uint16): nat {
    if port < EPHEMERAL_PORT_MIN then EPHEMERAL_PORT_COUNT else port - EPHEMERAL_PORT_MIN
  }

  function IndexToPort(index: nat): uint16
    requires index < EPHEMERAL_PORT_COUNT
  {
    EPHEMERAL_PORT_MIN + index
  }

  predicate IsEphemeral(port: uint16) {
    port >= EPHEMERAL_PORT_MIN
  }

  // ---- One bitset with its hint ----

  datatype Side = Side(held: set<nat>, hint: nat) {
    predicate Valid() {
      hint < EPHEMERAL_PORT_COUNT && forall i | i in held :: i < EPHEMERAL_PORT_COUNT
    }

    predicate Free(i: nat) {
      i < EPHEMERAL_PORT_COUNT && i !in held
    }
  }

  // (index - hint) mod 16384: how many candidates the search tries before index.
  function Distance(hint: nat, index: nat): int {
    if index >= hint then index - hint else index + EPHEMERAL_PORT_COUNT - hint
  }

  // The first free index when the candidates hint + k, hint + k + 1, ... are tried in turn.
  function Search(s: Side, k: nat): Option<nat>
    decreases EPHEMERAL_PORT_COUNT - k
  {
    if k >= EPHEMERAL_PORT_COUNT then None
    else
      var index := Ring.Slot(s.hint, k, EPHEMERAL_PORT_COUNT);
      if index !in s.held then Some(index) else Search(s, k + 1)
  }

  function Advance(index: nat): nat {
    Ring.Slot(index, 1, EPHEMERAL_PORT_COUNT)
  }

  function Allocate(s: Side): (Side, Option<nat>) {
    match Search(s, 0)
    case None => (s, None)
    case Some(index) => (Side(s.held + {index}, Advance(index)), Some(index))
  }

  function Reserve(s: Side, index: nat): (Side, bool) {
    if index in s.held then (s, false) else (s.(held := s.held + {index}), true)
  }

  function Release(s: Side, index: nat): Side {
    s.(held := s.held - {index})
  }

  lemma DistanceOfSlot(hint: nat, k: nat)
    requires hint < EPHEMERAL_PORT_COUNT && k < EPHEMERAL_PORT_COUNT
    ensures Distance(hint, Ring.Slot(hint, k, EPHEMERAL_PORT_COUNT)) == k
  {}

  lemma {:induction false} SearchFrom(s: Side, k: nat)
    requires s.Valid() && k <= EPHEMERAL_PORT_COUNT
    ensures Search(s, k) == None <==> forall i: nat | s.Free(i) :: Distance(s.hint, i) < k
    ensures Search(s, k).Some? ==>
              var index := Search(s, k).value;
              s.Free(index) && Distance(s.hint, index) >= k &&
              forall i: nat | s.Free(i) && Distance(s.hint, i) >= k :: Distance(s.hint, index) <= Distance(s.hint, i)
    decreases EPHEMERAL_PORT_COUNT - k
  {
    if k < EPHEMERAL_PORT_COUNT {
      var index := Ring.Slot(s.hint, k, EPHEMERAL_PORT_COUNT);
      DistanceOfSlot(s.hint, k);
      SearchFrom(s, k + 1);
      forall i: nat | s.Free(i) && Distance(s.hint, i) == k
        ensures i == index
      {}
    }
  }

  // The allocated index is the free one nearest to the hint going upwards; failure means a full pool.
  lemma AllocateIsNearestFree(s: Side)
    requires s.Valid()
    ensures Allocate(s).0.Valid()
    ensures Allocate(s).1 == None <==> forall i: nat | i < EPHEMERAL_PORT_COUNT :: i in s.held
    ensures Allocate(s).1.Some? ==>
              var index := Allocate(s).1.value;
              s.Free(index) && Allocate(s).0.held == s.held + {index} &&
              forall i: nat | s.Free(i) && i != index :: Distance(s.hint, index) < Distance(s.hint, i)
  {
    SearchFrom(s, 0);
    if Search(s, 0) == None {
      forall i: nat | i < EPHEMERAL_PORT_COUNT
        ensures i in s.held
      {
        assert Distance(s.hint, i) >= 0;
        assert !s.Free(i);
      }
    }
  }

  // ---- Both sides ----

  datatype PoolView = PoolView(udp: Side, tcp: Side) {
    predicate Valid() {
      udp.Valid() && tcp.Valid()
    }

    // Only TCP has a pool of its own; every other protocol shares the UDP one.
    function Of(protocol: Protocol): Side {
      if protocol.Tcp? then tcp else udp
    }

    function With(protocol: Protocol, s: Side): PoolView {
      if protocol.Tcp? then this.(tcp := s) else this.(udp := s)
    }

    predicate Holds(protocol: Protocol, port: uint16) {
      PortToIndex(port) in Of(protocol).held
    }

    function AllocatePort(protocol: Protocol): (PoolView, uint16)
      requires Valid()
    {
      AllocateIsNearestFree(Of(protocol));
      var (s, r) := Allocate(Of(protocol));
      match r
      case None => (this, 0)
      case Some(index) => (With(protocol, s), IndexToPort(index))
    }

    function ReservePort(port: uint16, protocol: Protocol): (PoolView, bool) {
      if PortToIndex(port) >= EPHEMERAL_PORT_COUNT then (this, true)
      else
        var (s, ok) := Reserve(Of(protocol), PortToIndex(port));
        (With(protocol, s), ok)
    }

    function ReleasePort(port: uint16, protocol: Protocol): PoolView {
      if PortToIndex(port) >= EPHEMERAL_PORT_COUNT then this
      else With(protocol, Release(Of(protocol), PortToIndex(port)))
    }
  }

  const EMPTY_POOL := PoolView(Side({}, 0), Side({}, 0))

  // What an allocation means to its caller.
  lemma AllocatePortMeaning(v: PoolView, protocol: Protocol)
    requires v.Valid()
    ensures var (w, port) := v.AllocatePort(protocol);
      && w.Valid()
      && (port == 0 <==> forall p: uint16 | IsEphemeral(p) :: v.Holds(protocol, p))
      && (port == 0 ==> w == v)
      && (port != 0 ==> IsEphemeral(port) && !v.Holds(protocol, port))
      && (port != 0 ==> w == v.With(protocol, Side(v.Of(protocol).held + {PortToIndex(port)}, Advance(PortToIndex(port)))))
  {
    var s := v.Of(protocol);
    AllocateIsNearestFree(s);
    if Allocate(s).1 == None {
      forall p: uint16 | IsEphemeral(p)
        ensures v.Holds(protocol, p)
      {}
    } else {
      var index := Allocate(s).1.value;
      assert PortToIndex(IndexToPort(index)) == index;
      assert !v.Holds(protocol, IndexToPort(index));
    }
  }

  // A refused reservation changes nothing; only an ephemeral port that is held is refused.
  lemma ReservePortMeaning(v: PoolView, port: uint16, protocol: Protocol)
    ensures var (w, ok) := v.ReservePort(port, protocol);
      && (!ok <==> IsEphemeral(port) && v.Holds(protocol, port))
      && (!ok || !IsEphemeral(port) ==> w == v)
      && (ok && IsEphemeral(port) ==> w == v.With(protocol, w.Of(protocol)) && w.Holds(protocol, port))
  {}

  // ---- The pool object ----

  class EphemeralPortPool {
    const udpPorts: array<bool>
    const tcpPorts: array<bool>
    var udpHint: nat
    var tcpHint: nat

    ghost predicate Valid()
      reads this
    {
      && udpPorts != tcpPorts
      && udpPorts.Length == tcpPorts.Length == EPHEMERAL_PORT_COUNT
      && udpHint < EPHEMERAL_PORT_COUNT && tcpHint < EPHEMERAL_PORT_COUNT
    }

    ghost function Repr(): set<object> {
      {this, udpPorts, tcpPorts}
    }

    static ghost function Held(bits: array<bool>): set<nat>
      reads bits
    {
      set i: nat | i < bits.Length && bits[i]
    }

    ghost function View(): (v: PoolView)
      requires Valid()
      reads this, udpPorts, tcpPorts
      ensures v.Valid()
    {
      PoolView(Side(Held(udpPorts), udpHint), Side(Held(tcpPorts), tcpHint))
    }

    constructor ()
      ensures Valid() && fresh(Repr()) && View() == EMPTY_POOL
    {
      udpPorts := new bool[EPHEMERAL_PORT_COUNT](_ => false);
      tcpPorts := new bool[EPHEMERAL_PORT_COUNT](_ => false);
      udpHint, tcpHint := 0, 0;
    }

    function GetBitset(protocol: Protocol): array<bool> {
      if protocol.Tcp? then tcpPorts else udpPorts
    }

    method AllocatePort(protocol: Protocol) returns (port: uint16)
      requires Valid()
      modifies Repr()
      ensures Valid()
      ensures (View(), port) == old(View().AllocatePort(protocol))
    {
      var bitset := GetBitset(protocol);
      var hint := if protocol.Tcp? then tcpHint else udpHint;
      ghost var before := View();
      ghost var s := before.Of(protocol);
      var i := 0;
      while i < EPHEMERAL_PORT_COUNT
        invariant 0 <= i <= EPHEMERAL_PORT_COUNT
        invariant Search(s, 0) == Search(s, i)
        invariant Valid() && View() == before
      {
        var index := (hint + i) % EPHEMERAL_PORT_COUNT;
        assert index == Ring.Slot(hint, i, EPHEMERAL_PORT_COUNT);
        if !bitset[index] {
          bitset[index] := true;
          assert Held(bitset) == s.held + {index};
          if protocol.Tcp? {
            tcpHint := (index + 1) % EPHEMERAL_PORT_COUNT;
          } else {
            udpHint := (index + 1) % EPHEMERAL_PORT_COUNT;
          }
          assert View().Of(protocol) == Allocate(s).0;
          assert View() == before.With(protocol, Allocate(s).0);
          return IndexToPort(index);
        }
        i := i + 1;
      }
      return 0;
    }

    method AllocateSpecificPort(port: uint16, protocol: Protocol) returns (ok: bool)
      requires Valid()
      modifies Repr()
      ensures Valid()
      ensures (View(), ok) == old(View().ReservePort(port, protocol))
    {
      var index := PortToIndex(port);
      if index >= EPHEMERAL_PORT_COUNT {
        return true;
      }
      var bitset := GetBitset(protocol);
      if bitset[index] {
        return false;
      }
      ghost var held := Held(bitset);
      bitset[index] := true;
      assert Held(bitset) == held + {index};
      return true;
    }

    method ReleasePort(port: uint16, protocol: Protocol)
      requires Valid()
      modifies Repr()
      ensures Valid()
      ensures View() == old(View().ReleasePort(port, protocol))
    {
      var index := PortToIndex(port);
      if index >= EPHEMERAL_PORT_COUNT {
        return;
      }
      var bitset := GetBitset(protocol);
      ghost var held := Held(bitset);
      bitset[index] := false;
      assert Held(bitset) == held - {index};
    }

    // The loop stands for std::bitset::count.
    method GetAvailableCount(protocol: Protocol) returns (available: nat)
      requires Valid()
      ensures available + |View().Of(protocol).held| == EPHEMERAL_PORT_COUNT
    {
      var bitset := GetBitset(protocol);
      var count := 0;
      ghost var counted: set<nat> := {};
      for i := 0 to EPHEMERAL_PORT_COUNT
        invariant count == |counted| <= i
        invariant counted == set j: nat | j < i && bitset[j]
      {
        if bitset[i] {
          count := count + 1;
          counted := counted + {i};
        }
      }
      assert counted == Held(bitset);
      available := EPHEMERAL_PORT_COUNT - count;
    }

    method ReleaseAll()
      requires Valid()
      modifies Repr()
      ensures Valid() && View() == EMPTY_POOL
    {
      forall i | 0 <= i < EPHEMERAL_PORT_COUNT {
        udpPorts[i] := false;
      }
      forall i | 0 <= i < EPHEMERAL_PORT_COUNT {
        tcpPorts[i] := false;
      }
      udpHint, tcpHint := 0, 0;
    }
  }
}
