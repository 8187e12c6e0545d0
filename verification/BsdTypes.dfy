/** Addresses, protocols and error codes of the BSD socket layer. */
module BsdTypes {
  type uint16 = x: int | 0 <= x < 0x1_0000
  type uint32 = x: int | 0 <= x < 0x1_0000_0000
  type uint64 = x: int | 0 <= x < 0x1_0000_0000_0000_0000
  type byte = x: int | 0 <= x < 0x100

  datatype Option<+T> = None | Some(value: T)

  // `Other` stands for a protocol number outside the enumeration, which a game may pass in.
  datatype Protocol = Unspecified | Icmp | Tcp | Udp | Other(number: int)

  datatype SocketType = Stream | Dgram | Raw | Seqpacket

  datatype Errno = BadF | Again | NoMem | Fault | Inval | AfNoSupport | AddrInUse

  const AF_INET: byte := 2
  const SOCK_ADDR_IN_SIZE: byte := 16

  const LDN_NETWORK_BASE: uint32 := 0x0A72_0000

  // The C++ code masks bits of a uint32; the same tests are written here with / and %.
  function HighHalf(ip: uint32): nat {
    ip / 0x1_0000
  }

  // (ip & 0xFFFF0000) == 0x0A720000, on an address in host byte order.
  predicate IsLdnAddress(ip: uint32) {
    HighHalf(ip) == HighHalf(LDN_NETWORK_BASE)
  }

  function BSwap16(x: uint16): uint16 {
    x % 0x100 * 0x100 + x / 0x100
  }

  function BSwap32(x: uint32): uint32 {
    x % 0x100 * 0x100_0000 + x / 0x100 % 0x100 * 0x1_0000 + x / 0x1_0000 % 0x100 * 0x100 + x / 0x100_0000
  }

  lemma BSwap16Involution(x: uint16)
    ensures BSwap16(BSwap16(x)) == x
  {
    var lo, hi := x % 0x100, x / 0x100;
    assert BSwap16(x) == lo * 0x100 + hi;
  }

  // The four bytes of a uint32, most significant first.
  lemma BytesOf(a: byte, b: byte, c: byte, d: byte)
    ensures var x := a * 0x100_0000 + b * 0x1_0000 + c * 0x100 + d;
      x / 0x100_0000 == a && x / 0x1_0000 % 0x100 == b && x / 0x100 % 0x100 == c && x % 0x100 == d
  {
    var x := a * 0x100_0000 + b * 0x1_0000 + c * 0x100 + d;
    assert x / 0x100 == a * 0x1_0000 + b * 0x100 + c;
    assert x / 0x1_0000 == a * 0x100 + b;
  }

  lemma BSwap32Involution(x: uint32)
    ensures BSwap32(BSwap32(x)) == x
  {
    var a, b, c, d := x / 0x100_0000, x / 0x1_0000 % 0x100, x / 0x100 % 0x100, x % 0x100;
    var e := x / 0x100;
    var f := e / 0x100;
    assert f == x / 0x1_0000 && f / 0x100 == a;
    assert x == a * 0x100_0000 + b * 0x1_0000 + c * 0x100 + d;
    assert BSwap32(x) == d * 0x100_0000 + c * 0x1_0000 + b * 0x100 + a;
    BytesOf(d, c, b, a);
  }

  // sin_port and sin_addr are in network byte order. The eight padding bytes are not modelled.
  datatype SockAddrIn = SockAddrIn(sinLen: byte, sinFamily: byte, sinPort: uint16, sinAddr: uint32) {
    function GetPort(): uint16 {
      BSwap16(sinPort)
    }

    function GetAddr(): uint32 {
      BSwap32(sinAddr)
    }

    predicate IsLdn() {
      IsLdnAddress(GetAddr())
    }
  }

  // What the manager puts into sin_port and sin_addr for an address in host byte order.
  function MakeSockAddr(ip: uint32, port: uint16): SockAddrIn {
    SockAddrIn(SOCK_ADDR_IN_SIZE, AF_INET, BSwap16(port), BSwap32(ip))
  }

  lemma SockAddrRoundTrip(ip: uint32, port: uint16)
    ensures MakeSockAddr(ip, port).GetAddr() == ip
    ensures MakeSockAddr(ip, port).GetPort() == port
  {
    BSwap16Involution(port);
    BSwap32Involution(ip);
  }

  // ---- What the byte order and the network are, octet by octet ----

  // The address a.b.c.d in host byte order.
  function Address(a: byte, b: byte, c: byte, d: byte): uint32 {
    a * 0x100_0000 + b * 0x1_0000 + c * 0x100 + d
  }

  // In network byte order, read as a little-endian number, the octets come in reverse.
  lemma AddressInNetworkOrder(a: byte, b: byte, c: byte, d: byte, port: uint16)
    ensures MakeSockAddr(Address(a, b, c, d), port).sinAddr == Address(d, c, b, a)
    ensures SockAddrIn(SOCK_ADDR_IN_SIZE, AF_INET, 0, Address(d, c, b, a)).GetAddr() == Address(a, b, c, d)
  {
    BytesOf(a, b, c, d);
    BytesOf(d, c, b, a);
  }

  lemma ZeroAddress(a: byte, b: byte, c: byte, d: byte)
    ensures Address(a, b, c, d) == 0 <==> a == 0 && b == 0 && c == 0 && d == 0
  {}

  lemma LdnInNetworkOrder(a: byte, b: byte, c: byte, d: byte)
    ensures IsLdnAddress(BSwap32(Address(d, c, b, a))) <==> a == 10 && b == 114
  {
    BytesOf(d, c, b, a);
    assert BSwap32(Address(d, c, b, a)) == Address(a, b, c, d);
    hide BSwap32, Address, IsLdnAddress;
    LdnNetwork(a, b, c, d);
  }

  lemma PortInNetworkOrder(high: byte, low: byte, ip: uint32)
    ensures MakeSockAddr(ip, high * 0x100 + low).sinPort == low * 0x100 + high
    ensures SockAddrIn(SOCK_ADDR_IN_SIZE, AF_INET, low * 0x100 + high, 0).GetPort() == high * 0x100 + low
  {
    assert (high * 0x100 + low) % 0x100 == low && (high * 0x100 + low) / 0x100 == high;
    assert (low * 0x100 + high) % 0x100 == high && (low * 0x100 + high) / 0x100 == low;
  }

  // The LDN network is 10.114.0.0/16.
  lemma LdnNetwork(a: byte, b: byte, c: byte, d: byte)
    ensures IsLdnAddress(Address(a, b, c, d)) <==> a == 10 && b == 114
  {
    var x := Address(a, b, c, d);
    assert x / 0x1_0000 == a * 0x100 + b by {
      assert x == (a * 0x100 + b) * 0x1_0000 + (c * 0x100 + d);
    }
  }
}
