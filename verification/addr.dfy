/**
 * Socket addresses and the helpers of src/libchitcp/addr.c.
 *
 * An address is abstract: an IPv4 or IPv6 address with a port, or a
 * `sockaddr` of some other family (the zeroed `sockaddr_storage` of an
 * unbound socket has family 0). Ports are kept as the C code stores them,
 * in network byte order; `HostPort` converts.
 */
module Addr {
  import opened Base
  import ByteOrder

  /** Address family constants as on Linux. */
  const AF_INET: uint16 := 2
  const AF_INET6: uint16 := 10

  type IPv4 = s: seq<byte> | |s| == 4 witness [0, 0, 0, 0]
  type IPv6 = s: seq<byte> | |s| == 16 witness [0, 0, 0, 0, 0, 0, 0, 0, 0, 0, 0, 0, 0, 0, 0, 0]
  type OtherFamily = f: uint16 | f != AF_INET && f != AF_INET6

  datatype SockAddr =
    | Inet(ip4: IPv4, port: uint16)
    | Inet6(ip6: IPv6, port: uint16)
    | Unspec(fam: OtherFamily)
  {
    /** The sa_family field. */
    function Family(): uint16 {
      match this
      case Inet(_, _) => AF_INET
      case Inet6(_, _) => AF_INET6
      case Unspec(f) => f
    }

    predicate IsInet() {
      !Unspec?
    }

    /** The address bytes in network order. */
    function Ip(): seq<byte>
      requires IsInet()
    {
      if Inet? then ip4 else ip6
    }
  }

  /** A sockaddr_storage after memset/bzero to zero. */
  const ZeroAddr: SockAddr := Unspec(0)

  /** INADDR_ANY and in6addr_any. */
  const Any4: IPv4 := [0, 0, 0, 0]
  const Any6: IPv6 := [0, 0, 0, 0, 0, 0, 0, 0, 0, 0, 0, 0, 0, 0, 0, 0]
  /** INADDR_LOOPBACK (127.0.0.1) and in6addr_loopback (::1), in network order. */
  const Loopback4: IPv4 := [127, 0, 0, 1]
  const Loopback6: IPv6 := [0, 0, 0, 0, 0, 0, 0, 0, 0, 0, 0, 0, 0, 0, 0, 1]

  /** The port in host byte order. */
  function HostPort(a: SockAddr): uint16
    requires a.IsInet()
  {
    ByteOrder.Swap16(a.port)
  }

  /**
   * chitcp_get_addr_port: the stored port of an IPv4 or IPv6 address; for any
   * other family the C code returns -1 as an in_port_t, which is 65535.
   */
  function GetAddrPort(a: SockAddr): (r: uint16)
    ensures a.IsInet() ==> r == a.port
    ensures !a.IsInet() ==> r == 0xFFFF
  {
    if !a.IsInet() then ToUint16(-1) else a.port
  }

  /** chitcp_set_addr_port. The C code asserts the family is IPv4 or IPv6. */
  function SetAddrPort(a: SockAddr, port: uint16): (r: SockAddr)
    requires a.IsInet()
    ensures r.IsInet() && r.Family() == a.Family() && r.Ip() == a.Ip()
    ensures GetAddrPort(r) == port
  {
    match a
    case Inet(ip, _) => Inet(ip, port)
    case Inet6(ip, _) => Inet6(ip, port)
  }

  /** Setting the port and reading it back gives the port; setting it to what it was changes nothing. */
  lemma SetGetPort(a: SockAddr, port: uint16)
    requires a.IsInet()
    ensures GetAddrPort(SetAddrPort(a, port)) == port
    ensures SetAddrPort(a, GetAddrPort(a)) == a
    ensures SetAddrPort(SetAddrPort(a, port), GetAddrPort(a)) == a
  {
  }

  /**
   * memcmp over two byte strings of equal length: the difference of the first
   * pair of bytes that differ, or 0. (The C library only promises the sign;
   * this is the value the common implementations return.)
   */
  function MemCmp(x: seq<byte>, y: seq<byte>): (r: int)
    requires |x| == |y|
    decreases |x|
  {
    if |x| == 0 then 0
    else if x[0] != y[0] then x[0] - y[0]
    else MemCmp(x[1..], y[1..])
  }

  /** memcmp is zero exactly on equal strings and is antisymmetric. */
  lemma {:induction false} MemCmpZero(x: seq<byte>, y: seq<byte>)
    requires |x| == |y|
    ensures MemCmp(x, y) == 0 <==> x == y
    ensures MemCmp(y, x) == -MemCmp(x, y)
    decreases |x|
  {
    if |x| > 0 && x[0] == y[0] {
      MemCmpZero(x[1..], y[1..]);
      if x[1..] == y[1..] {
        assert x == [x[0]] + x[1..] && y == [y[0]] + y[1..];
      }
    }
  }

  /** The in_addr_t the C code subtracts: the four network-order bytes loaded on a little-endian host. */
  function SAddr(ip: IPv4): uint32 {
    ByteOrder.Decode32LE(ip)
  }

  /**
   * chitcp_addr_cmp. Different families compare by family number; IPv4
   * addresses by the uint32_t difference of their s_addr words, converted to
   * int; IPv6 addresses with memcmp. The ports take no part, although the
   * header comment says they do.
   */
  function AddrCmp(a: SockAddr, b: SockAddr): (r: int)
    requires a.IsInet() && b.IsInet()
    ensures r == 0 <==> a.Family() == b.Family() && a.Ip() == b.Ip()
  {
    if a.Family() != b.Family() then a.Family() - b.Family()
    else if a.Inet? then
      ByteOrder.Decode32LEInjective(a.ip4, b.ip4);
      ToInt32(Sub32(SAddr(a.ip4), SAddr(b.ip4)))
    else
      MemCmpZero(a.ip6, b.ip6);
      MemCmp(a.ip6, b.ip6)
  }

  /** Every address compares equal to itself, and equal addresses with any ports compare equal. */
  lemma AddrCmpReflexive(a: SockAddr, p: uint16)
    requires a.IsInet()
    ensures AddrCmp(a, a) == 0
    ensures AddrCmp(a, SetAddrPort(a, p)) == 0
  {
  }

  /** chitcp_addr_port_cmp: family difference, else the difference of the stored ports. */
  function AddrPortCmp(a: SockAddr, b: SockAddr): (r: int)
    requires a.IsInet() && b.IsInet()
    ensures r == 0 <==> a.Family() == b.Family() && a.port == b.port
  {
    if a.Family() != b.Family() then a.Family() - b.Family()
    else a.port - b.port
  }

  /** Swapping the operands of addr_port_cmp negates the result. */
  lemma AddrPortCmpAntisymmetric(a: SockAddr, b: SockAddr)
    requires a.IsInet() && b.IsInet()
    ensures AddrPortCmp(a, b) == -AddrPortCmp(b, a)
  {
  }

  /** chitcp_addr_is_loopback. */
  function IsLoopback(a: SockAddr): (r: bool)
    requires a.IsInet()
    ensures r <==> (a.Inet? && a.ip4 == [127, 0, 0, 1]) || (a.Inet6? && a.ip6 == Loopback6)
  {
    match a
    case Inet(ip, _) =>
      assert ByteOrder.Encode32BE(0x7F00_0001) == [127, 0, 0, 1];
      ByteOrder.Decode32LEInjective(ip, [127, 0, 0, 1]);
      SAddr(ip) == ByteOrder.Swap32(0x7F00_0001)
    case Inet6(ip, _) =>
      MemCmpZero(ip, Loopback6);
      MemCmp(ip, Loopback6) == 0
  }

  /** An IPv4 address loads as the wildcard word exactly when all its bytes are zero. */
  lemma AnyWord4(ip: IPv4)
    ensures SAddr(ip) == ByteOrder.Swap32(0) <==> forall i :: 0 <= i < 4 ==> ip[i] == 0
  {
    assert ByteOrder.Encode32BE(0) == Any4;
    ByteOrder.Decode32LEInjective(ip, Any4);
    assert (forall i :: 0 <= i < 4 ==> ip[i] == 0) ==> ip == Any4;
  }

  /** An IPv6 address compares equal to in6addr_any exactly when all its bytes are zero. */
  lemma AnyBytes6(ip: IPv6)
    ensures MemCmp(ip, Any6) == 0 <==> forall i :: 0 <= i < 16 ==> ip[i] == 0
  {
    MemCmpZero(ip, Any6);
    assert (forall i :: 0 <= i < 16 ==> ip[i] == 0) ==> ip == Any6;
  }

  /** chitcp_addr_is_any. */
  function IsAny(a: SockAddr): (r: bool)
    requires a.IsInet()
    ensures r <==> forall i :: 0 <= i < |a.Ip()| ==> a.Ip()[i] == 0
  {
    match a
    case Inet(ip, _) =>
      AnyWord4(ip);
      assert a.Ip() == ip;
      SAddr(ip) == ByteOrder.Swap32(0)
    case Inet6(ip, _) =>
      AnyBytes6(ip);
      assert a.Ip() == ip;
      MemCmp(ip, Any6) == 0
  }

  /** chitcp_addr_set_any: the wildcard address of the same family, keeping the port. */
  function SetAny(a: SockAddr): (r: SockAddr)
    requires a.IsInet()
    ensures r.IsInet() && r.Family() == a.Family() && r.port == a.port
    ensures forall i :: 0 <= i < |r.Ip()| ==> r.Ip()[i] == 0
  {
    match a
    case Inet(_, port) =>
      var r := Inet(Any4, port);
      assert r.Ip() == Any4;
      r
    case Inet6(_, port) =>
      var r := Inet6(Any6, port);
      assert r.Ip() == Any6;
      r
  }

  /** set_any yields an address that is_any accepts, with the same family and port. */
  lemma SetAnyIsAny(a: SockAddr)
    requires a.IsInet()
    ensures IsAny(SetAny(a)) && AddrPortCmp(SetAny(a), a) == 0
  {
    var r := SetAny(a);
    assert IsAny(r) <==> forall i :: 0 <= i < |r.Ip()| ==> r.Ip()[i] == 0;
  }

  /** Whether an address is the wildcard does not depend on its port. */
  lemma AnyIgnoresPort(a: SockAddr, port: uint16)
    requires a.IsInet()
    ensures IsAny(SetAddrPort(a, port)) == IsAny(a)
  {
    assert SetAddrPort(a, port).Ip() == a.Ip();
  }

  /** A loopback address is never the wildcard address, and set_any is idempotent. */
  lemma LoopbackIsNotAny(a: SockAddr)
    requires a.IsInet()
    ensures IsLoopback(a) ==> !IsAny(a)
    ensures SetAny(SetAny(a)) == SetAny(a)
  {
    if IsLoopback(a) {
      if a.Inet? {
        assert a.Ip()[0] != 0;
      } else {
        assert a.Ip()[15] != 0;
      }
    }
  }
}
