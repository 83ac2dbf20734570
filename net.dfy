/** IPv4 socket addresses as src/common/net.cc compares and builds them.
    `sin_port` and `sin_addr.s_addr` are kept as stored, in network byte
    order; `inet_pton` is a parameter. */
module Net {
  import opened Wrappers
  import opened Endian

  const AF_INET: nat := 2

  newtype u16 = x: int | 0 <= x < 0x1_0000
  newtype u32 = x: int | 0 <= x < 0x1_0000_0000

  /** A sockaddr_in: family, port and address word as stored; the
      comparisons are on their unsigned values. */
  datatype SockAddr = SockAddr(family: nat, port: u16, addr: u32)

  /** operator==: address, then port and family. */
  predicate Equal(a: SockAddr, b: SockAddr)
  {
    if a.addr != b.addr then false else a.port == b.port && a.family == b.family
  }

  /** operator!=. */
  predicate NotEqual(a: SockAddr, b: SockAddr)
  {
    !Equal(a, b)
  }

  /** operator<: true when the address word is smaller, and otherwise the
      comparison of the ports, whatever the addresses. */
  predicate Less(a: SockAddr, b: SockAddr)
  {
    if a.addr < b.addr then true else a.port < b.port
  }

  /** operator== compares every field the model keeps, and operator!= is
      its negation. */
  lemma EqualIsIdentity(a: SockAddr, b: SockAddr)
    ensures Equal(a, b) <==> a == b
    ensures NotEqual(a, b) <==> a != b
  {
  }

  /** operator< is not a strict weak order: with a smaller address but a
      larger port, each address is below the other. */
  lemma LessNotAsymmetric(a: SockAddr, b: SockAddr)
    requires a.addr < b.addr && b.port < a.port
    ensures Less(a, b) && Less(b, a)
  {
  }

  /** The smallest instance. */
  lemma LessNotAsymmetricExample()
    ensures var a, b := SockAddr(AF_INET, 1, 0), SockAddr(AF_INET, 0, 1);
      Less(a, b) && Less(b, a)
  {
  }

  /** operator< with the ports compared only between equal addresses. */
  predicate LessCorrected(a: SockAddr, b: SockAddr)
  {
    a.addr < b.addr || (a.addr == b.addr && a.port < b.port)
  }

  /** The corrected comparison is a strict weak order whose equivalence
      is equality of address and port. */
  lemma LessCorrectedIsStrictWeakOrder(a: SockAddr, b: SockAddr, c: SockAddr)
    ensures !LessCorrected(a, a)
    ensures LessCorrected(a, b) ==> !LessCorrected(b, a)
    ensures LessCorrected(a, b) && LessCorrected(b, c) ==> LessCorrected(a, c)
    ensures !LessCorrected(a, b) && !LessCorrected(b, a) <==> a.addr == b.addr && a.port == b.port
  {
  }

  /** IN_MULTICAST on a host-order address: the class D block
      224.0.0.0/4 of section 4 of RFC 1112. */
  predicate InMulticast(x: bv32)
  {
    x & 0xF000_0000 == 0xE000_0000
  }

  /** get_mcast_addr(host, port), with `pton` standing for
      `inet_pton(AF_INET, ...)`: the address word it stores, or None when
      it does not return 1. */
  function GetMcastAddr(h: Host, pton: seq<char> -> Option<bv32>, host: seq<char>, port: u16): Option<SockAddr>
  {
    match pton(host)
    case None => None
    case Some(w) => if InMulticast(Ntohl(h, w)) then Some(SockAddr(AF_INET, Htons(h, port as bv16) as u16, w as u32)) else None
  }

  /** get_mcast_addr succeeds exactly on addresses that parse and lie in
      224.0.0.0/4; it then holds that address and the port in network
      order. */
  lemma GetMcastAddrMeaning(h: Host, pton: seq<char> -> Option<bv32>, host: seq<char>, port: u16)
    ensures var r := GetMcastAddr(h, pton, host, port);
      && (r.Some? <==> pton(host).Some? && 0xE000_0000 <= Ntohl(h, pton(host).value) <= 0xEFFF_FFFF)
      && (r.Some? ==> r.value.family == AF_INET && r.value.addr as bv32 == pton(host).value && Htons(h, r.value.port as bv16) == port as bv16)
  {
  }
}
