/**
 * Configuration fixed when a multicast transport is constructed: the IPv4
 * addresses (four octets, as `inet_aton` would have produced them), the
 * multicast-address check, the UDP port as stored by `htons`, and the split of
 * the millisecond timeout into a `timeval`.
 */
module MulticastConfig {
  import opened TextFormat

  // --------------------------------------------------------------- addresses

  /** An IPv4 address, first octet first ("239.192.0.1" is Ipv4(239, 192, 0, 1)). */
  datatype Ipv4 = Ipv4(o1: bv8, o2: bv8, o3: bv8, o4: bv8)

  /** "0.0.0.0", which the constructor stores as INADDR_ANY: the kernel picks the interface. */
  const AnyInterface: Ipv4 := Ipv4(0, 0, 0, 0)

  /** The address "224.0.0.0" the constructor masks against. */
  const MulticastMask: Ipv4 := Ipv4(224, 0, 0, 0)

  /** Dotted-quad text of an address. */
  function Dotted(a: Ipv4): string {
    Dec(a.o1 as int) + "." + Dec(a.o2 as int) + "." + Dec(a.o3 as int) + "." + Dec(a.o4 as int)
  }

  /**
   * The 32-bit `s_addr` field as read on a little-endian host: the address is
   * stored in network byte order, so the first octet lands in the low byte.
   */
  function InAddrLE(a: Ipv4): bv32 {
    (a.o4 as bv32 << 24) | (a.o3 as bv32 << 16) | (a.o2 as bv32 << 8) | a.o1 as bv32
  }

  /** The low byte of the little-endian `s_addr` is the first octet. */
  lemma InAddrLowByte(a: Ipv4)
    ensures InAddrLE(a) & 0xff == a.o1 as bv32
  {
  }

  /**
   * The constructor's test as the source writes it: the low byte of the mask
   * ANDed with the low byte of the address must give back the mask's low byte.
   */
  predicate PassesSourceCheck(a: Ipv4) {
    (InAddrLE(MulticastMask) & 0xff) & (InAddrLE(a) & 0xff) == InAddrLE(MulticastMask) & 0xff
  }

  /** Class D (multicast) per section 4 of RFC 1112: the high-order four bits are 1110. */
  predicate IsClassD(a: Ipv4) {
    224 <= a.o1 as int <= 239
  }

  /**
   * The source's test looks at the first octet only and accepts exactly the
   * octets 224 to 255: every class D address, and also 240 to 255.
   */
  lemma SourceCheckAcceptsFrom224(a: Ipv4)
    ensures PassesSourceCheck(a) <==> a.o1 as int >= 224
  {
    InAddrLowByte(a);
    InAddrLowByte(MulticastMask);
  }

  /** 240.0.0.1 is not a multicast address, yet the source's test lets it through. */
  lemma ClassEAddressPassesSourceCheck()
    ensures PassesSourceCheck(Ipv4(240, 0, 0, 1))
    ensures !IsClassD(Ipv4(240, 0, 0, 1))
  {
    SourceCheckAcceptsFrom224(Ipv4(240, 0, 0, 1));
  }

  /** The corrected test: mask the high-order four bits of the first octet, not three. */
  predicate PassesMulticastCheck(a: Ipv4) {
    InAddrLE(a) & 0xf0 == 0xe0
  }

  /** The corrected test accepts exactly the class D addresses. */
  lemma MulticastCheckIsClassD(a: Ipv4)
    ensures PassesMulticastCheck(a) <==> IsClassD(a)
  {
    assert InAddrLE(a) & 0xf0 == (a.o1 as bv32) & 0xf0;
  }

  /** Both tests agree on every address outside 240.0.0.0/4. */
  lemma ChecksAgreeBelow240(a: Ipv4)
    requires a.o1 as int < 240
    ensures PassesSourceCheck(a) <==> PassesMulticastCheck(a)
  {
    SourceCheckAcceptsFrom224(a);
    MulticastCheckIsClassD(a);
  }

  // ------------------------------------------------------------------- ports

  /** The port as `htons` stores it: the `int` converted to a 16-bit unsigned value. */
  function Port16(port: int): (p: nat)
    ensures p < 0x1_0000
    ensures (p - port) % 0x1_0000 == 0
    ensures 0 <= port < 0x1_0000 ==> p == port
  {
    port % 0x1_0000
  }

  // ---------------------------------------------------------------- timeouts

  /** C's `/` on `int`: the quotient truncated toward zero. */
  function CDiv(a: int, b: int): (q: int)
    requires b > 0
    ensures a >= 0 ==> 0 <= q * b <= a < q * b + b
    ensures a < 0 ==> q * b - b < a <= q * b <= 0
  {
    if a >= 0 then
      EuclidBounds(a, b);
      a / b
    else
      EuclidBounds(-a, b);
      NegateProduct((-a) / b, b);
      -((-a) / b)
  }

  lemma EuclidBounds(n: nat, b: int)
    requires b > 0
    ensures 0 <= (n / b) * b <= n < (n / b) * b + b
  {
  }

  lemma NegateProduct(m: int, b: int)
    ensures (-m) * b == -(m * b)
  {
  }

  /** C's `%` on `int`: the remainder that goes with the truncated quotient. */
  function CRem(a: int, b: int): (r: int)
    requires b > 0
    ensures a == CDiv(a, b) * b + r
    ensures -b < r < b
    ensures a >= 0 ==> r >= 0
    ensures a <= 0 ==> r <= 0
  {
    a - CDiv(a, b) * b
  }

  /** A `timeval`: whole seconds plus microseconds. */
  datatype TimeVal = TimeVal(sec: int, usec: int)

  /** The number of whole milliseconds a `timeval` stands for. */
  function Millis(tv: TimeVal): int {
    tv.sec * 1000 + CDiv(tv.usec, 1000)
  }

  /**
   * The constructor's split of a millisecond timeout into seconds and
   * microseconds, with C's truncating division. No millisecond is lost, and the
   * microsecond part stays below one second (and is non-negative for a
   * non-negative timeout).
   */
  function SplitTimeout(ms: int): (tv: TimeVal)
    ensures Millis(tv) == ms
    ensures -1_000_000 < tv.usec < 1_000_000
    ensures ms >= 0 ==> tv.sec == ms / 1000 && 0 <= tv.usec < 1_000_000
    ensures tv.sec == CDiv(ms, 1000) && tv.usec == CRem(ms, 1000) * 1000
  {
    var q, r := CDiv(ms, 1000), CRem(ms, 1000);
    assert CDiv(r * 1000, 1000) == r;
    TimeVal(q, r * 1000)
  }

  // ----------------------------------------------------------- configuration

  /** What a transport is constructed with, and what its copy constructor copies. */
  datatype Config = Config(iface: Ipv4, group: Ipv4, port: nat, timeout: TimeVal)
}
