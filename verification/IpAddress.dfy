/** IP addresses and their order (common/ipaddress.h). An IPv4 address is the 32-bit
    number whose network byte order the source stores; its comparison applies htonl
    first and its bitwise operations commute with the byte swap. */
module IpAddresses {
  type Word32 = x: int | 0 <= x < 0x1_0000_0000
  type Byte = x: int | 0 <= x < 256
  type Bytes16 = s: seq<Byte> | |s| == 16 witness seq(16, _ => 0)

  // memcmp(a, b, n) < 0
  predicate BytesLess(a: seq<Byte>, b: seq<Byte>)
    requires |a| == |b|
  {
    a != [] && (a[0] < b[0] || (a[0] == b[0] && BytesLess(a[1..], b[1..])))
  }

  datatype IpAddress = V4(word: Word32) | V6(bytes: Bytes16) {
    predicate Less(o: IpAddress) {
      match (this, o)
      case (V4(a), V4(b)) => a < b
      case (V6(a), V6(b)) => BytesLess(a, b)
      case (V4(_), V6(_)) => true   // AF_INET < AF_INET6
      case (V6(_), V4(_)) => false
    }
  }

  lemma {:induction false} BytesOrder(a: seq<Byte>, b: seq<Byte>, c: seq<Byte>)
    requires |a| == |b| == |c|
    ensures !BytesLess(a, a)
    ensures BytesLess(a, b) || BytesLess(b, a) || a == b
    ensures !(BytesLess(a, b) && BytesLess(b, a))
    ensures BytesLess(a, b) && BytesLess(b, c) ==> BytesLess(a, c)
  {
    if a == [] {
    } else {
      BytesOrder(a[1..], b[1..], c[1..]);
      assert a == [a[0]] + a[1..] && b == [b[0]] + b[1..];
    }
  }

  // operator< is a strict total order whose ties are exactly operator==, so the
  // std::map keyed by addresses and prefixes identifies equal keys only.
  lemma AddressOrder(a: IpAddress, b: IpAddress, c: IpAddress)
    ensures !a.Less(a)
    ensures a.Less(b) || b.Less(a) || a == b
    ensures !(a.Less(b) && b.Less(a))
    ensures a.Less(b) && b.Less(c) ==> a.Less(c)
    ensures a.V4? && b.V6? ==> a.Less(b)
  {
    if a.V6? && b.V6? {
      BytesOrder(a.bytes, b.bytes, if c.V6? then c.bytes else a.bytes);
    } else if a.V6? {
      BytesOrder(a.bytes, a.bytes, a.bytes);
    }
  }
}
