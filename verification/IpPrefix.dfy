/** Prefixes and the arithmetic of their masks (common/ipprefix.h). */
module IpPrefixes {
  import opened Bits
  import opened IpAddresses

  // Byte k of the 16-byte mask: whole bytes of ones, one shifted byte, zeros.
  function MaskByte(mask: nat, k: nat): (r: Byte)
    ensures r < 256
  {
    var mid, bits := mask / 8, mask % 8;
    if k < mid then 0xFF
    else if k == mid then ShiftedByte(8 - bits)
    else 0
  }

  // (uint8_t)(0xFF << n)
  function ShiftedByte(n: nat): Byte {
    WordSizes();
    ShiftLeft(8, 0xFF, n)
  }

  function MaskBytes(mask: nat): Bytes16 {
    seq(16, k requires 0 <= k < 16 => MaskByte(mask, k))
  }

  function AndByte(x: Byte, mask: nat, k: nat): Byte
  {
    ByteMaskActs(x, mask, k);
    And(8, x, MaskByte(mask, k))
  }

  function OrNotByte(x: Byte, mask: nat, k: nat): Byte
  {
    ByteMaskActs(x, mask, k);
    Or(8, x, Not(8, MaskByte(mask, k)))
  }

  lemma ByteIs(x: Byte, mask: nat, k: nat)
    ensures AndByte(x, mask, k) == Clear(x, 8 - OnesAt(mask, k)) &&
            OrNotByte(x, mask, k) == Fill(x, 8 - OnesAt(mask, k))
  {
    ByteMaskActs(x, mask, k);
  }

  // How many of the mask's leading ones fall into byte k.
  function OnesAt(mask: nat, k: nat): (r: nat)
    ensures r <= 8
  {
    if 8 * k + 8 <= mask then 8 else if mask <= 8 * k then 0 else mask - 8 * k
  }

  lemma MaskByteValue(mask: nat, k: nat)
    ensures MaskByte(mask, k) == Mask(8, OnesAt(mask, k))
  {
  }

  lemma ByteMaskActs(x: Byte, mask: nat, k: nat)
    ensures And(8, x, MaskByte(mask, k)) == Clear(x, 8 - OnesAt(mask, k))
    ensures Or(8, x, Not(8, MaskByte(mask, k))) == Fill(x, 8 - OnesAt(mask, k))
    ensures Clear(x, 8 - OnesAt(mask, k)) <= x <= Fill(x, 8 - OnesAt(mask, k)) < 256
  {
    WordSizes();
    MaskByteValue(mask, k);
    MaskBounds(8, OnesAt(mask, k), x);
  }

  function SubnetBytes(b: seq<Byte>, mask: nat): (r: seq<Byte>)
    ensures |r| == |b|
  {
    seq(|b|, k requires 0 <= k < |b| => AndByte(b[k], mask, k))
  }

  function BroadcastBytes(b: seq<Byte>, mask: nat): (r: seq<Byte>)
    ensures |r| == |b|
  {
    seq(|b|, k requires 0 <= k < |b| => OrNotByte(b[k], mask, k))
  }

  function MaskWord(mask: nat): Word32
    requires mask <= 32
  {
    WordSizes();
    Mask(32, mask)
  }

  function SubnetWord(x: Word32, mask: nat): Word32
    requires mask <= 32
  {
    WordMaskActs(x, mask);
    And(32, x, MaskWord(mask))
  }

  function BroadcastWord(x: Word32, mask: nat): Word32
    requires mask <= 32
  {
    WordMaskActs(x, mask);
    Or(32, x, Not(32, MaskWord(mask)))
  }

  lemma WordMaskActs(x: Word32, mask: nat)
    requires mask <= 32
    ensures And(32, x, MaskWord(mask)) == Clear(x, 32 - mask)
    ensures Or(32, x, Not(32, MaskWord(mask))) == Fill(x, 32 - mask)
    ensures Clear(x, 32 - mask) <= x <= Fill(x, 32 - mask) < 0x1_0000_0000
  {
    WordSizes();
    MaskBounds(32, mask, x);
  }

  datatype IpPrefix = IpPrefix(ip: IpAddress, mask: int) {
    // isValid(), which every constructor enforces.
    predicate Valid() {
      0 <= mask <= if ip.V4? then 32 else 128
    }

    function GetSubnet(): (r: IpPrefix)
      requires Valid()
      ensures r.Valid() && r.mask == mask && r.ip.V4? == ip.V4?
    {
      match ip
      case V4(w) => IpPrefix(V4(SubnetWord(w, mask)), mask)
      case V6(b) => IpPrefix(V6(SubnetBytes(b, mask)), mask)
    }

    function GetBroadcastIp(): IpAddress
      requires Valid()
    {
      match ip
      case V4(w) => V4(BroadcastWord(w, mask))
      case V6(b) => V6(BroadcastBytes(b, mask))
    }

    predicate Contains(addr: IpAddress)
      requires Valid()
    {
      match (ip, addr)
      case (V4(w), V4(x)) => SubnetWord(w, mask) == SubnetWord(x, mask)
      case (V6(b), V6(x)) => forall i :: 0 <= i < 16 ==> AndByte(b[i], mask, i) == AndByte(x[i], mask, i)
      case _ => false
    }

    predicate Less(o: IpPrefix) {
      if mask != o.mask then mask < o.mask else ip.Less(o.ip)
    }
  }

  lemma PrefixOrder(a: IpPrefix, b: IpPrefix, c: IpPrefix)
    ensures !a.Less(a) && (a.Less(b) ==> !b.Less(a))
    ensures a.Less(b) && b.Less(c) ==> a.Less(c)
    ensures !a.Less(b) && !b.Less(a) <==> a == b
    ensures a.mask < b.mask ==> a.Less(b)
    ensures a.mask == b.mask ==> (a.Less(b) <==> a.ip.Less(b.ip))
  {
    AddressOrder(a.ip, b.ip, c.ip);
  }

  // Dropping the first byte of an address drops eight bits of the mask.
  function TailMask(mask: nat): nat { if mask < 8 then 0 else mask - 8 }

  lemma TailBytes(b: seq<Byte>, mask: nat)
    requires b != []
    ensures SubnetBytes(b, mask)[1..] == SubnetBytes(b[1..], TailMask(mask))
    ensures BroadcastBytes(b, mask)[1..] == BroadcastBytes(b[1..], TailMask(mask))
  {
    forall k | 0 <= k < |b| - 1
      ensures SubnetBytes(b, mask)[k + 1] == SubnetBytes(b[1..], TailMask(mask))[k]
      ensures BroadcastBytes(b, mask)[k + 1] == BroadcastBytes(b[1..], TailMask(mask))[k]
    {
      ByteMaskActs(b[k + 1], mask, k + 1);
      ByteMaskActs(b[k + 1], TailMask(mask), k);
      assert OnesAt(mask, k + 1) == OnesAt(TailMask(mask), k);
    }
  }

  // An all-zero mask puts every string between its subnet and its broadcast.
  lemma {:induction false} ZeroMaskContainsAll(b: seq<Byte>, x: seq<Byte>)
    requires |b| == |x|
    ensures SubnetBytes(x, 0) == SubnetBytes(b, 0)
    ensures !BytesLess(x, SubnetBytes(b, 0)) && !BytesLess(BroadcastBytes(b, 0), x)
  {
    if b == [] {
    } else {
      ZeroMaskByte(b[0]);
      ZeroMaskByte(x[0]);
      TailBytes(b, 0);
      TailBytes(x, 0);
      ZeroMaskContainsAll(b[1..], x[1..]);
      SameHeadAndTail(SubnetBytes(x, 0), SubnetBytes(b, 0));
    }
  }

  lemma ZeroMaskByte(x: Byte)
    ensures AndByte(x, 0, 0) == 0 && OrNotByte(x, 0, 0) == 255
  {
    WordSizes();
    ByteMaskActs(x, 0, 0);
    ClearAll(8, x);
  }

  // The first byte alone: an interval below eight ones, a single value from eight on.
  lemma FirstByteInterval(b: Byte, x: Byte, mask: nat)
    ensures AndByte(b, mask, 0) == AndByte(x, mask, 0) <==> AndByte(b, mask, 0) <= x <= OrNotByte(b, mask, 0)
    ensures mask >= 8 ==> AndByte(b, mask, 0) == b == OrNotByte(b, mask, 0)
    ensures mask >= 8 ==> AndByte(x, mask, 0) == x
  {
    FirstByte(b, mask);
    FirstByte(x, mask);
    ClearInterval(b, x, 8 - OnesAt(mask, 0));
  }

  lemma FirstByte(x: Byte, mask: nat)
    ensures AndByte(x, mask, 0) == Clear(x, 8 - OnesAt(mask, 0)) &&
            OrNotByte(x, mask, 0) == Fill(x, 8 - OnesAt(mask, 0))
    ensures mask >= 8 ==> AndByte(x, mask, 0) == x == OrNotByte(x, mask, 0)
  {
    ByteIs(x, mask, 0);
  }

  lemma {:induction false} BytesInterval(b: seq<Byte>, x: seq<Byte>, mask: nat)
    requires |b| == |x|
    ensures SubnetBytes(x, mask) == SubnetBytes(b, mask) <==>
            !BytesLess(x, SubnetBytes(b, mask)) && !BytesLess(BroadcastBytes(b, mask), x)
  {
    if b == [] {
    } else {
      TailBytes(b, mask);
      TailBytes(x, mask);
      var s, t := SubnetBytes(b, mask), SubnetBytes(x, mask);
      SameHeadAndTail(s, t);
      FirstByteInterval(b[0], x[0], mask);
      if mask < 8 {
        ZeroMaskContainsAll(b[1..], x[1..]);
      } else {
        BytesInterval(b[1..], x[1..], mask - 8);
      }
    }
  }

  lemma SameHeadAndTail(s: seq<Byte>, t: seq<Byte>)
    requires |s| == |t| > 0
    ensures s == t <==> s[0] == t[0] && s[1..] == t[1..]
  {
  }

  // An address belongs to the prefix exactly when its own subnet under the same mask
  // length is the prefix's subnet.
  lemma ContainsBySubnet(p: IpPrefix, a: IpAddress)
    requires p.Valid() && p.ip.V4? == a.V4?
    ensures p.Contains(a) <==> IpPrefix(a, p.mask).GetSubnet() == p.GetSubnet()
  {
    if p.ip.V6? {
      var s, t := SubnetBytes(p.ip.bytes, p.mask), SubnetBytes(a.bytes, p.mask);
      if s == t {
        forall i | 0 <= i < 16
          ensures AndByte(p.ip.bytes[i], p.mask, i) == AndByte(a.bytes[i], p.mask, i)
        {
          assert s[i] == t[i];
        }
      }
    }
  }

  // The members of a prefix are the addresses from its subnet to its broadcast address.
  lemma SubnetInterval(p: IpPrefix, a: IpAddress)
    requires p.Valid() && p.ip.V4? == a.V4?
    ensures p.Contains(a) <==> !a.Less(p.GetSubnet().ip) && !p.GetBroadcastIp().Less(a)
  {
    ContainsBySubnet(p, a);
    match p.ip {
      case V4(w) =>
        WordMaskActs(w, p.mask);
        WordMaskActs(a.word, p.mask);
        ClearInterval(w, a.word, 32 - p.mask);
      case V6(b) =>
        BytesInterval(b, a.bytes, p.mask);
    }
  }

  // Masks nest: a shorter mask does not notice that a longer one was applied before,
  // so getSubnet is idempotent and a wider prefix contains every narrower one.
  lemma SubnetNests(p: IpPrefix, wide: int)
    requires p.Valid() && 0 <= wide <= p.mask
    ensures IpPrefix(p.GetSubnet().ip, wide).GetSubnet() == IpPrefix(p.ip, wide).GetSubnet()
  {
    match p.ip {
      case V4(w) => WordNests(w, p.mask, wide);
      case V6(b) =>
        var s := SubnetBytes(b, p.mask);
        forall k | 0 <= k < 16
          ensures AndByte(s[k], wide, k) == AndByte(b[k], wide, k)
        {
          ByteNests(b[k], p.mask, wide, k);
        }
        assert SubnetBytes(s, wide) == SubnetBytes(b, wide);
    }
  }

  lemma WordNests(w: Word32, narrow: nat, wide: nat)
    requires wide <= narrow <= 32
    ensures SubnetWord(SubnetWord(w, narrow), wide) == SubnetWord(w, wide)
  {
    WordIs(w, narrow);
    WordIs(w, wide);
    WordIs(SubnetWord(w, narrow), wide);
    ClearNests(w, 32 - narrow, 32 - wide);
  }

  lemma WordIs(x: Word32, mask: nat)
    requires mask <= 32
    ensures SubnetWord(x, mask) == Clear(x, 32 - mask)
  {
    WordMaskActs(x, mask);
  }

  lemma ByteNests(b: Byte, narrow: nat, wide: nat, k: nat)
    requires wide <= narrow
    ensures AndByte(AndByte(b, narrow, k), wide, k) == AndByte(b, wide, k)
  {
    ByteIs(b, narrow, k);
    ByteIs(b, wide, k);
    ByteIs(AndByte(b, narrow, k), wide, k);
    ClearNests(b, 8 - OnesAt(narrow, k), 8 - OnesAt(wide, k));
  }

  lemma SubnetIdempotent(p: IpPrefix)
    requires p.Valid()
    ensures p.GetSubnet().GetSubnet() == p.GetSubnet()
  {
    SubnetNests(p, p.mask);
  }

  lemma WiderContainsMore(p: IpPrefix, wide: int, a: IpAddress)
    requires p.Valid() && 0 <= wide <= p.mask && p.Contains(a)
    ensures IpPrefix(p.ip, wide).Contains(a)
  {
    ContainsBySubnet(p, a);
    SubnetNests(p, wide);
    SubnetNests(IpPrefix(a, p.mask), wide);
    ContainsBySubnet(IpPrefix(p.ip, wide), a);
  }

  lemma MaskedByte(x: Byte, mask: nat, k: nat)
    ensures And(8, x, MaskByte(mask, k)) == AndByte(x, mask, k)
  {
  }

  // The IPv6 arms as common/ipprefix.h writes them, over byte buffers.

  method GetMask6(mask: nat) returns (buf: array<Byte>)
    requires mask <= 128
    ensures fresh(buf) && buf[..] == MaskBytes(mask)
  {
    buf := new Byte[16];
    var mid, bits := mask / 8, mask % 8;
    for i := 0 to mid
      invariant forall k :: 0 <= k < i ==> buf[k] == 0xFF
    {
      buf[i] := 0xFF;
    }
    if mid < 16 {
      buf[mid] := ShiftedByte(8 - bits);
      for i := mid + 1 to 16
        invariant forall k :: 0 <= k < i ==> buf[k] == MaskByte(mask, k)
      {
        buf[i] := 0;
      }
    }
  }

  method GetSubnet6(ip: Bytes16, m: nat) returns (subnet: array<Byte>)
    requires m <= 128
    ensures subnet[..] == SubnetBytes(ip, m)
  {
    subnet := new Byte[16](i requires 0 <= i < 16 => ip[i]);
    var mask := GetMask6(m);
    for i := 0 to 16
      invariant mask[..] == MaskBytes(m)
      invariant forall k :: 0 <= k < i ==> subnet[k] == AndByte(ip[k], m, k)
      invariant subnet[i..] == ip[i..]
    {
      assert mask[..][i] == MaskByte(m, i) && subnet[i..][0] == ip[i];
      MaskedByte(ip[i], m, i);
      subnet[i] := And(8, subnet[i], mask[i]);
    }
  }

  method GetBroadcast6(prefix: Bytes16, m: nat) returns (ipa: array<Byte>)
    requires m <= 128
    ensures ipa[..] == BroadcastBytes(prefix, m)
  {
    ipa := new Byte[16];
    var mask := GetMask6(m);
    for i := 0 to 16
      invariant mask[..] == MaskBytes(m)
      invariant forall k :: 0 <= k < i ==> ipa[k] == OrNotByte(prefix[k], m, k)
    {
      assert mask[..][i] == MaskByte(m, i);
      assert OrNotByte(prefix[i], m, i) == Or(8, prefix[i], Not(8, MaskByte(m, i)));
      ipa[i] := Or(8, prefix[i], Not(8, mask[i]));
    }
  }

  method IsAddressInSubnet6(prefix: Bytes16, m: nat, ip: Bytes16) returns (r: bool)
    requires m <= 128
    ensures r == IpPrefix(V6(prefix), m).Contains(V6(ip))
  {
    var mask := GetMask6(m);
    for i := 0 to 16
      invariant mask[..] == MaskBytes(m)
      invariant forall k :: 0 <= k < i ==> AndByte(prefix[k], m, k) == AndByte(ip[k], m, k)
    {
      assert mask[..][i] == MaskByte(m, i);
      if And(8, prefix[i], mask[i]) != And(8, ip[i], mask[i]) {
        assert AndByte(prefix[i], m, i) != AndByte(ip[i], m, i);
        return false;
      }
    }
    return true;
  }
}
