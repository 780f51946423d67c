/** Addresses as numbers: what the masks of common/ipprefix.h mean, said by division. A
    prefix of length m fixes the m leading bits of its addresses and leaves the rest open. */
module IpNumbers {
  import opened Bits
  import opened IpAddresses
  import opened IpPrefixes

  // The number that bytes in network order stand for.
  function Value(b: seq<Byte>): nat {
    if b == [] then 0 else 256 * Value(b[..|b| - 1]) + b[|b| - 1]
  }

  function Number(a: IpAddress): nat {
    match a
    case V4(w) => w
    case V6(b) => Value(b)
  }

  function Width(a: IpAddress): nat { if a.V4? then 32 else 128 }

  // v with k zero bits behind it.
  function ShiftIn(v: nat, k: nat): nat {
    if k == 0 then v else 2 * ShiftIn(v, k - 1)
  }

  lemma ShiftByte(v: nat)
    ensures ShiftIn(v, 8) == 256 * v
  {
    assert ShiftIn(v, 1) == 2 * v && ShiftIn(v, 2) == 4 * v;
    assert ShiftIn(v, 3) == 8 * v && ShiftIn(v, 4) == 16 * v;
    assert ShiftIn(v, 5) == 32 * v && ShiftIn(v, 6) == 64 * v;
  }

  // Low bits are cleared and filled in l first, in v only if they reach so far.
  lemma {:induction false} ClearShift(v: nat, l: nat, k: nat, n: nat)
    requires l < Pow2(k)
    ensures Clear(ShiftIn(v, k) + l, n) ==
            if n >= k then ShiftIn(Clear(v, n - k), k) else ShiftIn(v, k) + Clear(l, n)
    ensures Fill(ShiftIn(v, k) + l, n) ==
            if n >= k then ShiftIn(Fill(v, n - k), k) + Pow2(k) - 1 else ShiftIn(v, k) + Fill(l, n)
  {
    if k == 0 || n == 0 {
    } else {
      assert (ShiftIn(v, k) + l) / 2 == ShiftIn(v, k - 1) + l / 2;
      ClearShift(v, l / 2, k - 1, n - 1);
    }
  }

  lemma {:induction false} ClearByte(v: nat, l: Byte, n: nat)
    ensures Clear(256 * v + l, n) == if n >= 8 then 256 * Clear(v, n - 8) else 256 * v + Clear(l, n)
    ensures Fill(256 * v + l, n) == if n >= 8 then 256 * Fill(v, n - 8) + 255 else 256 * v + Fill(l, n)
  {
    WordSizes();
    ClearShift(v, l, 8, n);
    ShiftByte(v);
    if n >= 8 {
      ShiftByte(Clear(v, n - 8));
      ShiftByte(Fill(v, n - 8));
    }
  }

  // The bits of n bytes behind a mask.
  function Open(n: nat, mask: nat): nat { if mask >= 8 * n then 0 else 8 * n - mask }

  // Masking the bytes is masking the number.
  lemma {:induction false} BytesBlock(b: seq<Byte>, mask: nat)
    ensures Value(SubnetBytes(b, mask)) == Clear(Value(b), Open(|b|, mask))
    ensures Value(BroadcastBytes(b, mask)) == Fill(Value(b), Open(|b|, mask))
  {
    if b == [] {
    } else {
      BytesBlock(b[..|b| - 1], mask);
      InitBytes(b, mask);
      BlockNext(b, SubnetBytes(b, mask), BroadcastBytes(b, mask), mask);
    }
  }

  lemma {:induction false} BlockNext(b: seq<Byte>, s: seq<Byte>, t: seq<Byte>, mask: nat)
    requires |b| == |s| == |t| > 0
    requires var n := |b| - 1;
             && Value(s[..n]) == Clear(Value(b[..n]), Open(n, mask))
             && Value(t[..n]) == Fill(Value(b[..n]), Open(n, mask))
             && s[n] == Clear(b[n], 8 - OnesAt(mask, n)) && t[n] == Fill(b[n], 8 - OnesAt(mask, n))
    ensures Value(s) == Clear(Value(b), Open(|b|, mask)) && Value(t) == Fill(Value(b), Open(|b|, mask))
  {
    var n := |b| - 1;
    ByteBlock(Value(b[..n]), b[n], n, mask);
  }

  lemma {:induction false} ByteBlock(v: nat, l: Byte, n: nat, mask: nat)
    ensures Clear(256 * v + l, Open(n + 1, mask)) == 256 * Clear(v, Open(n, mask)) + Clear(l, 8 - OnesAt(mask, n))
    ensures Fill(256 * v + l, Open(n + 1, mask)) == 256 * Fill(v, Open(n, mask)) + Fill(l, 8 - OnesAt(mask, n))
  {
    ClearByte(v, l, Open(n + 1, mask));
    WholeByte(l);
  }

  lemma InitBytes(b: seq<Byte>, mask: nat)
    requires b != []
    ensures var n := |b| - 1;
            && SubnetBytes(b, mask)[..n] == SubnetBytes(b[..n], mask)
            && BroadcastBytes(b, mask)[..n] == BroadcastBytes(b[..n], mask)
            && SubnetBytes(b, mask)[n] == Clear(b[n], 8 - OnesAt(mask, n))
            && BroadcastBytes(b, mask)[n] == Fill(b[n], 8 - OnesAt(mask, n))
  {
    ByteIs(b[|b| - 1], mask, |b| - 1);
  }

  lemma WholeByte(l: Byte)
    ensures Clear(l, 8) == 0 && Fill(l, 8) == 255
  {
    WordSizes();
    ClearAll(8, l);
  }

  // getSubnet() and getBroadcastIp() in numbers.
  lemma PrefixBlock(p: IpPrefix)
    requires p.Valid()
    ensures Number(p.GetSubnet().ip) == Clear(Number(p.ip), Width(p.ip) - p.mask)
    ensures Number(p.GetBroadcastIp()) == Fill(Number(p.ip), Width(p.ip) - p.mask)
  {
    match p.ip {
      case V4(w) => WordMaskActs(w, p.mask);
      case V6(b) => BytesBlock(b, p.mask);
    }
  }

  function Quotient(x: nat, p: nat): nat
    requires p > 0
  {
    x / p
  }

  // The number that the m leading bits of an address stand for.
  function LeadingBits(a: IpAddress, m: int): nat
    requires 0 <= m <= Width(a)
  {
    Quotient(Number(a), Pow2(Width(a) - m))
  }

  // Clearing the n low bits rounds down to a multiple of 2^n, filling them ends its block.
  lemma {:induction false} ClearIs(x: nat, n: nat)
    ensures Clear(x, n) == Quotient(x, Pow2(n)) * Pow2(n) && Fill(x, n) == Clear(x, n) + Pow2(n) - 1
  {
    if n == 0 {
    } else {
      var p := Pow2(n - 1);
      ClearIs(x / 2, n - 1);
      DivideTwice(x, p);
      TwoFactors((x / 2) / p, p);
    }
  }

  lemma TwoFactors(q: nat, p: nat)
    ensures 2 * (q * p) == q * (2 * p)
  {
  }

  lemma DivideTwice(x: nat, p: nat)
    requires p > 0
    ensures x / (2 * p) == (x / 2) / p
  {
    var q, r := (x / 2) / p, (x / 2) % p;
    Divides(x, 2 * p, q, 2 * r + x % 2);
  }

  // q is the quotient if the rest is small.
  lemma Divides(x: nat, p: nat, q: nat, r: nat)
    requires x == q * p + r && r < p
    ensures x / p == q
  {
    var q' := x / p;
    assert x == q' * p + x % p;
    if q' < q {
      LessProduct(q', q, p);
    } else if q < q' {
      LessProduct(q, q', p);
    }
  }

  lemma LessProduct(a: nat, b: nat, p: nat)
    requires a < b
    ensures a * p + p <= b * p
  {
    var d := b - a - 1;
    SumProduct(a, d + 1, p);
    SumProduct(d, 1, p);
    assert b * p == a * p + (d * p + p);
  }

  lemma SumProduct(x: nat, y: nat, p: nat)
    ensures (x + y) * p == x * p + y * p
  {
  }

  lemma SameQuotient(x: nat, y: nat, p: nat)
    requires p > 0
    ensures x * p == y * p <==> x == y
  {
    if x < y {
      LessProduct(x, y, p);
    } else if y < x {
      LessProduct(y, x, p);
    }
  }

  lemma {:induction false} BytesLessSnoc(a: seq<Byte>, b: seq<Byte>, x: Byte, y: Byte)
    requires |a| == |b|
    ensures BytesLess(a + [x], b + [y]) <==> BytesLess(a, b) || (a == b && x < y)
  {
    if a == [] {
    } else {
      BytesLessSnoc(a[1..], b[1..], x, y);
      assert (a + [x])[1..] == a[1..] + [x] && (b + [y])[1..] == b[1..] + [y];
      assert a == [a[0]] + a[1..] && b == [b[0]] + b[1..];
    }
  }

  lemma {:induction false} ValueIsOrder(a: seq<Byte>, b: seq<Byte>)
    requires |a| == |b|
    ensures Value(a) == Value(b) <==> a == b
    ensures BytesLess(a, b) <==> Value(a) < Value(b)
  {
    if a == [] {
    } else {
      var n := |a| - 1;
      var a', b' := a[..n], b[..n];
      ValueIsOrder(a', b');
      assert a == a' + [a[n]] && b == b' + [b[n]];
      BytesLessSnoc(a', b', a[n], b[n]);
      LastDigit(Value(a'), Value(b'), a[n], b[n]);
    }
  }

  lemma LastDigit(u: nat, v: nat, x: Byte, y: Byte)
    ensures 256 * u + x == 256 * v + y <==> u == v && x == y
    ensures 256 * u + x < 256 * v + y <==> u < v || (u == v && x < y)
  {
  }

  // operator< compares addresses of one family as numbers.
  lemma LessIsNumeric(a: IpAddress, b: IpAddress)
    requires a.V4? == b.V4?
    ensures a.Less(b) <==> Number(a) < Number(b)
    ensures a == b <==> Number(a) == Number(b)
  {
    if a.V6? {
      ValueIsOrder(a.bytes, b.bytes);
    }
  }

  // A prefix of length m is a block of 2^(w - m) addresses that starts at a multiple of its
  // size: the subnet is the first of them, the broadcast address the last.
  lemma SubnetByLeadingBits(p: IpPrefix)
    requires p.Valid()
    ensures var size := Pow2(Width(p.ip) - p.mask);
            && Number(p.GetSubnet().ip) == LeadingBits(p.ip, p.mask) * size
            && Number(p.GetBroadcastIp()) == LeadingBits(p.ip, p.mask) * size + size - 1
  {
    PrefixBlock(p);
    ClearIs(Number(p.ip), Width(p.ip) - p.mask);
  }

  // isAddressInSubnet(): an address belongs to a prefix of length m if and only if its m
  // leading bits are those of the prefix.
  lemma ContainsByLeadingBits(p: IpPrefix, a: IpAddress)
    requires p.Valid() && p.ip.V4? == a.V4?
    ensures p.Contains(a) <==> LeadingBits(a, p.mask) == LeadingBits(p.ip, p.mask)
  {
    ContainsBySubnet(p, a);
    SubnetByLeadingBits(p);
    SubnetByLeadingBits(IpPrefix(a, p.mask));
    LessIsNumeric(p.GetSubnet().ip, IpPrefix(a, p.mask).GetSubnet().ip);
    SameQuotient(LeadingBits(a, p.mask), LeadingBits(p.ip, p.mask), Pow2(Width(a) - p.mask));
  }
}
