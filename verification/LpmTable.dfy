/** The longest-prefix-match table (common/lpm_trie.cpp): one map per prefix length and
    address family, searched from the longest length down. */
module LpmTables {
  import opened IpAddresses
  import opened IpPrefixes

  type Routes = map<IpPrefix, string>

  ghost predicate Canonical(p: IpPrefix) {
    p.Valid() && p.GetSubnet() == p
  }

  // p is a longest stored prefix that contains a.
  ghost predicate IsLongest(routes: Routes, a: IpAddress, p: IpPrefix) {
    && p in routes && p.Valid() && p.Contains(a)
    && forall q :: q in routes && q.Valid() && q.Contains(a) ==> q.mask <= p.mask
  }

  // A canonical prefix that contains a is determined by its length.
  lemma MatchIsSubnetOf(p: IpPrefix, a: IpAddress)
    requires Canonical(p) && p.Contains(a)
    ensures IpPrefix(a, p.mask).Valid() && p == IpPrefix(a, p.mask).GetSubnet()
  {
  }

  lemma LongestIsUnique(routes: Routes, a: IpAddress, p: IpPrefix, q: IpPrefix)
    requires forall r :: r in routes ==> Canonical(r)
    requires IsLongest(routes, a, p) && IsLongest(routes, a, q)
    ensures p == q
  {
  }

  datatype Answer = NoRoute | Route(prefix: IpPrefix, info: string)

  // The naive lookup: one pass over all entries, keeping the longest match so far.
  ghost function Scan(entries: seq<(IpPrefix, string)>, a: IpAddress): Answer {
    if entries == [] then NoRoute
    else
      var (p, info), best := entries[|entries| - 1], Scan(entries[..|entries| - 1], a);
      if p.Valid() && p.Contains(a) && (best.NoRoute? || best.prefix.mask < p.mask) then Route(p, info) else best
  }

  lemma {:induction false} ScanFindsLongest(entries: seq<(IpPrefix, string)>, a: IpAddress)
    ensures var best := Scan(entries, a);
            && (best.Route? ==> (best.prefix, best.info) in entries && best.prefix.Valid() && best.prefix.Contains(a))
            && forall e :: e in entries && e.0.Valid() && e.0.Contains(a) ==>
                 best.Route? && e.0.mask <= best.prefix.mask
  {
    if entries == [] {
    } else {
      var init := entries[..|entries| - 1];
      ScanFindsLongest(init, a);
      var last := entries[|entries| - 1];
      assert entries == init + [last];
      assert (last.0, last.1) in entries;
    }
  }

  // The naive scan of the stored routes, in whatever order, answers with the longest
  // match, which Lookup returns.
  lemma ScanIsLongest(routes: Routes, entries: seq<(IpPrefix, string)>, a: IpAddress)
    requires forall p :: p in routes ==> Canonical(p)
    requires forall e :: e in entries <==> e.0 in routes && routes[e.0] == e.1
    ensures Scan(entries, a).NoRoute? <==> forall p :: p in routes ==> p.Valid() && !p.Contains(a)
    ensures forall p :: IsLongest(routes, a, p) <==> p in routes && Scan(entries, a) == Route(p, routes[p])
  {
    ScanFindsLongest(entries, a);
    var best := Scan(entries, a);
    forall p | p in routes && p.Contains(a)
      ensures best.Route? && p.mask <= best.prefix.mask
    {
      assert (p, routes[p]) in entries;
    }
    if best.Route? {
      assert IsLongest(routes, a, best.prefix);
      forall p | IsLongest(routes, a, p)
        ensures p == best.prefix
      {
        LongestIsUnique(routes, a, p, best.prefix);
      }
    }
  }

  class FibHash {
    const fibTable: array<map<IpPrefix, string>>
    const fib6Table: array<map<IpPrefix, string>>
    ghost var routes: Routes  // every stored prefix with its route

    function Table(v4: bool): array<map<IpPrefix, string>> {
      if v4 then fibTable else fib6Table
    }

    ghost predicate Sized() {
      fibTable.Length == 33 && fib6Table.Length == 129 && fibTable != fib6Table
    }

    // The route of p is kept under its own length and family.
    ghost predicate Kept(p: IpPrefix)
      reads this, fibTable, fib6Table
      requires Sized() && p in routes
    {
      && Canonical(p)
      && p in Table(p.ip.V4?)[p.mask] && Table(p.ip.V4?)[p.mask][p] == routes[p]
    }

    ghost predicate Stored(v4: bool, l: int, p: IpPrefix)
      reads fibTable, fib6Table
      requires Sized()
    {
      0 <= l < Table(v4).Length && p in Table(v4)[l]
    }

    ghost predicate Valid()
      reads this, fibTable, fib6Table
    {
      && Sized()
      && (forall p {:trigger Kept(p)} :: p in routes ==> Kept(p))
      && (forall v4, l, p {:trigger Stored(v4, l, p)} :: Stored(v4, l, p) ==>
            p in routes && p.mask == l && p.ip.V4? == v4)
    }

    // fib_table[len][key] = info, for the table and length of the key.
    method Store(key: IpPrefix, info: string)
      requires Valid() && Canonical(key)
      modifies this, fibTable, fib6Table
      ensures Valid() && routes == old(routes)[key := info]
    {
      var fib := Table(key.ip.V4?);
      fib[key.mask] := fib[key.mask][key := info];
      routes := routes[key := info];
      forall p | p in routes
        ensures Kept(p)
      {
        assert p != key ==> old(Kept(p));
      }
      forall v4, l, p | Stored(v4, l, p)
        ensures p in routes && p.mask == l && p.ip.V4? == v4
      {
        assert p != key || l != key.mask || v4 != key.ip.V4? ==> old(Stored(v4, l, p));
      }
    }

    // fib_table[len].erase(key)
    method Erase(key: IpPrefix)
      requires Valid() && Canonical(key)
      modifies this, fibTable, fib6Table
      ensures Valid() && routes == old(routes) - {key}
    {
      var fib := Table(key.ip.V4?);
      fib[key.mask] := fib[key.mask] - {key};
      routes := routes - {key};
      forall p | p in routes
        ensures Kept(p)
      {
        assert old(Kept(p));
      }
      forall v4, l, p | Stored(v4, l, p)
        ensures p in routes && p.mask == l && p.ip.V4? == v4
      {
        assert old(Stored(v4, l, p));
      }
    }

    // A key sits in the map of its length exactly if it is a stored route.
    lemma KeyIsRoute(key: IpPrefix)
      requires Valid() && Canonical(key)
      ensures 0 <= key.mask < Table(key.ip.V4?).Length
      ensures key in Table(key.ip.V4?)[key.mask] <==> key in routes
      ensures key in routes ==> Table(key.ip.V4?)[key.mask][key] == routes[key]
    {
      assert key in routes ==> Kept(key);
      assert key in Table(key.ip.V4?)[key.mask] ==> Stored(key.ip.V4?, key.mask, key);
    }

    constructor ()
      ensures Valid() && routes == map[] && fresh(fibTable) && fresh(fib6Table)
    {
      fibTable := new map<IpPrefix, string>[33](_ => map[]);
      fib6Table := new map<IpPrefix, string>[129](_ => map[]);
      routes := map[];
    }

    method IsExist(prefix: IpPrefix) returns (r: bool)
      requires Valid() && prefix.Valid()
      ensures r <==> prefix.GetSubnet() in routes
    {
      var fib := Table(prefix.ip.V4?);
      var len := prefix.mask;
      SubnetIdempotent(prefix);
      var key := prefix.GetSubnet();
      KeyIsRoute(key);
      if len < fib.Length {
        return key in fib[len];
      }
      return false;
    }

    method Modify(prefix: IpPrefix, routeInfo: string) returns (r: bool)
      requires Valid() && prefix.Valid()
      modifies this, fibTable, fib6Table
      ensures Valid() && (r <==> prefix.GetSubnet() in old(routes))
      ensures routes == if r then old(routes)[prefix.GetSubnet() := routeInfo] else old(routes)
    {
      var fib := Table(prefix.ip.V4?);
      var len := prefix.mask;
      SubnetIdempotent(prefix);
      var key := prefix.GetSubnet();
      KeyIsRoute(key);
      if len < fib.Length {
        if key in fib[len] {
          Store(key, routeInfo);
          return true;
        }
      }
      return false;
    }

    method Get(prefix: IpPrefix, routeInfo: string) returns (r: bool, info: string)
      requires Valid() && prefix.Valid()
      ensures r <==> prefix.GetSubnet() in routes
      ensures info == if r then routes[prefix.GetSubnet()] else routeInfo
    {
      var fib := Table(prefix.ip.V4?);
      var len := prefix.mask;
      SubnetIdempotent(prefix);
      var key := prefix.GetSubnet();
      KeyIsRoute(key);
      if len < fib.Length {
        if key in fib[len] {
          return true, fib[len][key];
        }
      }
      return false, routeInfo;
    }

    method Insert(prefix: IpPrefix, routeInfo: string) returns (r: bool)
      requires Valid() && prefix.Valid()
      modifies this, fibTable, fib6Table
      ensures Valid() && r && routes == old(routes)[prefix.GetSubnet() := routeInfo]
    {
      var fib := Table(prefix.ip.V4?);
      var len := prefix.mask;
      SubnetIdempotent(prefix);
      var key := prefix.GetSubnet();
      KeyIsRoute(key);
      if len >= fib.Length {
        return false;
      }
      Store(key, routeInfo);
      return true;
    }

    method Delete(prefix: IpPrefix) returns (r: bool)
      requires Valid() && prefix.Valid()
      modifies this, fibTable, fib6Table
      ensures Valid() && r && routes == old(routes) - {prefix.GetSubnet()}
    {
      var exist := IsExist(prefix);
      if !exist {
        return true;
      }
      var fib := Table(prefix.ip.V4?);
      var len := prefix.mask;
      SubnetIdempotent(prefix);
      var key := prefix.GetSubnet();
      KeyIsRoute(key);
      if len >= fib.Length {
        return false;
      }
      Erase(key);
      return true;
    }

    method Lookup(dstIp: IpAddress, routeInfo: string) returns (r: bool, info: string)
      requires Valid()
      ensures r <==> exists p :: p in routes && p.Valid() && p.Contains(dstIp)
      ensures r ==> exists p :: IsLongest(routes, dstIp, p) && info == routes[p]
      ensures !r ==> info == routeInfo
    {
      var fib := Table(dstIp.V4?);
      var prefixlen := fib.Length;
      while prefixlen > 0
        invariant 0 <= prefixlen <= fib.Length
        invariant forall p :: p in routes && p.Valid() && p.Contains(dstIp) ==> p.mask < prefixlen
      {
        prefixlen := prefixlen - 1;
        var key := IpPrefix(dstIp, prefixlen).GetSubnet();
        SubnetIdempotent(IpPrefix(dstIp, prefixlen));
        KeyIsRoute(key);
        if key in fib[prefixlen] {
          ContainsBySubnet(key, dstIp);
          assert key in routes && IsLongest(routes, dstIp, key);
          return true, fib[prefixlen][key];
        }
        forall p | p in routes && p.Valid() && p.Contains(dstIp)
          ensures p.mask < prefixlen
        {
          assert Kept(p);
          MatchIsSubnetOf(p, dstIp);
        }
      }
      return false, routeInfo;
    }
  }
}
