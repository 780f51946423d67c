/** What the release of next hops does to the neighbour table, whatever VRF they were
    resolved for: each next hop that leaves the tables through VRF v gives back one reference
    on the neighbour of v behind its gateway. */
module RouteNeighs {
  import opened Sets
  import opened RouteState
  import opened RouteProofs

  ghost function Behind(keys: set<NhopKey>, gw: int): set<NhopKey> {
    set x | x in keys && x.gateway == gw
  }

  // The references on n that the next hops of keys give back through VRF v.
  ghost function Due(keys: set<NhopKey>, v: int, n: NeighKey): nat {
    if n.vrf == v && n.gw != 0 then |Behind(keys, n.gw)| else 0
  }

  // A neighbour with no more references than are given back disappears.
  ghost function NeighsLess(neighs: map<NeighKey, Neigh>, v: int, keys: set<NhopKey>): map<NeighKey, Neigh> {
    map n | n in neighs && neighs[n].refcnt > Due(keys, v, n) ::
      Neigh(neighs[n].refcnt - Due(keys, v, n), neighs[n].oid)
  }

  lemma LessNothing(neighs: map<NeighKey, Neigh>, v: int)
    requires Positive(neighs)
    ensures NeighsLess(neighs, v, {}) == neighs
  {
    assert forall gw :: Behind({}, gw) == {};
  }

  lemma LessOne(neighs: map<NeighKey, Neigh>, v: int, key: NhopKey)
    requires Positive(neighs)
    ensures NeighsLess(neighs, v, {key}) == NeighsUnref(neighs, NeighKey(v, key.gateway))
  {
    forall gw
      ensures |Behind({key}, gw)| == if gw == key.gateway then 1 else 0
    {
      assert Behind({key}, gw) == if gw == key.gateway then {key} else {};
    }
  }

  lemma DueAdds(a: set<NhopKey>, b: set<NhopKey>, v: int, n: NeighKey)
    requires a !! b
    ensures Due(a + b, v, n) == Due(a, v, n) + Due(b, v, n)
  {
    assert Behind(a + b, n.gw) == Behind(a, n.gw) + Behind(b, n.gw);
  }

  lemma LessTwice(neighs: map<NeighKey, Neigh>, v: int, a: set<NhopKey>, b: set<NhopKey>)
    requires a !! b
    ensures NeighsLess(NeighsLess(neighs, v, a), v, b) == NeighsLess(neighs, v, a + b)
  {
    forall n
      ensures Due(a + b, v, n) == Due(a, v, n) + Due(b, v, n)
    {
      DueAdds(a, b, v, n);
    }
  }

  // Neighbour n after next hops of s that t lacks left through VRF v.
  ghost predicate Follows(s: State, t: State, v: int, n: NeighKey) {
    var due := Due(s.hash.Keys - t.hash.Keys, v, n);
    && (n in t.neighs <==> n in s.neighs && s.neighs[n].refcnt > due)
    && (n in t.neighs ==> t.neighs[n] == Neigh(s.neighs[n].refcnt - due, s.neighs[n].oid))
  }

  // From s to t next hops left through VRF v, and the neighbours followed.
  ghost predicate Releases(s: State, t: State, v: int) {
    && t.hash.Keys <= s.hash.Keys
    && forall n {:trigger Follows(s, t, v, n)} :: Follows(s, t, v, n)
  }

  lemma ReleasesIs(s: State, t: State, v: int)
    requires t.hash.Keys <= s.hash.Keys
    ensures Releases(s, t, v) <==> t.neighs == NeighsLess(s.neighs, v, s.hash.Keys - t.hash.Keys)
  {
    var less := NeighsLess(s.neighs, v, s.hash.Keys - t.hash.Keys);
    if Releases(s, t, v) {
      forall n
        ensures n in t.neighs <==> n in less
        ensures n in t.neighs ==> t.neighs[n] == less[n]
      {
        assert Follows(s, t, v, n);
      }
    }
  }

  lemma ReleasesNothing(s: State, t: State, v: int)
    requires Positive(s.neighs) && t.hash == s.hash && t.neighs == s.neighs
    ensures Releases(s, t, v)
  {
    ReleasesIs(s, t, v);
    LessNothing(s.neighs, v);
    assert s.hash.Keys - t.hash.Keys == {};
  }

  lemma ReleasesFrom(s: State, t: State, u: State, v: int)
    requires Releases(t, u, v) && t.hash == s.hash && t.neighs == s.neighs
    ensures Releases(s, u, v)
  {
    ReleasesIs(t, u, v);
    ReleasesIs(s, u, v);
  }

  lemma ReleasesTwice(s: State, t: State, u: State, v: int)
    requires Releases(s, t, v) && Releases(t, u, v)
    ensures Releases(s, u, v)
  {
    var a, b := s.hash.Keys - t.hash.Keys, t.hash.Keys - u.hash.Keys;
    ReleasesIs(s, t, v);
    ReleasesIs(t, u, v);
    ReleasesIs(s, u, v);
    LessTwice(s.neighs, v, a, b);
    assert s.hash.Keys - u.hash.Keys == a + b;
  }

  lemma UnrefReleases(s: State, v: int, h: Handle)
    requires Positive(s.neighs) && v in s.neighCnt && h in s.nhops && s.nhops[h].key in s.hash
    ensures Releases(s, NhopUnref(s, v, h), v)
  {
    var key, t := s.nhops[h].key, NhopUnref(s, v, h);
    if s.nhops[h].refCount > 1 {
      ReleasesNothing(s, t, v);
    } else {
      LessOne(s.neighs, v, key);
      assert s.hash.Keys - t.hash.Keys == {key};
      ReleasesIs(s, t, v);
    }
  }

  lemma {:induction false} UnrefAllReleases(s: State, v: int, hs: seq<Handle>, p: multiset<Handle>)
    requires CoreWith(s, p + multiset(hs)) && v in s.neighCnt && NoDuplicates(hs)
    requires forall h :: h in hs ==> h in s.nhops
    ensures Releases(s, UnrefAll(s, v, hs), v)
  {
    if hs == [] {
      ReleasesNothing(s, s, v);
    } else {
      var init, last := hs[..|hs| - 1], hs[|hs| - 1];
      assert hs == init + [last];
      PendingSplit(p, init, last);
      UnrefAllReleases(s, v, init, p + multiset{last});
      UnrefAllKeeps(s, v, init, p + multiset{last});
      var t := UnrefAll(s, v, init);
      if last in t.nhops {
        assert NhopOk(t.hash, t.nhops, last);
        UnrefReleases(t, v, last);
        ReleasesTwice(s, t, NhopUnref(t, v, last), v);
      }
    }
  }

  // shc_route_nhop_delete
  lemma RemoveReleases(s: State, k: RibKey, ribType: RibType, h: Handle, i: int)
    requires Core(s) && KnownVrf(s, k.vrf) && k in s.rib && h in s.nhops
    ensures Releases(s, Removed(s, k, ribType, h, i), k.vrf)
  {
    assert NhopOk(s.hash, s.nhops, h);
    var t := if |MpathOf(s, k)| == 1 then DropRoute(s, k)
             else PutRoute(s, k, i, RouteEntry(s, k, ribType, Without(MpathOf(s, k), h)));
    UnrefReleases(t, k.vrf, h);
    ReleasesFrom(s, t, NhopUnref(t, k.vrf, h), k.vrf);
  }

  // shc_route_delete
  lemma DeleteReleases(s: State, k: RibKey)
    requires Core(s) && KnownVrf(s, k.vrf) && k in s.rib
    ensures Releases(s, Deleted(s, k), k.vrf)
  {
    var mp := MpathOf(s, k);
    assert RouteOk(s.rib, s.slots, s.nhops.Keys, k);
    DropRouteKeeps(s, multiset{}, k);
    assert multiset{} + multiset(mp) == multiset(mp);
    UnrefAllReleases(DropRoute(s, k), k.vrf, mp, multiset{});
    ReleasesFrom(s, DropRoute(s, k), Deleted(s, k), k.vrf);
  }

  // shc_route_nhop_insert takes a reference on the neighbour of a new next hop only.
  lemma InsertNeighs(s: State, k: RibKey, key: NhopKey, ribType: RibType, addr: Handle, oid: int, i: int)
    requires KnownVrf(s, k.vrf) && (key in s.hash ==> s.hash[key] in s.nhops)
    ensures var u := Inserted(s, k, key, ribType, addr, oid, i);
            && u.hash.Keys == s.hash.Keys + {key}
            && u.neighs == if key in s.hash then s.neighs else NeighsRef(s.neighs, NeighKey(k.vrf, key.gateway), oid)
  {
  }
}
