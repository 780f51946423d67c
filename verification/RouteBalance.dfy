/** Which changes of RouteState keep the neighbours balanced, that is, counting exactly the
    next hops that reference them. */
module RouteBalance {
  import opened Sets
  import opened RouteState
  import opened RouteProofs

  // A neighbour gains the next hop h.
  lemma NhopsOfAdd(nhops: Nhops, owner: Owners, h: Handle, nh: Nhop, v: int, n: NeighKey)
    requires h !in nhops
    ensures |NhopsOf(nhops[h := nh], owner[h := v], n)| ==
            |NhopsOf(nhops, owner, n)| + if n == NeighKey(v, nh.key.gateway) then 1 else 0
  {
    if n == NeighKey(v, nh.key.gateway) {
      assert NhopsOf(nhops[h := nh], owner[h := v], n) == NhopsOf(nhops, owner, n) + {h};
    } else {
      assert NhopsOf(nhops[h := nh], owner[h := v], n) == NhopsOf(nhops, owner, n);
    }
  }

  lemma NhopsOfRemove(nhops: Nhops, owner: Owners, h: Handle, n: NeighKey)
    requires h in nhops && h in owner
    ensures |NhopsOf(nhops - {h}, owner - {h}, n)| ==
            |NhopsOf(nhops, owner, n)| - if n == NeighKey(owner[h], nhops[h].key.gateway) then 1 else 0
  {
    var a, b := NhopsOf(nhops, owner, n), NhopsOf(nhops - {h}, owner - {h}, n);
    if n == NeighKey(owner[h], nhops[h].key.gateway) {
      assert h in a;
      assert b == a - {h};
    } else {
      assert b == a;
    }
  }

  lemma NoNhopsWithoutNeigh(nhops: Nhops, owner: Owners, neighs: map<NeighKey, Neigh>, n: NeighKey)
    requires NeighsOk(nhops, owner, neighs)
    ensures n.gw != 0 && n !in neighs ==> |NhopsOf(nhops, owner, n)| == 0
  {
    forall h | h in NhopsOf(nhops, owner, n)
      ensures n.gw == 0 || n in neighs
    {
      assert ResolvedOk(nhops, owner, neighs, h);
    }
    EmptyOrInhabited(NhopsOf(nhops, owner, n));
  }

  // The neighbours follow a new next hop.
  lemma NeighAddKeeps(nhops: Nhops, owner: Owners, neighs: map<NeighKey, Neigh>, h: Handle, nh: Nhop, v: int,
                      oid: int, neighs': map<NeighKey, Neigh>)
    requires NeighsOk(nhops, owner, neighs) && h !in nhops
    requires neighs' == NeighsRef(neighs, NeighKey(v, nh.key.gateway), oid)
    requires nh.key.gateway != 0 ==> nh.neighOid == neighs'[NeighKey(v, nh.key.gateway)].oid
    ensures NeighsOk(nhops[h := nh], owner[h := v], neighs')
  {
    var g := NeighKey(v, nh.key.gateway);
    NoNhopsWithoutNeigh(nhops, owner, neighs, g);
    forall n | n in neighs'
      ensures NeighOk(nhops[h := nh], owner[h := v], neighs', n)
    {
      assert n in neighs ==> NeighOk(nhops, owner, neighs, n);
      NhopsOfAdd(nhops, owner, h, nh, v, n);
    }
    var nhops' := nhops[h := nh];
    forall k | k in nhops'
      ensures ResolvedOk(nhops', owner[h := v], neighs', k)
    {
      assert k != h ==> ResolvedOk(nhops, owner, neighs, k);
    }
  }

  // One neighbour entering or leaving changes the count of its VRF by one.
  lemma NeighsOfStep(a: map<NeighKey, Neigh>, b: map<NeighKey, Neigh>, n: NeighKey, v: int)
    requires b.Keys == a.Keys || b.Keys == a.Keys + {n} || a.Keys == b.Keys + {n}
    ensures |NeighsOf(b, v)| == |NeighsOf(a, v)| +
              (if v == n.vrf && n in b then 1 else 0) - if v == n.vrf && n in a then 1 else 0
  {
    if v != n.vrf || (n in a <==> n in b) {
      assert NeighsOf(b, v) == NeighsOf(a, v);
    } else if n !in a {
      NeighsOfGrown(a, b, n);
    } else {
      NeighsOfGrown(b, a, n);
    }
  }

  lemma NeighsOfGrown(a: map<NeighKey, Neigh>, b: map<NeighKey, Neigh>, n: NeighKey)
    requires b.Keys == a.Keys + {n} && n !in a
    ensures |NeighsOf(b, n.vrf)| == |NeighsOf(a, n.vrf)| + 1
  {
    assert NeighsOf(b, n.vrf) == NeighsOf(a, n.vrf) + {n};
  }

  lemma NeighCountsFollow(a: map<NeighKey, Neigh>, b: map<NeighKey, Neigh>, n: NeighKey, cnt: map<int, int>, total: int)
    requires NeighsCounted(a, cnt, total) && n.vrf in cnt
    requires b.Keys == a.Keys || b.Keys == a.Keys + {n} || a.Keys == b.Keys + {n}
    ensures NeighsCounted(b, cnt[n.vrf := cnt[n.vrf] + Delta(a, b, n)], total + Delta(a, b, n))
  {
    assert |b| == |b.Keys| && |a| == |a.Keys|;
    var d := Delta(a, b, n);
    var cnt' := cnt[n.vrf := cnt[n.vrf] + d];
    forall v | v in cnt'
      ensures cnt'[v] == |NeighsOf(b, v)|
    {
      NeighsOfStep(a, b, n, v);
    }
  }

  lemma NeighsRefKeys(neighs: map<NeighKey, Neigh>, n: NeighKey, oid: int)
    ensures NeighsRef(neighs, n, oid).Keys == if n.gw == 0 then neighs.Keys else neighs.Keys + {n}
    ensures n in neighs ==> neighs.Keys + {n} == neighs.Keys
  {
  }

  lemma NeighsUnrefKeys(neighs: map<NeighKey, Neigh>, n: NeighKey)
    ensures var neighs' := NeighsUnref(neighs, n); neighs'.Keys == neighs.Keys || neighs.Keys == neighs'.Keys + {n}
  {
  }

  lemma NeighDropKeeps(nhops: Nhops, owner: Owners, neighs: map<NeighKey, Neigh>, h: Handle,
                       neighs': map<NeighKey, Neigh>)
    requires NeighsOk(nhops, owner, neighs) && h in nhops && h in owner
    requires neighs' == NeighsUnref(neighs, NeighKey(owner[h], nhops[h].key.gateway))
    ensures NeighsOk(nhops - {h}, owner - {h}, neighs')
  {
    var g := NeighKey(owner[h], nhops[h].key.gateway);
    var nhops', owner' := nhops - {h}, owner - {h};
    assert ResolvedOk(nhops, owner, neighs, h);
    assert g.gw != 0 ==> NeighOk(nhops, owner, neighs, g);
    NhopsOfRemove(nhops, owner, h, g);
    forall n | n in neighs'
      ensures NeighOk(nhops', owner', neighs', n)
    {
      assert NeighOk(nhops, owner, neighs, n);
      NhopsOfRemove(nhops, owner, h, n);
    }
    forall k | k in nhops'
      ensures ResolvedOk(nhops', owner', neighs', k)
    {
      assert ResolvedOk(nhops, owner, neighs, k);
      if NeighKey(owner[k], nhops[k].key.gateway) == g {
        assert k in NhopsOf(nhops', owner', g);
      }
    }
  }

  lemma SetNeighsCounts(s: State, n: NeighKey, neighs: map<NeighKey, Neigh>)
    requires NeighsCounted(s.neighs, s.neighCnt, s.neighTotal) && n.vrf in s.neighCnt
    requires neighs.Keys == s.neighs.Keys || neighs.Keys == s.neighs.Keys + {n} || s.neighs.Keys == neighs.Keys + {n}
    ensures var t := SetNeighs(s, n, neighs); NeighsCounted(t.neighs, t.neighCnt, t.neighTotal)
  {
    NeighCountsFollow(s.neighs, neighs, n, s.neighCnt, s.neighTotal);
  }

  // From s to t the counters of the VRFs stay right, and the neighbours stay balanced
  // exactly if ok holds.
  ghost predicate Conserved(s: State, t: State, ok: bool) {
    && (Counted(s) ==> Counted(t))
    && (Balanced(s) ==> (Balanced(t) <==> ok))
  }

  // Taking a reference always keeps the neighbours balanced.
  lemma RefBalance(s: State, v: int, key: NhopKey, addr: Handle, oid: int)
    requires v in s.neighCnt && addr !in s.nhops && (key in s.hash ==> s.hash[key] in s.nhops)
    ensures Conserved(s, NhopRef(s, v, key, addr, oid), true)
  {
    if key in s.hash {
      if Balanced(s) {
        RecountBalance(s.nhops, s.owner, s.neighs, s.hash[key], s.nhops[s.hash[key]].refCount + 1);
      }
    } else {
      RefNewBalance(s, v, key, addr, oid);
    }
  }

  lemma RecountBalance(nhops: Nhops, owner: Owners, neighs: map<NeighKey, Neigh>, h: Handle, c: int)
    requires h in nhops && NeighsOk(nhops, owner, neighs)
    ensures NeighsOk(nhops[h := nhops[h].(refCount := c)], owner, neighs)
  {
    var nhops' := nhops[h := nhops[h].(refCount := c)];
    forall k | k in nhops'
      ensures ResolvedOk(nhops', owner, neighs, k)
    {
      assert ResolvedOk(nhops, owner, neighs, k);
    }
    forall n | n in neighs
      ensures NeighOk(nhops', owner, neighs, n)
    {
      assert NeighOk(nhops, owner, neighs, n);
      assert NhopsOf(nhops', owner, n) == NhopsOf(nhops, owner, n);
    }
  }

  lemma RefNewBalance(s: State, v: int, key: NhopKey, addr: Handle, oid: int)
    requires v in s.neighCnt && addr !in s.nhops && key !in s.hash
    ensures Conserved(s, NhopRef(s, v, key, addr, oid), true)
  {
    var n := NeighKey(v, key.gateway);
    var neighs := NeighsRef(s.neighs, n, oid);
    var nh := Nhop(key, 1, if n.gw != 0 then neighs[n].oid else 0);
    NeighsRefKeys(s.neighs, n, oid);
    WithNhopCounts(s, addr, nh, n, neighs);
    if Balanced(s) {
      NeighAddKeeps(s.nhops, s.owner, s.neighs, addr, nh, v, oid, neighs);
    }
  }

  lemma WithNhopCounts(s: State, addr: Handle, nh: Nhop, n: NeighKey, neighs: map<NeighKey, Neigh>)
    requires n.vrf in s.neighCnt && (neighs.Keys == s.neighs.Keys || neighs.Keys == s.neighs.Keys + {n})
    ensures Counted(s) ==> Counted(WithNhop(s, addr, nh, n, neighs))
  {
    if Counted(s) {
      SetNeighsCounts(s, n, neighs);
    }
  }

  ghost predicate SameNeigh(s: State, t: State, n: NeighKey) {
    (n in t.neighs <==> n in s.neighs) && (n in s.neighs ==> t.neighs[n] == s.neighs[n])
  }

  // From s to t the neighbour table changed at most for VRF v.
  ghost predicate OtherNeighs(s: State, t: State, v: int) {
    forall n: NeighKey {:trigger SameNeigh(s, t, n)} :: n.vrf != v ==> SameNeigh(s, t, n)
  }

  lemma OtherNeighsTwice(s: State, t: State, u: State, v: int)
    requires OtherNeighs(s, t, v) && OtherNeighs(t, u, v)
    ensures OtherNeighs(s, u, v)
  {
    forall n: NeighKey | n.vrf != v
      ensures SameNeigh(s, u, n)
    {
      assert SameNeigh(s, t, n) && SameNeigh(t, u, n);
    }
  }

  // A next hop that references a neighbour of another VRF and vanished through VRF v
  // leaves that neighbour with a count too high.
  lemma VanishedAstray(s: State, t: State, v: int, h: Handle)
    requires Balanced(s) && s.owner.Keys == s.nhops.Keys && Shrunk(s, t) && OtherNeighs(s, t, v)
    requires h in s.nhops && h !in t.nhops && s.nhops[h].key.gateway != 0 && s.owner[h] != v
    ensures !Balanced(t)
  {
    var n := NeighKey(s.owner[h], s.nhops[h].key.gateway);
    assert ResolvedOk(s.nhops, s.owner, s.neighs, h) && NeighOk(s.nhops, s.owner, s.neighs, n);
    var a, b := NhopsOf(s.nhops, s.owner, n), NhopsOf(t.nhops, t.owner, n);
    assert h in a && b <= a - {h};
    SubsetSize(b, a - {h});
    assert SameNeigh(s, t, n) && !NeighOk(t.nhops, t.owner, t.neighs, n);
  }

  // The release through another VRF takes the neighbour away from a next hop of that VRF if
  // and only if there is such a neighbour and it has no other reference.
  lemma WrongNeighbour(s: State, v: int, h: Handle)
    requires Core(s) && Balanced(s) && v in s.neighCnt && h in s.nhops && s.nhops[h].refCount <= 1
    requires s.nhops[h].key.gateway != 0 && s.owner[h] != v
    ensures var t, n := NhopUnref(s, v, h), NeighKey(v, s.nhops[h].key.gateway);
            (exists g :: g in NhopsOf(t.nhops, t.owner, n) && !ResolvedOk(t.nhops, t.owner, t.neighs, g)) <==>
            n in s.neighs && s.neighs[n].refcnt == 1
  {
    var t, n := NhopUnref(s, v, h), NeighKey(v, s.nhops[h].key.gateway);
    assert NhopsOf(t.nhops, t.owner, n) == NhopsOf(s.nhops, s.owner, n);
    if n in s.neighs && s.neighs[n].refcnt == 1 {
      assert NeighOk(s.nhops, s.owner, s.neighs, n);
      var g := SomeMember(NhopsOf(s.nhops, s.owner, n));
      assert n !in t.neighs && !ResolvedOk(t.nhops, t.owner, t.neighs, g);
    }
    if g :| g in NhopsOf(t.nhops, t.owner, n) && !ResolvedOk(t.nhops, t.owner, t.neighs, g) {
      assert ResolvedOk(s.nhops, s.owner, s.neighs, g);
    }
  }

  lemma UnrefOtherNeighs(s: State, v: int, h: Handle)
    requires h in s.nhops && v in s.neighCnt
    ensures OtherNeighs(s, NhopUnref(s, v, h), v)
  {
    UnrefsOne(s.neighs, NeighKey(v, s.nhops[h].key.gateway));
  }

  lemma UnrefsOne(neighs: map<NeighKey, Neigh>, n: NeighKey)
    ensures forall m :: m != n ==> (m in NeighsUnref(neighs, n) <==> m in neighs)
    ensures forall m :: m != n && m in neighs ==> NeighsUnref(neighs, n)[m] == neighs[m]
  {
  }

  // Releasing a reference through VRF v keeps the neighbours balanced exactly if it is
  // not the last one, or no neighbour is involved, or the neighbour is that of v.
  lemma UnrefBalance(s: State, v: int, h: Handle)
    requires v in s.neighCnt && h in s.nhops && s.owner.Keys == s.nhops.Keys
    ensures Conserved(s, NhopUnref(s, v, h), OwnRelease(s, v, h))
  {
    var n := NeighKey(v, s.nhops[h].key.gateway);
    if s.nhops[h].refCount > 1 {
      if Balanced(s) {
        RecountBalance(s.nhops, s.owner, s.neighs, h, s.nhops[h].refCount - 1);
      }
    } else {
      WithoutNhopCounts(s, h, n, NeighsUnref(s.neighs, n)) by { NeighsUnrefKeys(s.neighs, n); }
      if Balanced(s) {
        UnrefLastBalance(s, v, h);
      }
    }
  }

  lemma WithoutNhopCounts(s: State, h: Handle, n: NeighKey, neighs: map<NeighKey, Neigh>)
    requires n.vrf in s.neighCnt && h in s.nhops
    requires neighs.Keys == s.neighs.Keys || neighs.Keys == s.neighs.Keys + {n} || s.neighs.Keys == neighs.Keys + {n}
    ensures Counted(s) ==> Counted(WithoutNhop(s, h, n, neighs))
  {
    if Counted(s) {
      SetNeighsCounts(s, n, neighs);
    }
  }

  lemma UnrefLastBalance(s: State, v: int, h: Handle)
    requires Balanced(s) && v in s.neighCnt && h in s.nhops && s.owner.Keys == s.nhops.Keys
    requires s.nhops[h].refCount <= 1
    ensures Balanced(NhopUnref(s, v, h)) <==> OwnRelease(s, v, h)
  {
    if OwnRelease(s, v, h) {
      NeighDropKeeps(s.nhops, s.owner, s.neighs, h, NeighsUnref(s.neighs, NeighKey(v, s.nhops[h].key.gateway)));
    } else {
      UnrefShrinks(s, v, h);
      UnrefOtherNeighs(s, v, h);
      VanishedAstray(s, NhopUnref(s, v, h), v, h);
    }
  }

  lemma {:induction false} UnrefAllOtherNeighs(s: State, v: int, hs: seq<Handle>)
    requires v in s.neighCnt
    ensures OtherNeighs(s, UnrefAll(s, v, hs), v)
  {
    if hs == [] {
    } else {
      var init, last := hs[..|hs| - 1], hs[|hs| - 1];
      UnrefAllOtherNeighs(s, v, init);
      if last in UnrefAll(s, v, init).nhops {
        UnrefOtherNeighs(UnrefAll(s, v, init), v, last);
        OtherNeighsTwice(s, UnrefAll(s, v, init), UnrefAll(s, v, hs), v);
      }
    }
  }

  // A last reference among those released takes its next hop along.
  lemma {:induction false} UnrefAllDrops(s: State, v: int, hs: seq<Handle>, h: Handle)
    requires v in s.neighCnt && NoDuplicates(hs) && h in hs && h in s.nhops && s.nhops[h].refCount <= 1
    ensures h !in UnrefAll(s, v, hs).nhops
  {
    var init, last := hs[..|hs| - 1], hs[|hs| - 1];
    assert hs == init + [last];
    UnrefAllFrame(s, v, init);
    if h == last {
      assert last !in Elements(init) by { assert forall i :: 0 <= i < |init| ==> hs[i] != last; }
    } else {
      UnrefAllDrops(s, v, init, h);
      if last in UnrefAll(s, v, init).nhops {
        UnrefFrame(UnrefAll(s, v, init), v, last);
      }
    }
  }

  lemma {:induction false} UnrefAllOwn(s: State, v: int, hs: seq<Handle>)
    requires v in s.neighCnt && NoDuplicates(hs) && s.owner.Keys == s.nhops.Keys
    requires forall h :: h in hs ==> h in s.nhops
    ensures UnrefAll(s, v, hs).owner.Keys == UnrefAll(s, v, hs).nhops.Keys
    ensures Counted(s) ==> Counted(UnrefAll(s, v, hs))
    ensures Balanced(s) && (forall h :: h in hs ==> OwnRelease(s, v, h)) ==> Balanced(UnrefAll(s, v, hs))
  {
    if hs == [] {
    } else {
      var init, last := hs[..|hs| - 1], hs[|hs| - 1];
      assert hs == init + [last];
      UnrefAllOwn(s, v, init);
      UnrefAllFrame(s, v, init);
      assert last !in Elements(init) by { assert forall i :: 0 <= i < |init| ==> hs[i] != last; }
      UnrefBalance(UnrefAll(s, v, init), v, last);
    }
  }

  // Releasing the next hops of a deleted prefix.
  lemma UnrefAllBalance(s: State, v: int, hs: seq<Handle>)
    requires v in s.neighCnt && NoDuplicates(hs) && s.owner.Keys == s.nhops.Keys
    requires forall h :: h in hs ==> h in s.nhops
    ensures Conserved(s, UnrefAll(s, v, hs), forall h :: h in hs ==> OwnRelease(s, v, h))
  {
    UnrefAllOwn(s, v, hs);
    if h :| h in hs && !OwnRelease(s, v, h) {
      UnrefAllDrops(s, v, hs, h);
      UnrefAllShrinks(s, v, hs);
      UnrefAllOtherNeighs(s, v, hs);
      if Balanced(s) {
        VanishedAstray(s, UnrefAll(s, v, hs), v, h);
      }
    }
  }

  // The route operations. Inserts never unbalance the neighbours, whoever owns the next hop.
  lemma InsertBalance(s: State, k: RibKey, key: NhopKey, ribType: RibType, addr: Handle, oid: int, i: int)
    requires KnownVrf(s, k.vrf) && addr !in s.nhops && (key in s.hash ==> s.hash[key] in s.nhops)
    ensures Conserved(s, Inserted(s, k, key, ribType, addr, oid, i), true)
  {
    RefBalance(s, k.vrf, key, addr, oid);
  }

  lemma RemoveBalance(s: State, k: RibKey, ribType: RibType, h: Handle, i: int)
    requires Core(s) && KnownVrf(s, k.vrf) && k in s.rib && h in s.nhops
    ensures Conserved(s, Removed(s, k, ribType, h, i), OwnRelease(s, k.vrf, h))
  {
    if |MpathOf(s, k)| == 1 {
      UnrefBalance(DropRoute(s, k), k.vrf, h);
    } else {
      UnrefBalance(PutRoute(s, k, i, RouteEntry(s, k, ribType, Without(MpathOf(s, k), h))), k.vrf, h);
    }
  }

  lemma DeleteBalance(s: State, k: RibKey)
    requires Core(s) && KnownVrf(s, k.vrf) && k in s.rib
    ensures Conserved(s, Deleted(s, k), forall h :: h in MpathOf(s, k) ==> OwnRelease(s, k.vrf, h))
  {
    assert RouteOk(s.rib, s.slots, s.nhops.Keys, k);
    UnrefAllBalance(DropRoute(s, k), k.vrf, MpathOf(s, k));
    assert forall h :: OwnRelease(DropRoute(s, k), k.vrf, h) <==> OwnRelease(s, k.vrf, h);
  }
}
