/** Every change of RouteState keeps the tables consistent, up to the references it leaves
    pending. The neighbours are the subject of RouteBalance. */
module RouteProofs {
  import opened Sets
  import opened RouteState

  // Routes stay well formed while the next hops they use live.
  lemma RoutesSurvive(rib: map<RibKey, int>, slots: map<int, FibRes>, live: set<Handle>, live': set<Handle>)
    requires RoutesOk(rib, slots, live)
    requires forall h :: h in live && Users(slots, h) != {} ==> h in live'
    ensures RoutesOk(rib, slots, live')
  {
    forall k | k in rib
      ensures RouteOk(rib, slots, live', k)
    {
      assert RouteOk(rib, slots, live, k);
      forall h | h in slots[rib[k]].mpath
        ensures h in live'
      {
        assert rib[k] in Users(slots, h);
      }
    }
    forall i | i in slots && i != BLACKHOLE
      ensures IsRouteSlot(rib, i)
    {
      assert IsRouteSlot(rib, i);
    }
  }

  // A slot that uses a next hop is routed, so the next hop is live.
  lemma UsedIsLive(rib: map<RibKey, int>, slots: map<int, FibRes>, live: set<Handle>, h: Handle)
    requires RoutesOk(rib, slots, live)
    ensures h !in live ==> Users(slots, h) == {}
  {
    forall i | i in Users(slots, h)
      ensures h in live
    {
      assert IsRouteSlot(rib, i);
      var k :| k in rib && rib[k] == i;
      assert RouteOk(rib, slots, live, k);
    }
    EmptyOrInhabited(Users(slots, h));
  }

  // Changing the reference count or the pending references of h alone.
  lemma RefsAdjust(slots: map<int, FibRes>, nhops: Nhops, p: multiset<Handle>, h: Handle, nh: Nhop,
                   p': multiset<Handle>)
    requires RefsOk(slots, nhops, p) && h in nhops && p' == p[h := p'[h]]
    requires nh.refCount - p'[h] == nhops[h].refCount - p[h] && 1 <= nh.refCount
    ensures RefsOk(slots, nhops[h := nh], p')
  {
    var nhops' := nhops[h := nh];
    forall k | k in nhops'
      ensures RefOk(slots, nhops', p', k)
    {
      assert RefOk(slots, nhops, p, k);
      assert k != h ==> p'[k] == p[k];
    }
    forall k | k in p'
      ensures k in nhops
    {
      assert k != h ==> k in p;
    }
  }

  lemma PendingOne(p: multiset<Handle>, h: Handle)
    ensures p + multiset{h} == p[h := p[h] + 1]
    ensures h in p ==> p - multiset{h} == p[h := p[h] - 1]
  {
  }

  // Nothing but its reference count changes in a next hop.
  lemma SameNhop(hash: map<NhopKey, Handle>, nhops: Nhops, h: Handle, c: int)
    requires h in nhops && NhopsOk(hash, nhops)
    ensures NhopsOk(hash, nhops[h := nhops[h].(refCount := c)])
  {
    var nhops' := nhops[h := nhops[h].(refCount := c)];
    forall k | k in nhops'
      ensures NhopOk(hash, nhops', k)
    {
      assert NhopOk(hash, nhops, k);
    }
    forall k | k in hash
      ensures HashOk(hash, nhops', k)
    {
      assert HashOk(hash, nhops, k);
    }
  }

  // The reference count of h and its pending references change together.
  lemma RecountKeeps(s: State, p: multiset<Handle>, h: Handle, c: int, p': multiset<Handle>)
    requires CoreWith(s, p) && h in s.nhops && p' == p[h := p'[h]]
    requires c - p'[h] == s.nhops[h].refCount - p[h] && 1 <= c
    ensures CoreWith(s.(nhops := s.nhops[h := s.nhops[h].(refCount := c)]), p')
  {
    RefsAdjust(s.slots, s.nhops, p, h, s.nhops[h].(refCount := c), p');
    SameNhop(s.hash, s.nhops, h, c);
    assert s.nhops[h := s.nhops[h].(refCount := c)].Keys == s.nhops.Keys;
  }

  // Taking one more reference on a known next hop.
  lemma RefKnownKeeps(s: State, p: multiset<Handle>, v: int, key: NhopKey, addr: Handle, oid: int)
    requires CoreWith(s, p) && v in s.neighCnt && key in s.hash && s.hash[key] in s.nhops
    ensures CoreWith(NhopRef(s, v, key, addr, oid), p + multiset{s.hash[key]})
  {
    var h := s.hash[key];
    assert RefOk(s.slots, s.nhops, p, h);
    PendingOne(p, h);
    RecountKeeps(s, p, h, s.nhops[h].refCount + 1, p + multiset{h});
  }

  lemma NhopAddKeeps(hash: map<NhopKey, Handle>, nhops: Nhops, h: Handle, nh: Nhop)
    requires NhopsOk(hash, nhops) && h !in nhops && nh.key !in hash
    ensures NhopsOk(hash[nh.key := h], nhops[h := nh])
  {
    var hash', nhops' := hash[nh.key := h], nhops[h := nh];
    forall k | k in nhops'
      ensures NhopOk(hash', nhops', k)
    {
      assert k != h ==> NhopOk(hash, nhops, k);
    }
    forall k | k in hash'
      ensures HashOk(hash', nhops', k)
    {
      assert k != nh.key ==> HashOk(hash, nhops, k);
    }
  }

  lemma RefAddKeeps(slots: map<int, FibRes>, nhops: Nhops, p: multiset<Handle>, h: Handle, nh: Nhop)
    requires RefsOk(slots, nhops, p) && h !in nhops && nh.refCount == 1 && Users(slots, h) == {}
    ensures RefsOk(slots, nhops[h := nh], p + multiset{h})
  {
    var nhops' := nhops[h := nh];
    forall k | k in nhops'
      ensures RefOk(slots, nhops', p + multiset{h}, k)
    {
      assert k != h ==> RefOk(slots, nhops, p, k);
    }
  }

  // Creating a next hop.
  lemma RefNewKeeps(s: State, p: multiset<Handle>, v: int, key: NhopKey, addr: Handle, oid: int)
    requires CoreWith(s, p) && v in s.neighCnt && key !in s.hash && addr !in s.nhops
    ensures CoreWith(NhopRef(s, v, key, addr, oid), p + multiset{addr})
  {
    var n := NeighKey(v, key.gateway);
    var neighs := NeighsRef(s.neighs, n, oid);
    WithNhopKeeps(s, p, addr, Nhop(key, 1, if n.gw != 0 then neighs[n].oid else 0), n, neighs);
  }

  lemma WithNhopKeeps(s: State, p: multiset<Handle>, addr: Handle, nh: Nhop, n: NeighKey, neighs: map<NeighKey, Neigh>)
    requires CoreWith(s, p) && n.vrf in s.neighCnt && addr !in s.nhops && nh.key !in s.hash && nh.refCount == 1
    requires Positive(neighs)
    ensures CoreWith(WithNhop(s, addr, nh, n, neighs), p + multiset{addr})
  {
    UsedIsLive(s.rib, s.slots, s.nhops.Keys, addr);
    RoutesSurvive(s.rib, s.slots, s.nhops.Keys, s.nhops[addr := nh].Keys);
    NhopAddKeeps(s.hash, s.nhops, addr, nh);
    RefAddKeeps(s.slots, s.nhops, p, addr, nh);
  }

  lemma NhopDropKeeps(hash: map<NhopKey, Handle>, nhops: Nhops, h: Handle)
    requires NhopsOk(hash, nhops) && h in nhops
    ensures NhopsOk(hash - {nhops[h].key}, nhops - {h})
  {
    assert NhopOk(hash, nhops, h);
    forall k | k in nhops - {h}
      ensures NhopOk(hash - {nhops[h].key}, nhops - {h}, k)
    {
      assert NhopOk(hash, nhops, k);
    }
    forall k | k in hash - {nhops[h].key}
      ensures HashOk(hash - {nhops[h].key}, nhops - {h}, k)
    {
      assert HashOk(hash, nhops, k);
    }
  }

  lemma RefDropKeeps(slots: map<int, FibRes>, nhops: Nhops, p: multiset<Handle>, h: Handle)
    requires RefsOk(slots, nhops, p) && h in p && nhops[h].refCount <= 1
    ensures Users(slots, h) == {}
    ensures RefsOk(slots, nhops - {h}, p - multiset{h})
  {
    assert RefOk(slots, nhops, p, h);
    assert |Users(slots, h)| == 0;
    forall k | k in nhops - {h}
      ensures RefOk(slots, nhops - {h}, p - multiset{h}, k)
    {
      assert RefOk(slots, nhops, p, k);
    }
  }

  // Releasing a pending reference, through whichever VRF.
  lemma UnrefKeeps(s: State, p: multiset<Handle>, v: int, h: Handle)
    requires CoreWith(s, p) && v in s.neighCnt && h in p && h in s.nhops
    ensures CoreWith(NhopUnref(s, v, h), p - multiset{h})
  {
    if s.nhops[h].refCount > 1 {
      PendingOne(p, h);
      RecountKeeps(s, p, h, s.nhops[h].refCount - 1, p - multiset{h});
    } else {
      var n := NeighKey(v, s.nhops[h].key.gateway);
      WithoutNhopKeeps(s, p, h, n, NeighsUnref(s.neighs, n));
    }
  }

  lemma WithoutNhopKeeps(s: State, p: multiset<Handle>, h: Handle, n: NeighKey, neighs: map<NeighKey, Neigh>)
    requires CoreWith(s, p) && n.vrf in s.neighCnt && h in p && h in s.nhops && s.nhops[h].refCount <= 1
    requires Positive(neighs)
    ensures CoreWith(WithoutNhop(s, h, n, neighs), p - multiset{h})
  {
    NhopDropKeeps(s.hash, s.nhops, h);
    RefDropKeeps(s.slots, s.nhops, p, h);
    RoutesSurvive(s.rib, s.slots, s.nhops.Keys, (s.nhops - {h}).Keys);
  }

  // The slots after prefix k moved to slot i, or away for good.
  function Moved(slots: map<int, FibRes>, rib: map<RibKey, int>, k: RibKey): map<int, FibRes> {
    if k in rib then slots - {rib[k]} else slots
  }

  lemma UsersOfRemove(slots: map<int, FibRes>, j: int, h: Handle)
    requires j in slots
    ensures |Users(slots - {j}, h)| == |Users(slots, h)| - if h in slots[j].mpath then 1 else 0
  {
    if h in slots[j].mpath {
      assert j in Users(slots, h);
      assert Users(slots - {j}, h) == Users(slots, h) - {j};
    } else {
      assert Users(slots - {j}, h) == Users(slots, h);
    }
  }

  lemma UsersOfAdd(slots: map<int, FibRes>, i: int, r: FibRes, h: Handle)
    requires i !in slots
    ensures |Users(slots[i := r], h)| == |Users(slots, h)| + if h in r.mpath then 1 else 0
  {
    var slots' := slots[i := r];
    if h in r.mpath {
      assert Users(slots', h) == Users(slots, h) + {i};
    } else {
      assert Users(slots', h) == Users(slots, h);
    }
  }

  lemma OnceEach(hs: seq<Handle>, h: Handle)
    requires NoDuplicates(hs)
    ensures multiset(hs)[h] == if h in hs then 1 else 0
  {
    NoDuplicatesCount(hs);
  }

  // Freeing slot j turns its mpath entries into pending references.
  lemma RefsAfterFree(slots: map<int, FibRes>, nhops: Nhops, p: multiset<Handle>, j: int)
    requires RefsOk(slots, nhops, p) && j in slots && NoDuplicates(slots[j].mpath)
    requires forall h :: h in slots[j].mpath ==> h in nhops
    ensures RefsOk(slots - {j}, nhops, p + multiset(slots[j].mpath))
  {
    var p' := p + multiset(slots[j].mpath);
    forall h | h in nhops
      ensures RefOk(slots - {j}, nhops, p', h)
    {
      assert RefOk(slots, nhops, p, h);
      UsersOfRemove(slots, j, h);
      OnceEach(slots[j].mpath, h);
    }
  }

  // Filling slot i consumes pending references.
  lemma RefsAfterFill(slots: map<int, FibRes>, nhops: Nhops, p: multiset<Handle>, i: int, r: FibRes)
    requires RefsOk(slots, nhops, p) && i !in slots && NoDuplicates(r.mpath) && multiset(r.mpath) <= p
    ensures RefsOk(slots[i := r], nhops, p - multiset(r.mpath))
  {
    var p', slots' := p - multiset(r.mpath), slots[i := r];
    forall h | h in nhops
      ensures RefOk(slots', nhops, p', h)
    {
      assert RefOk(slots, nhops, p, h);
      UsersOfAdd(slots, i, r, h);
      OnceEach(r.mpath, h);
    }
  }

  lemma RoutesAfterFree(rib: map<RibKey, int>, slots: map<int, FibRes>, live: set<Handle>, k: RibKey)
    requires RoutesOk(rib, slots, live) && k in rib
    ensures rib[k] in slots && NoDuplicates(slots[rib[k]].mpath) && forall h :: h in slots[rib[k]].mpath ==> h in live
    ensures RoutesOk(rib - {k}, slots - {rib[k]}, live)
  {
    assert RouteOk(rib, slots, live, k);
    forall l | l in rib - {k}
      ensures RouteOk(rib - {k}, slots - {rib[k]}, live, l)
    {
      assert RouteOk(rib, slots, live, l);
    }
    forall i | i in slots - {rib[k]} && i != BLACKHOLE
      ensures IsRouteSlot(rib - {k}, i)
    {
      assert IsRouteSlot(rib, i);
      var l :| l in rib && rib[l] == i;
      assert l in rib - {k};
    }
  }

  lemma RoutesAfterFill(rib: map<RibKey, int>, slots: map<int, FibRes>, live: set<Handle>, k: RibKey, i: int, r: FibRes)
    requires RoutesOk(rib, slots, live) && k !in rib && i !in slots && i != BLACKHOLE && SlotOk(r, live)
    ensures RoutesOk(rib[k := i], slots[i := r], live)
  {
    var rib', slots' := rib[k := i], slots[i := r];
    forall l | l in rib'
      ensures RouteOk(rib', slots', live, l) && (l != k ==> rib'[l] != i)
    {
      assert l != k ==> RouteOk(rib, slots, live, l);
    }
    forall j | j in slots' && j != BLACKHOLE
      ensures IsRouteSlot(rib', j)
    {
      if j == i {
        assert rib'[k] == j;
      } else {
        assert IsRouteSlot(rib, j);
        var l :| l in rib && rib[l] == j;
        assert rib'[l] == j;
      }
    }
  }

  lemma RibCountAfterFree(rib: map<RibKey, int>, cnt: map<int, int>, k: RibKey)
    requires RibCounted(rib, cnt) && k in rib && k.vrf in cnt
    ensures RibCounted(rib - {k}, cnt[k.vrf := cnt[k.vrf] - 1])
  {
    forall v | v in cnt
      ensures |RibOf(rib - {k}, v)| == |RibOf(rib, v)| - if v == k.vrf then 1 else 0
    {
      if v == k.vrf {
        assert k in RibOf(rib, v);
        assert RibOf(rib - {k}, v) == RibOf(rib, v) - {k};
      } else {
        assert RibOf(rib - {k}, v) == RibOf(rib, v);
      }
    }
  }

  lemma RibCountAfterFill(rib: map<RibKey, int>, cnt: map<int, int>, k: RibKey, i: int)
    requires RibCounted(rib, cnt) && k.vrf in cnt
    ensures RibCounted(rib[k := i], if k in rib then cnt else cnt[k.vrf := cnt[k.vrf] + 1])
  {
    var rib' := rib[k := i];
    forall v | v in cnt
      ensures |RibOf(rib', v)| == |RibOf(rib, v)| + if v == k.vrf && k !in rib then 1 else 0
    {
      if v == k.vrf && k !in rib {
        assert RibOf(rib', v) == RibOf(rib, v) + {k};
      } else {
        assert RibOf(rib', v) == RibOf(rib, v);
      }
    }
  }

  // Deleting a route leaves its next hops' references pending.
  lemma DropRouteKeeps(s: State, p: multiset<Handle>, k: RibKey)
    requires CoreWith(s, p) && k in s.rib && k.vrf in s.ribCnt
    ensures CoreWith(DropRoute(s, k), p + multiset(MpathOf(s, k)))
  {
    RoutesAfterFree(s.rib, s.slots, s.nhops.Keys, k);
    RefsAfterFree(s.slots, s.nhops, p, s.rib[k]);
    RibCountAfterFree(s.rib, s.ribCnt, k);
  }

  // Replacing a route, or adding one, exchanges the references of the old next hops for
  // those of the new.
  lemma PutRouteKeeps(s: State, p: multiset<Handle>, k: RibKey, i: int, r: FibRes)
    requires CoreWith(s, p) && k.vrf in s.ribCnt && i !in s.slots && i != BLACKHOLE && SlotOk(r, s.nhops.Keys)
    requires multiset(r.mpath) <= p + multiset(MpathOf(s, k))
    ensures CoreWith(PutRoute(s, k, i, r), p + multiset(MpathOf(s, k)) - multiset(r.mpath))
  {
    MovedAway(s, p, k);
    RoutesAfterFill(s.rib - {k}, Moved(s.slots, s.rib, k), s.nhops.Keys, k, i, r);
    RefsAfterFill(Moved(s.slots, s.rib, k), s.nhops, p + multiset(MpathOf(s, k)), i, r);
    RibCountAfterFill(s.rib, s.ribCnt, k, i);
    RibMoved(s.rib, k, i);
  }

  lemma RibMoved(rib: map<RibKey, int>, k: RibKey, i: int)
    ensures (rib - {k})[k := i] == rib[k := i]
  {
  }

  // Without prefix k, the references of its next hops are pending.
  lemma MovedAway(s: State, p: multiset<Handle>, k: RibKey)
    requires CoreWith(s, p)
    ensures RoutesOk(s.rib - {k}, Moved(s.slots, s.rib, k), s.nhops.Keys)
    ensures RefsOk(Moved(s.slots, s.rib, k), s.nhops, p + multiset(MpathOf(s, k)))
  {
    if k in s.rib {
      RoutesAfterFree(s.rib, s.slots, s.nhops.Keys, k);
      RefsAfterFree(s.slots, s.nhops, p, s.rib[k]);
    } else {
      assert s.rib - {k} == s.rib && p + multiset(MpathOf(s, k)) == p;
    }
  }

  // The route entry an insert or a delete installs for the given next hops.
  function RouteEntry(s: State, k: RibKey, ribType: RibType, mpath: seq<Handle>): FibRes {
    var inherited := if k in s.rib && s.rib[k] in s.slots then s.slots[s.rib[k]].flags else {};
    match ribType
    case RtDefault => FibRes(inherited - {FrfMroute}, ROUTE_MAX_ECMP, mpath)
    case RtMroute => FibRes(inherited + {FrfMroute}, MROUTE_MAX_ECMP, mpath)
  }

  function Inserted(s: State, k: RibKey, key: NhopKey, ribType: RibType, addr: Handle, oid: int, i: int): State
    requires KnownVrf(s, k.vrf) && (key in s.hash ==> s.hash[key] in s.nhops)
  {
    var mpath := MpathOf(s, k) + [RefHandle(s, key, addr)];
    PutRoute(NhopRef(s, k.vrf, key, addr, oid), k, i, RouteEntry(s, k, ribType, mpath))
  }

  function Without(hs: seq<Handle>, h: Handle): (r: seq<Handle>)
    ensures forall x :: x in r <==> x in hs && x != h
    ensures |r| <= |hs| && (h !in hs ==> r == hs)
  {
    if hs == [] then []
    else
      var r := Without(hs[..|hs| - 1], h);
      assert hs == hs[..|hs| - 1] + [hs[|hs| - 1]];
      if hs[|hs| - 1] == h then r else r + [hs[|hs| - 1]]
  }

  function Removed(s: State, k: RibKey, ribType: RibType, h: Handle, i: int): State
    requires KnownVrf(s, k.vrf) && k in s.rib && h in s.nhops
  {
    if |MpathOf(s, k)| == 1 then NhopUnref(DropRoute(s, k), k.vrf, h)
    else NhopUnref(PutRoute(s, k, i, RouteEntry(s, k, ribType, Without(MpathOf(s, k), h))), k.vrf, h)
  }

  lemma SnocDistinct(hs: seq<Handle>, h: Handle)
    requires NoDuplicates(hs) && h !in hs
    ensures NoDuplicates(hs + [h])
  {
  }

  lemma {:induction false} WithoutFacts(hs: seq<Handle>, h: Handle)
    requires NoDuplicates(hs) && h in hs
    ensures NoDuplicates(Without(hs, h)) && |Without(hs, h)| == |hs| - 1
    ensures multiset(hs) == multiset(Without(hs, h)) + multiset{h}
  {
    var init, last := hs[..|hs| - 1], hs[|hs| - 1];
    assert hs == init + [last];
    assert last !in init by { assert forall i :: 0 <= i < |init| ==> hs[i] != last; }
    if last == h {
      assert Without(hs, h) == init;
    } else {
      WithoutFacts(init, h);
      SnocDistinct(Without(init, h), last);
      assert Without(hs, h) == Without(init, h) + [last];
    }
  }

  lemma WithoutLast(hs: seq<Handle>, h: Handle)
    requires h !in hs
    ensures Without(hs + [h], h) == hs
  {
  }

  // Taking a reference, on a known or a new next hop.
  lemma RefKeeps(s: State, v: int, key: NhopKey, addr: Handle, oid: int)
    requires Core(s) && v in s.neighCnt && addr !in s.nhops && (key in s.hash ==> s.hash[key] in s.nhops)
    ensures var t, h := NhopRef(s, v, key, addr, oid), RefHandle(s, key, addr);
            CoreWith(t, multiset{h}) && t.nhops.Keys == s.nhops.Keys + {h}
  {
    if key in s.hash {
      RefKnownKeeps(s, multiset{}, v, key, addr, oid);
    } else {
      RefNewKeeps(s, multiset{}, v, key, addr, oid);
    }
    assert multiset{} + multiset{RefHandle(s, key, addr)} == multiset{RefHandle(s, key, addr)};
  }

  // The extended entry is a well-formed slot.
  lemma LongerEntry(s: State, k: RibKey, ribType: RibType, h: Handle)
    requires k in s.rib ==> RouteOk(s.rib, s.slots, s.nhops.Keys, k)
    requires k in s.rib ==> TypeOf(s.slots[s.rib[k]]) == ribType && |MpathOf(s, k)| < s.slots[s.rib[k]].mpathMax
    requires h !in MpathOf(s, k)
    ensures SlotOk(RouteEntry(s, k, ribType, MpathOf(s, k) + [h]), s.nhops.Keys + {h})
  {
  }

  // shc_route_nhop_insert keeps the tables consistent exactly if the next hop is not yet
  // on the prefix: a second entry for it would share one reference when it is deleted.
  lemma InsertKeeps(s: State, k: RibKey, key: NhopKey, ribType: RibType, addr: Handle, oid: int, i: int)
    requires Core(s) && KnownVrf(s, k.vrf) && addr !in s.nhops && (key in s.hash ==> s.hash[key] in s.nhops)
    requires i !in s.slots && i != BLACKHOLE
    requires k in s.rib ==> s.rib[k] in s.slots && TypeOf(s.slots[s.rib[k]]) == ribType &&
                            |MpathOf(s, k)| < s.slots[s.rib[k]].mpathMax
    ensures Core(Inserted(s, k, key, ribType, addr, oid, i)) <==> RefHandle(s, key, addr) !in MpathOf(s, k)
  {
    var h, mp := RefHandle(s, key, addr), MpathOf(s, k);
    var r := RouteEntry(s, k, ribType, mp + [h]);
    if h !in mp {
      RefKeeps(s, k.vrf, key, addr, oid);
      LongerEntry(s, k, ribType, h) by { assert k in s.rib ==> RouteOk(s.rib, s.slots, s.nhops.Keys, k); }
      SnocMultiset(mp, h);
      PutRouteKeeps(NhopRef(s, k.vrf, key, addr, oid), multiset{h}, k, i, r);
    } else {
      RepeatedIsNoSlot(mp, h);
      assert !RouteOk(Inserted(s, k, key, ribType, addr, oid, i).rib, Inserted(s, k, key, ribType, addr, oid, i).slots,
                      Inserted(s, k, key, ribType, addr, oid, i).nhops.Keys, k);
    }
  }

  lemma RepeatedIsNoSlot(mp: seq<Handle>, h: Handle)
    requires h in mp
    ensures !NoDuplicates(mp + [h])
  {
    var j :| 0 <= j < |mp| && mp[j] == h;
    assert (mp + [h])[j] == (mp + [h])[|mp|];
  }

  lemma SnocMultiset(hs: seq<Handle>, h: Handle)
    ensures multiset(hs + [h]) == multiset{h} + multiset(hs)
    ensures multiset{h} + multiset(hs) - multiset(hs + [h]) == multiset{}
  {
  }

  // shc_route_nhop_delete keeps it.
  lemma RemoveKeeps(s: State, k: RibKey, ribType: RibType, h: Handle, i: int)
    requires Core(s) && KnownVrf(s, k.vrf) && k in s.rib && h in s.nhops && h in MpathOf(s, k)
    requires s.rib[k] in s.slots && TypeOf(s.slots[s.rib[k]]) == ribType
    requires |MpathOf(s, k)| > 1 ==> i !in s.slots && i != BLACKHOLE
    ensures Core(Removed(s, k, ribType, h, i))
  {
    assert RouteOk(s.rib, s.slots, s.nhops.Keys, k);
    if |MpathOf(s, k)| == 1 {
      DropOnly(s, k, h);
      UnrefKeeps(DropRoute(s, k), multiset{h}, k.vrf, h);
    } else {
      PutShorter(s, k, ribType, h, i);
      UnrefKeeps(PutRoute(s, k, i, RouteEntry(s, k, ribType, Without(MpathOf(s, k), h))), multiset{h}, k.vrf, h);
    }
    assert multiset{h} - multiset{h} == multiset{};
  }

  lemma DropOnly(s: State, k: RibKey, h: Handle)
    requires Core(s) && KnownVrf(s, k.vrf) && k in s.rib && MpathOf(s, k) == [h]
    ensures CoreWith(DropRoute(s, k), multiset{h})
  {
    DropRouteKeeps(s, multiset{}, k);
    assert multiset{} + multiset([h]) == multiset{h};
  }

  lemma PutShorter(s: State, k: RibKey, ribType: RibType, h: Handle, i: int)
    requires Core(s) && KnownVrf(s, k.vrf) && k in s.rib && h in MpathOf(s, k) && |MpathOf(s, k)| > 1
    requires s.rib[k] in s.slots && TypeOf(s.slots[s.rib[k]]) == ribType && i !in s.slots && i != BLACKHOLE
    ensures CoreWith(PutRoute(s, k, i, RouteEntry(s, k, ribType, Without(MpathOf(s, k), h))), multiset{h})
  {
    var mp := MpathOf(s, k);
    assert RouteOk(s.rib, s.slots, s.nhops.Keys, k);
    WithoutFacts(mp, h);
    var r := RouteEntry(s, k, ribType, Without(mp, h));
    assert multiset{} + multiset(mp) - multiset(r.mpath) == multiset{h};
    PutRouteKeeps(s, multiset{}, k, i, r);
  }

  // What releasing a set of next hops leaves alone.
  ghost predicate OnlyNhops(s: State, t: State, hs: set<Handle>) {
    && t.rib == s.rib && t.fib == s.fib && t.slots == s.slots && t.ribCnt == s.ribCnt
    && t.neighCnt.Keys == s.neighCnt.Keys
    && (forall h :: h !in hs ==> (h in t.owner <==> h in s.owner) && (h in s.owner ==> t.owner[h] == s.owner[h]))
    && (forall h :: h !in hs ==> (h in t.nhops <==> h in s.nhops) && (h in s.nhops ==> t.nhops[h] == s.nhops[h]))
  }

  lemma UnrefFrame(s: State, v: int, h: Handle)
    requires h in s.nhops && v in s.neighCnt
    ensures OnlyNhops(s, NhopUnref(s, v, h), {h})
  {
    if s.nhops[h].refCount <= 1 {
      var n := NeighKey(v, s.nhops[h].key.gateway);
      WithoutNhopFrame(s, h, n, NeighsUnref(s.neighs, n));
    }
  }

  lemma WithoutNhopFrame(s: State, h: Handle, n: NeighKey, neighs: map<NeighKey, Neigh>)
    requires h in s.nhops && n.vrf in s.neighCnt
    ensures OnlyNhops(s, WithoutNhop(s, h, n, neighs), {h})
  {
  }

  lemma SetNeighsKeepsVrfs(s: State, n: NeighKey, neighs: map<NeighKey, Neigh>)
    requires n.vrf in s.neighCnt
    ensures SetNeighs(s, n, neighs).neighCnt.Keys == s.neighCnt.Keys
  {
  }

  lemma {:induction false} UnrefAllFrame(s: State, v: int, hs: seq<Handle>)
    requires v in s.neighCnt
    ensures OnlyNhops(s, UnrefAll(s, v, hs), Elements(hs))
  {
    if hs == [] {
    } else {
      var init, last := hs[..|hs| - 1], hs[|hs| - 1];
      assert hs == init + [last];
      UnrefAllFrame(s, v, init);
      var t := UnrefAll(s, v, init);
      if last in t.nhops {
        UnrefFrame(t, v, last);
      }
      assert forall h :: h !in Elements(hs) ==> h !in Elements(init) && h != last;
    }
  }

  lemma {:induction false} UnrefAllKeeps(s: State, v: int, hs: seq<Handle>, p: multiset<Handle>)
    requires CoreWith(s, p + multiset(hs)) && v in s.neighCnt && NoDuplicates(hs)
    requires forall h :: h in hs ==> h in s.nhops
    ensures CoreWith(UnrefAll(s, v, hs), p)
  {
    if hs == [] {
      assert p + multiset(hs) == p;
    } else {
      var init, last := hs[..|hs| - 1], hs[|hs| - 1];
      assert hs == init + [last];
      PendingSplit(p, init, last);
      UnrefAllKeeps(s, v, init, p + multiset{last});
      UnrefAllFrame(s, v, init);
      assert last !in Elements(init) by { assert forall i :: 0 <= i < |init| ==> hs[i] != last; }
      var t := UnrefAll(s, v, init);
      assert last in t.nhops;
      UnrefKeeps(t, p + multiset{last}, v, last);
    }
  }

  lemma PendingSplit(p: multiset<Handle>, init: seq<Handle>, last: Handle)
    ensures p + multiset(init + [last]) == (p + multiset{last}) + multiset(init)
    ensures p + multiset{last} - multiset{last} == p
  {
  }

  function Deleted(s: State, k: RibKey): State
    requires KnownVrf(s, k.vrf) && k in s.rib
  {
    UnrefAll(DropRoute(s, k), k.vrf, MpathOf(s, k))
  }

  // shc_route_delete keeps it, and touches no other route.
  lemma DeleteKeeps(s: State, k: RibKey)
    requires Core(s) && KnownVrf(s, k.vrf) && k in s.rib
    ensures Core(Deleted(s, k))
    ensures Deleted(s, k).rib == s.rib - {k} && Deleted(s, k).slots == s.slots - {s.rib[k]}
    ensures Deleted(s, k).ribCnt.Keys == s.ribCnt.Keys && Deleted(s, k).neighCnt.Keys == s.neighCnt.Keys
  {
    var mp := MpathOf(s, k);
    assert RouteOk(s.rib, s.slots, s.nhops.Keys, k);
    DropRouteKeeps(s, multiset{}, k);
    assert multiset{} + multiset(mp) == multiset(mp);
    UnrefAllKeeps(DropRoute(s, k), k.vrf, mp, multiset{});
    UnrefAllFrame(DropRoute(s, k), k.vrf, mp);
  }

  // Releasing what was just taken restores every table.
  lemma UnrefUndoesRef(s: State, v: int, key: NhopKey, addr: Handle, oid: int)
    requires Core(s) && v in s.neighCnt && addr !in s.nhops
    requires key in s.hash ==> s.hash[key] in s.nhops
    ensures var t := NhopRef(s, v, key, addr, oid);
            RefHandle(s, key, addr) in t.nhops && NhopUnref(t, v, RefHandle(s, key, addr)) == s
  {
    if key in s.hash {
      UnrefUndoesKnown(s, v, key, addr, oid);
    } else {
      UnrefUndoesNew(s, v, key, addr, oid);
    }
  }

  lemma UnrefUndoesKnown(s: State, v: int, key: NhopKey, addr: Handle, oid: int)
    requires RefsOk(s.slots, s.nhops, multiset{}) && v in s.neighCnt && key in s.hash && s.hash[key] in s.nhops
    ensures NhopUnref(NhopRef(s, v, key, addr, oid), v, s.hash[key]) == s
  {
    var h := s.hash[key];
    assert RefOk(s.slots, s.nhops, multiset{}, h);
    assert NhopRef(s, v, key, addr, oid).nhops[h := s.nhops[h]] == s.nhops;
  }

  lemma UnrefUndoesNew(s: State, v: int, key: NhopKey, addr: Handle, oid: int)
    requires Positive(s.neighs) && s.owner.Keys == s.nhops.Keys
    requires v in s.neighCnt && addr !in s.nhops && key !in s.hash
    ensures NhopUnref(NhopRef(s, v, key, addr, oid), v, addr) == s
  {
    var n := NeighKey(v, key.gateway);
    var neighs := NeighsRef(s.neighs, n, oid);
    NeighsUndo(s.neighs, n, oid);
    UnrefUndoesWith(s, NhopRef(s, v, key, addr, oid), addr, Nhop(key, 1, if n.gw != 0 then neighs[n].oid else 0), n,
                    neighs);
  }

  lemma UnrefUndoesWith(s: State, t: State, addr: Handle, nh: Nhop, n: NeighKey, neighs: map<NeighKey, Neigh>)
    requires n.vrf in s.neighCnt && addr !in s.nhops && addr !in s.owner && nh.key !in s.hash && nh.refCount <= 1
    requires n.gw == nh.key.gateway && NeighsUnref(neighs, n) == s.neighs && t == WithNhop(s, addr, nh, n, neighs)
    ensures NhopUnref(t, n.vrf, addr) == s
  {
    WithoutUndoesWith(s, addr, nh, n, neighs);
    LastUnref(t, n.vrf, addr, n, s.neighs);
  }

  lemma LastUnref(t: State, v: int, h: Handle, n: NeighKey, before: map<NeighKey, Neigh>)
    requires v in t.neighCnt && h in t.nhops && t.nhops[h].refCount <= 1
    requires n == NeighKey(v, t.nhops[h].key.gateway) && before == NeighsUnref(t.neighs, n)
    ensures NhopUnref(t, v, h) == WithoutNhop(t, h, n, before)
  {
  }

  lemma WithoutUndoesWith(s: State, addr: Handle, nh: Nhop, n: NeighKey, neighs: map<NeighKey, Neigh>)
    requires n.vrf in s.neighCnt && addr !in s.nhops && addr !in s.owner && nh.key !in s.hash
    ensures WithoutNhop(WithNhop(s, addr, nh, n, neighs), addr, n, s.neighs) == s
  {
    PutBack(s.neighCnt, n.vrf, s.neighCnt[n.vrf] + Delta(s.neighs, neighs, n));
    PutThenDrop(s.nhops, addr, nh);
    PutThenDrop(s.owner, addr, n.vrf);
    PutThenDrop(s.hash, nh.key, addr);
  }

  lemma NeighsUndo(neighs: map<NeighKey, Neigh>, n: NeighKey, oid: int)
    requires Positive(neighs)
    ensures NeighsUnref(NeighsRef(neighs, n, oid), n) == neighs
  {
  }

  // Every next hop of t is one of s, with the same key and owner.
  ghost predicate Shrunk(s: State, t: State) {
    forall h :: h in t.nhops && h in t.owner ==>
      h in s.nhops && h in s.owner && t.owner[h] == s.owner[h] && t.nhops[h].key == s.nhops[h].key
  }

  lemma UnrefShrinks(s: State, v: int, h: Handle)
    requires h in s.nhops && v in s.neighCnt
    ensures Shrunk(s, NhopUnref(s, v, h))
  {
    var nh := s.nhops[h];
    if nh.refCount > 1 {
      var nhops' := s.nhops[h := nh.(refCount := nh.refCount - 1)];
      assert NhopUnref(s, v, h).nhops == nhops';
    }
  }

  lemma {:induction false} UnrefAllShrinks(s: State, v: int, hs: seq<Handle>)
    requires v in s.neighCnt
    ensures Shrunk(s, UnrefAll(s, v, hs))
  {
    if hs == [] {
    } else {
      var t := UnrefAll(s, v, hs[..|hs| - 1]);
      UnrefAllShrinks(s, v, hs[..|hs| - 1]);
      if hs[|hs| - 1] in t.nhops {
        UnrefShrinks(t, v, hs[|hs| - 1]);
      }
    }
  }

  lemma DeletesShrink(s: State, k: RibKey, ribType: RibType, h: Handle, i: int)
    requires KnownVrf(s, k.vrf) && k in s.rib
    ensures Shrunk(s, Deleted(s, k)) && (h in s.nhops ==> Shrunk(s, Removed(s, k, ribType, h, i)))
  {
    UnrefAllShrinks(DropRoute(s, k), k.vrf, MpathOf(s, k));
    if h in s.nhops {
      UnrefShrinks(DropRoute(s, k), k.vrf, h);
      UnrefShrinks(PutRoute(s, k, i, RouteEntry(s, k, ribType, Without(MpathOf(s, k), h))), k.vrf, h);
    }
  }
}
