/** What several route operations do together. */
module RouteTheorems {
  import opened Sets
  import opened RouteState
  import opened RouteProofs

  // The route view: which next hops each prefix has, in order and with its type, and
  // every shared object and counter. Slot numbers are not part of it.
  ghost predicate SameView(s: State, t: State) {
    && t.hash == s.hash && t.nhops == s.nhops && t.owner == s.owner && t.neighs == s.neighs
    && t.ribCnt == s.ribCnt && t.neighCnt == s.neighCnt && t.neighTotal == s.neighTotal
    && t.rib.Keys == s.rib.Keys
    && forall k :: k in s.rib ==>
         s.rib[k] in s.slots && t.rib[k] in t.slots && t.slots[t.rib[k]] == s.slots[s.rib[k]]
  }

  function WithRoutes(s: State, rib: map<RibKey, int>, slots: map<int, FibRes>): State {
    s.(rib := rib, fib := rib, slots := slots)
  }

  lemma UnrefIgnoresRoutes(s: State, rib: map<RibKey, int>, slots: map<int, FibRes>, v: int, h: Handle)
    requires h in s.nhops && v in s.neighCnt
    ensures NhopUnref(WithRoutes(s, rib, slots), v, h) == WithRoutes(NhopUnref(s, v, h), rib, slots)
  {
    if s.nhops[h].refCount <= 1 {
      var n := NeighKey(v, s.nhops[h].key.gateway);
      DropIgnoresRoutes(s, rib, slots, h, n, NeighsUnref(s.neighs, n));
    }
  }

  lemma DropIgnoresRoutes(s: State, rib: map<RibKey, int>, slots: map<int, FibRes>, h: Handle, n: NeighKey,
                          neighs: map<NeighKey, Neigh>)
    requires h in s.nhops && n.vrf in s.neighCnt
    ensures WithoutNhop(WithRoutes(s, rib, slots), h, n, neighs) == WithRoutes(WithoutNhop(s, h, n, neighs), rib, slots)
  {
  }

  // Inserting a next hop that the prefix does not have and deleting it again.
  lemma InsertThenRemove(s: State, k: RibKey, key: NhopKey, ribType: RibType, addr: Handle, oid: int, i: int, i': int)
    requires Core(s) && KnownVrf(s, k.vrf) && addr !in s.nhops
    requires key in s.hash ==> s.hash[key] in s.nhops
    requires i !in s.slots && RefHandle(s, key, addr) !in MpathOf(s, k)
    requires k in s.rib ==> s.rib[k] in s.slots && TypeOf(s.slots[s.rib[k]]) == ribType
    requires i' !in Inserted(s, k, key, ribType, addr, oid, i).slots
    ensures var u, h := Inserted(s, k, key, ribType, addr, oid, i), RefHandle(s, key, addr);
            && k in u.rib && h in u.nhops && MpathOf(u, k) == MpathOf(s, k) + [h]
            && SameView(s, Removed(u, k, ribType, h, i'))
            && (k !in s.rib ==> Removed(u, k, ribType, h, i') == s)
  {
    UnrefUndoesRef(s, k.vrf, key, addr, oid);
    RoutesHaveSlots(s);
    if k in s.rib {
      RemoveFromRoute(s, k, key, ribType, addr, oid, i, i');
    } else {
      RemoveNewRoute(s, k, key, ribType, addr, oid, i, i');
      SameViewOfItself(s);
    }
  }

  lemma RoutesHaveSlots(s: State)
    requires Core(s)
    ensures s.fib == s.rib && forall l :: l in s.rib ==> RouteOk(s.rib, s.slots, s.nhops.Keys, l) && s.rib[l] in s.slots
    ensures forall k, l :: k in s.rib && l in s.rib && s.rib[l] == s.rib[k] ==> l == k
  {
    forall l | l in s.rib
      ensures RouteOk(s.rib, s.slots, s.nhops.Keys, l) && s.rib[l] in s.slots
    {
    }
  }

  lemma SameViewOfItself(s: State)
    requires forall l :: l in s.rib ==> s.rib[l] in s.slots
    ensures SameView(s, s)
  {
  }

  lemma RefKeepsRoutes(s: State, v: int, key: NhopKey, addr: Handle, oid: int)
    requires v in s.neighCnt && (key in s.hash ==> s.hash[key] in s.nhops)
    ensures var t := NhopRef(s, v, key, addr, oid);
            t.rib == s.rib && t.fib == s.fib && t.slots == s.slots && t.ribCnt == s.ribCnt
  {
    if key !in s.hash {
      var n := NeighKey(v, key.gateway);
      var neighs := NeighsRef(s.neighs, n, oid);
      WithNhopKeepsRoutes(s, addr, Nhop(key, 1, if n.gw != 0 then neighs[n].oid else 0), n, neighs);
    }
  }

  lemma WithNhopKeepsRoutes(s: State, addr: Handle, nh: Nhop, n: NeighKey, neighs: map<NeighKey, Neigh>)
    requires n.vrf in s.neighCnt
    ensures var t := WithNhop(s, addr, nh, n, neighs);
            t.rib == s.rib && t.fib == s.fib && t.slots == s.slots && t.ribCnt == s.ribCnt
  {
  }

  lemma DropUndoesPut(t: State, k: RibKey, i: int, r: FibRes)
    requires k.vrf in t.ribCnt && k !in t.rib && k !in t.fib && i !in t.slots
    ensures DropRoute(PutRoute(t, k, i, r), k) == t
  {
    var u := PutRoute(t, k, i, r);
    PutThenDrop(t.slots, i, r);
    PutThenDrop(t.rib, k, i);
    PutThenDrop(t.fib, k, i);
    PutBack(t.ribCnt, k.vrf, u.ribCnt[k.vrf]);
  }

  lemma PutTwice(t: State, k: RibKey, i: int, r: FibRes, i': int, r': FibRes)
    requires k.vrf in t.ribCnt && k in t.rib && t.fib == t.rib
    ensures PutRoute(PutRoute(t, k, i, r), k, i', r') ==
            WithRoutes(t, t.rib[k := i'], ((t.slots - {t.rib[k]})[i := r] - {i})[i' := r'])
  {
  }

  lemma RemoveNewRoute(s: State, k: RibKey, key: NhopKey, ribType: RibType, addr: Handle, oid: int, i: int, i': int)
    requires KnownVrf(s, k.vrf) && k !in s.rib && s.fib == s.rib && i !in s.slots
    requires key in s.hash ==> s.hash[key] in s.nhops
    requires var t, h := NhopRef(s, k.vrf, key, addr, oid), RefHandle(s, key, addr);
             h in t.nhops && NhopUnref(t, k.vrf, h) == s
    ensures var u, h := Inserted(s, k, key, ribType, addr, oid, i), RefHandle(s, key, addr);
            k in u.rib && h in u.nhops && MpathOf(u, k) == [h] && MpathOf(s, k) + [h] == [h] &&
            Removed(u, k, ribType, h, i') == s
  {
    var t, h := NhopRef(s, k.vrf, key, addr, oid), RefHandle(s, key, addr);
    RefKeepsRoutes(s, k.vrf, key, addr, oid);
    DropUndoesPut(t, k, i, RouteEntry(s, k, ribType, MpathOf(s, k) + [h]));
  }

  // The slots after a prefix went from slot j over i to i', its entry being restored.
  lemma SlotsRestored(rib: map<RibKey, int>, slots: map<int, FibRes>, k: RibKey, i: int, r: FibRes, i': int)
    requires k in rib && (forall l :: l in rib ==> rib[l] in slots) && i !in slots
    requires forall l :: l in rib && rib[l] == rib[k] ==> l == k
    requires i' !in (slots - {rib[k]})[i := r]
    ensures var slots' := ((slots - {rib[k]})[i := r] - {i})[i' := slots[rib[k]]];
            forall l :: l in rib ==> rib[k := i'][l] in slots' && slots'[rib[k := i'][l]] == slots[rib[l]]
  {
  }

  lemma RemoveFromRoute(s: State, k: RibKey, key: NhopKey, ribType: RibType, addr: Handle, oid: int, i: int, i': int)
    requires KnownVrf(s, k.vrf) && k in s.rib && s.fib == s.rib && i !in s.slots
    requires RouteOk(s.rib, s.slots, s.nhops.Keys, k) && TypeOf(s.slots[s.rib[k]]) == ribType
    requires forall l :: l in s.rib && s.rib[l] == s.rib[k] ==> l == k
    requires forall l :: l in s.rib ==> s.rib[l] in s.slots
    requires key in s.hash ==> s.hash[key] in s.nhops
    requires RefHandle(s, key, addr) !in MpathOf(s, k)
    requires var t, h := NhopRef(s, k.vrf, key, addr, oid), RefHandle(s, key, addr);
             h in t.nhops && NhopUnref(t, k.vrf, h) == s
    requires i' !in Inserted(s, k, key, ribType, addr, oid, i).slots
    ensures var u, h := Inserted(s, k, key, ribType, addr, oid, i), RefHandle(s, key, addr);
            k in u.rib && h in u.nhops && MpathOf(u, k) == MpathOf(s, k) + [h] &&
              SameView(s, Removed(u, k, ribType, h, i'))
  {
    var h, mp, j := RefHandle(s, key, addr), MpathOf(s, k), s.rib[k];
    var t, r := NhopRef(s, k.vrf, key, addr, oid), RouteEntry(s, k, ribType, mp + [h]);
    RefKeepsRoutes(s, k.vrf, key, addr, oid);
    WithoutLast(mp, h);
    ShortenedAgain(s, t, k, ribType, h, i, i');
    SlotsRestored(s.rib, s.slots, k, i, r, i');
    var rib, slots := s.rib[k := i'], ((s.slots - {j})[i := r] - {i})[i' := s.slots[j]];
    UnrefIgnoresRoutes(t, rib, slots, k.vrf, h);
    ViewRestored(s, t, rib, slots);
  }

  // Extending prefix k by h and shortening it again, the references aside.
  lemma ShortenedAgain(s: State, t: State, k: RibKey, ribType: RibType, h: Handle, i: int, i': int)
    requires k in s.rib && k.vrf in t.ribCnt && t.rib == t.fib == s.rib && t.slots == s.slots && i !in s.slots
    requires RouteOk(s.rib, s.slots, s.nhops.Keys, k) && TypeOf(s.slots[s.rib[k]]) == ribType
    requires Without(MpathOf(s, k) + [h], h) == MpathOf(s, k)
    ensures var r := RouteEntry(s, k, ribType, MpathOf(s, k) + [h]);
            var u := PutRoute(t, k, i, r);
            && MpathOf(u, k) == r.mpath
            && PutRoute(u, k, i', RouteEntry(u, k, ribType, Without(r.mpath, h))) ==
               WithRoutes(t, s.rib[k := i'], ((s.slots - {s.rib[k]})[i := r] - {i})[i' := s.slots[s.rib[k]]])
  {
    var r := RouteEntry(s, k, ribType, MpathOf(s, k) + [h]);
    var u := PutRoute(t, k, i, r);
    assert RouteEntry(u, k, ribType, MpathOf(s, k)) == s.slots[s.rib[k]];
    PutTwice(t, k, i, r, i', s.slots[s.rib[k]]);
  }

  lemma ViewRestored(s: State, t: State, rib: map<RibKey, int>, slots: map<int, FibRes>)
    requires rib.Keys == s.rib.Keys && s.fib == s.rib
    requires forall l :: l in s.rib ==> s.rib[l] in s.slots && rib[l] in slots && slots[rib[l]] == s.slots[s.rib[l]]
    ensures SameView(s, WithRoutes(s, rib, slots))
  {
  }

  // No reference counter wraps: each is bounded by what refers to it.
  lemma CountersStayBelowCapacity(s: State, capacity: nat)
    requires Core(s) && forall i :: i in s.slots ==> 0 <= i < capacity
    ensures forall h :: h in s.nhops ==> 1 <= s.nhops[h].refCount <= capacity
    ensures Balanced(s) ==> forall n :: n in s.neighs ==> 1 <= s.neighs[n].refcnt <= |s.nhops|
  {
    forall h | h in s.nhops
      ensures 1 <= s.nhops[h].refCount <= capacity
    {
      assert RefOk(s.slots, s.nhops, multiset{}, h);
      BoundedSet(Users(s.slots, h), capacity);
    }
    if Balanced(s) {
      forall n | n in s.neighs
        ensures 1 <= s.neighs[n].refcnt <= |s.nhops|
      {
        assert NeighOk(s.nhops, s.owner, s.neighs, n);
        SubsetSize(NhopsOf(s.nhops, s.owner, n), s.nhops.Keys);
      }
    }
  }

  lemma {:induction false} BoundedSet(a: set<int>, n: nat)
    requires forall i :: i in a ==> 0 <= i < n
    ensures |a| <= n
  {
    if n == 0 {
      if a != {} {
        var _ := SomeMember(a);
      }
    } else {
      BoundedSet(a - {n - 1}, n - 1);
    }
  }

  ghost function Values(rib: map<RibKey, int>): set<int> { set k | k in rib :: rib[k] }

  lemma {:induction false} DistinctValues(rib: map<RibKey, int>)
    requires forall k, l :: k in rib && l in rib && rib[k] == rib[l] ==> k == l
    ensures |Values(rib)| == |rib|
  {
    if rib.Keys == {} {
      assert Values(rib) == {};
    } else {
      var k := SomeMember(rib.Keys);
      var rest := rib - {k};
      DistinctValues(rest);
      assert rest.Keys == rib.Keys - {k};
      OneMoreValue(rib, k);
    }
  }

  lemma OneMoreValue(rib: map<RibKey, int>, k: RibKey)
    requires k in rib && forall l :: l in rib && rib[l] == rib[k] ==> l == k
    ensures Values(rib) == Values(rib - {k}) + {rib[k]} && rib[k] !in Values(rib - {k})
  {
    var rest := rib - {k};
    forall x | x in Values(rib)
      ensures x in Values(rest) + {rib[k]}
    {
      var l :| l in rib && rib[l] == x;
      assert l != k ==> l in rest && rest[l] == x;
    }
  }

  // A slot is used for every prefix and for the blackhole, and no other.
  lemma UsedSlots(s: State)
    requires Core(s)
    ensures |s.slots| == |s.rib| + 1
  {
    RoutesHaveSlots(s);
    DistinctValues(s.rib);
    forall i
      ensures i in s.slots && i != BLACKHOLE <==> i in Values(s.rib)
    {
      SlotIsUsed(s, i);
    }
    OneBeside(s.slots, BLACKHOLE, Values(s.rib));
  }

  lemma OneBeside(slots: map<int, FibRes>, x: int, values: set<int>)
    requires x in slots && forall i :: i in slots && i != x <==> i in values
    ensures |slots| == |values| + 1
  {
    assert forall i :: i in slots.Keys <==> i in values + {x};
    assert slots.Keys == values + {x} && x !in values;
  }

  lemma SlotIsUsed(s: State, i: int)
    requires Core(s)
    ensures i in s.slots && i != BLACKHOLE <==> i in Values(s.rib)
  {
    if i in s.slots && i != BLACKHOLE {
      assert IsRouteSlot(s.rib, i);
    }
    if i in Values(s.rib) {
      var k :| k in s.rib && s.rib[k] == i;
      assert RouteOk(s.rib, s.slots, s.nhops.Keys, k);
    }
  }

  // Every next hop is on some prefix.
  lemma NhopIsUsed(s: State, h: Handle) returns (k: RibKey)
    requires Core(s) && h in s.nhops
    ensures k in s.rib && h in MpathOf(s, k)
  {
    assert RefOk(s.slots, s.nhops, multiset{}, h);
    var i := SomeMember(Users(s.slots, h));
    assert IsRouteSlot(s.rib, i);
    k :| k in s.rib && s.rib[k] == i;
  }

  // Once the last route of every VRF is gone, so are all next hops, and the neighbours if
  // they are balanced.
  lemma EmptyRibIsEmpty(s: State)
    requires Core(s) && s.rib == map[]
    ensures s.slots.Keys == {BLACKHOLE} && s.nhops == map[] && s.hash == map[]
    ensures Balanced(s) ==> s.neighs == map[]
  {
    forall i | i in s.slots
      ensures i == BLACKHOLE
    {
      assert i != BLACKHOLE ==> IsRouteSlot(s.rib, i);
    }
    if s.nhops.Keys != {} {
      var h := SomeMember(s.nhops.Keys);
      var k := NhopIsUsed(s, h);
      assert false;
    }
    assert forall key :: key in s.hash ==> HashOk(s.hash, s.nhops, key);
    if Balanced(s) {
      forall n | n in s.neighs
        ensures |NhopsOf(s.nhops, s.owner, n)| >= 1
      {
        assert NeighOk(s.nhops, s.owner, s.neighs, n);
      }
      assert forall n :: NhopsOf(s.nhops, s.owner, n) == {};
    }
  }

  // Every next hop is used by the VRF alone whose neighbour it references.
  ghost predicate Separated(s: State) {
    forall k, h :: k in s.rib && h in MpathOf(s, k) && h in s.owner ==> s.owner[h] == k.vrf
  }

  // Then a VRF without prefixes has no next hop, hence no neighbour.
  lemma QuietVrfHoldsNothing(s: State, v: int)
    requires Inv(s) && Separated(s) && KnownVrf(s, v) && forall k :: k in s.rib ==> k.vrf != v
    ensures forall h :: h in s.owner ==> s.owner[h] != v
    ensures forall n :: n in s.neighs ==> n.vrf != v
    ensures s.ribCnt[v] == 0 && s.neighCnt[v] == 0
  {
    forall h | h in s.owner
      ensures s.owner[h] != v
    {
      var k := NhopIsUsed(s, h);
    }
    forall n | n in s.neighs
      ensures n.vrf != v
    {
      assert NeighOk(s.nhops, s.owner, s.neighs, n);
      var h := SomeMember(NhopsOf(s.nhops, s.owner, n));
    }
    assert RibOf(s.rib, v) == {};
    assert NeighsOf(s.neighs, v) == {};
  }

  // An insert adds no next hop but the one it names.
  lemma InsertAddsOne(s: State, k: RibKey, key: NhopKey, ribType: RibType, addr: Handle, oid: int, i: int, h: Handle)
    requires KnownVrf(s, k.vrf) && (key in s.hash ==> s.hash[key] in s.nhops)
    ensures var t := Inserted(s, k, key, ribType, addr, oid, i);
            h in t.nhops && h in t.owner ==>
              || (t.nhops[h].key == key && t.owner[h] == k.vrf)
              || (h in s.nhops && h in s.owner && t.owner[h] == s.owner[h] && t.nhops[h].key == s.nhops[h].key)
  {
  }

  // An empty control plane with two VRFs.
  function TwoVrfs(): State {
    State(map[], map[], map[BLACKHOLE := FibRes({FrfReject}, ROUTE_MAX_ECMP, [])], map[], map[], map[], map[],
          map[1 := 0, 2 := 0], map[1 := 0, 2 := 0], 0)
  }

  lemma TwoVrfsAreConsistent()
    ensures Inv(TwoVrfs())
  {
    var s := TwoVrfs();
    assert forall v :: RibOf(s.rib, v) == {} && NeighsOf(s.neighs, v) == {};
  }

  // Without the condition of UnrefBalance neighbours do leak: VRFs 1 and 2 route through
  // the same next hop, delete their routes in the order of insertion, and the neighbour
  // of VRF 1 is never released, though no next hop is left. Registering VRF 1 anew then
  // resets a neighbour counter that was right.
  lemma SharedNhopLeaks()
    ensures var key := NhopKey(9, TunnelInfo(Vxlan, 1, 2, 3));
            var k1, k2 := RibKey(1, 32, 5), RibKey(2, 32, 5);
            var a := Inserted(TwoVrfs(), k1, key, RtDefault, 0, 7, 1);
            key in a.hash && a.hash[key] == 0 && 0 in a.nhops && KnownVrf(a, 2) &&
            var b := Inserted(a, k2, key, RtDefault, 1, 8, 2);
            k1 in b.rib && 0 in b.nhops && KnownVrf(b, 1) && KnownVrf(b, 2) &&
            var c := Removed(b, k1, RtDefault, 0, 3);
            k2 in c.rib && 0 in c.nhops && KnownVrf(c, 2) &&
            var d := Removed(c, k2, RtDefault, 0, 3);
            && d.nhops == map[] && d.rib == map[] && NeighKey(1, 9) in d.neighs
            && Counted(d) && 1 in d.neighCnt && d.neighCnt[1] == 1
            && !Counted(d.(neighCnt := d.neighCnt[1 := 0]))
  {
    var key := NhopKey(9, TunnelInfo(Vxlan, 1, 2, 3));
    var k1, k2 := RibKey(1, 32, 5), RibKey(2, 32, 5);
    var a := Inserted(TwoVrfs(), k1, key, RtDefault, 0, 7, 1);
    FirstInsert(a, key, k1);
    var b := Inserted(a, k2, key, RtDefault, 1, 8, 2);
    assert b.nhops == map[0 := Nhop(key, 2, 7)] && MpathOf(b, k1) == [0];
    LeakedByDeletes(b, key, k1, k2);
    var d := Removed(Removed(b, k1, RtDefault, 0, 3), k2, RtDefault, 0, 3);
    LeakIsCounted(d, 9);
  }

  lemma FirstInsert(a: State, key: NhopKey, k: RibKey)
    requires key.gateway != 0 && k.vrf == 1 && a == Inserted(TwoVrfs(), k, key, RtDefault, 0, 7, 1)
    ensures a.nhops == map[0 := Nhop(key, 1, 7)] && a.hash == map[key := 0] && a.rib == map[k := 1]
    ensures a.neighs == map[NeighKey(1, key.gateway) := Neigh(1, 7)]
    ensures a.neighCnt == map[1 := 1, 2 := 0] && a.neighTotal == 1 && KnownVrf(a, 2)
  {
  }

  // Deleting the routes of two VRFs through one next hop that was resolved for the first.
  lemma LeakedByDeletes(b: State, key: NhopKey, k1: RibKey, k2: RibKey)
    requires key.gateway != 0 && k1.vrf == 1 && k2.vrf == 2 && KnownVrf(b, 1) && KnownVrf(b, 2)
    requires b.rib == map[k1 := 1, k2 := 2] && b.nhops == map[0 := Nhop(key, 2, 7)]
    requires 1 in b.slots && 2 in b.slots && b.slots[1].mpath == [0] && b.slots[2].mpath == [0]
    requires Leaked(b, key.gateway)
    ensures var c := Removed(b, k1, RtDefault, 0, 3);
            k2 in c.rib && 0 in c.nhops && KnownVrf(c, 2) &&
            var d := Removed(c, k2, RtDefault, 0, 3);
            d.nhops == map[] && d.rib == map[] && Leaked(d, key.gateway)
  {
    FirstDelete(b, key, k1, k2);
    var c := Removed(b, k1, RtDefault, 0, 3);
    var c' := DropRoute(c, k2);
    assert c'.rib == map[] && c'.nhops == c.nhops && Leaked(c', key.gateway);
    LastDelete(c', key);
  }

  lemma FirstDelete(b: State, key: NhopKey, k1: RibKey, k2: RibKey)
    requires k1.vrf == 1 && k2.vrf == 2 && KnownVrf(b, 1) && KnownVrf(b, 2)
    requires b.rib == map[k1 := 1, k2 := 2] && b.nhops == map[0 := Nhop(key, 2, 7)]
    requires 1 in b.slots && 2 in b.slots && b.slots[1].mpath == [0] && b.slots[2].mpath == [0]
    requires Leaked(b, key.gateway)
    ensures var c := Removed(b, k1, RtDefault, 0, 3);
            && c.rib == map[k2 := 2] && c.nhops == map[0 := Nhop(key, 1, 7)] && Leaked(c, key.gateway)
            && 2 in c.slots && c.slots[2].mpath == [0] && KnownVrf(c, 2)
  {
    assert MpathOf(b, k1) == [0];
    var b' := DropRoute(b, k1);
    assert b'.rib == map[k2 := 2] && b'.slots[2].mpath == [0] && Leaked(b', key.gateway);
    NotLast(b', key);
  }

  lemma NotLast(s: State, key: NhopKey)
    requires 1 in s.neighCnt && s.nhops == map[0 := Nhop(key, 2, 7)]
    ensures NhopUnref(s, 1, 0) == s.(nhops := map[0 := Nhop(key, 1, 7)])
  {
  }

  // The neighbours are those that the next hop of VRF 1 needs.
  ghost predicate Leaked(s: State, gw: int) {
    && s.neighs == map[NeighKey(1, gw) := Neigh(1, 7)]
    && s.neighCnt == map[1 := 1, 2 := 0] && s.neighTotal == 1
  }

  lemma LastDelete(s: State, key: NhopKey)
    requires key.gateway != 0 && s.nhops == map[0 := Nhop(key, 1, 7)] && Leaked(s, key.gateway)
    ensures var t := NhopUnref(s, 2, 0); t.nhops == map[] && t.rib == s.rib && Leaked(t, key.gateway)
  {
  }

  lemma LeakIsCounted(s: State, gw: int)
    requires Leaked(s, gw)
    ensures Counted(s) && !Counted(s.(neighCnt := s.neighCnt[1 := 0]))
  {
    OneNeigh(s.neighs, NeighKey(1, gw));
    assert s.neighCnt[1 := 0][1] == 0;
  }

  lemma OneNeigh(neighs: map<NeighKey, Neigh>, n: NeighKey)
    requires neighs.Keys == {n}
    ensures |neighs.Keys| == 1 && forall v :: |NeighsOf(neighs, v)| == if v == n.vrf then 1 else 0
  {
    assert forall v :: NeighsOf(neighs, v) == if v == n.vrf then {n} else {};
  }
}
