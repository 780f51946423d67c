/** The route and neighbour operations (agent/route.c, agent/neigh.c) over shared tables.
    Pointers are handles into the map of allocated next hops. */
module Routes {
  import opened Sets
  import opened RouteState
  import opened RouteProofs
  import opened RouteNeighs
  import opened RouteBalance
  import opened RouteTheorems

  const ENOMEM: int := 12
  const EFAULT: int := 14
  const SHC_COMM_NOMEM: int := -2
  const SHC_IPV4_ROUTETYPE_NO_SAME: int := -24
  const SHC_ROUTE_NH_ALLOC_OID_FAIL: int := -29
  const SHC_ROUTE_PREFIX_NOSPACE: int := -33
  const SHC_ROUTE_RESULT_NOSPACE: int := -35
  const SHC_ROUTE_NEXTHOP_ECMP_NOSPACE: int := -37
  const SHC_ROUTE_PREFIX_NOT_FOUND: int := -39

  // What the libraries answer during one operation: which allocations and additions
  // succeed, the address malloc returns for a next hop and the neighbour's object id.
  datatype Env = Env(nhopMalloc: bool, nhopAdd: bool, neighMalloc: bool, neighAdd: bool,
                     neighOid: bool, nhopOid: bool, ribAdd: bool, fibAdd: bool, addr: Handle, oid: int)

  // What shc_neigh_add returns; known says whether the neighbour is in the table.
  function NeighCode(known: bool, env: Env): (ret: int)
    ensures ret <= 0
  {
    if known then 0
    else if !env.neighMalloc then -ENOMEM
    else if !env.neighAdd then -EFAULT
    else if !env.neighOid then -1
    else 0
  }

  // What resolving a new next hop returns.
  function ResolveCode(gw: int, knownNeigh: bool, env: Env): (ret: int)
    ensures ret <= 0
  {
    var c := if gw == 0 then 0 else NeighCode(knownNeigh, env);
    if c < 0 then c else if !env.nhopOid then SHC_ROUTE_NH_ALLOC_OID_FAIL else 0
  }

  // What nhop_obj_create returns.
  function NhopCode(known: bool, gw: int, knownNeigh: bool, env: Env): (ret: int)
    ensures ret <= 0
  {
    if known then 0
    else if !env.nhopMalloc then SHC_COMM_NOMEM
    else if !env.nhopAdd then -EFAULT
    else ResolveCode(gw, knownNeigh, env)
  }

  // What fib_res_obj_create and rt_prefix_obj_update return between them.
  function InstallCode(room: bool, env: Env): (ret: int)
    ensures ret <= 0
  {
    if !room then SHC_ROUTE_RESULT_NOSPACE
    else if !env.ribAdd || !env.fibAdd then SHC_ROUTE_PREFIX_NOSPACE
    else 0
  }

  // fib_nhop_equal
  predicate NhopEqual(a: NhopKey, b: NhopKey) {
    match a.tunnel.encap
    case Vxlan => a.gateway == b.gateway && a.tunnel == b.tunnel
    case Tgre => a.tunnel == b.tunnel
    case Invalid => false
  }

  // Some next hop of prefix k is equal to key.
  ghost predicate HasEqual(s: State, k: RibKey, key: NhopKey) {
    exists h :: h in MpathOf(s, k) && h in s.nhops && NhopEqual(s.nhops[h].key, key)
  }

  // The next hop of this key is one of prefix k's.
  predicate HasNhop(s: State, k: RibKey, key: NhopKey) {
    key in s.hash && s.hash[key] in MpathOf(s, k)
  }

  predicate WrongType(s: State, k: RibKey, ribType: RibType) {
    k in s.rib && s.rib[k] in s.slots && TypeOf(s.slots[s.rib[k]]) != ribType
  }

  // fib_res_mpath_nospace
  predicate IsFull(s: State, k: RibKey) {
    k in s.rib && s.rib[k] in s.slots && |s.slots[s.rib[k]].mpath| >= s.slots[s.rib[k]].mpathMax
  }

  ghost predicate HasRoom(slots: map<int, FibRes>, cap: nat) {
    exists i :: 0 <= i < cap && i !in slots
  }

  ghost predicate FirstSlot(slots: map<int, FibRes>, cap: nat, i: int) {
    0 <= i < cap && i !in slots && forall j :: 0 <= j < i ==> j in slots
  }

  // What shc_route_nhop_insert returns.
  ghost function InsertCode(s: State, k: RibKey, key: NhopKey, ribType: RibType, env: Env, cap: nat): int {
    if WrongType(s, k, ribType) then SHC_IPV4_ROUTETYPE_NO_SAME
    else if IsFull(s, k) then SHC_ROUTE_NEXTHOP_ECMP_NOSPACE
    else if HasEqual(s, k, key) then 0
    else
      var c := NhopCode(key in s.hash, key.gateway, NeighKey(k.vrf, key.gateway) in s.neighs, env);
      if c < 0 then c else InstallCode(HasRoom(s.slots, cap), env)
  }

  // What it makes of s: all or nothing.
  ghost predicate InsertOutcome(s: State, u: State, k: RibKey, key: NhopKey, ribType: RibType, env: Env, cap: nat,
                                ret: int) {
    && ret == InsertCode(s, k, key, ribType, env, cap)
    && if ret != 0 || HasEqual(s, k, key) then u == s
       else
         && KnownVrf(s, k.vrf) && (key in s.hash ==> s.hash[key] in s.nhops)
         && exists i :: FirstSlot(s.slots, cap, i) && u == Inserted(s, k, key, ribType, env.addr, env.oid, i)
  }

  // Likewise for shc_route_nhop_delete, which cannot fail for the last next hop.
  ghost function RemoveCode(s: State, k: RibKey, key: NhopKey, ribType: RibType, env: Env, cap: nat): int {
    if WrongType(s, k, ribType) then SHC_IPV4_ROUTETYPE_NO_SAME
    else if !HasNhop(s, k, key) || |MpathOf(s, k)| == 1 then 0
    else InstallCode(HasRoom(s.slots, cap), env)
  }

  ghost predicate RemoveOutcome(s: State, u: State, k: RibKey, key: NhopKey, ribType: RibType, env: Env, cap: nat,
                                ret: int) {
    && ret == RemoveCode(s, k, key, ribType, env, cap)
    && if ret != 0 || !HasNhop(s, k, key) then u == s
       else
         && KnownVrf(s, k.vrf) && k in s.rib && s.hash[key] in s.nhops
         && exists i :: (|MpathOf(s, k)| > 1 ==> FirstSlot(s.slots, cap, i)) &&
                        u == Removed(s, k, ribType, s.hash[key], i)
  }

  // A delete that found its next hop.
  lemma RemoveEnds(s: State, u: State, k: RibKey, key: NhopKey, ribType: RibType, env: Env, cap: nat, ret: int, i: int)
    requires KnownVrf(s, k.vrf) && k in s.rib && HasNhop(s, k, key) && s.hash[key] in s.nhops
    requires !WrongType(s, k, ribType) && ret == RemoveCode(s, k, key, ribType, env, cap)
    requires ret != 0 ==> u == s
    requires ret == 0 && |MpathOf(s, k)| > 1 ==> FirstSlot(s.slots, cap, i)
    requires ret == 0 ==> u == Removed(s, k, ribType, s.hash[key], i)
    requires Conserved(s, u, ret != 0 || OwnRelease(s, k.vrf, s.hash[key]))
    ensures RemoveOutcome(s, u, k, key, ribType, env, cap, ret)
    ensures Conserved(s, u, u == s || (key in s.hash && OwnRelease(s, k.vrf, s.hash[key])))
  {
  }

  // The prefix has the next hop already: with VXLAN the very same one, with TGRE one of the
  // same tunnel, whatever its gateway, and with any other type none counts.
  ghost predicate AlreadyThere(s: State, k: RibKey, key: NhopKey) {
    match key.tunnel.encap
    case Vxlan => exists h :: h in MpathOf(s, k) && h in s.nhops && s.nhops[h].key == key
    case Tgre => exists h :: h in MpathOf(s, k) && h in s.nhops && s.nhops[h].key.tunnel == key.tunnel
    case Invalid => false
  }

  // What shc_route_nhop_insert answers: its checks, then every library call in turn, with the
  // code of the first one that refuses.
  ghost predicate InsertAnswer(s: State, k: RibKey, key: NhopKey, ribType: RibType, env: Env, cap: nat, ret: int) {
    var isNew := key !in s.hash;
    var newNeigh := isNew && key.gateway != 0 && NeighKey(k.vrf, key.gateway) !in s.neighs;
    if k in s.rib && s.rib[k] in s.slots && TypeOf(s.slots[s.rib[k]]) != ribType then
      ret == SHC_IPV4_ROUTETYPE_NO_SAME
    else if |MpathOf(s, k)| >= (if ribType == RtDefault then 1 else 8) then ret == SHC_ROUTE_NEXTHOP_ECMP_NOSPACE
    else if AlreadyThere(s, k, key) then ret == 0
    else if isNew && !env.nhopMalloc then ret == SHC_COMM_NOMEM
    else if isNew && !env.nhopAdd then ret == -EFAULT
    else if newNeigh && !env.neighMalloc then ret == -ENOMEM
    else if newNeigh && !env.neighAdd then ret == -EFAULT
    else if newNeigh && !env.neighOid then ret == -1
    else if isNew && !env.nhopOid then ret == SHC_ROUTE_NH_ALLOC_OID_FAIL
    else if forall i :: 0 <= i < cap ==> i in s.slots then ret == SHC_ROUTE_RESULT_NOSPACE
    else if !env.ribAdd then ret == SHC_ROUTE_PREFIX_NOSPACE
    else if !env.fibAdd then ret == SHC_ROUTE_PREFIX_NOSPACE
    else ret == 0
  }

  // Likewise shc_route_nhop_delete.
  ghost predicate RemoveAnswer(s: State, k: RibKey, key: NhopKey, ribType: RibType, env: Env, cap: nat, ret: int) {
    if k in s.rib && s.rib[k] in s.slots && TypeOf(s.slots[s.rib[k]]) != ribType then
      ret == SHC_IPV4_ROUTETYPE_NO_SAME
    else if key !in s.hash || s.hash[key] !in MpathOf(s, k) then ret == 0
    else if |MpathOf(s, k)| == 1 then ret == 0
    else if forall i :: 0 <= i < cap ==> i in s.slots then ret == SHC_ROUTE_RESULT_NOSPACE
    else if !env.ribAdd then ret == SHC_ROUTE_PREFIX_NOSPACE
    else if !env.fibAdd then ret == SHC_ROUTE_PREFIX_NOSPACE
    else ret == 0
  }

  // What fib_nhop_equal recognises.
  lemma EqualByType(s: State, k: RibKey, key: NhopKey)
    requires Core(s)
    ensures HasEqual(s, k, key) <==> AlreadyThere(s, k, key)
    ensures key.tunnel.encap.Vxlan? ==> (AlreadyThere(s, k, key) <==> HasNhop(s, k, key))
  {
    SlotHopsLive(s, k);
    if HasNhop(s, k, key) {
      assert HashOk(s.hash, s.nhops, key);
    }
    if key.tunnel.encap.Vxlan? && AlreadyThere(s, k, key) {
      var h :| h in MpathOf(s, k) && h in s.nhops && s.nhops[h].key == key;
      assert NhopOk(s.hash, s.nhops, h);
    }
  }

  lemma InsertAnswers(s: State, k: RibKey, key: NhopKey, ribType: RibType, env: Env, cap: nat)
    requires Core(s)
    ensures InsertAnswer(s, k, key, ribType, env, cap, InsertCode(s, k, key, ribType, env, cap))
  {
    EqualByType(s, k, key);
    assert k in s.rib ==> RouteOk(s.rib, s.slots, s.nhops.Keys, k);
  }

  lemma RemoveAnswers(s: State, k: RibKey, key: NhopKey, ribType: RibType, env: Env, cap: nat)
    requires Core(s)
    ensures RemoveAnswer(s, k, key, ribType, env, cap, RemoveCode(s, k, key, ribType, env, cap))
  {
    assert k in s.rib ==> RouteOk(s.rib, s.slots, s.nhops.Keys, k);
  }

  // Installing a route leaves the others.
  lemma PutOthers(s: State, t: State, k: RibKey, i: int, r: FibRes)
    requires RoutesOk(s.rib, s.slots, s.nhops.Keys) && t.rib == s.rib && t.slots == s.slots && k.vrf in t.ribCnt &&
             i !in s.slots
    ensures var u := PutRoute(t, k, i, r);
            && u.rib.Keys == s.rib.Keys + {k} && u.rib[k] == i && i in u.slots && u.slots[i] == r
            && forall l {:trigger SameRoute(s, u, l)} :: l in s.rib && l != k ==> SameRoute(s, u, l)
  {
    var u := PutRoute(t, k, i, r);
    forall l | l in s.rib && l != k
      ensures SameRoute(s, u, l)
    {
      assert RouteOk(s.rib, s.slots, s.nhops.Keys, l);
      assert k in s.rib ==> s.rib[l] != s.rib[k];
    }
  }

  // So does dropping one.
  lemma DropOthers(s: State, k: RibKey)
    requires RoutesOk(s.rib, s.slots, s.nhops.Keys) && k in s.rib && k.vrf in s.ribCnt
    ensures var u := DropRoute(s, k);
            && u.rib.Keys == s.rib.Keys - {k}
            && forall l {:trigger SameRoute(s, u, l)} :: l in s.rib && l != k ==> SameRoute(s, u, l)
  {
    var u := DropRoute(s, k);
    forall l | l in s.rib && l != k
      ensures SameRoute(s, u, l)
    {
      assert RouteOk(s.rib, s.slots, s.nhops.Keys, l) && s.rib[l] != s.rib[k];
    }
  }

  lemma SameAfterUnref(s: State, t: State, v: int, h: Handle, l: RibKey)
    requires SameRoute(s, t, l) && h in t.nhops && v in t.neighCnt
    ensures SameRoute(s, NhopUnref(t, v, h), l)
  {
    UnrefFrame(t, v, h);
  }

  lemma RemoveRoutes(s: State, k: RibKey, ribType: RibType, h: Handle, i: int)
    requires Core(s) && KnownVrf(s, k.vrf) && k in s.rib && h in s.nhops && s.rib[k] in s.slots
    requires |MpathOf(s, k)| > 1 ==> i !in s.slots && i != BLACKHOLE
    ensures var u := Removed(s, k, ribType, h, i);
            && u.rib.Keys == (if |MpathOf(s, k)| == 1 then s.rib.Keys - {k} else s.rib.Keys + {k})
            && (forall l {:trigger SameRoute(s, u, l)} :: l in s.rib && l != k ==> SameRoute(s, u, l))
            && (|MpathOf(s, k)| > 1 ==>
                  u.rib[k] == i && i in u.slots && u.slots[i] == RouteEntry(s, k, ribType, Without(MpathOf(s, k), h)))
  {
    var r, u := RouteEntry(s, k, ribType, Without(MpathOf(s, k), h)), Removed(s, k, ribType, h, i);
    var t := if |MpathOf(s, k)| == 1 then DropRoute(s, k) else PutRoute(s, k, i, r);
    assert RouteOk(s.rib, s.slots, s.nhops.Keys, k);
    UnrefFrame(t, k.vrf, h);
    if |MpathOf(s, k)| == 1 {
      DropOthers(s, k);
    } else {
      PutOthers(s, s, k, i, r);
    }
    forall l | l in s.rib && l != k
      ensures SameRoute(s, u, l)
    {
      SameAfterUnref(s, t, k.vrf, h, l);
    }
  }

  // The last next hop of the prefix is new, the others are as they were.
  ghost predicate Appended(s: State, u: State, k: RibKey, key: NhopKey) {
    && key in u.hash && u.hash[key] in u.nhops && u.nhops[u.hash[key]].key == key
    && MpathOf(u, k) == MpathOf(s, k) + [u.hash[key]]
    && forall l :: l != k ==> MpathOf(u, l) == MpathOf(s, l)
  }

  // A next hop that was in no table takes a reference on its neighbour, which is entered with
  // the new object id if it was not there.
  ghost predicate NeighTaken(s: State, u: State, v: int, key: NhopKey, oid: int) {
    var n := NeighKey(v, key.gateway);
    if key in s.hash || key.gateway == 0 then u.neighs == s.neighs
    else if n in s.neighs then u.neighs == s.neighs[n := Neigh(s.neighs[n].refcnt + 1, s.neighs[n].oid)]
    else u.neighs == s.neighs[n := Neigh(1, oid)]
  }

  lemma InsertAppends(s: State, k: RibKey, key: NhopKey, ribType: RibType, env: Env, i: int)
    requires Core(s) && KnownVrf(s, k.vrf) && i !in s.slots && (key in s.hash ==> s.hash[key] in s.nhops)
    ensures Appended(s, Inserted(s, k, key, ribType, env.addr, env.oid, i), k, key)
  {
    var t, h := NhopRef(s, k.vrf, key, env.addr, env.oid), RefHandle(s, key, env.addr);
    var r := RouteEntry(s, k, ribType, MpathOf(s, k) + [h]);
    assert key in s.hash ==> HashOk(s.hash, s.nhops, key);
    RefKeepsRoutes(s, k.vrf, key, env.addr, env.oid);
    PutOthers(s, t, k, i, r);
    OthersKept(s, PutRoute(t, k, i, r), k);
  }

  lemma OthersKept(s: State, u: State, k: RibKey)
    requires u.rib.Keys == s.rib.Keys + {k} || u.rib.Keys == s.rib.Keys - {k}
    requires forall l {:trigger SameRoute(s, u, l)} :: l in s.rib && l != k ==> SameRoute(s, u, l)
    ensures forall l :: l != k ==> (l in u.rib <==> l in s.rib) && MpathOf(u, l) == MpathOf(s, l)
  {
    forall l | l != k
      ensures (l in u.rib <==> l in s.rib) && MpathOf(u, l) == MpathOf(s, l)
    {
      assert l in s.rib ==> SameRoute(s, u, l);
    }
  }

  // The next hop of key has left the prefix, and the prefix the table if it was the only one.
  ghost predicate TakenOff(s: State, u: State, k: RibKey, key: NhopKey)
    requires key in s.hash
  {
    && (exists a, b :: MpathOf(s, k) == a + [s.hash[key]] + b && MpathOf(u, k) == a + b)
    && (k in u.rib <==> |MpathOf(s, k)| > 1)
    && forall l :: l != k ==> (l in u.rib <==> l in s.rib) && MpathOf(u, l) == MpathOf(s, l)
  }

  lemma {:induction false} WithoutMiddle(a: seq<Handle>, h: Handle, b: seq<Handle>)
    requires h !in a && h !in b
    ensures Without(a + [h] + b, h) == a + b
  {
    if b == [] {
      assert (a + [h] + b)[..|a|] == a && a + b == a;
    } else {
      var init, last := b[..|b| - 1], b[|b| - 1];
      WithoutMiddle(a, h, init);
      assert (a + [h] + b)[..|a| + |b|] == a + [h] + init && a + b == (a + init) + [last];
    }
  }

  lemma WithoutOne(hs: seq<Handle>, h: Handle) returns (a: seq<Handle>, b: seq<Handle>)
    requires NoDuplicates(hs) && h in hs
    ensures hs == a + [h] + b && Without(hs, h) == a + b
  {
    var j :| 0 <= j < |hs| && hs[j] == h;
    a, b := hs[..j], hs[j + 1..];
    assert hs == a + [h] + b;
    WithoutMiddle(a, h, b);
  }

  lemma RemoveTakesOff(s: State, k: RibKey, key: NhopKey, ribType: RibType, i: int)
    requires Core(s) && KnownVrf(s, k.vrf) && k in s.rib && HasNhop(s, k, key) && s.hash[key] in s.nhops
    requires |MpathOf(s, k)| > 1 ==> i !in s.slots
    ensures TakenOff(s, Removed(s, k, ribType, s.hash[key], i), k, key)
  {
    var h := s.hash[key];
    var u := Removed(s, k, ribType, h, i);
    assert RouteOk(s.rib, s.slots, s.nhops.Keys, k);
    var a, b := WithoutOne(MpathOf(s, k), h);
    RemoveRoutes(s, k, ribType, h, i);
    OthersKept(s, u, k);
    assert |MpathOf(s, k)| == 1 ==> a + b == [];
    assert MpathOf(s, k) == a + [s.hash[key]] + b && MpathOf(u, k) == a + b;
  }

  // What the outcomes say about the prefix.
  lemma InsertMeansAppended(s: State, u: State, k: RibKey, key: NhopKey, ribType: RibType, env: Env, cap: nat, ret: int)
    requires Core(s) && InsertOutcome(s, u, k, key, ribType, env, cap, ret)
    ensures InsertAnswer(s, k, key, ribType, env, cap, ret)
    ensures if ret == 0 && !AlreadyThere(s, k, key)
            then Appended(s, u, k, key) && NeighTaken(s, u, k.vrf, key, env.oid) else u == s
  {
    InsertAnswers(s, k, key, ribType, env, cap);
    EqualByType(s, k, key);
    if ret == 0 && !HasEqual(s, k, key) {
      var i :| FirstSlot(s.slots, cap, i) && u == Inserted(s, k, key, ribType, env.addr, env.oid, i);
      InsertAppends(s, k, key, ribType, env, i);
      InsertNeighs(s, k, key, ribType, env.addr, env.oid, i);
    }
  }

  lemma RemoveMeansTakenOff(s: State, u: State, k: RibKey, key: NhopKey, ribType: RibType, env: Env, cap: nat, ret: int)
    requires Core(s) && RemoveOutcome(s, u, k, key, ribType, env, cap, ret)
    ensures RemoveAnswer(s, k, key, ribType, env, cap, ret)
    ensures if ret == 0 && HasNhop(s, k, key) then TakenOff(s, u, k, key) else u == s
  {
    RemoveAnswers(s, k, key, ribType, env, cap);
    if ret == 0 && HasNhop(s, k, key) {
      var i :| (|MpathOf(s, k)| > 1 ==> FirstSlot(s.slots, cap, i)) && u == Removed(s, k, ribType, s.hash[key], i);
      RemoveTakesOff(s, k, key, ribType, i);
    }
  }

  // One zeroed counter for each of the VRFs 1..n.
  function NoCounts(n: nat): (m: map<int, int>)
    ensures forall v :: v in m <==> 1 <= v <= n
    ensures forall v :: v in m ==> m[v] == 0
  {
    if n == 0 then map[] else NoCounts(n - 1)[n := 0]
  }

  lemma InsertDone(s: State, k: RibKey, key: NhopKey, ribType: RibType, env: Env, i: int, mpath: seq<Handle>)
    requires Core(s) && KnownVrf(s, k.vrf) && env.addr !in s.nhops
    requires key in s.hash ==> s.hash[key] in s.nhops
    requires i !in s.slots && i != BLACKHOLE && (k in s.rib ==> s.rib[k] in s.slots)
    requires !WrongType(s, k, ribType) && !IsFull(s, k)
    requires mpath == MpathOf(s, k) + [RefHandle(s, key, env.addr)]
    ensures var t := NhopRef(s, k.vrf, key, env.addr, env.oid);
            k.vrf in t.ribCnt &&
            PutRoute(t, k, i, RouteEntry(t, k, ribType, mpath)) == Inserted(s, k, key, ribType, env.addr, env.oid, i)
    ensures var u := Inserted(s, k, key, ribType, env.addr, env.oid, i);
            u != s && (Core(u) <==> !HasNhop(s, k, key)) && Conserved(s, u, true)
  {
    SlotHopsLive(s, k);
    InsertBalance(s, k, key, ribType, env.addr, env.oid, i);
    RefKeepsRoutes(s, k.vrf, key, env.addr, env.oid);
    InsertKeeps(s, k, key, ribType, env.addr, env.oid, i);
    assert Inserted(s, k, key, ribType, env.addr, env.oid, i).rib[k] == i;
  }

  // An insert that met no failure.
  lemma InsertSucceeds(s: State, u: State, k: RibKey, key: NhopKey, ribType: RibType, env: Env, cap: nat, i: int,
                       mpath: seq<Handle>)
    requires Core(s) && KnownVrf(s, k.vrf) && env.addr !in s.nhops
    requires key in s.hash ==> s.hash[key] in s.nhops
    requires FirstSlot(s.slots, cap, i) && (k in s.rib ==> s.rib[k] in s.slots)
    requires !HasEqual(s, k, key) && InsertCode(s, k, key, ribType, env, cap) == 0
    requires mpath == MpathOf(s, k) + [RefHandle(s, key, env.addr)]
    requires var t := NhopRef(s, k.vrf, key, env.addr, env.oid);
             k.vrf in t.ribCnt && u == PutRoute(t, k, i, RouteEntry(t, k, ribType, mpath))
    ensures InsertOutcome(s, u, k, key, ribType, env, cap, 0)
    ensures (Core(u) <==> u == s || !HasNhop(s, k, key)) && Conserved(s, u, true)
  {
    InsertDone(s, k, key, ribType, env, i, mpath);
  }

  lemma SlotHopsLive(s: State, k: RibKey)
    requires Core(s)
    ensures forall h :: h in MpathOf(s, k) ==> h in s.nhops
  {
    assert k in s.rib ==> RouteOk(s.rib, s.slots, s.nhops.Keys, k);
  }

  // Only next hops of an invalid encapsulation type go unrecognised on a prefix.
  lemma UnrecognisedIsInvalid(s: State, k: RibKey, key: NhopKey)
    requires Core(s) && HasNhop(s, k, key) && !HasEqual(s, k, key)
    ensures key.tunnel.encap == Invalid
  {
    assert HashOk(s.hash, s.nhops, key);
  }

  // An insert may indeed put such a next hop on a multicast route twice, and the reference
  // count no longer agrees with the slots.
  lemma RepeatedNhopBreaks()
    ensures var key, k := NhopKey(9, TunnelInfo(Invalid, 1, 2, 3)), RibKey(1, 32, 5);
            var a := Inserted(TwoVrfs(), k, key, RtMroute, 0, 7, 1);
            && Core(a) && HasNhop(a, k, key) && !HasEqual(a, k, key) && 0 in a.nhops && KnownVrf(a, 1)
            && !WrongType(a, k, RtMroute) && !IsFull(a, k) && 2 !in a.slots
            && !Core(Inserted(a, k, key, RtMroute, 1, 8, 2))
  {
    var key, k := NhopKey(9, TunnelInfo(Invalid, 1, 2, 3)), RibKey(1, 32, 5);
    FirstIsConsistent(key, k);
    var a := Inserted(TwoVrfs(), k, key, RtMroute, 0, 7, 1);
    FirstMulticast(a, key, k);
    SecondMulticast(a, key, k);
  }

  lemma FirstIsConsistent(key: NhopKey, k: RibKey)
    requires k.vrf == 1
    ensures Core(Inserted(TwoVrfs(), k, key, RtMroute, 0, 7, 1))
  {
    TwoVrfsAreConsistent();
    InsertKeeps(TwoVrfs(), k, key, RtMroute, 0, 7, 1);
  }

  lemma SecondMulticast(a: State, key: NhopKey, k: RibKey)
    requires Core(a) && KnownVrf(a, k.vrf) && key.tunnel.encap == Invalid
    requires key in a.hash && a.hash[key] == 0 && MpathOf(a, k) == [0] && 0 in MpathOf(a, k)
    requires a.nhops.Keys == {0} && a.nhops[0].key == key && a.slots.Keys == {BLACKHOLE, 1}
    requires k in a.rib && a.rib[k] == 1 && a.slots[1] == FibRes({FrfMroute}, MROUTE_MAX_ECMP, [0])
    ensures HasNhop(a, k, key) && !HasEqual(a, k, key) && !WrongType(a, k, RtMroute) && !IsFull(a, k)
    ensures !Core(Inserted(a, k, key, RtMroute, 1, 8, 2))
  {
    InsertKeeps(a, k, key, RtMroute, 1, 8, 2);
  }

  lemma FirstMulticast(a: State, key: NhopKey, k: RibKey)
    requires k.vrf == 1 && a == Inserted(TwoVrfs(), k, key, RtMroute, 0, 7, 1)
    ensures key in a.hash && a.hash[key] == 0 && MpathOf(a, k) == [0] && 0 in MpathOf(a, k) && KnownVrf(a, 1)
    ensures a.nhops.Keys == {0} && a.nhops[0].key == key && a.slots.Keys == {BLACKHOLE, 1}
    ensures k in a.rib && a.rib[k] == 1 && a.slots[1] == FibRes({FrfMroute}, MROUTE_MAX_ECMP, [0])
  {
    assert [0][0] in MpathOf(a, k);
  }

  lemma SlotsMoved(slots: map<int, FibRes>, old': int, i: int, r: FibRes)
    requires i !in slots
    ensures slots[i := r] - {i} == slots
    ensures old' in slots ==> slots[i := r] - {old'} == (slots - {old'})[i := r]
  {
  }

  lemma PutRouteIs(s: State, k: RibKey, i: int, r: FibRes, u: State)
    requires k.vrf in s.ribCnt && s.fib == s.rib
    requires u.slots == Moved(s.slots, s.rib, k)[i := r]
    requires u.rib == s.rib[k := i] && u.fib == s.fib[k := i]
    requires u.ribCnt == if k in s.rib then s.ribCnt else s.ribCnt[k.vrf := s.ribCnt[k.vrf] + 1]
    requires u == s.(slots := u.slots, rib := u.rib, fib := u.fib, ribCnt := u.ribCnt)
    ensures u == PutRoute(s, k, i, r)
  {
  }

  // A next hop that is in the tables but not counted yet.
  ghost function Uncounted(s: State, v: int, key: NhopKey, addr: Handle, oid: int): State
    requires v in s.neighCnt
  {
    var n := NeighKey(v, key.gateway);
    var neighs := NeighsRef(s.neighs, n, oid);
    WithNhop(s, addr, Nhop(key, 0, if n.gw != 0 then neighs[n].oid else 0), n, neighs)
  }

  lemma UncountedIs(s: State, u: State, v: int, key: NhopKey, env: Env)
    requires v in s.neighCnt
    requires var n := NeighKey(v, key.gateway);
             && u.neighs == NeighsRef(s.neighs, n, env.oid) &&
                u.neighTotal == s.neighTotal + Delta(s.neighs, u.neighs, n)
             && u.neighCnt == s.neighCnt[v := s.neighCnt[v] + Delta(s.neighs, u.neighs, n)]
             && u.nhops == s.nhops[env.addr := Nhop(key, 0, if n.gw != 0 then u.neighs[n].oid else 0)]
    requires u == s.(hash := s.hash[key := env.addr], owner := s.owner[env.addr := v],
                     nhops := u.nhops, neighs := u.neighs, neighCnt := u.neighCnt, neighTotal := u.neighTotal)
    ensures u == Uncounted(s, v, key, env.addr, env.oid)
  {
  }

  lemma FirstReference(s: State, t: State, u: State, v: int, key: NhopKey, env: Env)
    requires v in s.neighCnt && key !in s.hash && t == Uncounted(s, v, key, env.addr, env.oid)
    requires u == t.(nhops := t.nhops[env.addr := t.nhops[env.addr].(refCount := 1)])
    ensures u == NhopRef(s, v, key, env.addr, env.oid)
  {
    assert u.nhops == s.nhops[env.addr := t.nhops[env.addr].(refCount := 1)];
  }

  lemma WithoutNhopIs(s: State, u: State, v: int, h: Handle)
    requires v in s.neighCnt && h in s.nhops && s.nhops[h].refCount <= 1
    requires var n := NeighKey(v, s.nhops[h].key.gateway);
             var t := SetNeighs(s, n, NeighsUnref(s.neighs, n));
             u.neighs == t.neighs && u.neighCnt == t.neighCnt && u.neighTotal == t.neighTotal
    requires u == s.(hash := s.hash - {s.nhops[h].key}, nhops := s.nhops - {h}, owner := s.owner - {h},
                     neighs := u.neighs, neighCnt := u.neighCnt, neighTotal := u.neighTotal)
    ensures u == NhopUnref(s, v, h)
  {
  }

  class ControlPlane {
    const capacity: nat  // SHC_NR_FIB_RES_ALL + 1
    var rib: map<RibKey, int>
    var fib: map<RibKey, int>
    var slots: map<int, FibRes>
    var hash: map<NhopKey, Handle>
    var nhops: map<Handle, Nhop>
    var neighs: map<NeighKey, Neigh>
    var ribCnt: map<int, int>
    var neighCnt: map<int, int>
    var neighTotal: int
    ghost var owner: map<Handle, int>

    ghost function S(): State
      reads this
    {
      State(rib, fib, slots, hash, nhops, owner, neighs, ribCnt, neighCnt, neighTotal)
    }

    ghost predicate InRange()
      reads `slots
    {
      forall i :: i in slots ==> 0 <= i < capacity
    }

    // shc_vrf_init and shc_nhop_init: the blackhole slot and n VRFs without routes.
    constructor (n: nat, cap: nat)
      requires 0 < cap
      ensures Inv(S()) && InRange() && capacity == cap && rib == map[] && neighs == map[]
      ensures forall v :: 1 <= v <= n ==> KnownVrf(S(), v)
    {
      capacity := cap;
      rib, fib, hash, nhops, neighs, owner := map[], map[], map[], map[], map[], map[];
      slots := map[BLACKHOLE := FibRes({FrfReject}, ROUTE_MAX_ECMP, [])];
      ribCnt, neighCnt := NoCounts(n), NoCounts(n);
      neighTotal := 0;
      new;
      assert forall v :: RibOf(rib, v) == {} && NeighsOf(neighs, v) == {};
    }

    // shc_neigh_add
    method NeighAdd(v: int, gw: int, env: Env) returns (ret: int, oid: int)
      requires v in neighCnt && gw != 0
      modifies `neighs, `neighCnt, `neighTotal
      ensures ret == NeighCode(NeighKey(v, gw) in old(neighs), env) && (ret < 0 ==> S() == old(S()))
      ensures ret == 0 ==> var n := NeighKey(v, gw);
                S() == SetNeighs(old(S()), n, NeighsRef(old(neighs), n, env.oid)) && n in neighs && oid == neighs[n].oid
    {
      var n := NeighKey(v, gw);
      oid := 0;
      if n in neighs {
        neighs := neighs[n := neighs[n].(refcnt := neighs[n].refcnt + 1)];
        assert neighCnt[v := neighCnt[v] + 0] == neighCnt;
        return 0, neighs[n].oid;
      }
      if !env.neighMalloc {
        return -ENOMEM, oid;
      }
      if !env.neighAdd {
        return -EFAULT, oid;
      }
      ghost var neighs0 := neighs;
      neighs := neighs[n := Neigh(1, 0)];
      if !env.neighOid {
        neighs := neighs - {n};
        assert neighs == neighs0;
        return -1, oid;
      }
      neighs := neighs[n := neighs[n].(oid := env.oid)];
      assert neighs == neighs0[n := Neigh(1, env.oid)];
      neighCnt := neighCnt[v := neighCnt[v] + 1];
      neighTotal := neighTotal + 1;
      return 0, neighs[n].oid;
    }

    // shc_neigh_del
    method NeighDel(v: int, gw: int) returns (ret: int)
      requires v in neighCnt && gw != 0
      requires NeighKey(v, gw) in neighs ==> neighs[NeighKey(v, gw)].refcnt > 0
      modifies `neighs, `neighCnt, `neighTotal
      ensures ret == if NeighKey(v, gw) in old(neighs) then 0 else -1
      ensures S() == SetNeighs(old(S()), NeighKey(v, gw), NeighsUnref(old(neighs), NeighKey(v, gw)))
    {
      var n := NeighKey(v, gw);
      ghost var neighs0 := neighs;
      assert neighCnt[v := neighCnt[v] + 0] == neighCnt;
      if n !in neighs {
        return -1;
      }
      neighs := neighs[n := neighs[n].(refcnt := neighs[n].refcnt - 1)];
      if neighs[n].refcnt > 0 {
        return 0;
      }
      neighCnt := neighCnt[v := neighCnt[v] - 1];
      neighTotal := neighTotal - 1;
      neighs := neighs - {n};
      assert neighs == neighs0 - {n};
      return 0;
    }

    // nhop_obj_create
    method NhopObjCreate(v: int, key: NhopKey, env: Env) returns (ret: int, h: Handle)
      requires Core(S()) && v in neighCnt && env.addr !in nhops
      modifies `hash, `nhops, `owner, `neighs, `neighCnt, `neighTotal
      ensures key in old(hash) ==> old(hash)[key] in old(nhops)
      ensures ret == NhopCode(key in old(hash), key.gateway, NeighKey(v, key.gateway) in old(neighs), env)
      ensures ret < 0 ==> S() == old(S())
      ensures ret == 0 ==> S() == NhopRef(old(S()), v, key, env.addr, env.oid)
      ensures ret == 0 ==> h == RefHandle(old(S()), key, env.addr)
    {
      assert key in hash ==> HashOk(hash, nhops, key);
      h := env.addr;
      if key !in hash {
        if !env.nhopMalloc {
          return SHC_COMM_NOMEM, h;
        }
        if !env.nhopAdd {
          return -EFAULT, h;
        }
        ret := CreateNew(v, key, env);
        if ret < 0 {
          return ret, h;
        }
        UncountedIs(old(S()), S(), v, key, env);
      }
      ghost var s := S();
      h := hash[key];
      nhops := nhops[h := nhops[h].(refCount := nhops[h].refCount + 1)];
      if key !in old(hash) {
        FirstReference(old(S()), s, S(), v, key, env);
      }
      return 0, h;
    }

    // The branch of nhop_obj_create for an unknown next hop, with its rollbacks; the
    // reference itself is counted by the caller.
    method CreateNew(v: int, key: NhopKey, env: Env) returns (ret: int)
      requires v in neighCnt && env.addr !in nhops && env.addr !in owner && key !in hash
      requires Positive(neighs)
      modifies `hash, `nhops, `owner, `neighs, `neighCnt, `neighTotal
      ensures ret == ResolveCode(key.gateway, NeighKey(v, key.gateway) in old(neighs), env)
      ensures ret < 0 ==> S() == old(S())
      ensures ret == 0 ==> var n := NeighKey(v, key.gateway); var neighs' := NeighsRef(old(neighs), n, env.oid);
                && hash == old(hash)[key := env.addr] && owner == old(owner)[env.addr := v]
                && nhops == old(nhops)[env.addr := Nhop(key, 0, if n.gw != 0 then neighs'[n].oid else 0)]
                && neighs == neighs' && neighTotal == old(neighTotal) + Delta(old(neighs), neighs', n)
                && neighCnt == old(neighCnt)[v := old(neighCnt)[v] + Delta(old(neighs), neighs', n)]
    {
      ghost var s := S();
      var h := env.addr;
      nhops := nhops[h := Nhop(key, 0, 0)];
      owner := owner[h := v];
      hash := hash[key := h];
      var oid;
      ret, oid := Resolve(v, key.gateway, env);
      if ret < 0 {
        Forget(s, key, h, Nhop(key, 0, 0), v);
        return ret;
      }
      nhops := nhops[h := nhops[h].(neighOid := oid)];
      assert nhops == s.nhops[h := Nhop(key, 0, oid)];
    }

    // The neighbour and object id of a new next hop; gateway 0 needs no neighbour.
    method Resolve(v: int, gw: int, env: Env) returns (ret: int, oid: int)
      requires v in neighCnt && Positive(neighs)
      modifies `neighs, `neighCnt, `neighTotal
      ensures ret == ResolveCode(gw, NeighKey(v, gw) in old(neighs), env)
      ensures ret < 0 ==> neighs == old(neighs) && neighCnt == old(neighCnt) && neighTotal == old(neighTotal)
      ensures ret == 0 ==> var n := NeighKey(v, gw);
                && neighs == NeighsRef(old(neighs), n, env.oid)
                && neighTotal == old(neighTotal) + Delta(old(neighs), neighs, n)
                && neighCnt == old(neighCnt)[v := old(neighCnt)[v] + Delta(old(neighs), neighs, n)]
                && (n.gw != 0 ==> n in neighs) && oid == if n.gw != 0 then neighs[n].oid else 0
    {
      ghost var neighs0 := neighs;
      ret, oid := 0, 0;
      assert neighCnt[v := neighCnt[v] + 0] == neighCnt;
      if gw != 0 {
        ret, oid := NeighAdd(v, gw, env);
        if ret < 0 {
          return ret, oid;
        }
      }
      if !env.nhopOid {
        if gw != 0 {
          assert NeighsUnref(NeighsRef(neighs0, NeighKey(v, gw), env.oid), NeighKey(v, gw)) == neighs0;
          var _ := NeighDel(v, gw);
          assert neighCnt == old(neighCnt);
        }
        return SHC_ROUTE_NH_ALLOC_OID_FAIL, oid;
      }
    }

    // rte_hash_del_key and rte_free of a next hop that was just added.
    method Forget(ghost s: State, key: NhopKey, h: Handle, ghost nh: Nhop, ghost v: int)
      requires key !in s.hash && h !in s.nhops && h !in s.owner
      requires hash == s.hash[key := h] && owner == s.owner[h := v] && nhops == s.nhops[h := nh]
      modifies `hash, `nhops, `owner
      ensures hash == s.hash && nhops == s.nhops && owner == s.owner
    {
      hash := hash - {key};
      nhops := nhops - {h};
      owner := owner - {h};
    }

    // nhop_obj_delete
    method NhopObjDelete(v: int, h: Handle) returns (ret: int)
      requires v in neighCnt && h in nhops && h in owner && nhops[h].key in hash
      requires Positive(neighs)
      modifies `hash, `nhops, `owner, `neighs, `neighCnt, `neighTotal
      ensures ret == 0 && S() == NhopUnref(old(S()), v, h)
    {
      ghost var s := S();
      nhops := nhops[h := nhops[h].(refCount := nhops[h].refCount - 1)];
      if nhops[h].refCount > 0 {
        return 0;
      }
      RemoveNhop(v, h);
      assert s.nhops[h := s.nhops[h].(refCount := s.nhops[h].refCount - 1)] - {h} == s.nhops - {h};
      WithoutNhopIs(s, S(), v, h);
      return 0;
    }

    // The unreferenced next hop leaves the tables. That its neighbour might be missing
    // would show in an assertion only.
    method RemoveNhop(v: int, h: Handle)
      requires v in neighCnt && h in nhops && h in owner && nhops[h].key in hash
      requires Positive(neighs)
      modifies `hash, `nhops, `owner, `neighs, `neighCnt, `neighTotal
      ensures hash == old(hash) - {old(nhops)[h].key} && nhops == old(nhops) - {h} && owner == old(owner) - {h}
      ensures var n := NeighKey(v, old(nhops)[h].key.gateway);
              && neighs == NeighsUnref(old(neighs), n)
              && neighCnt == old(neighCnt)[v := old(neighCnt)[v] + Delta(old(neighs), neighs, n)]
              && neighTotal == old(neighTotal) + Delta(old(neighs), neighs, n)
    {
      var key := nhops[h].key;
      hash := hash - {key};
      assert neighCnt[v := neighCnt[v] + 0] == neighCnt;
      if key.gateway != 0 {
        var _ := NeighDel(v, key.gateway);
      }
      nhops := nhops - {h};
      owner := owner - {h};
    }

    // fib_res_id_alloc: the first free slot, reset.
    method FibResIdAlloc() returns (id: int)
      modifies `slots
      ensures id < 0 ==> slots == old(slots) && !HasRoom(slots, capacity)
      ensures id >= 0 ==> FirstSlot(old(slots), capacity, id) && HasRoom(old(slots), capacity)
      ensures id >= 0 ==> slots == old(slots)[id := FibRes({}, ROUTE_MAX_ECMP, [])]
    {
      id := 0;
      while id < capacity && id in slots
        invariant 0 <= id <= capacity && forall i :: 0 <= i < id ==> i in slots
      {
        id := id + 1;
      }
      if id == capacity {
        return -1;
      }
      slots := slots[id := FibRes({}, ROUTE_MAX_ECMP, [])];
    }

    // fib_res_obj_create; inherited are the flags of the old fib_res, none for a new route.
    method FibResObjCreate(fibNhops: seq<Handle>, inherited: set<Flag>, ribType: RibType) returns (id: int)
      modifies `slots
      ensures id < 0 ==> id == SHC_ROUTE_RESULT_NOSPACE && slots == old(slots) && !HasRoom(slots, capacity)
      ensures id >= 0 ==> FirstSlot(old(slots), capacity, id) && HasRoom(old(slots), capacity)
      ensures id >= 0 ==> slots == old(slots)[id :=
                match ribType
                case RtDefault => FibRes(inherited - {FrfMroute}, ROUTE_MAX_ECMP, fibNhops)
                case RtMroute => FibRes(inherited + {FrfMroute}, MROUTE_MAX_ECMP, fibNhops)]
    {
      ghost var slots0 := slots;
      id := FibResIdAlloc();
      if id < 0 {
        return SHC_ROUTE_RESULT_NOSPACE;
      }
      for i := 0 to |fibNhops|
        invariant slots == slots0[id := FibRes({}, ROUTE_MAX_ECMP, fibNhops[..i])]
      {
        slots := slots[id := slots[id].(mpath := slots[id].mpath + [fibNhops[i]])];
        assert fibNhops[..i + 1] == fibNhops[..i] + [fibNhops[i]];
      }
      assert fibNhops[..|fibNhops|] == fibNhops;
      slots := slots[id := slots[id].(flags := inherited)];
      // fib_res_md_set
      match ribType {
        case RtDefault =>
          slots := slots[id := slots[id].(mpathMax := ROUTE_MAX_ECMP, flags := slots[id].flags - {FrfMroute})];
        case RtMroute =>
          slots := slots[id := slots[id].(mpathMax := MROUTE_MAX_ECMP, flags := slots[id].flags + {FrfMroute})];
      }
    }

    // rt_prefix_obj_update; resId is the previous slot of the prefix, negative if none.
    method RtPrefixObjUpdate(k: RibKey, resId: int, resIdNew: int, env: Env) returns (ret: int)
      requires k.vrf in ribCnt && fib == rib
      requires if resId < 0 then k !in rib else k in rib && rib[k] == resId
      modifies `rib, `fib, `ribCnt
      ensures ret == if env.ribAdd && env.fibAdd then 0 else SHC_ROUTE_PREFIX_NOSPACE
      ensures ret < 0 ==> rib == old(rib) && fib == old(fib) && ribCnt == old(ribCnt)
      ensures ret == 0 ==> rib == old(rib)[k := resIdNew] && fib == old(fib)[k := resIdNew] &&
                           ribCnt == if resId < 0 then old(ribCnt)[k.vrf := old(ribCnt)[k.vrf] + 1] else old(ribCnt)
    {
      ghost var rib0 := rib;
      if !env.ribAdd {
        return SHC_ROUTE_PREFIX_NOSPACE;
      }
      rib := rib[k := resIdNew];
      if !env.fibAdd {
        ret := SHC_ROUTE_PREFIX_NOSPACE;
        if resId < 0 {
          rib := rib - {k};
        } else {
          rib := rib[k := resId];
        }
        assert rib == rib0;
        return ret;
      }
      fib := fib[k := resIdNew];
      if resId < 0 {
        ribCnt := ribCnt[k.vrf := ribCnt[k.vrf] + 1];
      }
      return 0;
    }

    // rt_prefix_obj_delete
    method RtPrefixObjDelete(k: RibKey)
      requires k in rib && k in fib && k.vrf in ribCnt
      modifies `rib, `fib, `ribCnt
      ensures rib == old(rib) - {k} && fib == old(fib) - {k} && ribCnt == old(ribCnt)[k.vrf := old(ribCnt)[k.vrf] - 1]
    {
      fib := fib - {k};
      rib := rib - {k};
      ribCnt := ribCnt[k.vrf := ribCnt[k.vrf] - 1];
    }

    // fib_res_obj_delete
    method FibResObjDelete(id: int) returns (ret: int)
      requires id in slots
      modifies `slots
      ensures ret == 0 && slots == old(slots) - {id}
    {
      slots := slots - {id};
      return 0;
    }

    // shc_route_nhop_insert
    method RouteNhopInsert(k: RibKey, key: NhopKey, ribType: RibType, env: Env) returns (ret: int)
      requires Core(S()) && InRange() && KnownVrf(S(), k.vrf) && env.addr !in nhops
      modifies this
      ensures InRange()
      ensures InsertAnswer(old(S()), k, key, ribType, env, capacity, ret)
      ensures if ret == 0 && !AlreadyThere(old(S()), k, key)
              then Appended(old(S()), S(), k, key) && NeighTaken(old(S()), S(), k.vrf, key, env.oid)
              else S() == old(S())
      ensures InsertOutcome(old(S()), S(), k, key, ribType, env, capacity, ret)
      ensures Core(S()) <==> S() == old(S()) || !HasNhop(old(S()), k, key)
      ensures Conserved(old(S()), S(), true)
    {
      ghost var s := S();
      ret := CheckAndInsert(k, key, ribType, env);
      InsertMeansAppended(s, S(), k, key, ribType, env, capacity, ret);
    }

    method CheckAndInsert(k: RibKey, key: NhopKey, ribType: RibType, env: Env) returns (ret: int)
      requires Core(S()) && InRange() && KnownVrf(S(), k.vrf) && env.addr !in nhops
      modifies this
      ensures InRange()
      ensures InsertOutcome(old(S()), S(), k, key, ribType, env, capacity, ret)
      ensures Core(S()) <==> S() == old(S()) || !HasNhop(old(S()), k, key)
      ensures Conserved(old(S()), S(), true)
    {
      var resId := -1;
      assert k in rib ==> RouteOk(rib, slots, nhops.Keys, k);
      NhopKeys();
      if k in rib {
        resId := rib[k];
        if TypeOf(slots[resId]) != ribType {
          return SHC_IPV4_ROUTETYPE_NO_SAME;
        }
        if |slots[resId].mpath| >= slots[resId].mpathMax {
          return SHC_ROUTE_NEXTHOP_ECMP_NOSPACE;
        }
        for i := 0 to |slots[resId].mpath|
          invariant S() == old(S())
          invariant forall j :: 0 <= j < i ==> !NhopEqual(nhops[slots[resId].mpath[j]].key, key)
        {
          if NhopEqual(nhops[slots[resId].mpath[i]].key, key) {
            assert slots[resId].mpath[i] in MpathOf(S(), k);
            return 0;
          }
        }
      }
      assert !HasEqual(S(), k, key);
      ret := InsertNhop(k, key, ribType, env);
    }

    // What the loops over mpath dereference.
    lemma NhopKeys()
      requires Core(S())
      ensures forall k, h :: k in rib && rib[k] in slots && h in slots[rib[k]].mpath ==> h in nhops
      ensures forall key :: key in hash ==> hash[key] in nhops && nhops[hash[key]].key == key
      ensures forall h :: h in nhops ==> nhops[h].key in hash
    {
      forall k, h | k in rib && rib[k] in slots && h in slots[rib[k]].mpath
        ensures h in nhops
      {
        assert RouteOk(rib, slots, nhops.Keys, k);
      }
      assert forall key :: key in hash ==> HashOk(hash, nhops, key);
      assert forall h :: h in nhops ==> NhopOk(hash, nhops, h);
    }

    // The part shared by insert and delete: a new fib_res with the given next hops, the
    // prefix pointed at it, the old fib_res freed; undone if the prefix cannot be updated.
    method InstallRoute(k: RibKey, fibNhops: seq<Handle>, ribType: RibType, env: Env) returns (ret: int, ghost i: int)
      requires k.vrf in ribCnt && fib == rib && (k in rib ==> rib[k] in slots && rib[k] >= 0) && InRange()
      modifies `rib, `fib, `slots, `ribCnt
      ensures InRange() && ret == InstallCode(HasRoom(old(slots), capacity), env)
      ensures ret < 0 ==> S() == old(S())
      ensures ret == 0 ==> FirstSlot(old(slots), capacity, i) &&
                           S() == PutRoute(old(S()), k, i, RouteEntry(old(S()), k, ribType, fibNhops))
    {
      ghost var s := S();
      ret, i := MoveRoute(k, fibNhops, ribType, env);
      if ret == 0 {
        PutRouteIs(s, k, i, RouteEntry(s, k, ribType, fibNhops), S());
      }
    }

    method MoveRoute(k: RibKey, fibNhops: seq<Handle>, ribType: RibType, env: Env) returns (ret: int, ghost i: int)
      requires k.vrf in ribCnt && fib == rib && (k in rib ==> rib[k] in slots && rib[k] >= 0) && InRange()
      modifies `rib, `fib, `slots, `ribCnt
      ensures InRange() && ret == InstallCode(HasRoom(old(slots), capacity), env)
      ensures ret < 0 ==> rib == old(rib) && fib == old(fib) && slots == old(slots) && ribCnt == old(ribCnt)
      ensures ret == 0 ==>
        && FirstSlot(old(slots), capacity, i) && rib == old(rib)[k := i] && fib == old(fib)[k := i]
        && slots == Moved(old(slots), old(rib), k)[i := RouteEntry(old(S()), k, ribType, fibNhops)]
        && ribCnt == if k in old(rib) then old(ribCnt) else old(ribCnt)[k.vrf := old(ribCnt)[k.vrf] + 1]
    {
      ghost var s := S();
      var resId, inherited := -1, {};
      if k in rib {
        resId := rib[k];
        inherited := slots[resId].flags;
      }
      var resIdNew := FibResObjCreate(fibNhops, inherited, ribType);
      i := resIdNew;
      if resIdNew < 0 {
        return resIdNew, i;
      }
      SlotsMoved(s.slots, resId, resIdNew, slots[resIdNew]);
      assert slots[resIdNew] == RouteEntry(s, k, ribType, fibNhops);
      ret := RtPrefixObjUpdate(k, resId, resIdNew, env);
      if ret < 0 {
        var _ := FibResObjDelete(resIdNew);
        return ret, i;
      }
      if resId >= 0 {
        ret := FibResObjDelete(resId);
      }
    }

    lemma SlotsOfRoutes(k: RibKey)
      requires Core(S()) && InRange()
      ensures fib == rib && (k in rib ==> rib[k] in slots && rib[k] >= 0 && rib[k] != BLACKHOLE) && BLACKHOLE in slots
    {
      assert k in rib ==> RouteOk(rib, slots, nhops.Keys, k);
    }

    // shc_route_nhop_insert after its checks.
    method InsertNhop(k: RibKey, key: NhopKey, ribType: RibType, env: Env) returns (ret: int)
      requires Core(S()) && InRange() && KnownVrf(S(), k.vrf) && env.addr !in nhops
      requires !HasEqual(S(), k, key) && !WrongType(S(), k, ribType) && !IsFull(S(), k)
      modifies this
      ensures InRange() && InsertOutcome(old(S()), S(), k, key, ribType, env, capacity, ret)
      ensures Core(S()) <==> S() == old(S()) || !HasNhop(old(S()), k, key)
      ensures Conserved(old(S()), S(), true)
    {
      ghost var s := S();
      NhopKeys();
      SlotsOfRoutes(k);
      var nhopNew;
      ret, nhopNew := NhopObjCreate(k.vrf, key, env);
      if ret < 0 {
        return ret;
      }
      RefKeepsRoutes(s, k.vrf, key, env.addr, env.oid);
      ret := AttachNhop(s, k, key, nhopNew, ribType, env);
    }

    // The new fib_res, once the next hop is there; s is the state before it was.
    method AttachNhop(ghost s: State, k: RibKey, key: NhopKey, h: Handle, ribType: RibType, env: Env) returns (ret: int)
      requires Core(s) && KnownVrf(s, k.vrf) && env.addr !in s.nhops && (k in s.rib ==> s.rib[k] in s.slots)
      requires (key in s.hash ==> s.hash[key] in s.nhops) && h == RefHandle(s, key, env.addr)
      requires S() == NhopRef(s, k.vrf, key, env.addr, env.oid) && InRange()
      requires rib == s.rib && fib == s.fib && slots == s.slots && ribCnt == s.ribCnt
      requires !HasEqual(s, k, key)
      requires InsertCode(s, k, key, ribType, env, capacity) == InstallCode(HasRoom(slots, capacity), env)
      modifies this
      ensures InRange() && InsertOutcome(s, S(), k, key, ribType, env, capacity, ret)
      ensures (Core(S()) <==> S() == s || !HasNhop(s, k, key)) && Conserved(s, S(), true)
    {
      var fibNhops := (if k in rib then slots[rib[k]].mpath else []) + [h];
      ghost var i;
      ret, i := InstallRoute(k, fibNhops, ribType, env);
      if ret < 0 {
        UndoNhop(s, k.vrf, key, h, env);
        return ret;
      }
      InsertSucceeds(s, S(), k, key, ribType, env, capacity, i, fibNhops);
    }

    // rollback2 of shc_route_nhop_insert: releases the reference just taken.
    method UndoNhop(ghost s: State, v: int, key: NhopKey, h: Handle, env: Env)
      requires Core(s) && v in s.neighCnt && env.addr !in s.nhops
      requires (key in s.hash ==> s.hash[key] in s.nhops) && h == RefHandle(s, key, env.addr)
      requires S() == NhopRef(s, v, key, env.addr, env.oid)
      modifies `hash, `nhops, `owner, `neighs, `neighCnt, `neighTotal
      ensures S() == s
    {
      UnrefUndoesRef(s, v, key, env.addr, env.oid);
      Releasable(s, v, key, h, env.addr, env.oid);
      var _ := NhopObjDelete(v, h);
    }

    // What nhop_obj_delete relies on.
    lemma Releasable(s: State, v: int, key: NhopKey, h: Handle, addr: Handle, oid: int)
      requires Core(s) && v in s.neighCnt && addr !in s.nhops
      requires (key in s.hash ==> s.hash[key] in s.nhops) && h == RefHandle(s, key, addr)
      ensures var t := NhopRef(s, v, key, addr, oid);
              h in t.nhops && h in t.owner && t.nhops[h].key in t.hash && Positive(t.neighs)
    {
      assert key in s.hash ==> HashOk(s.hash, s.nhops, key);
    }

    // nhop_obj_delete for a reference whose mpath entry is gone.
    method Release(v: int, h: Handle, ghost p: multiset<Handle>)
      requires CoreWith(S(), p) && v in neighCnt && h in p && h in nhops
      modifies `hash, `nhops, `owner, `neighs, `neighCnt, `neighTotal
      ensures S() == NhopUnref(old(S()), v, h) && CoreWith(S(), p - multiset{h})
    {
      assert NhopOk(hash, nhops, h);
      UnrefKeeps(S(), p, v, h);
      var _ := NhopObjDelete(v, h);
    }

    // rt_prefix_obj_delete and fib_res_obj_delete: the prefix and its slot go, its next
    // hops' references become pending.
    method DeletePrefix(k: RibKey)
      requires Core(S()) && InRange() && KnownVrf(S(), k.vrf) && k in rib
      modifies `rib, `fib, `slots, `ribCnt
      ensures S() == DropRoute(old(S()), k) && CoreWith(S(), multiset(MpathOf(old(S()), k))) && InRange()
      ensures NoDuplicates(MpathOf(old(S()), k))
      ensures forall h :: h in MpathOf(old(S()), k) ==> h in nhops
    {
      assert RouteOk(rib, slots, nhops.Keys, k);
      DropRouteKeeps(S(), multiset{}, k);
      assert multiset{} + multiset(MpathOf(S(), k)) == multiset(MpathOf(S(), k));
      var resId := rib[k];
      RtPrefixObjDelete(k);
      var _ := FibResObjDelete(resId);
    }

    // shc_route_nhop_delete for the only next hop of a prefix.
    method RemoveLast(k: RibKey, h: Handle)
      requires Core(S()) && InRange() && KnownVrf(S(), k.vrf) && k in rib && MpathOf(S(), k) == [h]
      modifies this
      ensures h in old(nhops) && S() == NhopUnref(DropRoute(old(S()), k), k.vrf, h) && Core(S()) && InRange()
    {
      DeletePrefix(k);
      assert [h][0] in [h] && multiset([h]) == multiset{h} && multiset{h} - multiset{h} == multiset{};
      Release(k.vrf, h, multiset{h});
    }

    // The loop that copies the next hops to be kept.
    method Remaining(mpath: seq<Handle>, h: Handle) returns (fibNhops: seq<Handle>)
      ensures fibNhops == Without(mpath, h)
    {
      fibNhops := [];
      for j := 0 to |mpath|
        invariant fibNhops == Without(mpath[..j], h)
      {
        assert mpath[..j + 1][..j] == mpath[..j];
        if mpath[j] != h {
          fibNhops := fibNhops + [mpath[j]];
        }
      }
      assert mpath[..|mpath|] == mpath;
    }

    // ... and for one of several.
    method RemoveOne(k: RibKey, ribType: RibType, h: Handle, env: Env) returns (ret: int, ghost i: int)
      requires Core(S()) && InRange() && KnownVrf(S(), k.vrf) && k in rib && h in MpathOf(S(), k) && h in nhops
      requires |MpathOf(S(), k)| > 1 && !WrongType(S(), k, ribType)
      modifies this
      ensures InRange() && Core(S()) && ret == InstallCode(HasRoom(old(slots), capacity), env)
      ensures ret < 0 ==> S() == old(S())
      ensures ret == 0 ==> FirstSlot(old(slots), capacity, i) && S() == Removed(old(S()), k, ribType, h, i)
    {
      ghost var s := S();
      SlotsOfRoutes(k);
      assert RouteOk(rib, slots, nhops.Keys, k);
      var fibNhops := Remaining(slots[rib[k]].mpath, h);
      ret, i := InstallRoute(k, fibNhops, ribType, env);
      if ret < 0 {
        return ret, i;
      }
      PutShorter(s, k, ribType, h, i);
      assert multiset{h} - multiset{h} == multiset{};
      Release(k.vrf, h, multiset{h});
    }

    // shc_route_nhop_delete once the next hop is found on the prefix.
    method RemoveFound(k: RibKey, ribType: RibType, h: Handle, env: Env) returns (ret: int, ghost i: int)
      requires Core(S()) && InRange() && KnownVrf(S(), k.vrf) && k in rib && h in MpathOf(S(), k) && h in nhops
      requires !WrongType(S(), k, ribType)
      modifies this
      ensures Core(S()) && InRange()
      ensures ret == if |MpathOf(old(S()), k)| == 1 then 0 else InstallCode(HasRoom(old(slots), capacity), env)
      ensures ret != 0 ==> S() == old(S())
      ensures ret == 0 && |MpathOf(old(S()), k)| > 1 ==> FirstSlot(old(slots), capacity, i)
      ensures ret == 0 ==> S() == Removed(old(S()), k, ribType, h, i)
      ensures Conserved(old(S()), S(), ret != 0 || OwnRelease(old(S()), k.vrf, h))
    {
      ghost var s := S();
      i := Unused();
      if |slots[rib[k]].mpath| == 1 {
        assert MpathOf(s, k) == [h];
        RemoveLast(k, h);
        assert S() == Removed(s, k, ribType, h, i);
        ret := 0;
      } else {
        SlotsOfRoutes(k);
        assert RouteOk(rib, slots, nhops.Keys, k);
        ret, i := RemoveOne(k, ribType, h, env);
      }
      if ret == 0 {
        RemoveBalance(s, k, ribType, h, i);
      }
    }

    // The loop that looks for a next hop on the prefix.
    method Position(mpath: seq<Handle>, h: Handle) returns (j: nat)
      ensures if j == |mpath| then h !in mpath else j < |mpath| && mpath[j] == h
    {
      j := 0;
      while j < |mpath| && mpath[j] != h
        invariant 0 <= j <= |mpath| && h !in mpath[..j]
      {
        j := j + 1;
      }
      assert mpath[..|mpath|] == mpath;
    }

    // shc_route_nhop_delete
    method RouteNhopDelete(k: RibKey, key: NhopKey, ribType: RibType, env: Env) returns (ret: int)
      requires Core(S()) && InRange() && KnownVrf(S(), k.vrf)
      modifies this
      ensures Core(S()) && InRange()
      ensures RemoveAnswer(old(S()), k, key, ribType, env, capacity, ret)
      ensures if ret == 0 && HasNhop(old(S()), k, key) then TakenOff(old(S()), S(), k, key) else S() == old(S())
      ensures RemoveOutcome(old(S()), S(), k, key, ribType, env, capacity, ret)
      ensures Conserved(old(S()), S(),
                S() == old(S()) || (key in old(hash) && OwnRelease(old(S()), k.vrf, old(hash)[key])))
    {
      ghost var s := S();
      ret := FindAndRemove(k, key, ribType, env);
      RemoveMeansTakenOff(s, S(), k, key, ribType, env, capacity, ret);
    }

    method FindAndRemove(k: RibKey, key: NhopKey, ribType: RibType, env: Env) returns (ret: int)
      requires Core(S()) && InRange() && KnownVrf(S(), k.vrf)
      modifies this
      ensures Core(S()) && InRange()
      ensures RemoveOutcome(old(S()), S(), k, key, ribType, env, capacity, ret)
      ensures Conserved(old(S()), S(),
                S() == old(S()) || (key in old(hash) && OwnRelease(old(S()), k.vrf, old(hash)[key])))
    {
      ghost var s := S();
      SlotsOfRoutes(k);
      NhopKeys();
      if k !in rib {
        return 0;
      }
      var resId := rib[k];
      if TypeOf(slots[resId]) != ribType {
        return SHC_IPV4_ROUTETYPE_NO_SAME;
      }
      if key !in hash {
        return 0;
      }
      var h := hash[key];
      var j := Position(slots[resId].mpath, h);
      if j == |slots[resId].mpath| {
        return 0;
      }
      assert h in MpathOf(s, k);
      ghost var i;
      ret, i := RemoveFound(k, ribType, h, env);
      RemoveEnds(s, S(), k, key, ribType, env, capacity, ret, i);
    }

    // A number that is no slot.
    lemma Unused() returns (i: int)
      requires InRange()
      ensures i !in slots
    {
      i := -1;
    }

    // The loop of shc_route_delete over the next hops of the deleted prefix.
    method ReleaseAll(v: int, fibNhops: seq<Handle>)
      requires CoreWith(S(), multiset(fibNhops)) && InRange() && v in neighCnt && NoDuplicates(fibNhops)
      requires forall h :: h in fibNhops ==> h in nhops
      modifies `hash, `nhops, `owner, `neighs, `neighCnt, `neighTotal
      ensures S() == UnrefAll(old(S()), v, fibNhops) && Core(S())
    {
      ghost var s := S();
      assert fibNhops[0..] == fibNhops;
      for i := 0 to |fibNhops|
        invariant S() == UnrefAll(s, v, fibNhops[..i]) && v in neighCnt
        invariant CoreWith(S(), multiset(fibNhops[i..])) && Live(S(), fibNhops, i)
      {
        ReleaseStep(s, S(), v, fibNhops, i);
        assert NhopOk(hash, nhops, fibNhops[i]);
        var _ := NhopObjDelete(v, fibNhops[i]);
      }
      assert fibNhops[..|fibNhops|] == fibNhops && multiset(fibNhops[|fibNhops|..]) == multiset{};
    }

    // shc_route_delete
    method RouteDelete(k: RibKey) returns (ret: int)
      requires Core(S()) && InRange() && KnownVrf(S(), k.vrf)
      modifies this
      ensures Core(S()) && InRange()
      ensures k !in old(rib) ==> ret == SHC_ROUTE_PREFIX_NOT_FOUND && S() == old(S())
      ensures k in old(rib) ==> ret == 0 && S() == Deleted(old(S()), k)
      ensures Conserved(old(S()), S(), forall h :: h in MpathOf(old(S()), k) ==> OwnRelease(old(S()), k.vrf, h))
    {
      if k !in rib {
        return SHC_ROUTE_PREFIX_NOT_FOUND;
      }
      SlotsOfRoutes(k);
      DeleteBalance(S(), k);
      var fibNhops := slots[rib[k]].mpath;
      DeletePrefix(k);
      ReleaseAll(k.vrf, fibNhops);
      return 0;
    }

    // shc_route_cleanup; order is the sequence of positions the hash iterator visits.
    method RouteCleanup(v: int, order: seq<RibKey>)
      requires Core(S()) && InRange() && KnownVrf(S(), v)
      requires forall k :: k in rib ==> k in order
      modifies this
      ensures Core(S()) && InRange() && S() == CleanedUp(old(S()), v, order)
      ensures Emptied(old(S()), S(), v)
      ensures Conserved(old(S()), S(), ReleasesOwn(old(S()), v))
    {
      ghost var s := S();
      CleanupLoop(v, order);
      CleanupEmpties(s, v, order);
    }

    method CleanupLoop(v: int, order: seq<RibKey>)
      requires Core(S()) && InRange() && KnownVrf(S(), v)
      modifies this
      ensures Core(S()) && InRange() && S() == CleanedUp(old(S()), v, order)
    {
      ghost var s := S();
      for i := 0 to |order|
        invariant Core(S()) && InRange() && KnownVrf(S(), v) && S() == CleanedUp(s, v, order[..i])
      {
        assert order[..i + 1][..i] == order[..i];
        if order[i] in rib && v == order[i].vrf {
          DeleteKeeps(S(), order[i]);
          var _ := RouteDelete(order[i]);
        }
      }
      assert order[..|order|] == order;
    }
  }

  // From s to t VRF v lost its routes; other routes stayed.
  ghost predicate Emptied(s: State, t: State, v: int) {
    && t.ribCnt.Keys == s.ribCnt.Keys && t.neighCnt.Keys == s.neighCnt.Keys && Shrunk(s, t) && Releases(s, t, v)
    && t.rib.Keys == s.rib.Keys - RibOf(s.rib, v)
    && (forall k {:trigger SameRoute(s, t, k)} :: k in t.rib ==> SameRoute(s, t, k))
  }

  // The next hops that reference a neighbour of another VRF are on a prefix outside v.
  ghost predicate ReleasesOwn(s: State, v: int) {
    forall h {:trigger UsedElsewhere(s, v, h)} :: h in s.nhops && h in s.owner ==>
      s.nhops[h].key.gateway == 0 || s.owner[h] == v || UsedElsewhere(s, v, h)
  }

  ghost predicate UsedElsewhere(s: State, v: int, h: Handle) {
    exists k :: k in s.rib && k.vrf != v && h in MpathOf(s, k)
  }

  // From s to t the prefixes of VRF v among ks went and nothing else.
  ghost predicate Cleaned(s: State, t: State, v: int, ks: seq<RibKey>) {
    && t.ribCnt.Keys == s.ribCnt.Keys && t.neighCnt.Keys == s.neighCnt.Keys && Shrunk(s, t) && Releases(s, t, v)
    && (forall k :: k in t.rib <==> k in s.rib && !(k.vrf == v && k in ks))
    && (forall k {:trigger SameRoute(s, t, k)} :: k in t.rib ==> SameRoute(s, t, k))
  }

  lemma CleanStart(s: State, v: int)
    requires Core(s)
    ensures Cleaned(s, s, v, [])
  {
    ReleasesNothing(s, s, v);
    forall k | k in s.rib
      ensures SameRoute(s, s, k)
    {
      assert RouteOk(s.rib, s.slots, s.nhops.Keys, k);
    }
  }

  lemma CleanStep(s: State, t: State, v: int, ks: seq<RibKey>, k: RibKey)
    requires Core(t) && KnownVrf(t, v) && Cleaned(s, t, v, ks)
    ensures Cleaned(s, if k in t.rib && k.vrf == v then Deleted(t, k) else t, v, ks + [k])
  {
    if k in t.rib && k.vrf == v {
      DeleteKeeps(t, k);
      OthersStay(t, k);
      DeletesShrink(t, k, RtDefault, 0, 0);
      DeleteReleases(t, k);
      CleanOne(s, t, Deleted(t, k), v, ks, k);
    }
  }

  lemma CleanOne(s: State, t: State, u: State, v: int, ks: seq<RibKey>, k: RibKey)
    requires Cleaned(s, t, v, ks) && k.vrf == v && u.rib == t.rib - {k} && Shrunk(t, u) && Releases(t, u, v)
    requires u.ribCnt.Keys == t.ribCnt.Keys && u.neighCnt.Keys == t.neighCnt.Keys
    requires forall l {:trigger SameRoute(t, u, l)} :: l in t.rib && l != k ==> SameRoute(t, u, l)
    ensures Cleaned(s, u, v, ks + [k])
  {
    ReleasesTwice(s, t, u, v);
    forall l | l in u.rib
      ensures SameRoute(s, u, l)
    {
      assert SameRoute(s, t, l) && SameRoute(t, u, l);
    }
  }

  // The neighbours during a cleanup of VRF v.
  ghost predicate HalfBalanced(s: State, t: State, v: int) {
    && OtherNeighs(s, t, v) && (Counted(s) ==> Counted(t))
    && (Balanced(s) && ReleasesOwn(s, v) ==> Balanced(t))
  }

  lemma BalanceStep(s: State, t: State, v: int, ks: seq<RibKey>, k: RibKey)
    requires Core(s) && Core(t) && KnownVrf(t, v) && Cleaned(s, t, v, ks) && HalfBalanced(s, t, v)
    ensures HalfBalanced(s, if k in t.rib && k.vrf == v then Deleted(t, k) else t, v)
  {
    if k in t.rib && k.vrf == v {
      DeleteBalance(t, k);
      DeleteOtherNeighs(t, k);
      OtherNeighsTwice(s, t, Deleted(t, k), v);
      if ReleasesOwn(s, v) {
        RoutesReleaseOwn(s, t, v, ks, k);
      }
    }
  }

  lemma RoutesReleaseOwn(s: State, t: State, v: int, ks: seq<RibKey>, k: RibKey)
    requires Core(s) && Core(t) && Cleaned(s, t, v, ks) && ReleasesOwn(s, v) && k in t.rib && k.vrf == v
    ensures forall h :: h in MpathOf(t, k) ==> OwnRelease(t, v, h)
  {
    forall h | h in MpathOf(t, k)
      ensures OwnRelease(t, v, h)
    {
      StillUsedElsewhere(s, t, v, ks, k, h);
    }
  }

  lemma DeleteOtherNeighs(s: State, k: RibKey)
    requires KnownVrf(s, k.vrf) && k in s.rib
    ensures OtherNeighs(s, Deleted(s, k), k.vrf)
  {
    var t := DropRoute(s, k);
    UnrefAllOtherNeighs(t, k.vrf, MpathOf(s, k));
    forall n: NeighKey | n.vrf != k.vrf
      ensures SameNeigh(s, Deleted(s, k), n)
    {
      assert SameNeigh(t, Deleted(s, k), n);
    }
  }

  lemma StillUsedElsewhere(s: State, t: State, v: int, ks: seq<RibKey>, k: RibKey, h: Handle)
    requires Core(s) && Core(t) && Cleaned(s, t, v, ks) && ReleasesOwn(s, v)
    requires k in t.rib && k.vrf == v && h in MpathOf(t, k)
    ensures OwnRelease(t, v, h)
  {
    SlotHopsLive(t, k);
    assert h in s.nhops && h in s.owner;
    if UsedElsewhere(s, v, h) {
      var l :| l in s.rib && l.vrf != v && h in MpathOf(s, l);
      assert SameRoute(s, t, l);
      UsedTwice(t, k, l, h);
    }
  }

  lemma UsedTwice(t: State, k: RibKey, l: RibKey, h: Handle)
    requires Core(t) && k in t.rib && l in t.rib && k != l && h in MpathOf(t, k) && h in MpathOf(t, l) && h in t.nhops
    ensures t.nhops[h].refCount > 1
  {
    assert RefOk(t.slots, t.nhops, multiset{}, h);
    assert t.rib[k] != t.rib[l];
    SubsetSize({t.rib[k], t.rib[l]}, Users(t.slots, h));
  }

  // What shc_route_cleanup makes of s if its iterator visits ks.
  function CleanedUp(s: State, v: int, ks: seq<RibKey>): State {
    if ks == [] then s
    else
      var t, k := CleanedUp(s, v, ks[..|ks| - 1]), ks[|ks| - 1];
      if k in t.rib && k.vrf == v && KnownVrf(t, v) then Deleted(t, k) else t
  }

  lemma {:induction false} CleanupCleans(s: State, v: int, ks: seq<RibKey>)
    requires Core(s) && KnownVrf(s, v)
    ensures var t := CleanedUp(s, v, ks);
            Core(t) && KnownVrf(t, v) && Cleaned(s, t, v, ks) && HalfBalanced(s, t, v)
  {
    if ks == [] {
      CleanStart(s, v);
    } else {
      var init, k := ks[..|ks| - 1], ks[|ks| - 1];
      assert ks == init + [k];
      CleanupCleans(s, v, init);
      var t := CleanedUp(s, v, init);
      CleanStep(s, t, v, init, k);
      BalanceStep(s, t, v, init, k);
      if k in t.rib && k.vrf == v {
        DeleteKeeps(t, k);
      }
    }
  }

  // The cleanup takes the routes of the VRF away and nothing else, and keeps the neighbours
  // balanced exactly if it releases nothing astray.
  lemma CleanupEmpties(s: State, v: int, ks: seq<RibKey>)
    requires Core(s) && KnownVrf(s, v) && forall k :: k in s.rib ==> k in ks
    ensures var t := CleanedUp(s, v, ks); Core(t) && Emptied(s, t, v) && Conserved(s, t, ReleasesOwn(s, v))
  {
    CleanupCleans(s, v, ks);
    CleanEnd(s, CleanedUp(s, v, ks), v, ks);
  }

  lemma CleanEnd(s: State, t: State, v: int, ks: seq<RibKey>)
    requires Core(s) && Core(t) && Cleaned(s, t, v, ks) && HalfBalanced(s, t, v)
    requires forall k :: k in s.rib ==> k in ks
    ensures Emptied(s, t, v) && Conserved(s, t, ReleasesOwn(s, v))
  {
    CleanedBalance(s, t, v);
  }

  lemma StillUsed(s: State, t: State, v: int, h: Handle)
    requires Core(t) && Emptied(s, t, v) && h in t.nhops
    ensures UsedElsewhere(s, v, h)
  {
    var k := NhopIsUsed(t, h);
    assert SameRoute(s, t, k);
  }

  // After the cleanup the neighbours are balanced only if nothing astray was released.
  lemma CleanedBalance(s: State, t: State, v: int)
    requires Core(s) && Core(t) && HalfBalanced(s, t, v) && Emptied(s, t, v)
    ensures Conserved(s, t, ReleasesOwn(s, v))
  {
    if h :| h in s.nhops && h in s.owner && s.nhops[h].key.gateway != 0 && s.owner[h] != v && !UsedElsewhere(s, v, h) {
      if h in t.nhops {
        StillUsed(s, t, v, h);
        assert false;
      }
      if Balanced(s) {
        VanishedAstray(s, t, v, h);
      }
    }
  }

  ghost predicate Live(s: State, hs: seq<Handle>, i: nat) {
    forall j :: i <= j < |hs| ==> hs[j] in s.nhops
  }

  lemma HeadReleased(h: Handle, hs: seq<Handle>)
    ensures multiset([h] + hs) - multiset{h} == multiset(hs) && h in multiset([h] + hs)
  {
  }

  lemma ReleaseStep(s: State, t: State, v: int, hs: seq<Handle>, i: nat)
    requires i < |hs| && NoDuplicates(hs) && v in s.neighCnt && v in t.neighCnt && t == UnrefAll(s, v, hs[..i])
    requires CoreWith(t, multiset(hs[i..])) && Live(t, hs, i)
    ensures var u := NhopUnref(t, v, hs[i]);
            u == UnrefAll(s, v, hs[..i + 1]) && v in u.neighCnt && CoreWith(u, multiset(hs[i + 1..])) &&
              Live(u, hs, i + 1)
  {
    assert hs[..i + 1][..i] == hs[..i] && hs[i..] == [hs[i]] + hs[i + 1..];
    HeadReleased(hs[i], hs[i + 1..]);
    UnrefKeeps(t, multiset(hs[i..]), v, hs[i]);
    UnrefFrame(t, v, hs[i]);
    LiveNext(t, NhopUnref(t, v, hs[i]), hs, i);
  }

  lemma LiveNext(t: State, u: State, hs: seq<Handle>, i: nat)
    requires i < |hs| && NoDuplicates(hs) && Live(t, hs, i) && OnlyNhops(t, u, {hs[i]})
    ensures Live(u, hs, i + 1)
  {
  }

  // Prefix k has the same slot with the same contents.
  ghost predicate SameRoute(s: State, t: State, k: RibKey) {
    k in s.rib && k in t.rib && t.rib[k] == s.rib[k] && s.rib[k] in s.slots && t.rib[k] in t.slots &&
    t.slots[t.rib[k]] == s.slots[s.rib[k]]
  }

  lemma OthersStay(s: State, k: RibKey)
    requires Core(s) && KnownVrf(s, k.vrf) && k in s.rib
    ensures forall l {:trigger SameRoute(s, Deleted(s, k), l)} :: l in s.rib && l != k ==>
              SameRoute(s, Deleted(s, k), l)
  {
    DeleteKeeps(s, k);
    forall l | l in s.rib && l != k
      ensures SameRoute(s, Deleted(s, k), l)
    {
      assert RouteOk(s.rib, s.slots, s.nhops.Keys, l);
    }
  }
}
