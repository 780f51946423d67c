/** The tables of the route control plane (agent/route.c, agent/neigh.c) as one value,
    the changes the control plane makes to it, and the invariant they keep. */
module RouteState {
  import opened Sets

  datatype Encap = Invalid | Vxlan | Tgre
  datatype TunnelInfo = TunnelInfo(encap: Encap, remote: int, id: int, extra: int)
  datatype NhopKey = NhopKey(gateway: int, tunnel: TunnelInfo)  // shc_nhop_hash_key
  datatype RibKey = RibKey(vrf: int, prefixlen: int, prefix: int)
  datatype NeighKey = NeighKey(vrf: int, gw: int)
  datatype Neigh = Neigh(refcnt: int, oid: int)

  // The address of a next-hop object: what rte_zmalloc returns and mpath stores.
  type Handle = nat
  datatype Nhop = Nhop(key: NhopKey, refCount: int, neighOid: int)

  datatype RibType = RtDefault | RtMroute
  datatype Flag = FrfReject | FrfMroute | FrfNottl
  datatype FibRes = FibRes(flags: set<Flag>, mpathMax: int, mpath: seq<Handle>)

  const ROUTE_MAX_ECMP: int := 1
  const MROUTE_MAX_ECMP: int := 8
  const BLACKHOLE: int := 0  // the slot shc_vrf_init reserves

  // owner records the VRF whose insert created a next hop, hence whose neighbour it
  // references. No table of the control plane holds it: the next-hop key does not name a
  // VRF, but the key of the neighbour does.
  datatype State = State(
    rib: map<RibKey, int>,            // prefix to fib_res slot, all VRFs
    fib: map<RibKey, int>,            // the lookup tables of the VRFs, likewise
    slots: map<int, FibRes>,          // used entries of g_fib_res_array
    hash: map<NhopKey, Handle>,       // g_nhop_hash_tbl
    nhops: map<Handle, Nhop>,         // allocated next-hop objects
    owner: map<Handle, int>,
    neighs: map<NeighKey, Neigh>,     // ol_neigh_table
    ribCnt: map<int, int>,            // per VRF
    neighCnt: map<int, int>,          // per VRF
    neighTotal: int)

  type Nhops = map<Handle, Nhop>
  type Owners = map<Handle, int>

  ghost function Users(slots: map<int, FibRes>, h: Handle): set<int> {
    set i | i in slots && h in slots[i].mpath
  }

  ghost function NhopsOf(nhops: Nhops, owner: Owners, n: NeighKey): set<Handle> {
    set h | h in nhops && h in owner && owner[h] == n.vrf && nhops[h].key.gateway == n.gw
  }

  ghost function RibOf(rib: map<RibKey, int>, v: int): set<RibKey> {
    set k | k in rib && k.vrf == v
  }

  ghost function NeighsOf(neighs: map<NeighKey, Neigh>, v: int): set<NeighKey> {
    set n | n in neighs && n.vrf == v
  }

  function TypeOf(r: FibRes): RibType {
    if FrfMroute in r.flags then RtMroute else RtDefault
  }

  // A routed slot: one to mpathMax distinct next hops, all of them live.
  ghost predicate SlotOk(r: FibRes, live: set<Handle>) {
    && r.flags <= {FrfMroute}
    && r.mpathMax == (if FrfMroute in r.flags then MROUTE_MAX_ECMP else ROUTE_MAX_ECMP)
    && 1 <= |r.mpath| <= r.mpathMax
    && NoDuplicates(r.mpath)
    && forall h :: h in r.mpath ==> h in live
  }

  ghost predicate RouteOk(rib: map<RibKey, int>, slots: map<int, FibRes>, live: set<Handle>, k: RibKey) {
    k in rib && rib[k] in slots && rib[k] != BLACKHOLE && SlotOk(slots[rib[k]], live)
  }

  ghost predicate IsRouteSlot(rib: map<RibKey, int>, i: int) {
    exists k :: k in rib && rib[k] == i
  }

  // RIB and fib_res slots agree: prefixes own distinct slots, and every used slot but
  // the blackhole belongs to a prefix.
  ghost predicate RoutesOk(rib: map<RibKey, int>, slots: map<int, FibRes>, live: set<Handle>) {
    && BLACKHOLE in slots && slots[BLACKHOLE].mpath == []
    && (forall k {:trigger RouteOk(rib, slots, live, k)} :: k in rib ==> RouteOk(rib, slots, live, k))
    && (forall k, l :: k in rib && l in rib && rib[k] == rib[l] ==> k == l)
    && (forall i {:trigger IsRouteSlot(rib, i)} :: i in slots && i != BLACKHOLE ==> IsRouteSlot(rib, i))
  }

  // A next hop is found under its key.
  ghost predicate NhopOk(hash: map<NhopKey, Handle>, nhops: Nhops, h: Handle) {
    h in nhops && nhops[h].key in hash && hash[nhops[h].key] == h
  }

  ghost predicate HashOk(hash: map<NhopKey, Handle>, nhops: Nhops, key: NhopKey) {
    key in hash && hash[key] in nhops && nhops[hash[key]].key == key
  }

  ghost predicate NhopsOk(hash: map<NhopKey, Handle>, nhops: Nhops) {
    && (forall h {:trigger NhopOk(hash, nhops, h)} :: h in nhops ==> NhopOk(hash, nhops, h))
    && (forall key {:trigger HashOk(hash, nhops, key)} :: key in hash ==> HashOk(hash, nhops, key))
  }

  // A next hop counts the mpath entries pointing at it, pending references included.
  ghost predicate RefOk(slots: map<int, FibRes>, nhops: Nhops, pending: multiset<Handle>, h: Handle) {
    h in nhops && nhops[h].refCount == |Users(slots, h)| + pending[h] && 1 <= nhops[h].refCount
  }

  ghost predicate RefsOk(slots: map<int, FibRes>, nhops: Nhops, pending: multiset<Handle>) {
    && (forall h {:trigger RefOk(slots, nhops, pending, h)} :: h in nhops ==> RefOk(slots, nhops, pending, h))
    && forall h {:trigger pending[h]} :: pending[h] > 0 ==> h in nhops
  }

  // A neighbour counts the next hops of its VRF behind its gateway.
  ghost predicate NeighOk(nhops: Nhops, owner: Owners, neighs: map<NeighKey, Neigh>, n: NeighKey) {
    n in neighs && n.gw != 0 && neighs[n].refcnt == |NhopsOf(nhops, owner, n)| >= 1
  }

  ghost predicate ResolvedOk(nhops: Nhops, owner: Owners, neighs: map<NeighKey, Neigh>, h: Handle) {
    && h in nhops && h in owner
    && (nhops[h].key.gateway != 0 ==>
          var n := NeighKey(owner[h], nhops[h].key.gateway); n in neighs && nhops[h].neighOid == neighs[n].oid)
  }

  ghost predicate NeighsOk(nhops: Nhops, owner: Owners, neighs: map<NeighKey, Neigh>) {
    && (forall n {:trigger NeighOk(nhops, owner, neighs, n)} :: n in neighs ==> NeighOk(nhops, owner, neighs, n))
    && (forall h {:trigger ResolvedOk(nhops, owner, neighs, h)} :: h in nhops ==> ResolvedOk(nhops, owner, neighs, h))
  }

  ghost predicate RibCounted(rib: map<RibKey, int>, ribCnt: map<int, int>) {
    forall v :: v in ribCnt ==> ribCnt[v] == |RibOf(rib, v)|
  }

  ghost predicate NeighsCounted(neighs: map<NeighKey, Neigh>, neighCnt: map<int, int>, total: int) {
    total == |neighs.Keys| && forall v :: v in neighCnt ==> neighCnt[v] == |NeighsOf(neighs, v)|
  }

  ghost predicate Positive(neighs: map<NeighKey, Neigh>) {
    forall n :: n in neighs ==> n.gw != 0 && 1 <= neighs[n].refcnt
  }

  // What every operation keeps, with references taken or released but not yet matched by
  // an mpath entry as pending. Only the keys of owner are part of it.
  ghost predicate CoreWith(s: State, pending: multiset<Handle>) {
    && s.fib == s.rib
    && RoutesOk(s.rib, s.slots, s.nhops.Keys)
    && NhopsOk(s.hash, s.nhops) && s.owner.Keys == s.nhops.Keys
    && RefsOk(s.slots, s.nhops, pending)
    && Positive(s.neighs)
    && RibCounted(s.rib, s.ribCnt)
  }

  ghost predicate Core(s: State) { CoreWith(s, multiset{}) }

  // Neighbours count the next hops that reference them.
  ghost predicate Balanced(s: State) { NeighsOk(s.nhops, s.owner, s.neighs) }

  // The neighbour counters of the VRFs, and the total, are right.
  ghost predicate Counted(s: State) { NeighsCounted(s.neighs, s.neighCnt, s.neighTotal) }

  ghost predicate Inv(s: State) { Core(s) && Balanced(s) && Counted(s) }

  predicate KnownVrf(s: State, v: int) { v in s.ribCnt && v in s.neighCnt }

  // Whether releasing one reference on h through VRF v leaves the neighbours balanced: it
  // is not the last one, or no neighbour is involved, or it is the neighbour of v.
  predicate OwnRelease(s: State, v: int, h: Handle) {
    h in s.nhops && h in s.owner ==>
      s.nhops[h].refCount > 1 || s.nhops[h].key.gateway == 0 || s.owner[h] == v
  }

  // The neighbour table after one more reference on n (shc_neigh_add; oid is the fresh
  // object id) and after one less (shc_neigh_del). Gateway 0 has no neighbour.
  function NeighsRef(neighs: map<NeighKey, Neigh>, n: NeighKey, oid: int): map<NeighKey, Neigh> {
    if n.gw == 0 then neighs
    else if n in neighs then neighs[n := neighs[n].(refcnt := neighs[n].refcnt + 1)]
    else neighs[n := Neigh(1, oid)]
  }

  function NeighsUnref(neighs: map<NeighKey, Neigh>, n: NeighKey): map<NeighKey, Neigh> {
    if n.gw == 0 || n !in neighs then neighs
    else if neighs[n].refcnt > 1 then neighs[n := neighs[n].(refcnt := neighs[n].refcnt - 1)]
    else neighs - {n}
  }

  // Whether n entered or left the table.
  function Delta(a: map<NeighKey, Neigh>, b: map<NeighKey, Neigh>, n: NeighKey): int {
    (if n in b then 1 else 0) - if n in a then 1 else 0
  }

  // The neighbour table of s becomes neighs, which differs at n only; the counters follow.
  function SetNeighs(s: State, n: NeighKey, neighs: map<NeighKey, Neigh>): State
    requires n.vrf in s.neighCnt
  {
    var d := Delta(s.neighs, neighs, n);
    s.(neighs := neighs, neighCnt := s.neighCnt[n.vrf := s.neighCnt[n.vrf] + d], neighTotal := s.neighTotal + d)
  }

  // nhop_obj_create when it succeeds; addr and oid are what the allocators return.
  function NhopRef(s: State, v: int, key: NhopKey, addr: Handle, oid: int): State
    requires v in s.neighCnt && (key in s.hash ==> s.hash[key] in s.nhops)
  {
    if key in s.hash then
      var h := s.hash[key];
      s.(nhops := s.nhops[h := s.nhops[h].(refCount := s.nhops[h].refCount + 1)])
    else
      var n := NeighKey(v, key.gateway);
      var neighs := NeighsRef(s.neighs, n, oid);
      WithNhop(s, addr, Nhop(key, 1, if n.gw != 0 then neighs[n].oid else 0), n, neighs)
  }

  // Next hop addr comes, and the neighbour table becomes neighs.
  function WithNhop(s: State, addr: Handle, nh: Nhop, n: NeighKey, neighs: map<NeighKey, Neigh>): State
    requires n.vrf in s.neighCnt
  {
    SetNeighs(s, n, neighs).(hash := s.hash[nh.key := addr], nhops := s.nhops[addr := nh],
      owner := s.owner[addr := n.vrf])
  }

  function RefHandle(s: State, key: NhopKey, addr: Handle): Handle {
    if key in s.hash then s.hash[key] else addr
  }

  // nhop_obj_delete.
  function NhopUnref(s: State, v: int, h: Handle): State
    requires h in s.nhops && v in s.neighCnt
  {
    var nh := s.nhops[h];
    if nh.refCount > 1 then s.(nhops := s.nhops[h := nh.(refCount := nh.refCount - 1)])
    else
      var n := NeighKey(v, nh.key.gateway);
      WithoutNhop(s, h, n, NeighsUnref(s.neighs, n))
  }

  // Next hop h goes, and the neighbour table becomes neighs.
  function WithoutNhop(s: State, h: Handle, n: NeighKey, neighs: map<NeighKey, Neigh>): State
    requires h in s.nhops && n.vrf in s.neighCnt
  {
    SetNeighs(s, n, neighs).(hash := s.hash - {s.nhops[h].key}, nhops := s.nhops - {h}, owner := s.owner - {h})
  }

  // The next hops prefix k points at.
  function MpathOf(s: State, k: RibKey): seq<Handle> {
    if k in s.rib && s.rib[k] in s.slots then s.slots[s.rib[k]].mpath else []
  }

  // Point prefix k at the new slot i holding r, and free its previous slot.
  function PutRoute(s: State, k: RibKey, i: int, r: FibRes): State
    requires k.vrf in s.ribCnt
  {
    s.(slots := (if k in s.rib then s.slots - {s.rib[k]} else s.slots)[i := r],
       rib := s.rib[k := i], fib := s.fib[k := i],
       ribCnt := if k in s.rib then s.ribCnt else s.ribCnt[k.vrf := s.ribCnt[k.vrf] + 1])
  }

  function DropRoute(s: State, k: RibKey): State
    requires k in s.rib && k.vrf in s.ribCnt
  {
    s.(slots := s.slots - {s.rib[k]}, rib := s.rib - {k}, fib := s.fib - {k},
       ribCnt := s.ribCnt[k.vrf := s.ribCnt[k.vrf] - 1])
  }

  // Releasing the next hops of a deleted route one after the other.
  function UnrefAll(s: State, v: int, hs: seq<Handle>): (t: State)
    requires v in s.neighCnt
    ensures v in t.neighCnt
  {
    if hs == [] then s
    else
      var t := UnrefAll(s, v, hs[..|hs| - 1]);
      if hs[|hs| - 1] in t.nhops then NhopUnref(t, v, hs[|hs| - 1]) else t
  }
}
