/** What the control plane stands for: a map from prefixes to ordered lists of next hops.
    Each operation on the shared, counted tables does to that map what its name says. */
module RouteViews {
  import opened RouteState
  import opened RouteProofs
  import opened RouteTheorems
  import opened Routes

  datatype Route = Route(ribType: RibType, hops: seq<NhopKey>)
  type View = map<RibKey, Route>

  ghost predicate HopsAre(nhops: Nhops, hs: seq<Handle>, hops: seq<NhopKey>) {
    |hops| == |hs| && forall j :: 0 <= j < |hs| ==> hs[j] in nhops && nhops[hs[j]].key == hops[j]
  }

  ghost predicate Shows(s: State, k: RibKey, r: Route) {
    k in s.rib && s.rib[k] in s.slots && TypeOf(s.slots[s.rib[k]]) == r.ribType &&
    HopsAre(s.nhops, s.slots[s.rib[k]].mpath, r.hops)
  }

  ghost predicate IsView(s: State, view: View) {
    && view.Keys == s.rib.Keys
    && forall k {:trigger Shows(s, k, view[k])} :: k in view ==> Shows(s, k, view[k])
  }

  // A next hop equal to key, as fib_nhop_equal sees it, is on the prefix.
  predicate HopThere(view: View, k: RibKey, key: NhopKey) {
    k in view && exists x :: x in view[k].hops && NhopEqual(x, key)
  }

  // The list operations on the map.
  function AddHop(view: View, k: RibKey, ribType: RibType, key: NhopKey): View {
    if HopThere(view, k, key) then view
    else view[k := Route(ribType, (if k in view then view[k].hops else []) + [key])]
  }

  function WithoutHop(hops: seq<NhopKey>, key: NhopKey): seq<NhopKey> {
    if hops == [] then []
    else
      var r := WithoutHop(hops[..|hops| - 1], key);
      if hops[|hops| - 1] == key then r else r + [hops[|hops| - 1]]
  }

  function DelHop(view: View, k: RibKey, key: NhopKey): View {
    if k !in view || key !in view[k].hops then view
    else if |view[k].hops| == 1 then view - {k}
    else view[k := Route(view[k].ribType, WithoutHop(view[k].hops, key))]
  }

  ghost function DelVrfRoutes(view: View, v: int): View {
    view - (set k | k in view && k.vrf == v)
  }

  // A route stays shown while its slot and the keys of its next hops stay.
  lemma StaysShown(s: State, t: State, k: RibKey, r: Route)
    requires Core(t) && Shrunk(s, t) && SameRoute(s, t, k) && Shows(s, k, r)
    ensures Shows(t, k, r)
  {
    assert RouteOk(t.rib, t.slots, t.nhops.Keys, k);
  }

  lemma HopsSnoc(nhops: Nhops, hs: seq<Handle>, hops: seq<NhopKey>, nhops': Nhops, h: Handle)
    requires HopsAre(nhops, hs, hops) && h in nhops'
    requires forall x :: x in nhops ==> x in nhops' && nhops'[x].key == nhops[x].key
    ensures HopsAre(nhops', hs, hops) && HopsAre(nhops', hs + [h], hops + [nhops'[h].key])
  {
  }

  // Whether an equal next hop is there can be read off the view.
  lemma EqualIsThere(s: State, view: View, k: RibKey, key: NhopKey)
    requires IsView(s, view)
    ensures HasEqual(s, k, key) <==> HopThere(view, k, key)
    ensures !HasEqual(s, k, key) && k !in view ==> MpathOf(s, k) == []
  {
    if k in view {
      assert Shows(s, k, view[k]);
      var hs, hops := MpathOf(s, k), view[k].hops;
      assert forall h :: h in hs ==> exists j :: 0 <= j < |hs| && hs[j] == h && s.nhops[h].key == hops[j];
      forall j | 0 <= j < |hs|
        ensures hs[j] in hs && hs[j] in s.nhops && s.nhops[hs[j]].key == hops[j] && hops[j] in hops
      {
      }
      if HopThere(view, k, key) {
        var x :| x in hops && NhopEqual(x, key);
        var j :| 0 <= j < |hops| && hops[j] == x;
        assert hs[j] in hs;
      }
    }
  }

  lemma RefKeepsKeys(s: State, v: int, key: NhopKey, addr: Handle, oid: int)
    requires Core(s) && v in s.neighCnt && addr !in s.nhops && (key in s.hash ==> s.hash[key] in s.nhops)
    ensures var t, h := NhopRef(s, v, key, addr, oid), RefHandle(s, key, addr);
            && (forall x :: x in s.nhops ==> x in t.nhops && t.nhops[x].key == s.nhops[x].key)
            && h in t.nhops && t.nhops[h].key == key
  {
    assert key in s.hash ==> HashOk(s.hash, s.nhops, key);
  }

  lemma OthersShownGrown(s: State, u: State, view: View, view': View, k: RibKey)
    requires IsView(s, view) && view'.Keys == u.rib.Keys
    requires forall x :: x in s.nhops ==> x in u.nhops && u.nhops[x].key == s.nhops[x].key
    requires forall l {:trigger SameRoute(s, u, l)} :: l in s.rib && l != k ==> SameRoute(s, u, l)
    requires forall l :: l in view' && l != k ==> l in view && view'[l] == view[l]
    requires k in view' ==> Shows(u, k, view'[k])
    ensures IsView(u, view')
  {
    forall l | l in view'
      ensures Shows(u, l, view'[l])
    {
      assert l != k ==> Shows(s, l, view[l]) && SameRoute(s, u, l);
    }
  }

  lemma ExtendedShows(s: State, t: State, view: View, k: RibKey, ribType: RibType, h: Handle, i: int, r: FibRes)
    requires IsView(s, view) && t.rib == s.rib && t.slots == s.slots && k.vrf in t.ribCnt && h in t.nhops
    requires forall x :: x in s.nhops ==> x in t.nhops && t.nhops[x].key == s.nhops[x].key
    requires r.mpath == MpathOf(s, k) + [h] && TypeOf(r) == ribType
    ensures Shows(PutRoute(t, k, i, r), k, Route(ribType, (if k in view then view[k].hops else []) + [t.nhops[h].key]))
  {
    var hops := if k in view then view[k].hops else [];
    assert k in view ==> Shows(s, k, view[k]);
    HopsSnoc(s.nhops, MpathOf(s, k), hops, t.nhops, h);
  }

  lemma ExtendedView(s: State, t: State, view: View, k: RibKey, ribType: RibType, h: Handle, i: int, r: FibRes)
    requires RoutesOk(s.rib, s.slots, s.nhops.Keys) && i !in s.slots
    requires IsView(s, view) && t.rib == s.rib && t.slots == s.slots && k.vrf in t.ribCnt && h in t.nhops
    requires forall x :: x in s.nhops ==> x in t.nhops && t.nhops[x].key == s.nhops[x].key
    requires r.mpath == MpathOf(s, k) + [h] && TypeOf(r) == ribType && !HopThere(view, k, t.nhops[h].key)
    ensures IsView(PutRoute(t, k, i, r), AddHop(view, k, ribType, t.nhops[h].key))
  {
    PutOthers(s, t, k, i, r);
    ExtendedShows(s, t, view, k, ribType, h, i, r);
    OthersShownGrown(s, PutRoute(t, k, i, r), view, AddHop(view, k, ribType, t.nhops[h].key), k);
  }

  // shc_route_nhop_insert appends the next hop to the prefix.
  lemma InsertShows(s: State, view: View, k: RibKey, key: NhopKey, ribType: RibType, addr: Handle, oid: int, i: int)
    requires Core(s) && IsView(s, view) && KnownVrf(s, k.vrf) && addr !in s.nhops && i !in s.slots
    requires key in s.hash ==> s.hash[key] in s.nhops
    requires !HasEqual(s, k, key)
    ensures IsView(Inserted(s, k, key, ribType, addr, oid, i), AddHop(view, k, ribType, key))
  {
    var t, h := NhopRef(s, k.vrf, key, addr, oid), RefHandle(s, key, addr);
    var r := RouteEntry(s, k, ribType, MpathOf(s, k) + [h]);
    EqualIsThere(s, view, k, key);
    RefKeepsKeys(s, k.vrf, key, addr, oid);
    RefKeepsRoutes(s, k.vrf, key, addr, oid);
    ExtendedView(s, t, view, k, ribType, h, i, r);
  }

  lemma {:induction false} HopsWithout(nhops: Nhops, hs: seq<Handle>, hops: seq<NhopKey>, h: Handle)
    requires HopsAre(nhops, hs, hops) && h in nhops
    requires forall x :: x in nhops && nhops[x].key == nhops[h].key ==> x == h
    ensures HopsAre(nhops, Without(hs, h), WithoutHop(hops, nhops[h].key))
  {
    if hs == [] {
    } else {
      HopsWithout(nhops, hs[..|hs| - 1], hops[..|hops| - 1], h);
    }
  }

  lemma KeysDiffer(s: State, h: Handle)
    requires Core(s) && h in s.nhops
    ensures forall x :: x in s.nhops && s.nhops[x].key == s.nhops[h].key ==> x == h
  {
    assert forall x :: x in s.nhops ==> NhopOk(s.hash, s.nhops, x);
  }

  // shc_route_nhop_delete takes the next hop off the prefix, and the prefix with the last.
  lemma RemoveShows(s: State, view: View, k: RibKey, key: NhopKey, ribType: RibType, i: int)
    requires Core(s) && IsView(s, view) && KnownVrf(s, k.vrf) && k in s.rib && HasNhop(s, k, key)
    requires s.hash[key] in s.nhops && !WrongType(s, k, ribType)
    requires |MpathOf(s, k)| > 1 ==> i !in s.slots && i != BLACKHOLE
    ensures key in view[k].hops && IsView(Removed(s, k, ribType, s.hash[key], i), DelHop(view, k, key))
  {
    var h := s.hash[key];
    assert RouteOk(s.rib, s.slots, s.nhops.Keys, k) && HashOk(s.hash, s.nhops, key);
    RemoveKeeps(s, k, ribType, h, i);
    DeletesShrink(s, k, ribType, h, i);
    RemoveRoutes(s, k, ribType, h, i);
    KeysDiffer(s, h);
    HopIsThere(s, view, k, h);
    RemovedShows(s, Removed(s, k, ribType, h, i), view, k, ribType, h, i);
  }

  lemma HopIsThere(s: State, view: View, k: RibKey, h: Handle)
    requires IsView(s, view) && k in s.rib && h in MpathOf(s, k) && h in s.nhops
    ensures k in view && |view[k].hops| == |MpathOf(s, k)| && s.nhops[h].key in view[k].hops
    ensures TypeOf(s.slots[s.rib[k]]) == view[k].ribType && HopsAre(s.nhops, MpathOf(s, k), view[k].hops)
  {
    assert Shows(s, k, view[k]);
    var j :| 0 <= j < |MpathOf(s, k)| && MpathOf(s, k)[j] == h;
    assert view[k].hops[j] == s.nhops[h].key;
  }

  lemma RemovedShows(s: State, u: State, view: View, k: RibKey, ribType: RibType, h: Handle, i: int)
    requires IsView(s, view) && Core(u) && Shrunk(s, u) && k in s.rib && h in MpathOf(s, k) && h in s.nhops
    requires forall x :: x in s.nhops && s.nhops[x].key == s.nhops[h].key ==> x == h
    requires !WrongType(s, k, ribType)
    requires u.rib.Keys == if |MpathOf(s, k)| == 1 then s.rib.Keys - {k} else s.rib.Keys + {k}
    requires forall l {:trigger SameRoute(s, u, l)} :: l in s.rib && l != k ==> SameRoute(s, u, l)
    requires |MpathOf(s, k)| > 1 ==>
               u.rib[k] == i && i in u.slots && u.slots[i] == RouteEntry(s, k, ribType, Without(MpathOf(s, k), h))
    ensures IsView(u, DelHop(view, k, s.nhops[h].key))
  {
    HopIsThere(s, view, k, h);
    var hops := view[k].hops;
    HopsWithout(s.nhops, MpathOf(s, k), hops, h);
    if |hops| > 1 {
      RemainingHops(s, u, k, Without(MpathOf(s, k), h), WithoutHop(hops, s.nhops[h].key));
    }
    OthersShown(s, u, view, DelHop(view, k, s.nhops[h].key), k);
  }

  lemma RemainingHops(s: State, u: State, k: RibKey, hs: seq<Handle>, hops: seq<NhopKey>)
    requires Core(u) && Shrunk(s, u) && k in u.rib && MpathOf(u, k) == hs && HopsAre(s.nhops, hs, hops)
    ensures HopsAre(u.nhops, hs, hops)
  {
    assert RouteOk(u.rib, u.slots, u.nhops.Keys, k);
  }

  lemma OthersShown(s: State, u: State, view: View, view': View, k: RibKey)
    requires IsView(s, view) && Core(u) && Shrunk(s, u) && view'.Keys == u.rib.Keys
    requires forall l {:trigger SameRoute(s, u, l)} :: l in s.rib && l != k ==> SameRoute(s, u, l)
    requires forall l :: l in view' && l != k ==> l in view && view'[l] == view[l]
    requires k in view' ==> Shows(u, k, view'[k])
    ensures IsView(u, view')
  {
    forall l | l in view'
      ensures Shows(u, l, view'[l])
    {
      if l != k {
        assert Shows(s, l, view[l]) && SameRoute(s, u, l);
        StaysShown(s, u, l, view[l]);
      }
    }
  }

  // shc_route_delete takes the prefix away.
  lemma DeleteShows(s: State, view: View, k: RibKey)
    requires Core(s) && IsView(s, view) && KnownVrf(s, k.vrf) && k in s.rib
    ensures IsView(Deleted(s, k), view - {k})
  {
    DeleteKeeps(s, k);
    OthersStay(s, k);
    DeletesShrink(s, k, RtDefault, 0, 0);
    OthersShown(s, Deleted(s, k), view, view - {k}, k);
  }

  // The cleanup of a VRF takes its prefixes away.
  lemma CleanupShows(s: State, t: State, view: View, v: int)
    requires Core(t) && IsView(s, view) && Emptied(s, t, v)
    ensures IsView(t, DelVrfRoutes(view, v))
  {
    var view' := DelVrfRoutes(view, v);
    forall l | l in view'
      ensures Shows(t, l, view'[l])
    {
      assert Shows(s, l, view[l]) && SameRoute(s, t, l);
      StaysShown(s, t, l, view[l]);
    }
  }
}
