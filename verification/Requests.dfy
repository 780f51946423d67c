/** Requests served against the VRF table and the route control plane: every run follows the
    step relation, whatever the libraries answer, and its tables stand for its states. */
module Requests {
  import opened Sets
  import opened RouteState
  import opened RouteNeighs
  import opened RouteProofs
  import opened RouteBalance
  import opened RouteTheorems
  import opened Routes
  import opened RouteViews
  import opened Vrfs
  import opened Runs

  // The tables stand for a.
  ghost predicate Shown(t: VrfTable, a: Abstract)
    reads t, t.vrfs, t.dp
  {
    t.Valid() && t.vrfs[..] == a.vrfs && Stands(t.dp.S(), a, t.dp.capacity)
  }

  ghost predicate Stands(s: State, a: Abstract, cap: nat) {
    Core(s) && InSlots(s, cap) && IsView(s, a.view) && s.neighs == a.neighs
  }

  ghost predicate InSlots(s: State, cap: nat) { forall i :: i in s.slots ==> 0 <= i < cap }

  // Every next hop, on a route or in the tables, belongs to the valid VRF it is meant for.
  ghost predicate Homed(s: State, a: Abstract, home: NhopKey -> string) {
    && (forall h {:trigger s.owner[h]} :: h in s.nhops && h in s.owner ==>
          IsNamed(a.vrfs, s.owner[h] - 1, home(s.nhops[h].key)))
    && (forall k, x :: k in a.view && x in a.view[k].hops ==> IsNamed(a.vrfs, k.vrf - 1, home(x)))
  }

  ghost predicate Private(s: State, a: Abstract, home: NhopKey -> string) {
    Balanced(s) && Counted(s) && Homed(s, a, home)
  }

  // Then no next hop is shared, so no release goes astray.
  lemma HomedIsSeparated(s: State, a: Abstract, home: NhopKey -> string)
    requires Core(s) && IsView(s, a.view) && NamesDiffer(a.vrfs) && Homed(s, a, home)
    ensures Separated(s)
    ensures forall k, h :: k in s.rib && h in MpathOf(s, k) ==> OwnRelease(s, k.vrf, h)
    ensures forall v :: ReleasesOwn(s, v)
  {
    forall k, h | k in s.rib && h in MpathOf(s, k)
      ensures h in s.owner && s.owner[h] == k.vrf
    {
      SlotHopsLive(s, k);
      HopIsThere(s, a.view, k, h);
    }
    forall v, h | h in s.nhops && h in s.owner && s.owner[h] != v
      ensures UsedElsewhere(s, v, h)
    {
      var k := NhopIsUsed(s, h);
    }
  }

  // What the checks of the route operations find can be read off the view.
  lemma ViewChecks(s: State, view: View, k: RibKey, ribType: RibType)
    requires Core(s) && IsView(s, view)
    ensures k in view <==> k in s.rib
    ensures WrongType(s, k, ribType) <==> k in view && view[k].ribType != ribType
    ensures !WrongType(s, k, ribType) ==> (IsFull(s, k) <==> k in view && |view[k].hops| >= MaxHops(ribType))
    ensures k in view ==> |view[k].hops| == |MpathOf(s, k)|
  {
    if k in view {
      assert Shows(s, k, view[k]) && RouteOk(s.rib, s.slots, s.nhops.Keys, k);
    }
  }

  lemma {:induction false} CountUpTo(a: set<int>, n: nat)
    requires forall i :: 0 <= i < n ==> i in a
    ensures |a| >= n
  {
    if n == 0 {
    } else {
      CountUpTo(a - {n - 1}, n - 1);
    }
  }

  // A slot is free if and only if the routes and the blackhole do not fill the table.
  lemma RoomIsSeen(s: State, a: Abstract, cap: nat)
    requires Stands(s, a, cap)
    ensures HasRoom(s.slots, cap) <==> |a.view| + 1 < cap
  {
    UsedSlots(s);
    assert |a.view| == |a.view.Keys| && |s.rib| == |s.rib.Keys| && |s.slots| == |s.slots.Keys|;
    if i :| 0 <= i < cap && i !in s.slots {
      BoundedSet(s.slots.Keys + {i}, cap);
    }
    if forall i :: 0 <= i < cap ==> i in s.slots {
      CountUpTo(s.slots.Keys, cap);
    }
  }

  // The next hops in the tables are those on some route.
  lemma ViewKeys(s: State, view: View)
    requires Core(s) && IsView(s, view)
    ensures s.hash.Keys == Keys(view)
  {
    forall key | key in s.hash
      ensures key in Keys(view)
    {
      assert HashOk(s.hash, s.nhops, key);
      var k := NhopIsUsed(s, s.hash[key]);
      HopIsThere(s, view, k, s.hash[key]);
    }
    forall key | key in Keys(view)
      ensures key in s.hash
    {
      var k :| k in view && key in view[k].hops;
      assert Shows(s, k, view[k]);
      var j :| 0 <= j < |view[k].hops| && view[k].hops[j] == key;
      assert NhopOk(s.hash, s.nhops, MpathOf(s, k)[j]);
    }
  }

  // Whether a next hop of this key is on the prefix can be read off the view.
  lemma HopIsSeen(s: State, view: View, k: RibKey, key: NhopKey)
    requires Core(s) && IsView(s, view)
    ensures HasNhop(s, k, key) <==> k in view && key in view[k].hops
  {
    if HasNhop(s, k, key) {
      assert HashOk(s.hash, s.nhops, key);
      assert k in s.rib;
      HopIsThere(s, view, k, s.hash[key]);
    } else {
      AbsentHop(s, view, k, key);
    }
  }

  // So can the codes that the route operations return.
  lemma AddCodeIs(s: State, a: Abstract, cap: nat, k: RibKey, key: NhopKey, ribType: RibType, env: Env)
    requires Stands(s, a, cap)
    ensures InsertCode(s, k, key, ribType, env, cap) == AddCode(cap, a, k, key, ribType, env)
    ensures HasEqual(s, k, key) <==> HopThere(a.view, k, key)
  {
    ViewChecks(s, a.view, k, ribType);
    EqualIsThere(s, a.view, k, key);
    ViewKeys(s, a.view);
    RoomIsSeen(s, a, cap);
  }

  lemma DelCodeIs(s: State, a: Abstract, cap: nat, k: RibKey, key: NhopKey, ribType: RibType, env: Env)
    requires Stands(s, a, cap)
    ensures RemoveCode(s, k, key, ribType, env, cap) == DelCode(cap, a, k, key, ribType, env)
  {
    ViewChecks(s, a.view, k, ribType);
    HopIsSeen(s, a.view, k, key);
    RoomIsSeen(s, a, cap);
  }

  lemma RefKeepsVrfs(s: State, v: int, key: NhopKey, addr: Handle, oid: int)
    requires v in s.neighCnt && (key in s.hash ==> s.hash[key] in s.nhops)
    ensures NhopRef(s, v, key, addr, oid).neighCnt.Keys == s.neighCnt.Keys
  {
    if key !in s.hash {
      var n := NeighKey(v, key.gateway);
      SetNeighsKeepsVrfs(s, n, NeighsRef(s.neighs, n, oid));
    }
  }

  lemma PutKeepsVrfs(t: State, k: RibKey, i: int, r: FibRes)
    requires k.vrf in t.ribCnt
    ensures var u := PutRoute(t, k, i, r);
            u.rib.Keys == t.rib.Keys + {k} && u.ribCnt.Keys == t.ribCnt.Keys && u.neighCnt == t.neighCnt
  {
  }

  lemma InsertedIsPlaced(s: State, u: State, k: RibKey, key: NhopKey, ribType: RibType, env: Env, i: int,
                         vrfs: seq<Vrf>)
    requires KnownVrf(s, k.vrf) && (key in s.hash ==> s.hash[key] in s.nhops)
    requires u == Inserted(s, k, key, ribType, env.addr, env.oid, i)
    requires IsValid(vrfs, k.vrf - 1) && Placed(s, vrfs)
    ensures Placed(u, vrfs)
  {
    RefKeepsRoutes(s, k.vrf, key, env.addr, env.oid);
    RefKeepsVrfs(s, k.vrf, key, env.addr, env.oid);
    PutKeepsVrfs(NhopRef(s, k.vrf, key, env.addr, env.oid), k, i,
                 RouteEntry(s, k, ribType, MpathOf(s, k) + [RefHandle(s, key, env.addr)]));
    StaysPlaced(s, u, vrfs);
  }

  lemma InsertedIsHomed(s: State, a: Abstract, k: RibKey, key: NhopKey, ribType: RibType, env: Env, i: int,
                        home: NhopKey -> string)
    requires KnownVrf(s, k.vrf) && (key in s.hash ==> s.hash[key] in s.nhops)
    requires Homed(s, a, home) && IsNamed(a.vrfs, k.vrf - 1, home(key))
    ensures Homed(Inserted(s, k, key, ribType, env.addr, env.oid, i), a.(view := AddHop(a.view, k, ribType, key)), home)
  {
    var t := Inserted(s, k, key, ribType, env.addr, env.oid, i);
    forall h | h in t.nhops && h in t.owner
      ensures (t.nhops[h].key == key && t.owner[h] == k.vrf) ||
              (h in s.nhops && h in s.owner && t.owner[h] == s.owner[h] && t.nhops[h].key == s.nhops[h].key)
    {
      InsertAddsOne(s, k, key, ribType, env.addr, env.oid, i, h);
    }
    GrownIsHomed(s, t, a, k, ribType, key, home);
  }

  lemma GrownIsHomed(s: State, t: State, a: Abstract, k: RibKey, ribType: RibType, key: NhopKey,
                     home: NhopKey -> string)
    requires Homed(s, a, home) && IsNamed(a.vrfs, k.vrf - 1, home(key))
    requires forall h :: h in t.nhops && h in t.owner ==>
               || (t.nhops[h].key == key && t.owner[h] == k.vrf)
               || (h in s.nhops && h in s.owner && t.owner[h] == s.owner[h] && t.nhops[h].key == s.nhops[h].key)
    ensures Homed(t, a.(view := AddHop(a.view, k, ribType, key)), home)
  {
    AddHopAddsOne(a.view, k, ribType, key);
  }

  lemma AddHopAddsOne(view: View, k: RibKey, ribType: RibType, key: NhopKey)
    ensures var view' := AddHop(view, k, ribType, key);
            forall l, x :: l in view' && x in view'[l].hops ==>
              (l in view && x in view[l].hops) || (l == k && x == key)
  {
  }

  lemma AfterInsert(s: State, u: State, a: Abstract, k: RibKey, key: NhopKey, ribType: RibType, env: Env, i: int,
                    home: NhopKey -> string)
    requires Core(s) && IsView(s, a.view) && s.neighs == a.neighs && KnownVrf(s, k.vrf) && env.addr !in s.nhops
    requires i !in s.slots && (key in s.hash ==> s.hash[key] in s.nhops) && !HasEqual(s, k, key)
    requires u == Inserted(s, k, key, ribType, env.addr, env.oid, i)
    ensures var b := Added(a, k, key, ribType, env);
            && IsView(u, b.view) && u.neighs == b.neighs
            && (Private(s, a, home) && IsNamed(a.vrfs, k.vrf - 1, home(key)) ==> Private(u, b, home))
  {
    EqualIsThere(s, a.view, k, key);
    ViewKeys(s, a.view);
    InsertShows(s, a.view, k, key, ribType, env.addr, env.oid, i);
    InsertNeighs(s, k, key, ribType, env.addr, env.oid, i);
    if Private(s, a, home) && IsNamed(a.vrfs, k.vrf - 1, home(key)) {
      InsertedStaysPrivate(s, a, k, key, ribType, env, i, home);
    }
  }

  lemma InsertedStaysPrivate(s: State, a: Abstract, k: RibKey, key: NhopKey, ribType: RibType, env: Env, i: int,
                             home: NhopKey -> string)
    requires KnownVrf(s, k.vrf) && env.addr !in s.nhops && (key in s.hash ==> s.hash[key] in s.nhops)
    requires Private(s, a, home) && IsNamed(a.vrfs, k.vrf - 1, home(key)) && !HopThere(a.view, k, key)
    ensures Private(Inserted(s, k, key, ribType, env.addr, env.oid, i), Added(a, k, key, ribType, env), home)
  {
    InsertedIsHomed(s, a, k, key, ribType, env, i, home);
    InsertBalance(s, k, key, ribType, env.addr, env.oid, i);
  }

  // An address that is not in use.
  method Malloc(nhops: Nhops) returns (a: Handle)
    ensures a !in nhops
  {
    ghost var b := Bounded(nhops.Keys);
    assert b !in nhops.Keys;
    a :| a !in nhops;
  }

  lemma Bounded(hs: set<Handle>) returns (a: Handle)
    ensures forall h :: h in hs ==> h < a
  {
    if hs == {} {
      a := 0;
    } else {
      var h := SomeMember(hs);
      var b := Bounded(hs - {h});
      a := if h < b then b else h + 1;
      assert forall x :: x in hs ==> x == h || x in hs - {h};
    }
  }

  // The keys of a table in some order, as its iterator visits them.
  method Positions(rib: map<RibKey, int>) returns (order: seq<RibKey>)
    ensures forall k :: k in rib ==> k in order
  {
    order := [];
    var rest := rib.Keys;
    while rest != {}
      invariant forall k :: k in rib ==> k in rest || k in order
      decreases |rest|
    {
      var k :| k in rest;
      rest := rest - {k};
      order := order + [k];
    }
  }

  // What shc_route_nhop_insert leaves if it returned ret.
  ghost function AddResult(a: Abstract, k: RibKey, key: NhopKey, ribType: RibType, env: Env, ret: int): Abstract {
    if ret == 0 then Added(a, k, key, ribType, env) else a
  }

  // An insert that repeats no next hop keeps the tables consistent.
  lemma InsertPlaced(s: State, u: State, a: Abstract, k: RibKey, key: NhopKey, ribType: RibType, env: Env, cap: nat,
                     ret: int)
    requires Stands(s, a, cap) && Placed(s, a.vrfs) && IsValid(a.vrfs, k.vrf - 1)
    requires !RepeatsAt(cap, a, k, key, ribType, env)
    requires InsertOutcome(s, u, k, key, ribType, env, cap, ret) && (Core(u) <==> u == s || !HasNhop(s, k, key))
    ensures Core(u) && Placed(u, a.vrfs)
  {
    AddCodeIs(s, a, cap, k, key, ribType, env);
    HopIsSeen(s, a.view, k, key);
    if ret == 0 && !HasEqual(s, k, key) {
      var i :| FirstSlot(s.slots, cap, i) && u == Inserted(s, k, key, ribType, env.addr, env.oid, i);
      InsertedIsPlaced(s, u, k, key, ribType, env, i, a.vrfs);
    }
  }

  // What an insert means for routes, neighbours and owners.
  lemma InsertMeans(s: State, u: State, a: Abstract, k: RibKey, key: NhopKey, ribType: RibType, env: Env, cap: nat,
                    ret: int, home: NhopKey -> string)
    requires Stands(s, a, cap) && env.addr !in s.nhops && InsertOutcome(s, u, k, key, ribType, env, cap, ret)
    requires Core(u) && InSlots(u, cap)
    ensures ret == AddCode(cap, a, k, key, ribType, env)
    ensures var b := AddResult(a, k, key, ribType, env, ret);
            && Stands(u, b, cap)
            && (Private(s, a, home) && IsNamed(a.vrfs, k.vrf - 1, home(key)) ==> Private(u, b, home))
  {
    AddCodeIs(s, a, cap, k, key, ribType, env);
    if ret == 0 && !HasEqual(s, k, key) {
      var i :| FirstSlot(s.slots, cap, i) && u == Inserted(s, k, key, ribType, env.addr, env.oid, i);
      AfterInsert(s, u, a, k, key, ribType, env, i, home);
    }
  }

  method InsertInto(t: VrfTable, k: RibKey, key: NhopKey, ribType: RibType, env: Env, ghost a: Abstract)
    returns (ret: int, ghost e: Env)
    requires Shown(t, a) && IsValid(a.vrfs, k.vrf - 1) && !RepeatsAt(t.dp.capacity, a, k, key, ribType, env)
    modifies t.dp
    ensures t.Valid() && e.addr !in old(t.dp.nhops)
    ensures AddCode(t.dp.capacity, a, k, key, ribType, e) == AddCode(t.dp.capacity, a, k, key, ribType, env)
    ensures Added(a, k, key, ribType, e) == Added(a, k, key, ribType, env)
    ensures InsertOutcome(old(t.dp.S()), t.dp.S(), k, key, ribType, e, t.dp.capacity, ret)
  {
    ghost var s := t.dp.S();
    assert KnownVrf(s, k.vrf);
    var addr := Malloc(t.dp.nhops);
    e := env.(addr := addr);
    AddrIsHidden(t.dp.capacity, a, k, key, ribType, env, addr);
    ret := t.dp.RouteNhopInsert(k, key, ribType, env.(addr := addr));
    InsertPlaced(s, t.dp.S(), a, k, key, ribType, e, t.dp.capacity, ret);
  }

  method ServeAddNhop(t: VrfTable, k: RibKey, key: NhopKey, ribType: RibType, env: Env, ghost a: Abstract,
                      ghost home: NhopKey -> string)
    returns (ret: int, ghost b: Abstract)
    requires Shown(t, a) && IsValid(a.vrfs, k.vrf - 1) && !RepeatsAt(t.dp.capacity, a, k, key, ribType, env)
    modifies t.dp
    ensures ret == AddCode(t.dp.capacity, a, k, key, ribType, env) && b == AddResult(a, k, key, ribType, env, ret)
    ensures Shown(t, b)
    ensures old(Private(t.dp.S(), a, home)) && IsNamed(a.vrfs, k.vrf - 1, home(key)) ==> Private(t.dp.S(), b, home)
  {
    ghost var s := t.dp.S();
    ghost var e;
    ret, e := InsertInto(t, k, key, ribType, env, a);
    b := AddResult(a, k, key, ribType, env, ret);
    InsertMeans(s, t.dp.S(), a, k, key, ribType, e, t.dp.capacity, ret, home);
  }

  // shc_route_nhop_delete
  ghost function DelResult(a: Abstract, k: RibKey, key: NhopKey, ret: int): Abstract {
    if ret == 0 then Withdrawn(a, k.vrf, DelHop(a.view, k, key)) else a
  }

  lemma RemovedIsPlaced(s: State, u: State, k: RibKey, ribType: RibType, h: Handle, i: int, vrfs: seq<Vrf>)
    requires KnownVrf(s, k.vrf) && k in s.rib && h in s.nhops && Placed(s, vrfs)
    requires u == Removed(s, k, ribType, h, i)
    ensures Placed(u, vrfs)
  {
    var r := RouteEntry(s, k, ribType, Without(MpathOf(s, k), h));
    var t := if |MpathOf(s, k)| == 1 then DropRoute(s, k) else PutRoute(s, k, i, r);
    PutKeepsVrfs(s, k, i, r);
    assert s.ribCnt.Keys + {k.vrf} == s.ribCnt.Keys;
    UnrefFrame(t, k.vrf, h);
    StaysPlaced(s, u, vrfs);
  }

  lemma RemovePlaced(s: State, u: State, vrfs: seq<Vrf>, k: RibKey, key: NhopKey, ribType: RibType, env: Env, cap: nat,
                     ret: int)
    requires Placed(s, vrfs) && RemoveOutcome(s, u, k, key, ribType, env, cap, ret)
    ensures Placed(u, vrfs)
  {
    if !WrongType(s, k, ribType) && HasNhop(s, k, key) && ret == 0 {
      var i :| (|MpathOf(s, k)| > 1 ==> FirstSlot(s.slots, cap, i)) && u == Removed(s, k, ribType, s.hash[key], i);
      RemovedIsPlaced(s, u, k, ribType, s.hash[key], i, vrfs);
    }
  }

  // A next hop that is not on the prefix is not in its view either.
  lemma AbsentHop(s: State, view: View, k: RibKey, key: NhopKey)
    requires Core(s) && IsView(s, view) && !HasNhop(s, k, key)
    ensures k in view ==> key !in view[k].hops
  {
    if k in view {
      assert Shows(s, k, view[k]);
      forall j | 0 <= j < |view[k].hops|
        ensures view[k].hops[j] != key
      {
        assert NhopOk(s.hash, s.nhops, MpathOf(s, k)[j]) && MpathOf(s, k)[j] in MpathOf(s, k);
      }
    }
  }

  // A release follows the view.
  lemma WithdrawnIs(s: State, u: State, a: Abstract, v: int, view: View)
    requires Core(s) && Core(u) && IsView(s, a.view) && IsView(u, view) && s.neighs == a.neighs && Releases(s, u, v)
    ensures u.neighs == Withdrawn(a, v, view).neighs
  {
    ViewKeys(s, a.view);
    ViewKeys(u, view);
    ReleasesIs(s, u, v);
  }

  lemma NothingWithdrawn(s: State, a: Abstract, v: int)
    requires Core(s) && s.neighs == a.neighs
    ensures Withdrawn(a, v, a.view) == a
  {
    LessNothing(a.neighs, v);
    assert Keys(a.view) - Keys(a.view) == {};
  }

  // Fewer next hops and routes stay where they belong.
  lemma ShrunkStaysHomed(s: State, u: State, a: Abstract, view: View, home: NhopKey -> string)
    requires Homed(s, a, home) && Shrunk(s, u)
    requires forall k, x :: k in view && x in view[k].hops ==> k in a.view && x in a.view[k].hops
    ensures Homed(u, a.(view := view), home)
  {
  }

  lemma RemoveMeans(s: State, u: State, a: Abstract, k: RibKey, key: NhopKey, ribType: RibType, env: Env, cap: nat,
                    ret: int, home: NhopKey -> string)
    requires Stands(s, a, cap) && Core(u) && InSlots(u, cap) && NamesDiffer(a.vrfs)
    requires RemoveOutcome(s, u, k, key, ribType, env, cap, ret)
    ensures ret == DelCode(cap, a, k, key, ribType, env)
    ensures var b := DelResult(a, k, key, ret); Stands(u, b, cap) && (Private(s, a, home) ==> Private(u, b, home))
  {
    DelCodeIs(s, a, cap, k, key, ribType, env);
    HopIsSeen(s, a.view, k, key);
    if ret != 0 || !HasNhop(s, k, key) {
      NothingWithdrawn(s, a, k.vrf);
    } else {
      var i :| (|MpathOf(s, k)| > 1 ==> FirstSlot(s.slots, cap, i)) && u == Removed(s, k, ribType, s.hash[key], i);
      AfterRemove(s, u, a, k, key, ribType, cap, i, home);
    }
  }

  lemma AfterRemove(s: State, u: State, a: Abstract, k: RibKey, key: NhopKey, ribType: RibType, cap: nat, i: int,
                    home: NhopKey -> string)
    requires Stands(s, a, cap) && Core(u) && NamesDiffer(a.vrfs) && KnownVrf(s, k.vrf) && k in s.rib
    requires HasNhop(s, k, key) && s.hash[key] in s.nhops && !WrongType(s, k, ribType)
    requires |MpathOf(s, k)| > 1 ==> FirstSlot(s.slots, cap, i)
    requires u == Removed(s, k, ribType, s.hash[key], i)
    ensures var b := Withdrawn(a, k.vrf, DelHop(a.view, k, key));
            IsView(u, b.view) && u.neighs == b.neighs && (Private(s, a, home) ==> Private(u, b, home))
  {
    RemoveShows(s, a.view, k, key, ribType, i);
    RemoveReleases(s, k, ribType, s.hash[key], i);
    WithdrawnIs(s, u, a, k.vrf, DelHop(a.view, k, key));
    if Private(s, a, home) {
      HomedIsSeparated(s, a, home);
      RemoveBalance(s, k, ribType, s.hash[key], i);
      DeletesShrink(s, k, ribType, s.hash[key], i);
      DelHopIsSmaller(a.view, k, key);
      ShrunkStaysHomed(s, u, a, DelHop(a.view, k, key), home);
    }
  }

  lemma DelHopIsSmaller(view: View, k: RibKey, key: NhopKey)
    ensures forall l, x :: l in DelHop(view, k, key) && x in DelHop(view, k, key)[l].hops ==>
              l in view && x in view[l].hops
  {
    if k in view {
      WithoutHopIs(view[k].hops, key);
    }
  }

  method RemoveFrom(t: VrfTable, k: RibKey, key: NhopKey, ribType: RibType, env: Env) returns (ret: int)
    requires t.Valid() && IsValid(t.vrfs[..], k.vrf - 1)
    modifies t.dp
    ensures t.Valid() && RemoveOutcome(old(t.dp.S()), t.dp.S(), k, key, ribType, env, t.dp.capacity, ret)
  {
    ghost var s := t.dp.S();
    assert KnownVrf(s, k.vrf);
    ret := t.dp.RouteNhopDelete(k, key, ribType, env);
    RemovePlaced(s, t.dp.S(), t.vrfs[..], k, key, ribType, env, t.dp.capacity, ret);
  }

  method ServeDelNhop(t: VrfTable, k: RibKey, key: NhopKey, ribType: RibType, env: Env, ghost a: Abstract,
                      ghost home: NhopKey -> string)
    returns (ret: int, ghost b: Abstract)
    requires Shown(t, a) && IsValid(a.vrfs, k.vrf - 1)
    modifies t.dp
    ensures ret == DelCode(t.dp.capacity, a, k, key, ribType, env) && b == DelResult(a, k, key, ret)
    ensures Shown(t, b)
    ensures old(Private(t.dp.S(), a, home)) ==> Private(t.dp.S(), b, home)
  {
    ghost var s := t.dp.S();
    ret := RemoveFrom(t, k, key, ribType, env);
    b := DelResult(a, k, key, ret);
    RemoveMeans(s, t.dp.S(), a, k, key, ribType, env, t.dp.capacity, ret, home);
  }

  // shc_route_delete
  lemma DeleteMeans(s: State, u: State, a: Abstract, k: RibKey, home: NhopKey -> string)
    requires Core(s) && IsView(s, a.view) && s.neighs == a.neighs && NamesDiffer(a.vrfs) && KnownVrf(s, k.vrf)
    requires u == if k in s.rib then Deleted(s, k) else s
    ensures var b := Withdrawn(a, k.vrf, a.view - {k});
            IsView(u, b.view) && u.neighs == b.neighs && (Private(s, a, home) ==> Private(u, b, home))
  {
    if k in s.rib {
      DeleteShows(s, a.view, k);
      DeleteKeeps(s, k);
      DeleteReleases(s, k);
      WithdrawnIs(s, u, a, k.vrf, a.view - {k});
      if Private(s, a, home) {
        DeletedStaysPrivate(s, a, k, home);
      }
    } else {
      assert a.view - {k} == a.view;
      NothingWithdrawn(s, a, k.vrf);
    }
  }

  lemma DeletedStaysPrivate(s: State, a: Abstract, k: RibKey, home: NhopKey -> string)
    requires Core(s) && IsView(s, a.view) && NamesDiffer(a.vrfs) && KnownVrf(s, k.vrf) && k in s.rib
    requires Private(s, a, home)
    ensures Private(Deleted(s, k), Withdrawn(a, k.vrf, a.view - {k}), home)
  {
    HomedIsSeparated(s, a, home);
    DeleteBalance(s, k);
    DeletesShrink(s, k, RtDefault, 0, 0);
    ShrunkStaysHomed(s, Deleted(s, k), a, a.view - {k}, home);
  }

  method DeleteFrom(t: VrfTable, k: RibKey) returns (ret: int)
    requires t.Valid() && IsValid(t.vrfs[..], k.vrf - 1)
    modifies t.dp
    ensures t.Valid() && ret == if k in old(t.dp.rib) then 0 else SHC_ROUTE_PREFIX_NOT_FOUND
    ensures KnownVrf(old(t.dp.S()), k.vrf)
    ensures t.dp.S() == if k in old(t.dp.rib) then Deleted(old(t.dp.S()), k) else old(t.dp.S())
  {
    ghost var s := t.dp.S();
    assert KnownVrf(s, k.vrf);
    ret := t.dp.RouteDelete(k);
    if k in s.rib {
      DeleteKeeps(s, k);
      StaysPlaced(s, t.dp.S(), t.vrfs[..]);
    }
  }

  method ServeDelRoute(t: VrfTable, k: RibKey, ghost a: Abstract, ghost home: NhopKey -> string)
    returns (ret: int, ghost b: Abstract)
    requires Shown(t, a) && IsValid(a.vrfs, k.vrf - 1)
    modifies t.dp
    ensures ret == (if k in a.view then 0 else SHC_ROUTE_PREFIX_NOT_FOUND) && b == Withdrawn(a, k.vrf, a.view - {k})
    ensures Shown(t, b)
    ensures old(Private(t.dp.S(), a, home)) ==> Private(t.dp.S(), b, home)
  {
    ghost var s := t.dp.S();
    ret := DeleteFrom(t, k);
    b := Withdrawn(a, k.vrf, a.view - {k});
    DeleteMeans(s, t.dp.S(), a, k, home);
  }

  // shc_vrf_del
  lemma CleanupMeans(s: State, u: State, a: Abstract, i: int, vrfs: seq<Vrf>, home: NhopKey -> string)
    requires Core(s) && Core(u) && IsView(s, a.view) && s.neighs == a.neighs && NamesDiffer(a.vrfs)
    requires IsValid(a.vrfs, i) && vrfs == a.vrfs[i := Vrf("", false)]
    requires Emptied(s, u, i + 1) && Conserved(s, u, ReleasesOwn(s, i + 1))
    ensures var b := VrfWithdrawn(a, i).(vrfs := vrfs);
            IsView(u, b.view) && u.neighs == b.neighs && (Private(s, a, home) ==> Private(u, b, home))
  {
    CleanupShows(s, u, a.view, i + 1);
    WithdrawnIs(s, u, a, i + 1, DelVrfRoutes(a.view, i + 1));
    if Private(s, a, home) {
      CleanedStaysPrivate(s, u, a, i, vrfs, home);
    }
  }

  lemma CleanedStaysPrivate(s: State, u: State, a: Abstract, i: int, vrfs: seq<Vrf>, home: NhopKey -> string)
    requires Core(s) && Core(u) && IsView(s, a.view) && NamesDiffer(a.vrfs)
    requires IsValid(a.vrfs, i) && vrfs == a.vrfs[i := Vrf("", false)]
    requires Emptied(s, u, i + 1) && Conserved(s, u, ReleasesOwn(s, i + 1)) && Private(s, a, home)
    ensures Private(u, VrfWithdrawn(a, i).(vrfs := vrfs), home)
  {
    HomedIsSeparated(s, a, home);
    RestIsHomed(s, u, a, i, vrfs, DelVrfRoutes(a.view, i + 1), home);
  }

  lemma RestIsHomed(s: State, u: State, a: Abstract, i: int, vrfs: seq<Vrf>, view: View, home: NhopKey -> string)
    requires Core(u) && IsValid(a.vrfs, i) && vrfs == a.vrfs[i := Vrf("", false)] && Emptied(s, u, i + 1)
    requires Homed(s, a, home) && Separated(s)
    requires forall k :: k in view ==> k in a.view && view[k] == a.view[k] && k.vrf != i + 1
    ensures Homed(u, a.(vrfs := vrfs, view := view), home)
  {
    assert forall j, x :: j != i && IsNamed(a.vrfs, j, x) ==> IsNamed(vrfs, j, x);
    forall h | h in u.nhops && h in u.owner
      ensures u.owner[h] != i + 1
    {
      var k := NhopIsUsed(u, h);
      assert SameRoute(s, u, k);
    }
  }

  method ServeDelVrf(t: VrfTable, name: string, ghost a: Abstract, ghost home: NhopKey -> string)
    returns (ret: int, ghost b: Abstract)
    requires Shown(t, a)
    modifies t`vrfN, t.vrfs, t.dp
    ensures Shown(t, b) && Step(t.dp.capacity, a, DelVrf(name), ret, b)
    ensures old(Private(t.dp.S(), a, home)) ==> Private(t.dp.S(), b, home)
  {
    ghost var s := t.dp.S();
    var order := Positions(t.dp.rib);
    ghost var i;
    ret, i := t.Del(name, order);
    b := VrfWithdrawn(a, i).(vrfs := t.vrfs[..]);
    if i != -1 {
      CleanupEmpties(s, i + 1, order);
      CleanupMeans(s, t.dp.S(), a, i, t.vrfs[..], home);
    }
  }

  // shc_vrf_add
  lemma EnterMeans(s: State, u: State, a: Abstract, i: int, name: string, home: NhopKey -> string)
    requires Core(s) && IsView(s, a.view) && NamesDiffer(a.vrfs) && Placed(s, a.vrfs) && FirstFree(a.vrfs, i)
    requires KnownVrf(s, i + 1) && u == s.(neighCnt := s.neighCnt[i + 1 := 0])
    requires Counted(s) ==> (Counted(u) <==> s.neighCnt[i + 1] == 0)
    ensures IsView(u, a.view)
    ensures Private(s, a, home) ==> Private(u, a.(vrfs := a.vrfs[i := Vrf(name, true)]), home)
  {
    forall k | k in a.view
      ensures Shows(u, k, a.view[k])
    {
      assert Shows(s, k, a.view[k]);
    }
    if Private(s, a, home) {
      HomedIsSeparated(s, a, home);
      QuietVrfHoldsNothing(s, i + 1);
      EnteredIsHomed(s, u, a, i, name, home);
    }
  }

  lemma EnteredIsHomed(s: State, u: State, a: Abstract, i: int, name: string, home: NhopKey -> string)
    requires Homed(s, a, home) && FirstFree(a.vrfs, i) && u.nhops == s.nhops && u.owner == s.owner
    ensures Homed(u, a.(vrfs := a.vrfs[i := Vrf(name, true)]), home)
  {
    assert forall j, x :: IsNamed(a.vrfs, j, x) ==> IsNamed(a.vrfs[i := Vrf(name, true)], j, x);
  }

  method ServeAddVrf(t: VrfTable, name: string, ghost a: Abstract, ghost home: NhopKey -> string)
    returns (ret: int, ghost b: Abstract)
    requires Shown(t, a) && |name| < SHC_VRF_NAME_LEN
    modifies t`vrfN, t.vrfs, t.dp
    ensures Shown(t, b) && Step(t.dp.capacity, a, AddVrf(name), ret, b)
    ensures old(Private(t.dp.S(), a, home)) ==> Private(t.dp.S(), b, home)
  {
    ghost var s := t.dp.S();
    ghost var i;
    ret, i := t.Add(name);
    b := a.(vrfs := t.vrfs[..]);
    if i != -1 {
      EnterMeans(s, t.dp.S(), a, i, name, home);
    }
  }

  // The requests about routes look the VRF up by its name.
  method ServeRoute(t: VrfTable, r: Request, ghost a: Abstract, ghost home: NhopKey -> string)
    returns (ret: int, ghost b: Abstract)
    requires Shown(t, a) && !r.AddVrf? && !r.DelVrf? && !Repeats(t.dp.capacity, a, r)
    modifies t.dp
    ensures Shown(t, b) && Step(t.dp.capacity, a, r, ret, b)
    ensures old(Private(t.dp.S(), a, home)) && ForHome(r, home) ==> Private(t.dp.S(), b, home)
  {
    var id := t.IdLookup(r.name);
    if id == SHC_VRF_NOT_EXIST {
      return SHC_VRF_NOT_EXIST, a;
    }
    assert IsNamed(a.vrfs, id - 1, r.name);
    ret, b := ServeAt(t, r, id, a, home);
    assert RouteStep(t.dp.capacity, a, r, id - 1 + 1, ret, b);
  }

  method ServeAt(t: VrfTable, r: Request, id: int, ghost a: Abstract, ghost home: NhopKey -> string)
    returns (ret: int, ghost b: Abstract)
    requires Shown(t, a) && !r.AddVrf? && !r.DelVrf? && IsNamed(a.vrfs, id - 1, r.name)
    requires r.AddNhop? ==>
               !RepeatsAt(t.dp.capacity, a, RibKey(id, r.prefixlen, r.prefix), r.key, r.ribType, r.env)
    modifies t.dp
    ensures Shown(t, b) && RouteStep(t.dp.capacity, a, r, id, ret, b)
    ensures old(Private(t.dp.S(), a, home)) && ForHome(r, home) ==> Private(t.dp.S(), b, home)
  {
    var k := RibKey(id, r.prefixlen, r.prefix);
    match r {
      case AddNhop(_, _, _, key, ribType, env) => ret, b := ServeAddNhop(t, k, key, ribType, env, a, home);
      case DelNhop(_, _, _, key, ribType, env) => ret, b := ServeDelNhop(t, k, key, ribType, env, a, home);
      case DelRoute(_, _, _) => ret, b := ServeDelRoute(t, k, a, home);
    }
  }

  method Serve(t: VrfTable, r: Request, ghost a: Abstract, ghost home: NhopKey -> string)
    returns (ret: int, ghost b: Abstract)
    requires Shown(t, a) && Proper(r) && !Repeats(t.dp.capacity, a, r)
    modifies t`vrfN, t.vrfs, t.dp
    ensures Shown(t, b) && Step(t.dp.capacity, a, r, ret, b)
    ensures old(Private(t.dp.S(), a, home)) && ForHome(r, home) ==> Private(t.dp.S(), b, home)
  {
    if r.AddVrf? {
      ret, b := ServeAddVrf(t, r.name, a, home);
    } else if r.DelVrf? {
      ret, b := ServeDelVrf(t, r.name, a, home);
    } else {
      ret, b := ServeRoute(t, r, a, home);
    }
  }

  method Start(n: nat, cap: nat, ghost home: NhopKey -> string) returns (t: VrfTable)
    requires 0 < cap
    ensures Shown(t, Initial(n)) && Private(t.dp.S(), Initial(n), home)
    ensures fresh(t) && fresh(t.vrfs) && fresh(t.dp) && t.dp.capacity == cap
  {
    t := new VrfTable(n, cap);
  }

  // Every run follows the step relation, whatever the libraries answer, and its tables
  // stand for the last state. If each next hop is requested for one VRF only, all counters
  // are right. With the last VRF gone nothing is held.
  method Run(n: nat, cap: nat, rs: seq<Request>, ghost home: NhopKey -> string)
    returns (t: VrfTable, rets: seq<int>, ghost states: seq<Abstract>)
    requires 0 < cap && NeverRepeats(n, cap, rs) && forall r :: r in rs ==> Proper(r)
    ensures IsRun(n, cap, rs, rets, states) && Shown(t, states[|rs|])
    ensures AllForHome(rs, home) ==> Inv(t.dp.S())
    ensures (forall name :: !Registered(t.vrfs[..], name)) ==> t.dp.nhops == map[] && t.dp.slots.Keys == {BLACKHOLE}
    ensures (forall name :: !Registered(t.vrfs[..], name)) && AllForHome(rs, home) ==> t.dp.neighs == map[]
  {
    t := Start(n, cap, home);
    rets, states := [], [Initial(n)];
    for j := 0 to |rs|
      invariant fresh(t) && fresh(t.vrfs) && fresh(t.dp) && t.dp.capacity == cap
      invariant IsRun(n, cap, rs[..j], rets, states) && Shown(t, states[j])
      invariant AllForHome(rs[..j], home) ==> Private(t.dp.S(), states[j], home)
    {
      var ret;
      ghost var b;
      ret, b := Serve(t, rs[j], states[j], home);
      LongerRun(n, cap, rs, j, rets, states, ret, b, home);
      rets, states := rets + [ret], states + [b];
    }
    assert rs[..|rs|] == rs;
    if forall name :: !Registered(t.vrfs[..], name) {
      NoVrfNoRoute(t.dp.S(), t.vrfs[..]);
    }
  }

  lemma LongerRun(n: nat, cap: nat, rs: seq<Request>, j: nat, rets: seq<int>, states: seq<Abstract>, ret: int,
                  b: Abstract, home: NhopKey -> string)
    requires j < |rs| && IsRun(n, cap, rs[..j], rets, states) && Step(cap, states[j], rs[j], ret, b)
    ensures IsRun(n, cap, rs[..j + 1], rets + [ret], states + [b])
    ensures AllForHome(rs[..j + 1], home) ==> AllForHome(rs[..j], home) && ForHome(rs[j], home)
  {
    assert rs[..j + 1] == rs[..j] + [rs[j]];
  }

  lemma NoVrfNoRoute(s: State, vrfs: seq<Vrf>)
    requires Core(s) && Placed(s, vrfs) && forall name :: !Registered(vrfs, name)
    ensures s.nhops == map[] && s.slots.Keys == {BLACKHOLE} && (Balanced(s) ==> s.neighs == map[])
  {
    forall k | k in s.rib
      ensures Registered(vrfs, vrfs[k.vrf - 1].name)
    {
      assert IsNamed(vrfs, k.vrf - 1, vrfs[k.vrf - 1].name);
    }
    assert s.rib == map[];
    EmptyRibIsEmpty(s);
  }
}
