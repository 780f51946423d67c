/** What whole runs of requests do: a step relation on VRF entries, routes and neighbours.
    The results and the next state of a request follow from the state it meets and from what
    the libraries answer. */
module Runs {
  import opened Sets
  import opened RouteState
  import opened RouteNeighs
  import opened Routes
  import opened RouteViews
  import opened Vrfs

  // What the control plane is asked to do; routes are named by VRF, prefix length and prefix.
  datatype Request =
    | AddVrf(name: string)
    | DelVrf(name: string)
    | AddNhop(name: string, prefixlen: int, prefix: int, key: NhopKey, ribType: RibType, env: Env)
    | DelNhop(name: string, prefixlen: int, prefix: int, key: NhopKey, ribType: RibType, env: Env)
    | DelRoute(name: string, prefixlen: int, prefix: int)

  // VRF_NAME_VALID bounds the length of a name.
  predicate Proper(r: Request) { |r.name| < SHC_VRF_NAME_LEN }

  // A next hop is requested for the VRF it is meant for only.
  ghost predicate ForHome(r: Request, home: NhopKey -> string) {
    r.AddNhop? ==> home(r.key) == r.name
  }

  ghost predicate AllForHome(rs: seq<Request>, home: NhopKey -> string) {
    forall r :: r in rs ==> ForHome(r, home)
  }

  // The VRF entries, the routes and the neighbour table.
  datatype Abstract = Abstract(vrfs: seq<Vrf>, view: View, neighs: map<NeighKey, Neigh>)

  function Initial(n: nat): Abstract { Abstract(seq(n, _ => Vrf("", false)), map[], map[]) }

  function MaxHops(ribType: RibType): int {
    match ribType
    case RtDefault => ROUTE_MAX_ECMP
    case RtMroute => MROUTE_MAX_ECMP
  }

  // The next hops on some route.
  ghost function Keys(view: View): set<NhopKey> {
    set k, x | k in view && x in view[k].hops :: x
  }

  // shc_route_nhop_insert: the checks, the next hop and its neighbour, the slot and the prefix.
  ghost function AddCode(cap: nat, a: Abstract, k: RibKey, key: NhopKey, ribType: RibType, env: Env): int {
    if k in a.view && a.view[k].ribType != ribType then SHC_IPV4_ROUTETYPE_NO_SAME
    else if k in a.view && |a.view[k].hops| >= MaxHops(ribType) then SHC_ROUTE_NEXTHOP_ECMP_NOSPACE
    else if HopThere(a.view, k, key) then 0
    else
      var c := NhopCode(key in Keys(a.view), key.gateway, NeighKey(k.vrf, key.gateway) in a.neighs, env);
      if c < 0 then c else InstallCode(|a.view| + 1 < cap, env)
  }

  // A next hop that is on no route yet takes a reference on its neighbour.
  ghost function Added(a: Abstract, k: RibKey, key: NhopKey, ribType: RibType, env: Env): Abstract {
    if HopThere(a.view, k, key) then a
    else
      a.(view := AddHop(a.view, k, ribType, key),
         neighs := if key in Keys(a.view) then a.neighs
                   else NeighsRef(a.neighs, NeighKey(k.vrf, key.gateway), env.oid))
  }

  // The next hops that are on no route any more give their references back through VRF v.
  ghost function Withdrawn(a: Abstract, v: int, view: View): Abstract {
    a.(view := view, neighs := NeighsLess(a.neighs, v, Keys(a.view) - Keys(view)))
  }

  ghost function DelCode(cap: nat, a: Abstract, k: RibKey, key: NhopKey, ribType: RibType, env: Env): int {
    if k in a.view && a.view[k].ribType != ribType then SHC_IPV4_ROUTETYPE_NO_SAME
    else if k !in a.view || key !in a.view[k].hops || |a.view[k].hops| == 1 then 0
    else InstallCode(|a.view| + 1 < cap, env)
  }

  // The requests about routes, for the VRF of the given id.
  ghost function RouteCode(cap: nat, a: Abstract, r: Request, id: int): int
    requires !r.AddVrf? && !r.DelVrf?
  {
    var k := RibKey(id, r.prefixlen, r.prefix);
    match r
    case AddNhop(_, _, _, key, ribType, env) => AddCode(cap, a, k, key, ribType, env)
    case DelNhop(_, _, _, key, ribType, env) => DelCode(cap, a, k, key, ribType, env)
    case DelRoute(_, _, _) => if k in a.view then 0 else SHC_ROUTE_PREFIX_NOT_FOUND
  }

  ghost function RouteAfter(cap: nat, a: Abstract, r: Request, id: int): Abstract
    requires !r.AddVrf? && !r.DelVrf?
  {
    var k := RibKey(id, r.prefixlen, r.prefix);
    match r
    case AddNhop(_, _, _, key, ribType, env) =>
      if AddCode(cap, a, k, key, ribType, env) == 0 then Added(a, k, key, ribType, env) else a
    case DelNhop(_, _, _, key, ribType, env) =>
      if DelCode(cap, a, k, key, ribType, env) == 0 then Withdrawn(a, id, DelHop(a.view, k, key)) else a
    case DelRoute(_, _, _) => Withdrawn(a, id, a.view - {k})
  }

  // shc_vrf_del, i being the entry of the name, -1 if there is none.
  ghost function VrfWithdrawn(a: Abstract, i: int): Abstract {
    if i == -1 then a else Withdrawn(a, i + 1, DelVrfRoutes(a.view, i + 1))
  }

  // One request: its result and what it leaves.
  ghost predicate Step(cap: nat, a: Abstract, r: Request, ret: int, a': Abstract) {
    match r
    case AddVrf(name) => VrfAdded(a.vrfs, name, ret, a'.vrfs) && a' == a.(vrfs := a'.vrfs)
    case DelVrf(name) =>
      ret == 0 && exists i :: VrfDeleted(a.vrfs, name, i, a'.vrfs) && a' == VrfWithdrawn(a, i).(vrfs := a'.vrfs)
    case _ =>
      if Registered(a.vrfs, r.name)
      then exists i :: IsNamed(a.vrfs, i, r.name) && RouteStep(cap, a, r, i + 1, ret, a')
      else ret == SHC_VRF_NOT_EXIST && a' == a
  }

  ghost predicate RouteStep(cap: nat, a: Abstract, r: Request, id: int, ret: int, a': Abstract)
    requires !r.AddVrf? && !r.DelVrf?
  {
    ret == RouteCode(cap, a, r, id) && a' == RouteAfter(cap, a, r, id)
  }

  // The step is determined: result and state follow from the state before, the request and
  // the answers of the libraries it carries.
  lemma StepIsDetermined(cap: nat, a: Abstract, r: Request, ret1: int, a1: Abstract, ret2: int, a2: Abstract)
    requires NamesDiffer(a.vrfs) && Step(cap, a, r, ret1, a1) && Step(cap, a, r, ret2, a2)
    ensures ret1 == ret2 && a1 == a2
  {
    if r.AddVrf? {
      AddIsDetermined(a.vrfs, r.name, ret1, a1.vrfs, ret2, a2.vrfs);
    } else if r.DelVrf? {
      DelIsDetermined(cap, a, r, ret1, a1, ret2, a2);
    } else {
      RouteIsDetermined(cap, a, r, ret1, a1, ret2, a2);
    }
  }

  lemma AddIsDetermined(vrfs: seq<Vrf>, name: string, ret1: int, vrfs1: seq<Vrf>, ret2: int, vrfs2: seq<Vrf>)
    requires VrfAdded(vrfs, name, ret1, vrfs1) && VrfAdded(vrfs, name, ret2, vrfs2)
    ensures ret1 == ret2 && vrfs1 == vrfs2
  {
    assert forall i, j :: FirstFree(vrfs, i) && FirstFree(vrfs, j) ==> i == j;
  }

  lemma DelIsDetermined(cap: nat, a: Abstract, r: Request, ret1: int, a1: Abstract, ret2: int, a2: Abstract)
    requires NamesDiffer(a.vrfs) && r.DelVrf? && Step(cap, a, r, ret1, a1) && Step(cap, a, r, ret2, a2)
    ensures ret1 == ret2 && a1 == a2
  {
  }

  lemma RouteIsDetermined(cap: nat, a: Abstract, r: Request, ret1: int, a1: Abstract, ret2: int, a2: Abstract)
    requires NamesDiffer(a.vrfs) && !r.AddVrf? && !r.DelVrf?
    requires Step(cap, a, r, ret1, a1) && Step(cap, a, r, ret2, a2)
    ensures ret1 == ret2 && a1 == a2
  {
    if Registered(a.vrfs, r.name) {
      var i :| IsNamed(a.vrfs, i, r.name);
      StepOfRoute(cap, a, r, ret1, a1, i);
      StepOfRoute(cap, a, r, ret2, a2, i);
    }
  }

  lemma StepOfRoute(cap: nat, a: Abstract, r: Request, ret: int, a': Abstract, i: int)
    requires NamesDiffer(a.vrfs) && !r.AddVrf? && !r.DelVrf? && Step(cap, a, r, ret, a') && IsNamed(a.vrfs, i, r.name)
    ensures RouteStep(cap, a, r, i + 1, ret, a')
  {
    var j :| IsNamed(a.vrfs, j, r.name) && RouteStep(cap, a, r, j + 1, ret, a');
    OneEntry(a.vrfs, r.name, i, j);
  }

  lemma OneEntry(vrfs: seq<Vrf>, name: string, i: int, j: int)
    requires NamesDiffer(vrfs) && IsNamed(vrfs, i, name) && IsNamed(vrfs, j, name)
    ensures i == j
  {
  }

  // states lists what a run goes through from the initial state.
  ghost predicate IsRun(n: nat, cap: nat, rs: seq<Request>, rets: seq<int>, states: seq<Abstract>) {
    && |rets| == |rs| && |states| == |rs| + 1 && states[0] == Initial(n)
    && forall j {:trigger Step(cap, states[j], rs[j], rets[j], states[j + 1])} :: 0 <= j < |rs| ==>
         Step(cap, states[j], rs[j], rets[j], states[j + 1])
  }

  lemma AddedDiffer(vrfs: seq<Vrf>, name: string, ret: int, vrfs': seq<Vrf>)
    requires NamesDiffer(vrfs) && VrfAdded(vrfs, name, ret, vrfs')
    ensures NamesDiffer(vrfs')
  {
    if vrfs' != vrfs {
      var i :| FirstFree(vrfs, i) && vrfs' == vrfs[i := Vrf(name, true)];
      NamesFollow(vrfs, i, Vrf(name, true), name);
    }
  }

  lemma DeletedDiffer(vrfs: seq<Vrf>, name: string, i: int, vrfs': seq<Vrf>)
    requires NamesDiffer(vrfs) && VrfDeleted(vrfs, name, i, vrfs')
    ensures NamesDiffer(vrfs')
  {
    if i != -1 {
      NamesFollow(vrfs, i, Vrf("", false), name);
    }
  }

  lemma StepKeepsNames(cap: nat, a: Abstract, r: Request, ret: int, a': Abstract)
    requires NamesDiffer(a.vrfs) && Step(cap, a, r, ret, a')
    ensures NamesDiffer(a'.vrfs)
  {
    if r.AddVrf? {
      AddedDiffer(a.vrfs, r.name, ret, a'.vrfs);
    } else if r.DelVrf? {
      var i :| VrfDeleted(a.vrfs, r.name, i, a'.vrfs);
      DeletedDiffer(a.vrfs, r.name, i, a'.vrfs);
    }
  }

  // Results and states of a run follow from the requests and the answers of the libraries.
  lemma RunIsDetermined(n: nat, cap: nat, rs: seq<Request>, rets1: seq<int>, states1: seq<Abstract>,
                        rets2: seq<int>, states2: seq<Abstract>)
    requires IsRun(n, cap, rs, rets1, states1) && IsRun(n, cap, rs, rets2, states2)
    ensures rets1 == rets2 && states1 == states2
  {
    forall j | 0 <= j <= |rs|
      ensures states1[j] == states2[j] && (j < |rs| ==> rets1[j] == rets2[j])
    {
      SameUpTo(n, cap, rs, rets1, states1, rets2, states2, j);
      if j < |rs| {
        OneStep(n, cap, rs, rets1, states1, rets2, states2, j);
      }
    }
  }

  lemma {:induction false} SameUpTo(n: nat, cap: nat, rs: seq<Request>, rets1: seq<int>, states1: seq<Abstract>,
                                    rets2: seq<int>, states2: seq<Abstract>, j: nat)
    requires IsRun(n, cap, rs, rets1, states1) && IsRun(n, cap, rs, rets2, states2) && j <= |rs|
    ensures states1[j] == states2[j] && NamesDiffer(states1[j].vrfs)
  {
    if j == 0 {
    } else {
      SameUpTo(n, cap, rs, rets1, states1, rets2, states2, j - 1);
      OneStep(n, cap, rs, rets1, states1, rets2, states2, j - 1);
    }
  }

  lemma OneStep(n: nat, cap: nat, rs: seq<Request>, rets1: seq<int>, states1: seq<Abstract>, rets2: seq<int>,
                states2: seq<Abstract>, j: nat)
    requires IsRun(n, cap, rs, rets1, states1) && IsRun(n, cap, rs, rets2, states2) && j < |rs|
    requires states1[j] == states2[j] && NamesDiffer(states1[j].vrfs)
    ensures rets1[j] == rets2[j] && states1[j + 1] == states2[j + 1] && NamesDiffer(states1[j + 1].vrfs)
  {
    assert Step(cap, states1[j], rs[j], rets1[j], states1[j + 1]) &&
           Step(cap, states2[j], rs[j], rets2[j], states2[j + 1]);
    StepIsDetermined(cap, states1[j], rs[j], rets1[j], states1[j + 1], rets2[j], states2[j + 1]);
    StepKeepsNames(cap, states1[j], rs[j], rets1[j], states1[j + 1]);
  }

  // The insert puts a next hop on a prefix that has it without recognising it.
  ghost predicate RepeatsAt(cap: nat, a: Abstract, k: RibKey, key: NhopKey, ribType: RibType, env: Env) {
    && AddCode(cap, a, k, key, ribType, env) == 0
    && k in a.view && key in a.view[k].hops && !HopThere(a.view, k, key)
  }

  ghost predicate Repeats(cap: nat, a: Abstract, r: Request) {
    && r.AddNhop?
    && exists i :: IsNamed(a.vrfs, i, r.name) && RepeatsAt(cap, a, RibKey(i + 1, r.prefixlen, r.prefix), r.key,
                                                           r.ribType, r.env)
  }

  // The address that malloc returns shows nowhere.
  lemma AddrIsHidden(cap: nat, a: Abstract, k: RibKey, key: NhopKey, ribType: RibType, env: Env, addr: Handle)
    ensures AddCode(cap, a, k, key, ribType, env.(addr := addr)) == AddCode(cap, a, k, key, ribType, env)
    ensures Added(a, k, key, ribType, env.(addr := addr)) == Added(a, k, key, ribType, env)
    ensures RepeatsAt(cap, a, k, key, ribType, env.(addr := addr)) == RepeatsAt(cap, a, k, key, ribType, env)
  {
  }

  // No request of the run repeats a next hop.
  ghost predicate NeverRepeats(n: nat, cap: nat, rs: seq<Request>) {
    forall j, rets, states {:trigger IsRun(n, cap, rs[..j], rets, states)} ::
      0 <= j < |rs| && IsRun(n, cap, rs[..j], rets, states) ==> !Repeats(cap, states[j], rs[j])
  }

  // That takes a multicast route and an encapsulation type that SHC_ENCAP_TYPE_VALID rejects.
  predicate Recognised(r: Request) {
    r.AddNhop? ==> r.ribType == RtDefault || r.key.tunnel.encap != Invalid
  }

  // Every route has next hops, and none twice.
  ghost predicate Distinct(view: View) {
    forall k :: k in view ==> view[k].hops != [] && NoDuplicates(view[k].hops)
  }

  lemma {:induction false} WithoutHopIs(hops: seq<NhopKey>, key: NhopKey)
    ensures forall x :: x in WithoutHop(hops, key) <==> x in hops && x != key
    ensures NoDuplicates(hops) ==> NoDuplicates(WithoutHop(hops, key))
  {
    if hops == [] {
    } else {
      var init, last := hops[..|hops| - 1], hops[|hops| - 1];
      assert hops == init + [last];
      assert NoDuplicates(hops) ==> NoDuplicates(init) && last !in init;
      WithoutHopIs(init, key);
    }
  }

  lemma DelHopKeepsDistinct(view: View, k: RibKey, key: NhopKey)
    requires Distinct(view)
    ensures Distinct(DelHop(view, k, key))
  {
    if k in view && |view[k].hops| > 1 {
      var hops := view[k].hops;
      WithoutHopIs(hops, key);
      var x := if hops[0] == key then hops[1] else hops[0];
      assert x in hops && x != key;
      assert x in WithoutHop(hops, key);
    }
  }

  lemma RecognisedIsNoRepeat(cap: nat, a: Abstract, k: RibKey, key: NhopKey, ribType: RibType, env: Env)
    requires Distinct(a.view) && (ribType == RtDefault || key.tunnel.encap != Invalid)
    ensures !RepeatsAt(cap, a, k, key, ribType, env)
  {
    if k in a.view && key in a.view[k].hops && !HopThere(a.view, k, key) {
      assert !NhopEqual(key, key);
    }
  }

  lemma DistinctIsNoRepeat(cap: nat, a: Abstract, r: Request)
    requires Distinct(a.view) && Recognised(r)
    ensures !Repeats(cap, a, r)
  {
    if Repeats(cap, a, r) {
      var i :| IsNamed(a.vrfs, i, r.name) && RepeatsAt(cap, a, RibKey(i + 1, r.prefixlen, r.prefix), r.key, r.ribType,
                                                       r.env);
      RecognisedIsNoRepeat(cap, a, RibKey(i + 1, r.prefixlen, r.prefix), r.key, r.ribType, r.env);
      assert false;
    }
  }

  lemma StepKeepsDistinct(cap: nat, a: Abstract, r: Request, ret: int, a': Abstract)
    requires Distinct(a.view) && Recognised(r) && Step(cap, a, r, ret, a')
    ensures Distinct(a'.view)
  {
    if r.DelVrf? {
      DelVrfKeepsDistinct(cap, a, r, ret, a');
    } else if !r.AddVrf? && Registered(a.vrfs, r.name) {
      var i :| IsNamed(a.vrfs, i, r.name) && RouteStep(cap, a, r, i + 1, ret, a');
      RouteKeepsDistinct(cap, a, r, i + 1);
    }
  }

  lemma DelVrfKeepsDistinct(cap: nat, a: Abstract, r: Request, ret: int, a': Abstract)
    requires Distinct(a.view) && r.DelVrf? && Step(cap, a, r, ret, a')
    ensures Distinct(a'.view)
  {
  }

  lemma RouteKeepsDistinct(cap: nat, a: Abstract, r: Request, id: int)
    requires Distinct(a.view) && Recognised(r) && !r.AddVrf? && !r.DelVrf?
    ensures Distinct(RouteAfter(cap, a, r, id).view)
  {
    var k := RibKey(id, r.prefixlen, r.prefix);
    if r.AddNhop? {
      RecognisedIsNoRepeat(cap, a, k, r.key, r.ribType, r.env);
    } else if r.DelNhop? {
      DelHopKeepsDistinct(a.view, k, r.key);
    }
  }

  lemma {:induction false} RunKeepsDistinct(n: nat, cap: nat, rs: seq<Request>, rets: seq<int>, states: seq<Abstract>,
                                            j: nat)
    requires IsRun(n, cap, rs, rets, states) && j <= |rs| && forall r :: r in rs ==> Recognised(r)
    ensures Distinct(states[j].view)
  {
    if j == 0 {
    } else {
      RunKeepsDistinct(n, cap, rs, rets, states, j - 1);
      var i := j - 1;
      assert Step(cap, states[i], rs[i], rets[i], states[i + 1]);
      StepKeepsDistinct(cap, states[i], rs[i], rets[i], states[i + 1]);
    }
  }

  lemma RecognisedNeverRepeat(n: nat, cap: nat, rs: seq<Request>)
    requires forall r :: r in rs ==> Recognised(r)
    ensures NeverRepeats(n, cap, rs)
  {
    forall j, rets, states | 0 <= j < |rs| && IsRun(n, cap, rs[..j], rets, states)
      ensures !Repeats(cap, states[j], rs[j])
    {
      RunKeepsDistinct(n, cap, rs[..j], rets, states, j);
      assert rs[j] in rs;
      DistinctIsNoRepeat(cap, states[j], rs[j]);
    }
  }
}
