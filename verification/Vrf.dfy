/** The table of VRFs (agent/vrf.c) over the route control plane. */
module Vrfs {
  import opened RouteState
  import opened RouteTheorems
  import opened Routes

  const SHC_VRF_NAME_LEN: nat := 64
  const SHC_VRF_NOENT: int := -7
  const SHC_VRF_NOT_EXIST: int := -32

  datatype Vrf = Vrf(name: string, valid: bool)

  ghost predicate IsValid(vrfs: seq<Vrf>, i: int) { 0 <= i < |vrfs| && vrfs[i].valid }

  ghost predicate IsNamed(vrfs: seq<Vrf>, i: int, name: string) { IsValid(vrfs, i) && vrfs[i].name == name }

  ghost predicate Registered(vrfs: seq<Vrf>, name: string) { exists i :: IsNamed(vrfs, i, name) }

  ghost predicate NamesDiffer(vrfs: seq<Vrf>) {
    forall i, j :: IsValid(vrfs, i) && IsValid(vrfs, j) && vrfs[i].name == vrfs[j].name ==> i == j
  }

  ghost predicate FirstFree(vrfs: seq<Vrf>, i: int) {
    0 <= i < |vrfs| && !vrfs[i].valid && forall j :: 0 <= j < i ==> vrfs[j].valid
  }

  // What shc_vrf_add does to the entries, and shc_vrf_del, i being the entry of the name.
  ghost predicate VrfAdded(vrfs: seq<Vrf>, name: string, ret: int, vrfs': seq<Vrf>) {
    if Registered(vrfs, name) then ret == 0 && vrfs' == vrfs
    else if exists i :: FirstFree(vrfs, i) then
      ret == 0 && exists i :: FirstFree(vrfs, i) && vrfs' == vrfs[i := Vrf(name, true)]
    else ret == SHC_VRF_NOENT && vrfs' == vrfs
  }

  ghost predicate VrfDeleted(vrfs: seq<Vrf>, name: string, i: int, vrfs': seq<Vrf>) {
    if i == -1 then !Registered(vrfs, name) && vrfs' == vrfs
    else IsNamed(vrfs, i, name) && vrfs' == vrfs[i := Vrf("", false)]
  }

  // What the loop of shc_vrf_add finds decides what it does.
  lemma Sought(vrfs: seq<Vrf>, name: string, found: bool, freeEnt: int)
    requires found <==> Registered(vrfs, name)
    requires !found ==> if freeEnt == -1 then forall i :: !FirstFree(vrfs, i) else FirstFree(vrfs, freeEnt)
    ensures if found then VrfAdded(vrfs, name, 0, vrfs)
            else if freeEnt == -1 then VrfAdded(vrfs, name, SHC_VRF_NOENT, vrfs)
            else VrfAdded(vrfs, name, 0, vrfs[freeEnt := Vrf(name, true)])
  {
  }

  ghost function ValidOnes(vrfs: seq<Vrf>): set<int> { set i | 0 <= i < |vrfs| && IsValid(vrfs, i) }

  // One more or one less valid VRF.
  lemma CountFollows(vrfs: seq<Vrf>, i: int, r: Vrf)
    requires 0 <= i < |vrfs| && r.valid != vrfs[i].valid
    ensures |ValidOnes(vrfs[i := r])| == |ValidOnes(vrfs)| + if r.valid then 1 else -1
  {
    var vrfs' := vrfs[i := r];
    forall j | j != i
      ensures j in ValidOnes(vrfs') <==> j in ValidOnes(vrfs)
    {
      assert IsValid(vrfs', j) <==> IsValid(vrfs, j);
    }
    if r.valid {
      OneMore(ValidOnes(vrfs), ValidOnes(vrfs'), i);
    } else {
      OneMore(ValidOnes(vrfs'), ValidOnes(vrfs), i);
    }
  }

  lemma OneMore(a: set<int>, b: set<int>, i: int)
    requires i !in a && i in b && forall j :: j != i ==> (j in b <==> j in a)
    ensures |b| == |a| + 1
  {
    assert forall j :: j in b <==> j in a + {i};
    assert b == a + {i};
  }

  // Which names are registered after slot i became r.
  lemma NamesFollow(vrfs: seq<Vrf>, i: int, r: Vrf, name: string)
    requires NamesDiffer(vrfs) && 0 <= i < |vrfs|
    requires if r.valid then !vrfs[i].valid && !Registered(vrfs, r.name) else vrfs[i].valid
    ensures NamesDiffer(vrfs[i := r])
    ensures Registered(vrfs[i := r], name) <==>
            if r.valid then Registered(vrfs, name) || name == r.name else Registered(vrfs, name) && name != vrfs[i].name
  {
    var vrfs' := vrfs[i := r];
    assert forall j :: j != i ==> (IsValid(vrfs', j) <==> IsValid(vrfs, j));
    assert forall j :: IsValid(vrfs, j) ==> IsNamed(vrfs, j, vrfs[j].name);
    assert r.valid ==> IsNamed(vrfs', i, r.name);
    if j :| IsNamed(vrfs, j, name) && j != i {
      assert IsNamed(vrfs', j, name);
    }
    if j :| IsNamed(vrfs', j, name) && j != i {
      assert IsNamed(vrfs, j, name);
    }
  }

  // The VRFs have their counters, and routes are those of valid VRFs.
  ghost predicate Placed(s: State, vrfs: seq<Vrf>) {
    && (forall v :: 1 <= v <= |vrfs| ==> KnownVrf(s, v))
    && (forall k :: k in s.rib ==> IsValid(vrfs, k.vrf - 1))
  }

  lemma StaysPlaced(s: State, t: State, vrfs: seq<Vrf>)
    requires Placed(s, vrfs) && t.ribCnt.Keys == s.ribCnt.Keys && t.neighCnt.Keys == s.neighCnt.Keys
    requires forall k :: k in t.rib ==> k in s.rib || IsValid(vrfs, k.vrf - 1)
    ensures Placed(t, vrfs)
  {
    assert forall v :: KnownVrf(s, v) ==> v in t.ribCnt.Keys && v in t.neighCnt.Keys;
  }

  // The constructor of a VRF's data plane zeroes its neighbour counter, which is right
  // exactly if it was zero.
  lemma ResetCounts(s: State, v: int)
    requires Counted(s) && v in s.neighCnt
    ensures Counted(s.(neighCnt := s.neighCnt[v := 0])) <==> s.neighCnt[v] == 0
  {
    if s.neighCnt[v] == 0 {
      assert s.neighCnt[v := 0] == s.neighCnt;
    }
  }

  lemma EnteredIsPlaced(s: State, vrfs: seq<Vrf>, i: int, name: string)
    requires Placed(s, vrfs) && 0 <= i < |vrfs|
    ensures Placed(s.(neighCnt := s.neighCnt[i + 1 := 0]), vrfs[i := Vrf(name, true)])
  {
    assert forall j :: IsValid(vrfs, j) ==> IsValid(vrfs[i := Vrf(name, true)], j);
    var t := s.(neighCnt := s.neighCnt[i + 1 := 0]);
    assert forall v :: KnownVrf(s, v) ==> KnownVrf(t, v);
  }

  class VrfTable {
    const vrfs: array<Vrf>  // the VRF at index i has id i + 1
    const dp: ControlPlane
    var vrfN: int

    ghost predicate Valid()
      reads this, vrfs, dp
    {
      && Core(dp.S()) && dp.InRange() && Placed(dp.S(), vrfs[..])
      && NamesDiffer(vrfs[..]) && vrfN == |ValidOnes(vrfs[..])|
    }

    // shc_vrf_init
    constructor (n: nat, cap: nat)
      requires 0 < cap
      ensures Valid() && Inv(dp.S()) && fresh(vrfs) && fresh(dp) && dp.capacity == cap
      ensures vrfs[..] == seq(n, _ => Vrf("", false))
      ensures dp.rib == map[] && dp.nhops == map[] && dp.neighs == map[]
    {
      vrfs := new Vrf[n](i => Vrf("", false));
      dp := new ControlPlane(n, cap);
      vrfN := 0;
      new;
      assert vrfs[..] == seq(n, _ => Vrf("", false));
      assert ValidOnes(vrfs[..]) == {};
      EmptyRibIsEmpty(dp.S());
    }

    // shc_vrf_lookup
    method Lookup(name: string) returns (i: int)
      ensures if i == -1 then !Registered(vrfs[..], name) else IsNamed(vrfs[..], i, name)
    {
      i := 0;
      while i < vrfs.Length && !(vrfs[i].valid && vrfs[i].name == name)
        invariant 0 <= i <= vrfs.Length
        invariant forall j :: 0 <= j < i ==> !(vrfs[j].valid && vrfs[j].name == name)
      {
        i := i + 1;
      }
      if i >= vrfs.Length {
        return -1;
      }
    }

    // shc_vrf_id_lookup
    method IdLookup(name: string) returns (id: int)
      ensures if id == SHC_VRF_NOT_EXIST then !Registered(vrfs[..], name) else IsNamed(vrfs[..], id - 1, name)
    {
      var i := Lookup(name);
      return if i == -1 then SHC_VRF_NOT_EXIST else i + 1;
    }

    // The loop of shc_vrf_add: stops at the name and remembers the first free entry.
    method Seek(name: string) returns (found: bool, freeEnt: int)
      ensures found <==> Registered(vrfs[..], name)
      ensures !found ==> if freeEnt == -1 then forall i :: !FirstFree(vrfs[..], i) else FirstFree(vrfs[..], freeEnt)
    {
      freeEnt := -1;
      for j := 0 to vrfs.Length
        invariant freeEnt == -1 ==> forall l :: 0 <= l < j ==> vrfs[l].valid
        invariant freeEnt != -1 ==> freeEnt < j && FirstFree(vrfs[..], freeEnt)
        invariant forall l :: 0 <= l < j ==> !(vrfs[l].valid && vrfs[l].name == name)
      {
        if vrfs[j].valid {
          if vrfs[j].name == name {
            assert IsNamed(vrfs[..], j, name);
            return true, freeEnt;
          }
        } else {
          if freeEnt == -1 {
            freeEnt := j;
          }
        }
      }
      return false, freeEnt;
    }

    // shc_vrf_add; i is the entry taken, -1 if none is.
    method Add(name: string) returns (ret: int, ghost i: int)
      requires Valid() && |name| < SHC_VRF_NAME_LEN
      modifies `vrfN, vrfs, dp`neighCnt
      ensures Valid() && VrfAdded(old(vrfs[..]), name, ret, vrfs[..])
      ensures i == -1 ==> vrfs[..] == old(vrfs[..]) && dp.S() == old(dp.S())
      ensures i != -1 ==> FirstFree(old(vrfs[..]), i) && vrfs[..] == old(vrfs[..])[i := Vrf(name, true)]
      ensures i != -1 ==> KnownVrf(old(dp.S()), i + 1) && dp.neighCnt == old(dp.neighCnt)[i + 1 := 0]
      ensures old(Counted(dp.S())) ==> (Counted(dp.S()) <==> i == -1 || old(dp.neighCnt)[i + 1] == 0)
    {
      var found, freeEnt := Seek(name);
      Sought(vrfs[..], name, found, freeEnt);
      if found {
        return 0, -1;
      }
      if freeEnt == -1 {
        return SHC_VRF_NOENT, -1;
      }
      Enter(freeEnt, name);
      return 0, freeEnt;
    }

    // The new entry, with the constructor of its data plane.
    method Enter(i: int, name: string)
      requires Valid() && 0 <= i < vrfs.Length && !vrfs[i].valid && !Registered(vrfs[..], name)
      modifies `vrfN, vrfs, dp`neighCnt
      ensures Valid() && vrfs[..] == old(vrfs[..])[i := Vrf(name, true)]
      ensures KnownVrf(old(dp.S()), i + 1) && dp.neighCnt == old(dp.neighCnt)[i + 1 := 0]
      ensures old(Counted(dp.S())) ==> (Counted(dp.S()) <==> old(dp.neighCnt)[i + 1] == 0)
    {
      ghost var was, s := vrfs[..], dp.S();
      assert KnownVrf(s, i + 1);
      if Counted(s) {
        ResetCounts(s, i + 1);
      }
      dp.neighCnt := dp.neighCnt[i + 1 := 0];  // shc_vrf_dp_ctor
      vrfs[i] := Vrf(name, vrfs[i].valid);
      vrfs[i] := Vrf(vrfs[i].name, true);
      vrfN := vrfN + 1;
      assert vrfs[..] == was[i := Vrf(name, true)];
      CountFollows(was, i, Vrf(name, true));
      NamesFollow(was, i, Vrf(name, true), name);
      EnteredIsPlaced(s, was, i, name);
    }

    // shc_vrf_del; order is what the hash iterator of the cleanup visits, and i the index of
    // the VRF, -1 if there is none of that name.
    method Del(name: string, order: seq<RibKey>) returns (ret: int, ghost i: int)
      requires Valid() && forall k :: k in dp.rib ==> k in order
      modifies `vrfN, vrfs, dp
      ensures ret == 0 && Valid() && VrfDeleted(old(vrfs[..]), name, i, vrfs[..])
      ensures i == -1 ==> dp.S() == old(dp.S())
      ensures i != -1 ==> KnownVrf(old(dp.S()), i + 1) && dp.S() == CleanedUp(old(dp.S()), i + 1, order)
    {
      var j := 0;
      while j < vrfs.Length && !(vrfs[j].valid && vrfs[j].name == name)
        invariant 0 <= j <= vrfs.Length
        invariant forall l :: 0 <= l < j ==> !(vrfs[l].valid && vrfs[l].name == name)
      {
        j := j + 1;
      }
      if j >= vrfs.Length {
        assert !Registered(vrfs[..], name);
        return 0, -1;
      }
      assert IsNamed(vrfs[..], j, name);
      GiveUp(j, name, order);
      return 0, j;
    }

    method GiveUp(i: int, ghost name: string, order: seq<RibKey>)
      requires Valid() && IsNamed(vrfs[..], i, name) && forall k :: k in dp.rib ==> k in order
      modifies `vrfN, vrfs, dp
      ensures Valid() && VrfDeleted(old(vrfs[..]), name, i, vrfs[..])
      ensures KnownVrf(old(dp.S()), i + 1) && dp.S() == CleanedUp(old(dp.S()), i + 1, order)
    {
      Destroy(i, order);
      Leave(i);
    }

    // shc_vrf_dp_dtor
    method Destroy(i: int, order: seq<RibKey>)
      requires Valid() && IsValid(vrfs[..], i) && forall k :: k in dp.rib ==> k in order
      modifies dp
      ensures Valid() && KnownVrf(old(dp.S()), i + 1) && dp.S() == CleanedUp(old(dp.S()), i + 1, order)
      ensures forall k :: k in dp.rib ==> k.vrf != i + 1
    {
      assert KnownVrf(dp.S(), i + 1);
      dp.RouteCleanup(i + 1, order);
      StaysPlaced(old(dp.S()), dp.S(), vrfs[..]);
    }

    // The entry is given up once its VRF has no routes.
    method Leave(i: int)
      requires Valid() && IsValid(vrfs[..], i) && forall k :: k in dp.rib ==> k.vrf != i + 1
      modifies `vrfN, vrfs
      ensures Valid() && vrfs[..] == old(vrfs[..])[i := Vrf("", false)]
    {
      ghost var was := vrfs[..];
      vrfs[i] := Vrf("", vrfs[i].valid);
      vrfs[i] := Vrf(vrfs[i].name, false);
      vrfN := vrfN - 1;
      assert vrfs[..] == was[i := Vrf("", false)];
      CountFollows(was, i, Vrf("", false));
      NamesFollow(was, i, Vrf("", false), "");
      assert forall k :: k in dp.rib ==> IsValid(was, k.vrf - 1) && k.vrf - 1 != i;
    }
  }
}
