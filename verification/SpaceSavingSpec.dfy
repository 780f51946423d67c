/** The Space-Saving algorithm on a plain map from monitored flows to counts, and its
    frequency guarantees over every run of inserts since the last clear. */
module SpaceSavingSpec {
  import opened Flows
  import opened Sets

  type Counts = map<Flow, int>

  ghost function Drop(m: Counts, f: Flow): Counts { m - {f} }

  ghost predicate IsMin(m: Counts, f: Flow) {
    f in m && forall g :: g in m ==> m[f] <= m[g]
  }

  // The position of the last packet of f, -1 if there is none.
  function LastAt(trace: seq<Flow>, f: Flow): (r: int)
    ensures -1 <= r < |trace| && (r >= 0 ==> trace[r] == f)
    ensures forall j :: r < j < |trace| ==> trace[j] != f
  {
    if trace == [] then -1
    else if trace[|trace| - 1] == f then |trace| - 1
    else LastAt(trace[..|trace| - 1], f)
  }

  // Of the flows with the least count, y is the one whose last packet is the latest.
  ghost predicate IsVictim(trace: seq<Flow>, m: Counts, y: Flow) {
    IsMin(m, y) && forall f :: f in m && m[f] == m[y] && f != y ==> LastAt(trace, f) < LastAt(trace, y)
  }

  // One insert of flow x into a table of at most cap counters, after the packets of trace.
  ghost predicate Step(cap: nat, trace: seq<Flow>, m: Counts, x: Flow, m': Counts) {
    if x in m then m' == m[x := m[x] + 1]
    else if |m| < cap then m' == m[x := 1]
    else exists y :: IsVictim(trace, m, y) && m' == Drop(m, y)[x := m[y] + 1]
  }

  lemma {:induction false} StepIsDetermined(cap: nat, trace: seq<Flow>, m: Counts, x: Flow, m1: Counts, m2: Counts)
    requires Step(cap, trace, m, x, m1) && Step(cap, trace, m, x, m2)
    ensures m1 == m2
  {
    if x !in m && |m| >= cap {
      var y :| IsVictim(trace, m, y) && m1 == Drop(m, y)[x := m[y] + 1];
      var z :| IsVictim(trace, m, z) && m2 == Drop(m, z)[x := m[z] + 1];
      assert y == z by { OneVictim(trace, m, y, z); }
    } else {
      assert m1 == if x in m then m[x := m[x] + 1] else m[x := 1];
    }
  }

  lemma OneVictim(trace: seq<Flow>, m: Counts, y: Flow, z: Flow)
    requires IsVictim(trace, m, y) && IsVictim(trace, m, z)
    ensures y == z
  {
    assert m[y] == m[z];
  }

  // The minimum count once the table is full, 0 before.
  ghost function Floor(cap: nat, m: Counts): (r: int)
    ensures |m| < cap ==> r == 0
    ensures |m| >= cap && m != map[] ==> exists f :: IsMin(m, f) && m[f] == r
  {
    if |m| < cap || m == map[] then 0
    else
      MinExists(m);
      var f :| IsMin(m, f);
      m[f]
  }

  lemma {:induction false} MinExists(m: Counts)
    requires m != map[]
    ensures exists f :: IsMin(m, f)
  {
    var k :| k in m;
    var rest := Drop(m, k);
    if rest == map[] {
      assert m.Keys == {k} + rest.Keys;
      assert IsMin(m, k);
    } else {
      MinExists(rest);
      var f :| IsMin(rest, f);
      forall g | g in m
        ensures (if m[k] < m[f] then m[k] else m[f]) <= m[g]
      {
        assert g == k || g in rest;
      }
      assert IsMin(m, if m[k] < m[f] then k else f);
    }
  }

  lemma FloorWitness(cap: nat, m: Counts) returns (f: Flow)
    requires 0 < cap <= |m|
    ensures IsMin(m, f) && m[f] == Floor(cap, m)
  {
    assert m != map[];
    var r := Floor(cap, m);
    f :| IsMin(m, f) && m[f] == r;
  }

  // The count flow x will have after its next insert.
  ghost function NextCount(cap: nat, m: Counts, x: Flow): int {
    if x in m then m[x] + 1 else Floor(cap, m) + 1
  }

  // How often f was inserted: its true count.
  function Occ(trace: seq<Flow>, f: Flow): nat {
    if trace == [] then 0
    else Occ(trace[..|trace| - 1], f) + if trace[|trace| - 1] == f then 1 else 0
  }

  lemma {:induction false} OccIsMember(trace: seq<Flow>, f: Flow)
    ensures Occ(trace, f) >= 1 ==> f in trace
  {
    if trace == [] {
    } else {
      OccIsMember(trace[..|trace| - 1], f);
    }
  }

  lemma OccOfSnoc(trace: seq<Flow>, x: Flow, f: Flow)
    ensures Occ(trace + [x], f) == Occ(trace, f) + if x == f then 1 else 0
  {
  }

  ghost function Total(m: Counts): int {
    if m == map[] then 0
    else
      var k :| k in m;
      m[k] + Total(Drop(m, k))
  }

  lemma {:induction false} TotalOfDrop(m: Counts, f: Flow)
    requires f in m
    ensures Total(m) == m[f] + Total(Drop(m, f))
    decreases |m|
  {
    var k :| k in m && Total(m) == m[k] + Total(Drop(m, k));
    if k == f {
    } else {
      assert Drop(m, k).Keys == m.Keys - {k};
      TotalOfDrop(Drop(m, k), f);
      assert Drop(m, f).Keys == m.Keys - {f};
      TotalOfDrop(Drop(m, f), k);
      assert Drop(Drop(m, k), f) == Drop(Drop(m, f), k);
    }
  }

  lemma TotalOfPut(m: Counts, f: Flow, c: int)
    ensures Total(m[f := c]) == c + Total(Drop(m, f))
  {
    TotalOfDrop(m[f := c], f);
    assert Drop(m[f := c], f) == Drop(m, f);
  }

  lemma Distribute(n: nat, c: int)
    ensures (n + 1) * c == n * c + c
  {
  }

  // Total counts a table at least as the number of rows times any lower bound.
  lemma {:induction false} TotalAtLeast(m: Counts, low: int)
    requires forall f :: f in m ==> low <= m[f]
    ensures |m| * low <= Total(m)
  {
    if m == map[] {
    } else {
      var k :| k in m;
      var rest := Drop(m, k);
      assert rest.Keys == m.Keys - {k};
      TotalAtLeast(rest, low);
      TotalOfDrop(m, k);
      Distribute(|rest|, low);
    }
  }

  // Total counts a table at least as any of its rows together.
  lemma {:induction false} TotalOverRows(m: Counts, rows: set<Flow>, low: int)
    requires rows <= m.Keys && forall f :: f in m ==> 0 <= m[f]
    requires forall f :: f in rows ==> low <= m[f]
    ensures |rows| * low <= Total(m)
  {
    if rows == {} {
      TotalAtLeast(m, 0);
    } else {
      var k := SomeMember(rows);
      assert Drop(m, k).Keys == m.Keys - {k};
      TotalOverRows(Drop(m, k), rows - {k}, low);
      TotalOfDrop(m, k);
      Distribute(|rows - {k}|, low);
    }
  }

  // The count of a monitored flow is too large by at most the minimum, and no other flow
  // was inserted more often than that.
  ghost predicate IsEstimate(cap: nat, trace: seq<Flow>, m: Counts, f: Flow) {
    if f in m then 1 <= Occ(trace, f) <= m[f] <= Occ(trace, f) + Floor(cap, m)
    else Occ(trace, f) <= Floor(cap, m)
  }

  // What holds of a table that has seen trace since it was empty.
  ghost predicate Bounds(cap: nat, trace: seq<Flow>, m: Counts) {
    && |m| <= cap
    && (forall f {:trigger IsEstimate(cap, trace, m, f)} :: IsEstimate(cap, trace, m, f))
    && Total(m) == |trace|
  }

  lemma CountsArePositive(cap: nat, trace: seq<Flow>, m: Counts)
    requires Bounds(cap, trace, m)
    ensures forall f :: f in m ==> 1 <= m[f]
  {
    forall f | f in m
      ensures 1 <= m[f]
    {
      assert IsEstimate(cap, trace, m, f);
    }
  }

  lemma BoundsInitially(cap: nat)
    requires 0 < cap
    ensures Bounds(cap, [], map[])
  {
  }

  // The map an eviction of y leaves, before its successor is entered.
  lemma DropFacts(m: Counts, y: Flow)
    requires y in m
    ensures |Drop(m, y)| == |m| - 1
    ensures forall f :: f in Drop(m, y) <==> f in m && f != y
  {
  }

  lemma PutFacts(m: Counts, x: Flow, c: int)
    ensures |m[x := c]| == if x in m then |m| else |m| + 1
  {
  }

  // An insert never lowers the minimum.
  lemma StepRaisesFloor(cap: nat, trace: seq<Flow>, m: Counts, x: Flow, m': Counts)
    requires 0 < cap && |m| <= cap && Step(cap, trace, m, x, m')
    requires forall f :: f in m ==> 1 <= m[f]
    ensures |m| <= |m'| <= cap
    ensures forall f :: f in m' ==> 1 <= m'[f]
    ensures 0 <= Floor(cap, m) <= Floor(cap, m')
    ensures x in m' && m'[x] == NextCount(cap, m, x)
  {
  }

  lemma StepAddsOne(cap: nat, trace: seq<Flow>, m: Counts, x: Flow, m': Counts)
    requires Step(cap, trace, m, x, m') && |m| <= cap
    ensures Total(m') == Total(m) + 1
  {
    if x in m {
      TotalOfPut(m, x, m[x] + 1);
      TotalOfDrop(m, x);
    } else if |m| < cap {
      TotalOfPut(m, x, 1);
      assert Drop(m, x) == m;
    } else {
      var y :| IsVictim(trace, m, y) && m' == Drop(m, y)[x := m[y] + 1];
      EvictAddsOne(m, x, y);
    }
  }

  lemma EvictAddsOne(m: Counts, x: Flow, y: Flow)
    requires y in m && x !in m
    ensures Total(Drop(m, y)[x := m[y] + 1]) == Total(m) + 1
  {
    TotalOfPut(Drop(m, y), x, m[y] + 1);
    assert Drop(Drop(m, y), x) == Drop(m, y);
    TotalOfDrop(m, y);
  }

  // Every insert keeps the guarantees.
  lemma StepKeepsBounds(cap: nat, trace: seq<Flow>, m: Counts, x: Flow, m': Counts)
    requires 0 < cap && Bounds(cap, trace, m) && Step(cap, trace, m, x, m')
    ensures Bounds(cap, trace + [x], m')
  {
    CountsArePositive(cap, trace, m);
    StepRaisesFloor(cap, trace, m, x, m');
    StepAddsOne(cap, trace, m, x, m');
    forall f
      ensures IsEstimate(cap, trace + [x], m', f)
    {
      StepKeepsEstimate(cap, trace, m, x, m', f);
    }
  }

  lemma StepKeepsEstimate(cap: nat, trace: seq<Flow>, m: Counts, x: Flow, m': Counts, f: Flow)
    requires Step(cap, trace, m, x, m') && 0 <= Floor(cap, m) <= Floor(cap, m')
    requires IsEstimate(cap, trace, m, f) && IsEstimate(cap, trace, m, x)
    ensures IsEstimate(cap, trace + [x], m', f)
  {
    OccOfSnoc(trace, x, f);
    if x !in m && |m| == cap {
      var y :| IsVictim(trace, m, y) && m' == Drop(m, y)[x := m[y] + 1];
      assert m[y] == Floor(cap, m);
    }
  }

  // ms lists the tables of a run: empty at first, one Step per inserted flow.
  ghost predicate IsRun(cap: nat, trace: seq<Flow>, ms: seq<Counts>) {
    && |ms| == |trace| + 1 && ms[0] == map[]
    && forall k {:trigger Step(cap, trace[..k], ms[k], trace[k], ms[k + 1])} :: 0 <= k < |trace| ==>
         Step(cap, trace[..k], ms[k], trace[k], ms[k + 1])
  }

  lemma {:induction false} RunBounds(cap: nat, trace: seq<Flow>, ms: seq<Counts>, k: nat)
    requires 0 < cap && IsRun(cap, trace, ms) && k <= |trace|
    ensures Bounds(cap, trace[..k], ms[k])
  {
    if k == 0 {
      BoundsInitially(cap);
      assert trace[..0] == [];
    } else {
      var j := k - 1;
      RunBounds(cap, trace, ms, j);
      assert Step(cap, trace[..j], ms[j], trace[j], ms[j + 1]);
      StepKeepsBounds(cap, trace[..j], ms[j], trace[j], ms[k]);
      assert trace[..k] == trace[..j] + [trace[j]];
    }
  }

  // The tables of a run are determined by its packets.
  lemma TablesAreDetermined(cap: nat, trace: seq<Flow>, ms1: seq<Counts>, ms2: seq<Counts>)
    requires IsRun(cap, trace, ms1) && IsRun(cap, trace, ms2)
    ensures ms1 == ms2
  {
    forall k | 0 <= k <= |trace|
      ensures ms1[k] == ms2[k]
    {
      SameTable(cap, trace, ms1, ms2, k);
    }
  }

  lemma {:induction false} SameTable(cap: nat, trace: seq<Flow>, ms1: seq<Counts>, ms2: seq<Counts>, k: nat)
    requires IsRun(cap, trace, ms1) && IsRun(cap, trace, ms2) && k <= |trace|
    ensures ms1[k] == ms2[k]
  {
    if k == 0 {
    } else {
      var j := k - 1;
      SameTable(cap, trace, ms1, ms2, j);
      assert Step(cap, trace[..j], ms1[j], trace[j], ms1[j + 1]) && Step(cap, trace[..j], ms2[j], trace[j], ms2[j + 1]);
      StepIsDetermined(cap, trace[..j], ms1[j], trace[j], ms1[k], ms2[k]);
    }
  }

  lemma RunNext(cap: nat, trace: seq<Flow>, ms: seq<Counts>, x: Flow, m: Counts)
    requires IsRun(cap, trace, ms) && Step(cap, trace, ms[|trace|], x, m)
    ensures IsRun(cap, trace + [x], ms + [m])
  {
    var trace', ms' := trace + [x], ms + [m];
    forall k | 0 <= k < |trace'|
      ensures Step(cap, trace'[..k], ms'[k], trace'[k], ms'[k + 1])
    {
      assert trace'[..k] == trace[..k];
      if k < |trace| {
        assert Step(cap, trace[..k], ms[k], trace[k], ms[k + 1]);
      } else {
        assert trace[..k] == trace;
      }
    }
  }

  // m is the table after the packets of trace.
  ghost predicate LeadsTo(cap: nat, trace: seq<Flow>, m: Counts) {
    exists ms :: IsRun(cap, trace, ms) && ms[|trace|] == m
  }

  lemma LeadsToNothing(cap: nat)
    ensures LeadsTo(cap, [], map[])
  {
    assert IsRun(cap, [], [map[]]);
  }

  lemma LeadsToNext(cap: nat, trace: seq<Flow>, m: Counts, x: Flow, m': Counts)
    requires LeadsTo(cap, trace, m) && Step(cap, trace, m, x, m')
    ensures LeadsTo(cap, trace + [x], m')
  {
    var ms :| IsRun(cap, trace, ms) && ms[|trace|] == m;
    RunNext(cap, trace, ms, x, m');
  }

  lemma LeadsToOne(cap: nat, trace: seq<Flow>, m1: Counts, m2: Counts)
    requires LeadsTo(cap, trace, m1) && LeadsTo(cap, trace, m2)
    ensures m1 == m2
  {
    var ms1 :| IsRun(cap, trace, ms1) && ms1[|trace|] == m1;
    var ms2 :| IsRun(cap, trace, ms2) && ms2[|trace|] == m2;
    TablesAreDetermined(cap, trace, ms1, ms2);
  }

  lemma LeadsToBounds(cap: nat, trace: seq<Flow>, m: Counts)
    requires 0 < cap && LeadsTo(cap, trace, m)
    ensures Bounds(cap, trace, m)
  {
    var ms :| IsRun(cap, trace, ms) && ms[|trace|] == m;
    RunBounds(cap, trace, ms, |trace|);
    assert trace[..|trace|] == trace;
  }

  // date tells for every flow of m when it was linked last, in the order of the packets.
  ghost predicate InOrder(trace: seq<Flow>, m: Counts, date: map<Flow, int>) {
    forall f, g {:trigger DatesAgree(trace, date, f, g)} :: f in m && g in m ==> DatesAgree(trace, date, f, g)
  }

  ghost predicate DatesAgree(trace: seq<Flow>, date: map<Flow, int>, f: Flow, g: Flow) {
    f in date && g in date && date[f] < date[g] ==> LastAt(trace, f) < LastAt(trace, g)
  }

  // Of the flows with the count of y, y was linked last.
  ghost predicate IsNewest(m: Counts, date: map<Flow, int>, y: Flow) {
    y in m && forall f :: f in m && m[f] == m[y] && f != y ==> f in date && y in date && date[f] < date[y]
  }

  lemma StepFlows(cap: nat, trace: seq<Flow>, m: Counts, x: Flow, m': Counts)
    requires Step(cap, trace, m, x, m')
    ensures forall f :: f in m' ==> f in m || f == x
  {
  }

  lemma OrderNext(trace: seq<Flow>, m: Counts, date: map<Flow, int>, x: Flow, m': Counts, clock: int)
    requires InOrder(trace, m, date) && forall f :: f in m ==> f in date && date[f] < clock
    requires forall f :: f in m' ==> f in m || f == x
    ensures InOrder(trace + [x], m', date[x := clock])
  {
    var trace', date' := trace + [x], date[x := clock];
    assert trace'[..|trace|] == trace;
    forall f, g | f in m' && g in m'
      ensures DatesAgree(trace', date', f, g)
    {
      assert f in m && g in m ==> DatesAgree(trace, date, f, g);
    }
  }

  // Along a run the minimum never decreases and a full table stays full.
  lemma {:induction false} RunFloorMonotone(cap: nat, trace: seq<Flow>, ms: seq<Counts>, j: nat, k: nat)
    requires 0 < cap && IsRun(cap, trace, ms) && j <= k <= |trace|
    ensures Floor(cap, ms[j]) <= Floor(cap, ms[k])
    ensures |ms[j]| == cap ==> |ms[k]| == cap
    decreases k - j
  {
    if j == k {
    } else {
      RunBounds(cap, trace, ms, j);
      CountsArePositive(cap, trace[..j], ms[j]);
      assert Step(cap, trace[..j], ms[j], trace[j], ms[j + 1]);
      StepRaisesFloor(cap, trace[..j], ms[j], trace[j], ms[j + 1]);
      RunBounds(cap, trace, ms, j + 1);
      RunFloorMonotone(cap, trace, ms, j + 1, k);
    }
  }

  // The minimum is at most the average load of a counter.
  lemma FloorAtMostAverage(cap: nat, trace: seq<Flow>, m: Counts)
    requires 0 < cap && Bounds(cap, trace, m)
    ensures cap * Floor(cap, m) <= |trace|
  {
    if |m| == cap {
      var low := FloorWitness(cap, m);
      TotalAtLeast(m, m[low]);
    }
  }

  // A flow with more than total/cap packets is monitored, and its count is off by at
  // most total/cap.
  lemma HeavyFlowIsMonitored(cap: nat, trace: seq<Flow>, m: Counts, f: Flow)
    requires 0 < cap && Bounds(cap, trace, m)
    ensures cap * Occ(trace, f) > |trace| ==> f in m
    ensures f in m ==> cap * (m[f] - Occ(trace, f)) <= |trace|
  {
    FloorAtMostAverage(cap, trace, m);
    assert IsEstimate(cap, trace, m, f);
    if f in m {
      MulMonotone(cap, m[f] - Occ(trace, f), Floor(cap, m));
    } else {
      MulMonotone(cap, Occ(trace, f), Floor(cap, m));
    }
  }

  lemma MulMonotone(c: nat, a: int, b: int)
    requires a <= b
    ensures c * a <= c * b
  {
  }

  // No count exceeds the number of packets, so a run of fewer than n inserts since
  // the last clear keeps every count, and the next one to be opened, below n.
  lemma NextCountBelow(cap: nat, trace: seq<Flow>, m: Counts, x: Flow, n: int)
    requires 0 < cap && Bounds(cap, trace, m) && |trace| + 1 < n
    ensures 0 < NextCount(cap, m, x) < n
  {
    CountsArePositive(cap, trace, m);
    if x in m {
      TotalOfDrop(m, x);
      TotalAtLeast(Drop(m, x), 0);
    } else if |m| == cap {
      FloorAtMostAverage(cap, trace, m);
      var low := FloorWitness(cap, m);
      MulMonotone(Floor(cap, m), 1, cap);
    }
  }
}
