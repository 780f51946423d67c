/** The epoch protocol: batches of inserts, each followed by diff_cmp, which dumps the
    tracker (agent/topk_deal.cpp:18-71, platform/drivers/hal_table_api.cpp:16-24). */
module Offloads {
  import opened Sets
  import opened Flows
  import opened SpaceSavingSpec
  import opened OrderedChains
  import opened StreamSummaries
  import opened SpaceSavings
  import opened TopKDiff

  // The table installed after a batch: the top K of the Space-Saving table of the batch.
  ghost predicate Tracks(cap: nat, k: nat, batch: seq<Flow>, t: seq<Element>) {
    exists m :: LeadsTo(cap, batch, m) && IsTopK(m, k, t)
  }

  lemma TrackedTable(cap: nat, k: nat, batch: seq<Flow>, t: seq<Element>) returns (m: Counts)
    requires 0 < cap && Tracks(cap, k, batch, t)
    ensures Bounds(cap, batch, m) && IsTopK(m, k, t)
  {
    m :| LeadsTo(cap, batch, m) && IsTopK(m, k, t);
    LeadsToBounds(cap, batch, m);
  }

  // A flow with more than 1/cap of the batch is in the table if that has room for every
  // monitored flow, and one with more than 1/(k + 1) of it in any case.
  lemma HeavyFlowIsOffloaded(cap: nat, k: nat, batch: seq<Flow>, t: seq<Element>, f: Flow)
    requires 0 < cap && Tracks(cap, k, batch, t)
    requires (if cap <= k then cap else k + 1) * Occ(batch, f) > |batch|
    ensures f in Ids(t)
  {
    var m := TrackedTable(cap, k, batch, t);
    if f !in m {
      UnmonitoredIsLight(cap, if cap <= k then cap else k + 1, batch, m, f);
    } else if |m| <= k {
      TopKIsAll(m, k, t);
    } else if f !in Ids(t) {
      OmittedIsLight(cap, k, batch, m, t, f);
    }
  }

  lemma UnmonitoredIsLight(cap: nat, n: nat, batch: seq<Flow>, m: Counts, f: Flow)
    requires 0 < cap && n <= cap && Bounds(cap, batch, m) && f !in m
    ensures n * Occ(batch, f) <= |batch|
  {
    HeavyFlowIsMonitored(cap, batch, m, f);
    ScaleUp(n, cap, Occ(batch, f));
  }

  lemma OmittedIsLight(cap: nat, k: nat, batch: seq<Flow>, m: Counts, t: seq<Element>, f: Flow)
    requires Bounds(cap, batch, m) && IsTopK(m, k, t) && |m| > k && f in m && f !in Ids(t)
    ensures (k + 1) * Occ(batch, f) <= |batch|
  {
    CountsArePositive(cap, batch, m);
    OmittedIsBelowAll(m, k, t, f);
    assert IsEstimate(cap, batch, m, f);
    MulMonotone(k + 1, Occ(batch, f), m[f]);
  }

  lemma ScaleUp(a: int, b: int, c: nat)
    requires a <= b
    ensures a * c <= b * c
  {
  }

  // k flows of the table and an omitted one share the total.
  lemma OmittedIsBelowAll(m: Counts, k: nat, t: seq<Element>, f: Flow)
    requires IsTopK(m, k, t) && |m| > k && f in m && f !in Ids(t) && forall g :: g in m ==> 0 <= m[g]
    ensures (k + 1) * m[f] <= Total(m)
  {
    TableFlows(m, k, t);
    forall g | g in Ids(t)
      ensures m[f] <= m[g]
    {
      OmittedIsBelow(m, k, t, f, g);
    }
    var rows := Ids(t) + {f};
    assert |rows| == k + 1;
    TotalOverRows(m, rows, m[f]);
  }

  lemma OmittedIsBelow(m: Counts, k: nat, t: seq<Element>, f: Flow, g: Flow)
    requires IsTopK(m, k, t) && f in m && f !in Ids(t) && g in Ids(t)
    ensures g in m && m[f] <= m[g]
  {
    var i :| 0 <= i < |t| && t[i].flowId == g;
    assert t[i] in t;
  }

  // A flow left out is no heavier, up to the error of the counters, than any flow kept.
  lemma OmittedFlowIsLight(cap: nat, k: nat, batch: seq<Flow>, t: seq<Element>, e: Element, f: Flow)
    requires 0 < cap && Tracks(cap, k, batch, t)
    requires e in t && f !in Ids(t)
    ensures cap * Occ(batch, f) <= cap * Occ(batch, e.flowId) + |batch|
  {
    var m := TrackedTable(cap, k, batch, t);
    FloorAtMostAverage(cap, batch, m);
    var x := Occ(batch, f);
    var y := Occ(batch, e.flowId);
    assert IsEstimate(cap, batch, m, f) && IsEstimate(cap, batch, m, e.flowId);
    assert x <= y + Floor(cap, m);
    ScaleBound(cap, x, y, Floor(cap, m), |batch|);
  }

  lemma ScaleBound(c: nat, x: int, y: int, d: int, total: int)
    requires x <= y + d && c * d <= total
    ensures c * x <= c * y + total
  {
  }

  // A top-k table lists as many flows as it has rows, all of them monitored.
  lemma TableFlows(m: Counts, k: nat, t: seq<Element>)
    requires IsTopK(m, k, t)
    ensures |Ids(t)| == |t| && Ids(t) <= m.Keys
  {
    var ids := seq(|t|, i requires 0 <= i < |t| => t[i].flowId);
    assert NoDuplicates(ids) by {
      forall i, j | 0 <= i < j < |t|
        ensures ids[i] != ids[j]
      {
        LessIsStrictTotalOrder(t[i].flowId, t[j].flowId, t[i].flowId);
      }
    }
    NoDuplicatesSize(ids);
    assert Elements(ids) == Ids(t) by {
      forall f | f in Ids(t)
        ensures f in ids
      {
        var i :| 0 <= i < |t| && t[i].flowId == f;
        assert ids[i] == f;
      }
    }
    forall f | f in Ids(t)
      ensures f in m
    {
      var i :| 0 <= i < |t| && t[i].flowId == f;
      assert t[i] in t;
    }
  }

  lemma TopKIsAll(m: Counts, k: nat, t: seq<Element>)
    requires IsTopK(m, k, t) && |m| <= k
    ensures Ids(t) == m.Keys
  {
    TableFlows(m, k, t);
    SubsetOfSameSize(Ids(t), m.Keys);
  }

  class Offload {
    const tracker: SpaceSaving
    const oldTable: FlowTable
    const newTable: FlowTable
    var log: seq<Op>  // every shc_swTohw_rule call so far

    // The two row buffers, which a dump swaps.
    ghost function Buffers(): set<object>
      reads oldTable, newTable
    {
      {oldTable.data, newTable.data}
    }

    ghost function Repr(): set<object>
      reads oldTable, newTable
    {
      tracker.Repr() + {this, oldTable, newTable} + Buffers()
    }

    // What holds between epochs, whether or not the tracker survived its last clear.
    ghost predicate InSync()
      reads this, oldTable, newTable, newTable.data
    {
      && Apart()
      && SortedById(newTable.Rows())
      && Replay({}, log) == Ids(newTable.Rows())
    }

    // The two tables have room for a dump and share nothing with the tracker.
    ghost predicate Apart()
      reads oldTable, newTable
    {
      && oldTable.Valid() && newTable.Valid()
      && Separate(oldTable, newTable, tracker.Repr() + {this}) && this !in tracker.Repr()
      && tracker.K <= oldTable.data.Length && tracker.K <= newTable.data.Length
    }

    constructor (t: SpaceSaving, tableSize: nat)
      requires t.Fits() && t.K <= tableSize
      ensures InSync() && tracker == t && log == []
      ensures fresh(oldTable) && fresh(newTable) && fresh(oldTable.data) && fresh(newTable.data)
    {
      tracker, log := t, [];
      oldTable := new FlowTable(tableSize);
      newTable := new FlowTable(tableSize);
    }

    // diff_cmp(): the log grows by exactly the difference of the two tables.
    method DiffCmp()
      requires InSync() && tracker.Valid()
      modifies Repr()
      ensures InSync() && old(log) <= log
      ensures IsDiff(old(Ids(newTable.Rows())), Ids(newTable.Rows()), log[|old(log)|..])
      ensures oldTable.data == old(newTable.data) && newTable.data == old(oldTable.data)
      ensures IsTopK(old(tracker.ss.counts), tracker.K, newTable.Rows())
      ensures tracker.trace == []
      ensures tracker.Valid() <==> old(tracker.ClearsAll())
    {
      tracker.TopKDump(oldTable, newTable);
      EmitDiff();
    }

    method EmitDiff()
      requires Apart()
      requires SortedById(oldTable.Rows()) && SortedById(newTable.Rows())
      requires Replay({}, log) == Ids(oldTable.Rows())
      modifies `log
      ensures InSync() && tracker.Valid() == old(tracker.Valid())
      ensures old(log) <= log && IsDiff(Ids(oldTable.Rows()), Ids(newTable.Rows()), log[|old(log)|..])
      ensures |log| == |old(log)| + |Ids(oldTable.Rows()) - Ids(newTable.Rows())| +
                                    |Ids(newTable.Rows()) - Ids(oldTable.Rows())|
    {
      var ops := Diff(oldTable, newTable);
      ReplayConcat({}, log, ops);
      OpCount(Ids(oldTable.Rows()), Ids(newTable.Rows()), ops);
      log := log + ops;
    }

    // One epoch. The installed set equals the newest table even if the tracker is
    // corrupted by the clear at the end; it survives exactly if that clear is complete.
    method Epoch(batch: seq<Flow>) returns (ghost m: Counts)
      requires InSync() && tracker.Valid() && tracker.trace == [] && tracker.ableToInsert
      requires |batch| < tracker.ss.N
      modifies Repr()
      ensures InSync() && tracker.trace == [] && old(log) <= log
      ensures IsDiff(old(Ids(newTable.Rows())), Ids(newTable.Rows()), log[|old(log)|..])
      ensures oldTable.data == old(newTable.data) && newTable.data == old(oldTable.data)
      ensures LeadsTo(tracker.M2, batch, m) && IsTopK(m, tracker.K, newTable.Rows())
      ensures tracker.Valid() <==> tracker.ss.wipe || forall f :: f in m ==> tracker.ss.location(f) == 0
    {
      InsertAll(batch);
      m := tracker.ss.counts;
      DiffCmp();
    }

    method InsertAll(batch: seq<Flow>)
      requires tracker.Valid() && tracker.trace == [] && tracker.ableToInsert
      requires |batch| < tracker.ss.N
      modifies tracker.Repr()
      ensures tracker.Valid() && tracker.trace == batch
    {
      for i := 0 to |batch|
        invariant tracker.Valid() && tracker.trace == batch[..i]
      {
        InsertNext(batch[i]);
        assert batch[..i + 1] == batch[..i] + [batch[i]];
      }
      assert batch[..|batch|] == batch;
    }

    method InsertNext(x: Flow)
      requires tracker.Valid() && tracker.ableToInsert && |tracker.trace| + 1 < tracker.ss.N
      modifies tracker.Repr()
      ensures tracker.Valid() && tracker.trace == old(tracker.trace) + [x]
    {
      tracker.CountsAreBounded();
      NextCountBelow(tracker.M2, tracker.trace, tracker.ss.counts, x, tracker.ss.N);
      var _ := tracker.Insert(x);
    }

    // A batch of fewer than N packets of which nothing is left in the hash index by the clear
    // at its end.
    ghost predicate IsSmall(batch: seq<Flow>) { |batch| < tracker.ss.N && IsCleared(batch) }

    ghost predicate IsCleared(batch: seq<Flow>) {
      tracker.ss.wipe || forall f :: f in batch ==> tracker.ss.location(f) == 0
    }

    // Any number of epochs, with a clear that wipes the whole hash index, or as written
    // with flows that all hash to slot 0: each installs the table of its own batch, by the
    // difference to the table before and nothing else.
    method Run(batches: seq<seq<Flow>>) returns (ghost tables: seq<seq<Element>>, ghost parts: seq<seq<Op>>)
      requires InSync() && tracker.Valid() && tracker.trace == [] && tracker.ableToInsert
      requires forall b {:trigger IsSmall(b)} :: b in batches ==> IsSmall(b)
      modifies Repr()
      ensures InSync() && tracker.Valid()
      ensures tracker.trace == [] && oldTable.data in old(Buffers()) && newTable.data in old(Buffers())
      ensures HaveRun(tracker.M2, tracker.K, batches, old(Ids(newTable.Rows())), tables, parts)
      ensures Installed(old(Ids(newTable.Rows())), tables) == Ids(newTable.Rows())
      ensures log == old(log) + Flatten(parts)
    {
      if batches == [] {
        return [], [];
      }
      var init, last := batches[..|batches| - 1], batches[|batches| - 1];
      assert IsSmall(last) && batches == init + [last];
      ghost var start, log0 := Ids(newTable.Rows()), log;
      ghost var ts, ps := Run(init);
      ghost var part := EpochPart(last);
      tables, parts := HaveRunNext(tracker.M2, tracker.K, init, start, log0, ts, ps, last, newTable.Rows(), part);
    }

    // An epoch whose clear is complete.
    method EpochPart(batch: seq<Flow>) returns (ghost part: seq<Op>)
      requires InSync() && tracker.Valid() && tracker.trace == [] && tracker.ableToInsert
      requires IsSmall(batch)
      modifies Repr()
      ensures InSync() && tracker.Valid() && tracker.trace == []
      ensures oldTable.data == old(newTable.data) && newTable.data == old(oldTable.data)
      ensures Tracks(tracker.M2, tracker.K, batch, newTable.Rows())
      ensures IsDiff(old(Ids(newTable.Rows())), Ids(newTable.Rows()), part) && log == old(log) + part
    {
      ghost var m := Epoch(batch);
      MonitoredOccur(tracker.M2, batch, m);
      part := log[|old(log)|..];
    }
  }

  // A monitored flow is one of the batch.
  lemma MonitoredOccur(cap: nat, batch: seq<Flow>, m: Counts)
    requires 0 < cap && LeadsTo(cap, batch, m)
    ensures forall f :: f in m ==> f in batch
  {
    LeadsToBounds(cap, batch, m);
    forall f | f in m
      ensures f in batch
    {
      assert IsEstimate(cap, batch, m, f);
      OccIsMember(batch, f);
    }
  }

  function Flatten(parts: seq<seq<Op>>): seq<Op> {
    if parts == [] then [] else Flatten(parts[..|parts| - 1]) + parts[|parts| - 1]
  }

  // What is installed after the epochs that dumped the given tables.
  ghost function Installed(start: set<Flow>, tables: seq<seq<Element>>): set<Flow> {
    if tables == [] then start else Ids(tables[|tables| - 1])
  }

  // One table for every batch, and the difference of each to the one before.
  ghost predicate HaveRun(cap: nat, k: nat, batches: seq<seq<Flow>>, start: set<Flow>, tables: seq<seq<Element>>,
                          parts: seq<seq<Op>>) {
    && |tables| == |parts| == |batches|
    && (batches == [] ||
        var n := |batches| - 1;
        && HaveRun(cap, k, batches[..n], start, tables[..n], parts[..n])
        && Tracks(cap, k, batches[n], tables[n])
        && IsDiff(Installed(start, tables[..n]), Ids(tables[n]), parts[n]))
  }

  lemma HaveRunNext(cap: nat, k: nat, batches: seq<seq<Flow>>, start: set<Flow>, log: seq<Op>,
                    tables: seq<seq<Element>>, parts: seq<seq<Op>>, batch: seq<Flow>, t: seq<Element>, part: seq<Op>)
    returns (tables': seq<seq<Element>>, parts': seq<seq<Op>>)
    requires HaveRun(cap, k, batches, start, tables, parts)
    requires Tracks(cap, k, batch, t) && IsDiff(Installed(start, tables), Ids(t), part)
    ensures HaveRun(cap, k, batches + [batch], start, tables', parts') && Installed(start, tables') == Ids(t)
    ensures (log + Flatten(parts)) + part == log + Flatten(parts')
  {
    var n := |batches|;
    tables', parts' := tables + [t], parts + [part];
    assert (batches + [batch])[..n] == batches && tables'[..n] == tables && parts'[..n] == parts;
    assert Flatten(parts') == Flatten(parts) + part;
  }

  lemma {:induction false} RanPrefix(cap: nat, k: nat, batches: seq<seq<Flow>>, start: set<Flow>,
                                     tables: seq<seq<Element>>, parts: seq<seq<Op>>, i: nat)
    requires HaveRun(cap, k, batches, start, tables, parts) && i <= |batches|
    ensures |tables| == |parts| == |batches|
    ensures HaveRun(cap, k, batches[..i], start, tables[..i], parts[..i])
  {
    if i == |batches| {
      assert batches[..i] == batches && tables[..i] == tables && parts[..i] == parts;
    } else {
      var n := |batches| - 1;
      var bs, ts, ps := batches[..n], tables[..n], parts[..n];
      RanPrefix(cap, k, bs, start, ts, ps, i);
      assert bs[..i] == batches[..i] && ts[..i] == tables[..i] && ps[..i] == parts[..i];
    }
  }

  // Every epoch, not only the last, installed the table of its batch.
  lemma RanAt(cap: nat, k: nat, batches: seq<seq<Flow>>, log: seq<Op>, tables: seq<seq<Element>>,
              parts: seq<seq<Op>>, i: nat)
    requires HaveRun(cap, k, batches, Replay({}, log), tables, parts) && i < |batches|
    ensures |tables| == |parts| == |batches| && Tracks(cap, k, batches[i], tables[i])
    ensures IsDiff(Installed(Replay({}, log), tables[..i]), Ids(tables[i]), parts[i])
    ensures Replay({}, log + Flatten(parts[..i + 1])) == Ids(tables[i])
  {
    RanPrefix(cap, k, batches, Replay({}, log), tables, parts, i + 1);
    var bs, ts, ps := batches[..i + 1], tables[..i + 1], parts[..i + 1];
    InstalledIs(cap, k, bs, log, ts, ps);
    assert ts[..i] == tables[..i] && bs[i] == batches[i] && ts[i] == tables[i] && ps[i] == parts[i];
  }

  lemma {:induction false} InstalledIs(cap: nat, k: nat, batches: seq<seq<Flow>>, log: seq<Op>,
                                       tables: seq<seq<Element>>, parts: seq<seq<Op>>)
    requires HaveRun(cap, k, batches, Replay({}, log), tables, parts)
    ensures Replay({}, log + Flatten(parts)) == Installed(Replay({}, log), tables)
  {
    if batches == [] {
      assert log + Flatten(parts) == log;
    } else {
      var n := |batches| - 1;
      var ts, ps := tables[..n], parts[..n];
      InstalledIs(cap, k, batches[..n], log, ts, ps);
      InstalledNext(log, ps, parts[n], Installed(Replay({}, log), ts), Ids(tables[n]));
      assert parts == ps + [parts[n]];
    }
  }

  lemma InstalledNext(log: seq<Op>, parts: seq<seq<Op>>, part: seq<Op>, o: set<Flow>, n: set<Flow>)
    requires Replay({}, log + Flatten(parts)) == o && IsDiff(o, n, part)
    ensures Replay({}, log + Flatten(parts + [part])) == n
  {
    assert (parts + [part])[..|parts|] == parts;
    assert log + Flatten(parts + [part]) == (log + Flatten(parts)) + part;
    ReplayConcat({}, log + Flatten(parts), part);
    DiffReplays(o, n, part);
  }

  // With clear() as written the property above does fail: after one packet of a flow
  // that hashes to slot 1 and one dump, nothing is monitored, yet the first element
  // find() probes for that flow still holds it, and it is the one getid() hands out next.
  method StaleIndexAfterDump(x: Flow) returns (t: SpaceSaving)
    ensures t.ss.tot == 0 && t.ss.counts == map[] && !t.Valid()
    ensures t.ss.head2.Length > 1 && 0 < t.ss.head2[1] < t.ss.flow.Length
    ensures t.ss.location(x) == 1 && t.ss.flow[t.ss.head2[1]] == x
    ensures t.ss.FullStack() && t.ss.head2[1] == t.ss.ids[t.ss.num] && t.ss.len2 > 1
    ensures fresh(t.Repr())
  {
    t := OneFlow(x);
    Indexed(t, x);
    ghost var h := t.ss.head2[1];
    assert t.ss.flow[..][h] == x;
    var oldT, newT := TwoTables(t.Repr());
    t.TopKDump(oldT, newT);
    assert t.ss.flow[..][h] == x;
  }

  // The element i + n places down a chain.
  function Down(next: seq<int>, i: int, n: nat): int
    decreases n
  {
    if n == 0 || !(0 <= i < |next|) then i else Down(next, next[i], n - 1)
  }

  lemma {:induction false} NeverLeaves(next: seq<int>, i: int, n: nat)
    requires 0 < i < |next| && next[i] == i
    ensures Down(next, i, n) == i
  {
    if n == 0 {
    } else {
      NeverLeaves(next, i, n - 1);
    }
  }

  // The next flow of slot 1 is then indexed behind itself, and the walk of find() for a third
  // one does not end.
  method LoopAfterDump(x: Flow) returns (t: SpaceSaving)
    ensures t.ss.len2 > 1 && t.ss.head2.Length > 1 && 0 < t.ss.head2[1]
    ensures forall n: nat :: Down(t.ss.next2[..], t.ss.head2[1], n) == t.ss.head2[1]
  {
    t := StaleIndexAfterDump(x);
    ghost var h := t.ss.head2[1];
    t.ss.AddIndex(1, t.ss.ids[t.ss.num]);
    assert t.ss.next2[..][h] == h && t.ss.head2[..][1] == h;
    forall n: nat
      ensures Down(t.ss.next2[..], h, n) == h
    {
      NeverLeaves(t.ss.next2[..], h, n);
    }
  }

  method OneFlow(x: Flow) returns (t: SpaceSaving)
    ensures t.Valid() && t.K == 1 && !t.ss.wipe && t.ss.counts.Keys == {x} && t.ss.location(x) == 1
    ensures fresh(t.Repr()) && !t.ClearsAll() && x in t.ss.owner && t.ss.owner[x] == t.ss.M + 2
  {
    t := new SpaceSaving(10, 1, 1, 2, (_: Flow) => 1, false, 1, 1);
    var _ := t.Insert(x);
    assert x in t.ss.counts;
  }

  // NextCountBelow is tight: N packets of one flow reach the right sentinel.
  method OverrunAfterN(x: Flow, n: nat) returns (t: SpaceSaving)
    requires 0 < n
    ensures t.ss.N == n && |t.trace| == n && t.ss.Broken() && !t.Valid()
  {
    t := new SpaceSaving(n, 1, 1, 1, (_: Flow) => 0, false, 1, 1);
    for i := 0 to n - 1
      invariant t.Valid() && t.ableToInsert && t.M2 == 1 && t.ss.N == n && fresh(t.Repr())
      invariant |t.trace| == i && t.ss.counts == OneCount(x, i)
    {
      InsertSame(t, x, i);
    }
    OneMorePacket(t.trace, x, n - 1);
    var _ := t.Insert(x);
  }

  // The table after i packets of flow x.
  ghost function OneCount(x: Flow, i: nat): Counts { if i == 0 then map[] else map[x := i] }

  method InsertSame(t: SpaceSaving, x: Flow, i: nat)
    requires t.Valid() && t.ableToInsert && t.M2 == 1 && t.ss.counts == OneCount(x, i) && i + 1 < t.ss.N
    modifies t.Repr()
    ensures t.Valid() && t.ss.counts == OneCount(x, i + 1) && |t.trace| == |old(t.trace)| + 1
  {
    ghost var trace := t.trace;
    OneMorePacket(trace, x, i);
    var _ := t.Insert(x);
    assert Step(1, trace, OneCount(x, i), x, t.ss.counts);
  }

  lemma OneMorePacket(trace: seq<Flow>, x: Flow, i: nat)
    ensures NextCount(1, OneCount(x, i), x) == i + 1
    ensures forall m {:trigger Step(1, trace, OneCount(x, i), x, m)} :: Step(1, trace, OneCount(x, i), x, m) ==>
              m == OneCount(x, i + 1)
  {
  }

  method TwoTables(ghost others: set<object>) returns (oldT: FlowTable, newT: FlowTable)
    ensures oldT.Valid() && newT.Valid() && Separate(oldT, newT, others)
    ensures oldT.data.Length == newT.data.Length == 1
    ensures fresh(oldT) && fresh(newT) && fresh(oldT.data) && fresh(newT.data)
  {
    oldT := new FlowTable(1);
    newT := new FlowTable(1);
  }

  lemma Indexed(t: SpaceSaving, x: Flow)
    requires t.Valid() && t.ss.counts.Keys == {x} && t.ss.location(x) == 1
    ensures 1 < t.ss.len2 && 0 < t.ss.head2[1] < t.ss.flow.Length && t.ss.flow[t.ss.head2[1]] == x
    ensures x in t.ss.owner && t.ss.head2[1] == t.ss.owner[x]
  {
    var ss := t.ss;
    assert IsOwned(ss.owner, ss.linked, ss.flow[..], x);
    assert InSlot(ss.location, ss.slot, ss.flow[..], ss.owner[x]);
    assert IsTop(ss.indexed, ss.slot, ss.stamp2, 1, ss.head2[..][1]);
    var h := ss.head2[1];
    assert IsRow(ss.counts, ss.owner, ss.flow[..], ss.sum[..], h);
  }
}
