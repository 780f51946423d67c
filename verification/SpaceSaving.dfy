/** The Space-Saving tracker (class spacesaving of
    platform/drivers/top_k/space_saving.cpp): packet insertion and the top-K dump. */
module SpaceSavings {
  import opened Sets
  import opened Flows
  import opened SpaceSavingSpec
  import opened OrderedChains
  import opened BucketList
  import opened StreamSummaries
  import opened Sorting

  // rows lists each monitored flow once, with its count.
  ghost predicate Lists(m: Counts, rows: seq<Element>) {
    && NoDuplicates(rows)
    && forall e :: e in rows <==> e.flowId in m && m[e.flowId] == e.count
  }

  // t holds min(|m|, k) flows of m by increasing flow id, and no flow outside t has a
  // larger count than one inside.
  ghost predicate IsTopK(m: Counts, k: nat, t: seq<Element>) {
    && SortedById(t)
    && (forall e :: e in t ==> e.flowId in m && m[e.flowId] == e.count)
    && |t| == (if |m| <= k then |m| else k)
    && forall e, g :: e in t && g in m && g !in Ids(t) ==> m[g] <= e.count
  }

  predicate MoreCount(a: Element, b: Element) { a.count > b.count }

  predicate LessId(a: Element, b: Element) { a.flowId.Less(b.flowId) }

  // Evicting a least flow, the newest of them, right after x entered at min + 1 removes the
  // least flow of the table before whose last packet is the latest, never x.
  lemma {:induction false} EvictAfterAdmit(cap: nat, trace: seq<Flow>, m: Counts, date: map<Flow, int>,
                                           x: Flow, now: int, y: Flow)
    requires 0 < cap && |m| == cap && x !in m && InOrder(trace, m, date)
    requires IsMin(m[x := Floor(cap, m) + 1], y) && IsNewest(m[x := Floor(cap, m) + 1], date[x := now], y)
    ensures Step(cap, trace, m, x, Drop(m[x := Floor(cap, m) + 1], y))
  {
    LeastAfterAdmit(cap, m, x, y);
    NewestIsVictim(trace, m, date, x, Floor(cap, m) + 1, now, y);
    assert IsVictim(trace, m, y);
  }

  lemma LeastAfterAdmit(cap: nat, m: Counts, x: Flow, y: Flow)
    requires 0 < cap && |m| == cap && x !in m && IsMin(m[x := Floor(cap, m) + 1], y)
    ensures y != x && IsMin(m, y) && m[y] == Floor(cap, m)
    ensures Drop(m[x := Floor(cap, m) + 1], y) == Drop(m, y)[x := m[y] + 1]
  {
    var m1 := m[x := Floor(cap, m) + 1];
    var low := FloorWitness(cap, m);
    assert low in m1 && m1[low] == Floor(cap, m);
  }

  lemma {:induction false} NewestIsVictim(trace: seq<Flow>, m: Counts, date: map<Flow, int>,
                                          x: Flow, c: int, now: int, y: Flow)
    requires x !in m && y in m && IsMin(m, y) && InOrder(trace, m, date)
    requires IsNewest(m[x := c], date[x := now], y)
    ensures IsVictim(trace, m, y)
  {
    forall f | f in m && m[f] == m[y] && f != y
      ensures LastAt(trace, f) < LastAt(trace, y)
    {
      assert m[x := c][f] == m[x := c][y] && DatesAgree(trace, date, f, y);
    }
  }

  lemma ListsSize(m: Counts, rows: seq<Element>)
    requires Lists(m, rows)
    ensures |rows| == |m|
  {
    var ids := seq(|rows|, i requires 0 <= i < |rows| => rows[i].flowId);
    assert NoDuplicates(ids) by {
      forall i, j | 0 <= i < j < |rows|
        ensures ids[i] != ids[j]
      {
        assert rows[i] in rows && rows[j] in rows;
      }
    }
    assert Elements(ids) == m.Keys by {
      forall f | f in m
        ensures f in ids
      {
        assert Element(f, m[f]) in rows;
        var i :| 0 <= i < |rows| && rows[i] == Element(f, m[f]);
        assert ids[i] == f;
      }
      forall f | f in ids
        ensures f in m
      {
        var i :| 0 <= i < |rows| && ids[i] == f;
        assert rows[i] in rows;
      }
    }
    NoDuplicatesSize(ids);
  }

  // The first k rows of a listing sorted by decreasing count, sorted by flow id, are
  // a top-k table.
  lemma PrefixIsTopK(m: Counts, rows: seq<Element>, k: nat, t: seq<Element>)
    requires Lists(m, rows) && Ordered(rows, MoreCount)
    requires var n := if |rows| <= k then |rows| else k;
             multiset(t) == multiset(rows[..n]) && Ordered(t, LessId)
    ensures IsTopK(m, k, t)
  {
    var n := if |rows| <= k then |rows| else k;
    ListsSize(m, rows);
    PermutationFacts(rows[..n], t);
    assert NoDuplicates(rows[..n]);
    forall i, j | 0 <= i < j < |t|
      ensures t[i].flowId.Less(t[j].flowId)
    {
      assert t[i] in rows[..n] && t[j] in rows[..n];
      assert !LessId(t[j], t[i]);
      assert t[i].flowId != t[j].flowId;
      LessIsStrictTotalOrder(t[i].flowId, t[j].flowId, t[i].flowId);
    }
    forall i | 0 <= i < n
      ensures rows[i] in t && rows[i].flowId in Ids(t)
    {
      assert rows[..n][i] == rows[i];
    }
    forall e, g | e in t && g in m && g !in Ids(t)
      ensures m[g] <= e.count
    {
      var r := Element(g, m[g]);
      assert r in rows;
      var i :| 0 <= i < |rows| && rows[i] == r;
      assert e in rows[..n];
      var j :| 0 <= j < n && rows[..n][j] == e;
      assert !MoreCount(rows[i], rows[j]);
    }
  }

  // Element k comes before element j of bucket i in the walk of work(): larger counts
  // first, later links first. With j = 0 all of bucket i comes before.
  ghost predicate Earlier(sum: seq<int>, stamp: seq<int>, i: int, j: int, k: int)
    requires |sum| == |stamp| && 0 <= j < |sum| && 0 <= k < |sum|
  {
    sum[k] > i || (sum[k] == i && (j == 0 || stamp[k] > stamp[j]))
  }

  // visited are the elements the walk has copied into rows when it stands at element j
  // of bucket i.
  ghost predicate Walked(linked: set<int>, sum: seq<int>, stamp: seq<int>, flow: seq<Flow>,
                         visited: seq<int>, rows: seq<Element>, i: int, j: int)
  {
    && |sum| == |stamp| == |flow| && |visited| == |rows|
    && (forall k :: k in linked ==> 0 < k < |sum|)
    && (j == 0 || (j in linked && sum[j] == i)) && 0 <= j < |sum|
    && NoDuplicates(visited)
    && (forall n :: 0 <= n < |visited| ==>
          visited[n] in linked && rows[n] == Element(flow[visited[n]], sum[visited[n]]))
    && (forall k :: k in linked ==> (k in visited <==> Earlier(sum, stamp, i, j, k)))
    && (forall a, b :: 0 <= a < b < |rows| ==> rows[a].count >= rows[b].count)
  }

  lemma WalkNext(linked: set<int>, sum: seq<int>, stamp: seq<int>, flow: seq<Flow>,
                 visited: seq<int>, rows: seq<Element>, i: int, j: int, j': int, keys: int)
    requires Walked(linked, sum, stamp, flow, visited, rows, i, j) && j != 0
    requires Members(keys, linked, sum, stamp) && IsBelow(linked, sum, stamp, j, j')
    ensures |visited| < |linked|
    ensures Walked(linked, sum, stamp, flow, visited + [j], rows + [Element(flow[j], sum[j])], i, j')
  {
    assert j !in visited by { assert !Earlier(sum, stamp, i, j, j); }
    NoDuplicatesSize(visited);
    SubsetSize(Elements(visited), linked - {j});
    var visited', rows' := visited + [j], rows + [Element(flow[j], sum[j])];
    forall k | k in linked
      ensures k in visited' <==> Earlier(sum, stamp, i, j', k)
    {
      assert k in visited' <==> k in visited || k == j;
    }
    forall a | 0 <= a < |rows|
      ensures rows[a].count >= sum[j]
    {
      assert visited[a] in visited;
    }
  }

  lemma WalkDown(linked: set<int>, sum: seq<int>, stamp: seq<int>, flow: seq<Flow>,
                 visited: seq<int>, rows: seq<Element>, buckets: set<int>, i: int, i': int, h: int)
    requires Walked(linked, sum, stamp, flow, visited, rows, i, 0)
    requires IsPred(buckets, i, i') && forall k :: k in linked ==> sum[k] in buckets
    requires IsTop(linked, sum, stamp, i', h)
    ensures Walked(linked, sum, stamp, flow, visited, rows, i', h)
  {
  }

  // A finished walk has listed the whole table, by nonincreasing count.
  lemma WalkDone(m: Counts, owner: map<Flow, int>, linked: set<int>, sum: seq<int>, stamp: seq<int>, flow: seq<Flow>,
                 visited: seq<int>, rows: seq<Element>, i: int)
    requires Walked(linked, sum, stamp, flow, visited, rows, i, 0)
    requires IsTable(m, owner, linked, flow, sum) && forall k :: k in linked ==> i < sum[k]
    ensures Lists(m, rows) && Ordered(rows, MoreCount)
  {
    forall k | k in linked
      ensures k in visited && IsRow(m, owner, flow, sum, k)
    {
      assert Earlier(sum, stamp, i, 0, k);
    }
    forall a, b | 0 <= a < b < |rows|
      ensures rows[a] != rows[b]
    {
      assert visited[a] in linked && visited[b] in linked;
    }
    forall e
      ensures e in rows <==> e.flowId in m && m[e.flowId] == e.count
    {
      if e.flowId in m && m[e.flowId] == e.count {
        assert IsOwned(owner, linked, flow, e.flowId);
        var k := owner[e.flowId];
        var n :| 0 <= n < |visited| && visited[n] == k;
        assert rows[n] == e;
      }
    }
  }

  class FlowTable {
    var data: array<Element>
    var used: nat

    constructor (size: nat)
      ensures used == 0 && data.Length == size && fresh(data)
    {
      used := 0;
      data := new Element[size];
    }

    ghost predicate Valid()
      reads this
    {
      used <= data.Length
    }

    ghost function Rows(): seq<Element>
      reads this, data
      requires Valid()
    {
      data[..used]
    }
  }

  ghost predicate Separate(a: FlowTable, b: FlowTable, others: set<object>)
    reads a, b
  {
    && a != b && a.data != b.data
    && a !in others && b !in others && a.data !in others && b.data !in others
  }

  class SpaceSaving {
    const ss: StreamSummary
    const M2: nat             // monitored flows
    const K: nat              // rows of the dumped table
    const q: array<Element>   // scratch rows of work()
    var CNT: nat
    var totalPkt: int
    const ableToInsert: bool  // set by the constructor, cleared nowhere
    ghost var trace: seq<Flow>  // flows inserted since the last clear

    ghost predicate Fits()
    {
      && ss.Shape() && ss.K == M2 && 0 < M2 <= ss.M && M2 <= q.Length
      && q as object !in ss.Repr() && this as object !in ss.Repr()
    }

    ghost function Repr(): set<object> {
      ss.Repr() + {this, q}
    }

    ghost predicate Valid()
      reads this, ss.Repr()
    {
      && Fits() && ss.Valid()
      && LeadsTo(M2, trace, ss.counts) && InOrder(trace, ss.counts, ss.date)
      && totalPkt == |trace|
    }

    // The frequency guarantees hold of the present table.
    lemma CountsAreBounded()
      requires Valid()
      ensures Bounds(M2, trace, ss.counts)
    {
      LeadsToBounds(M2, trace, ss.counts);
    }

    constructor (n: nat, m: nat, mem: nat, slots: nat, loc: Flow -> int, wipeAll: bool, m2: nat, k: nat)
      requires 0 < n && 0 < slots && forall f :: 0 <= loc(f) < slots
      requires 0 < m2 <= m && m2 <= mem
      ensures Valid() && fresh(Repr()) && trace == [] && ss.counts == map[] && ss.FullStack()
      ensures M2 == m2 && K == k && ableToInsert
      ensures ss.N == n && ss.len2 == slots && ss.location == loc && ss.wipe == wipeAll
    {
      M2, K, ableToInsert := m2, k, true;
      totalPkt, CNT, trace := 0, 0, [];
      q := new Element[mem];
      ss := new StreamSummary(n, m, m2, slots, loc, wipeAll);
      new;
      Start();
    }

    // The clear() of the constructor, on zeroed storage.
    method Start()
      requires Fits() && totalPkt == 0 && trace == [] && forall w :: 0 <= w < ss.len2 ==> ss.head2[w] == 0
      modifies ss.Repr()
      ensures Valid() && ss.counts == map[] && ss.FullStack()
    {
      ss.Clear();
      LeadsToNothing(M2);
    }

    // The count x gets; the flow of a valid summary that comes next to N is at N - 1.
    lemma NextCountInRange(x: Flow)
      requires Fits() && ss.Valid() && |ss.counts| <= M2
      ensures 0 < NextCount(M2, ss.counts, x) <= ss.N
    {
      if x in ss.counts {
        assert IsOwned(ss.owner, ss.linked, ss.flow[..], x);
        CountInRange(ss.owner[x]);
      } else if |ss.counts| == M2 {
        var low := FloorWitness(M2, ss.counts);
        assert IsOwned(ss.owner, ss.linked, ss.flow[..], low);
        CountInRange(ss.owner[low]);
      }
    }

    lemma CountInRange(p: int)
      requires Fits() && ss.Valid() && p in ss.linked
      ensures 0 < p < ss.flow.Length && 0 < ss.sum[p] < ss.N
      ensures ss.flow[p] in ss.counts && ss.counts[ss.flow[p]] == ss.sum[p]
    {
      ss.BucketOf(p);
      assert IsRow(ss.counts, ss.owner, ss.flow[..], ss.sum[..], p);
    }

    // Insert(): evicted is how often the eviction loop ran. A count that reaches N collides
    // with the right sentinel: the tracker stays valid exactly if that does not happen.
    method Insert(x: Flow) returns (ghost evicted: nat)
      requires Valid()
      modifies this, ss.Repr()
      ensures Valid() <==> !ableToInsert || NextCount(M2, old(ss.counts), x) < ss.N
      ensures !ableToInsert ==> ss.counts == old(ss.counts) && trace == old(trace) && evicted == 0
      ensures ableToInsert ==> trace == old(trace) + [x]
      ensures ableToInsert && NextCount(M2, old(ss.counts), x) < ss.N ==>
                && Step(M2, old(trace), old(ss.counts), x, ss.counts)
                && evicted == if x !in old(ss.counts) && |old(ss.counts)| == M2 then 1 else 0
      ensures ableToInsert && NextCount(M2, old(ss.counts), x) >= ss.N ==> ss.Broken()
      ensures ableToInsert && x !in old(ss.counts) ==> ss.owner == old(ss.owner[x := ss.ids[ss.num]])
    {
      evicted := 0;
      if !ableToInsert {
        return;
      }
      Ready();
      totalPkt := totalPkt + 1;
      ghost var m, date, now := ss.counts, ss.date, ss.clock;
      evicted := Count(x);
      Account(m, date, now, x);
    }

    lemma Ready()
      requires Valid()
      ensures ss.tot == |ss.counts| <= M2 && forall f :: f in ss.counts ==> f in ss.date && ss.date[f] < ss.clock
    {
      CountsAreBounded();
      ss.DatesArePast();
    }

    // The bookkeeping for one more packet, after the summary went from m to its new table.
    ghost method Account(m: Counts, date: map<Flow, int>, now: int, x: Flow)
      requires Fits() && LeadsTo(M2, trace, m) && totalPkt == |trace| + 1
      requires InOrder(trace, m, date) && (forall f :: f in m ==> f in date && date[f] < now)
      requires ss.date == date[x := now]
      requires NextCount(M2, m, x) < ss.N ==> ss.Valid() && Step(M2, trace, m, x, ss.counts)
      requires NextCount(M2, m, x) >= ss.N ==> ss.Broken()
      modifies `trace
      ensures trace == old(trace) + [x]
      ensures Valid() <==> NextCount(M2, m, x) < ss.N
    {
      if NextCount(M2, m, x) < ss.N {
        LeadsToNext(M2, trace, m, x, ss.counts);
        StepFlows(M2, trace, m, x, ss.counts);
        OrderNext(trace, m, date, x, ss.counts, now);
      }
      trace := trace + [x];
      if NextCount(M2, m, x) >= ss.N {
        BrokenIsNotValid();
      }
    }

    // The part of Insert() that touches the summary.
    method Count(x: Flow) returns (ghost evicted: nat)
      requires Fits() && ss.Valid() && |ss.counts| <= M2 && InOrder(trace, ss.counts, ss.date)
      modifies ss.Repr()
      ensures NextCount(M2, old(ss.counts), x) < ss.N ==>
                && ss.Valid() && Step(M2, trace, old(ss.counts), x, ss.counts)
                && evicted == if x !in old(ss.counts) && |old(ss.counts)| == M2 then 1 else 0
      ensures NextCount(M2, old(ss.counts), x) >= ss.N ==> ss.Broken()
      ensures ss.date == old(ss.date[x := ss.clock])
      ensures x !in old(ss.counts) ==> ss.owner == old(ss.owner[x := ss.ids[ss.num]])
    {
      var p := ss.Find(x);
      if p == 0 {
        evicted := CountNew(x);
      } else {
        CountKnown(x, p);
        evicted := 0;
      }
    }

    method CountKnown(ghost x: Flow, p: int)
      requires Fits() && ss.Valid() && p in ss.linked && 0 < p < ss.flow.Length && ss.flow[p] == x
      modifies ss.Repr()
      ensures NextCount(M2, old(ss.counts), x) < ss.N ==>
                x in old(ss.counts) && ss.Valid() && Step(M2, trace, old(ss.counts), x, ss.counts)
      ensures NextCount(M2, old(ss.counts), x) >= ss.N ==> ss.Broken()
      ensures ss.date == old(ss.date[x := ss.clock])
    {
      CountInRange(p);
      ss.Bump(p);
    }

    method CountNew(x: Flow) returns (ghost evicted: nat)
      requires Fits() && ss.Valid() && x !in ss.counts && |ss.counts| <= M2 && InOrder(trace, ss.counts, ss.date)
      modifies ss.Repr()
      ensures NextCount(M2, old(ss.counts), x) < ss.N ==> ss.Valid() && Step(M2, trace, old(ss.counts), x, ss.counts)
      ensures NextCount(M2, old(ss.counts), x) >= ss.N ==> ss.Broken()
      ensures evicted == (if |old(ss.counts)| == M2 then 1 else 0) && ss.owner == old(ss.owner[x := ss.ids[ss.num]])
      ensures ss.date == old(ss.date[x := ss.clock])
    {
      NextCountInRange(x);
      ghost var m, date, now := ss.counts, ss.date, ss.clock;
      AdmitNew(x);
      evicted := EvictSurplus(m, date, x, now);
    }

    lemma BrokenIsNotValid()
      requires ss.Broken()
      ensures !Valid()
    {
      if ss.BucketPart() {
        ss.ListedIsNotBroken();
      }
    }

    method AdmitNew(x: Flow)
      requires Fits() && ss.Valid() && x !in ss.counts && |ss.counts| <= M2
      requires NextCount(M2, ss.counts, x) <= ss.N
      modifies ss.Repr()
      ensures ss.tot == |old(ss.counts)| + 1 && ss.owner == old(ss.owner[x := ss.ids[ss.num]])
      ensures ss.date == old(ss.date[x := ss.clock])
      ensures NextCount(M2, old(ss.counts), x) < ss.N ==>
                ss.Valid() && ss.counts == old(ss.counts)[x := NextCount(M2, old(ss.counts), x)]
      ensures NextCount(M2, old(ss.counts), x) == ss.N ==>
                ss.Broken() && (|old(ss.counts)| == M2 ==> ss.AtLimit())
    {
      var n := 1;
      if ss.tot >= M2 {
        n := ss.GetMin();
        n := n + 1;
      }
      ghost var pred := if ss.tot >= M2 then n - 1 else 0;
      PlaceForNew(x, n, pred);
      if ss.tot >= M2 && n == ss.N {
        OneBucketLeft();
      }
      ss.Admit(x, n, pred);
    }

    // The bucket Insert() names to link() precedes the new count.
    lemma PlaceForNew(x: Flow, n: int, pred: int)
      requires Fits() && ss.Valid() && x !in ss.counts && |ss.counts| <= M2 && n == NextCount(M2, ss.counts, x)
      requires pred == if ss.tot >= M2 then n - 1 else 0
      ensures 0 < n && 0 < ss.num && IsPred(ss.buckets, n, pred) && (pred == 0 || n - 10 < pred)
    {
      ss.MinBucket();
    }

    // If the minimum of a full table is N - 1, that is the only bucket.
    lemma OneBucketLeft()
      requires Fits() && ss.Valid() && |ss.counts| >= M2 && Floor(M2, ss.counts) == ss.N - 1
      ensures ss.OnlyLast()
    {
      ss.MinBucket();
      assert Behind(ss.N, ss.buckets, ss.left[..], ss.right[..], ss.N - 1);
      assert Ahead(ss.N, ss.buckets, ss.left[..], ss.right[..], ss.N - 1);
      assert Ahead(ss.N, ss.buckets, ss.left[..], ss.right[..], 0);
    }

    // The eviction loop of Insert(), entered with the table m plus x.
    method EvictSurplus(ghost m: Counts, ghost date: map<Flow, int>, ghost x: Flow, ghost now: int)
      returns (ghost rounds: nat)
      requires InOrder(trace, m, date) && ss.date == date[x := now]
      requires Fits() && x !in m && |m| <= M2 && ss.tot == |m| + 1 && NextCount(M2, m, x) <= ss.N
      requires NextCount(M2, m, x) < ss.N ==> ss.Valid() && ss.counts == m[x := NextCount(M2, m, x)]
      requires NextCount(M2, m, x) == ss.N ==> ss.Broken() && (|m| == M2 ==> ss.AtLimit())
      modifies ss.Repr()
      ensures NextCount(M2, m, x) < ss.N ==> ss.Valid() && Step(M2, trace, m, x, ss.counts)
      ensures NextCount(M2, m, x) == ss.N ==> ss.Broken()
      ensures rounds == (if |m| == M2 then 1 else 0) && ss.owner == old(ss.owner) && ss.date == old(ss.date)
    {
      rounds := 0;
      ghost var m1, y := m[x := NextCount(M2, m, x)], x;
      ghost var over := NextCount(M2, m, x) == ss.N;
      while ss.tot > M2
        invariant ss.owner == old(ss.owner) && ss.date == old(ss.date)
        invariant ss.tot == |m| + 1 - rounds && (rounds == 0 || (rounds == 1 && |m| == M2))
        invariant !over ==> ss.Valid()
        invariant !over && rounds == 0 ==> ss.counts == m1
        invariant !over && rounds == 1 ==> IsMin(m1, y) && IsNewest(m1, ss.date, y) && ss.counts == Drop(m1, y)
        invariant over ==> ss.Broken() && (|m| == M2 && rounds == 0 ==> ss.AtLimit())
        decreases ss.tot
      {
        y := EvictFirst(over);
        rounds := rounds + 1;
      }
      if rounds == 1 && !over {
        EvictAfterAdmit(M2, trace, m, date, x, now, y);
      }
    }

    method EvictFirst(ghost over: bool) returns (ghost y: Flow)
      requires Fits() && if over then ss.AtLimit() else ss.Valid() && ss.tot > 0
      modifies ss.Repr()
      ensures ss.tot == old(ss.tot) - 1 && ss.owner == old(ss.owner) && ss.date == old(ss.date)
      ensures if over then ss.Broken()
              else ss.Valid() && IsMin(old(ss.counts), y) && IsNewest(old(ss.counts), ss.date, y) &&
                   ss.counts == Drop(old(ss.counts), y)
    {
      ss.LeastIsLinked();
      y := ss.Evict();
    }

    // The double loop of work(): copies every monitored flow into q, walking the buckets
    // from the right sentinel down.
    method Collect()
      requires CNT == 0 && Fits() && ss.Valid() && ss.tot <= q.Length
      modifies `CNT, q
      ensures CNT == ss.tot && CNT <= q.Length
      ensures Lists(ss.counts, q[..CNT]) && Ordered(q[..CNT], MoreCount)
    {
      ghost var visited: seq<int> := [];
      var i := ss.N;
      StartWalk();
      while i != 0
        invariant Stands(i, visited)
        decreases i
      {
        visited := CollectAbove(i, visited);
        i := ss.left[i];
      }
      EndWalk(visited);
    }

    // One round of the outer loop of work().
    method CollectAbove(i: int, ghost visited0: seq<int>) returns (ghost visited: seq<int>)
      requires Fits() && ss.Valid() && ss.tot <= q.Length && Stands(i, visited0) && i != 0
      modifies `CNT, q
      ensures 0 <= ss.left[i] < i && Stands(ss.left[i], visited)
    {
      visited := CollectBucket(i, visited0);
      StepDown(i, visited);
    }

    // The walk has come to bucket i, or to one of the sentinels.
    ghost predicate Stands(i: int, visited: seq<int>)
      reads this, q, ss, ss.sum, ss.flow, ss.head
    {
      && Fits() && CNT <= q.Length && (i == ss.N || i in ss.buckets || i == 0) && 0 <= i <= ss.N
      && Walked(ss.linked, ss.sum[..], ss.stamp, ss.flow[..], visited, q[..CNT], i, ss.head[i])
    }

    lemma EndWalk(visited: seq<int>)
      requires Fits() && ss.Valid() && Stands(0, visited)
      ensures CNT == ss.tot && Lists(ss.counts, q[..CNT]) && Ordered(q[..CNT], MoreCount)
    {
      assert IsTop(ss.linked, ss.sum[..], ss.stamp, 0, ss.head[..][0]);
      WalkDone(ss.counts, ss.owner, ss.linked, ss.sum[..], ss.stamp, ss.flow[..], visited, q[..CNT], 0);
      ListsSize(ss.counts, q[..CNT]);
    }

    lemma StartWalk()
      requires Fits() && ss.Valid()
      requires CNT == 0
      ensures Stands(ss.N, [])
    {
      assert IsTop(ss.linked, ss.sum[..], ss.stamp, ss.N, ss.head[..][ss.N]);
    }

    lemma StepDown(i: int, visited: seq<int>)
      requires Fits() && ss.Valid() && CNT <= q.Length && (i == ss.N || i in ss.buckets)
      requires Walked(ss.linked, ss.sum[..], ss.stamp, ss.flow[..], visited, q[..CNT], i, 0)
      ensures 0 <= ss.left[i] < i && (ss.left[i] in ss.buckets || ss.left[i] == 0)
      ensures Walked(ss.linked, ss.sum[..], ss.stamp, ss.flow[..], visited, q[..CNT], ss.left[i], ss.head[ss.left[i]])
    {
      assert Behind(ss.N, ss.buckets, ss.left[..], ss.right[..], i);
      var i' := ss.left[i];
      assert IsTop(ss.linked, ss.sum[..], ss.stamp, i', ss.head[..][i']);
      forall k | k in ss.linked
        ensures ss.sum[..][k] in ss.buckets
      {
        assert IsTop(ss.linked, ss.sum[..], ss.stamp, ss.sum[k], ss.head[..][ss.sum[k]]);
      }
      WalkDown(ss.linked, ss.sum[..], ss.stamp, ss.flow[..], visited, q[..CNT], ss.buckets, i, i', ss.head[i']);
    }

    // The inner loop of work(): one element chain.
    method CollectBucket(i: int, ghost visited0: seq<int>) returns (ghost visited: seq<int>)
      requires Fits() && ss.Valid() && ss.tot <= q.Length && 0 <= i <= ss.N && CNT <= q.Length
      requires Walked(ss.linked, ss.sum[..], ss.stamp, ss.flow[..], visited0, q[..CNT], i, ss.head[i])
      modifies `CNT, q
      ensures CNT <= q.Length
      ensures Walked(ss.linked, ss.sum[..], ss.stamp, ss.flow[..], visited, q[..CNT], i, 0)
    {
      visited := visited0;
      var j := ss.head[i];
      while j != 0
        invariant CNT <= q.Length
        invariant Walked(ss.linked, ss.sum[..], ss.stamp, ss.flow[..], visited, q[..CNT], i, j)
        decreases |ss.linked| - |visited|
      {
        StepNext(i, j, visited);
        Emit(Element(ss.flow[j], ss.sum[j]));
        visited := visited + [j];
        j := ss.next[j];
      }
    }

    method Emit(e: Element)
      requires CNT < q.Length
      modifies `CNT, q
      ensures CNT == old(CNT) + 1 <= q.Length && q[..CNT] == old(q[..CNT]) + [e]
    {
      q[CNT] := e;
      CNT := CNT + 1;
    }

    lemma StepNext(i: int, j: int, visited: seq<int>)
      requires Fits() && ss.Valid() && ss.tot <= q.Length && CNT <= q.Length && j != 0
      requires Walked(ss.linked, ss.sum[..], ss.stamp, ss.flow[..], visited, q[..CNT], i, j)
      ensures 0 <= j < ss.next.Length && CNT < q.Length && |visited| < |ss.linked|
      ensures Walked(ss.linked, ss.sum[..], ss.stamp, ss.flow[..], visited + [j],
                     q[..CNT] + [Element(ss.flow[j], ss.sum[j])], i, ss.next[j])
    {
      assert IsBelow(ss.linked, ss.sum[..], ss.stamp, j, ss.next[..][j]);
      WalkNext(ss.linked, ss.sum[..], ss.stamp, ss.flow[..], visited, q[..CNT], i, j, ss.next[..][j], ss.N + 1);
    }

    // work(): the walk, then a sort by decreasing count that may reorder ties.
    method Work()
      requires Fits() && ss.Valid() && ss.tot <= q.Length
      modifies `CNT, q
      ensures CNT == ss.tot && CNT <= q.Length
      ensures Lists(ss.counts, q[..CNT]) && Ordered(q[..CNT], MoreCount)
    {
      CNT := 0;
      Collect();
      ghost var rows := q[..CNT];
      SortPrefix(q, CNT, MoreCount);
      PermutationFacts(rows, q[..CNT]);
    }

    // After a dump clear() has emptied the summary if and only if it wipes all of head2
    // or every monitored flow sat in hash slot 0.
    ghost predicate ClearsAll()
      reads ss
    {
      ss.wipe || forall f :: f in ss.counts ==> ss.location(f) == 0
    }

    lemma StaleSlots()
      requires Valid()
      ensures (forall f :: f in ss.counts ==> ss.location(f) == 0) <==>
              forall w :: 1 <= w < ss.len2 ==> ss.head2[w] == 0
    {
      if forall f :: f in ss.counts ==> ss.location(f) == 0 {
        forall w | 1 <= w < ss.len2
          ensures ss.head2[w] == 0
        {
          assert IsTop(ss.indexed, ss.slot, ss.stamp2, w, ss.head2[..][w]);
          var h := ss.head2[w];
          assert h in ss.linked ==> IsRow(ss.counts, ss.owner, ss.flow[..], ss.sum[..], h);
          assert h in ss.linked ==> InSlot(ss.location, ss.slot, ss.flow[..], h);
        }
      }
      if forall w :: 1 <= w < ss.len2 ==> ss.head2[w] == 0 {
        forall f | f in ss.counts
          ensures ss.location(f) == 0
        {
          assert IsOwned(ss.owner, ss.linked, ss.flow[..], f);
          assert InSlot(ss.location, ss.slot, ss.flow[..], ss.owner[f]);
          assert IsTop(ss.indexed, ss.slot, ss.stamp2, ss.location(f), ss.head2[..][ss.location(f)]);
        }
      }
    }

    // top_k_dump(): the previous table moves to old, new receives the top K flows and
    // the summary is cleared.
    method TopKDump(oldT: FlowTable, newT: FlowTable)
      requires Valid() && oldT.Valid() && newT.Valid() && Separate(oldT, newT, Repr())
      requires K <= oldT.data.Length && K <= newT.data.Length
      modifies Repr(), oldT, newT, oldT.data, newT.data
      ensures oldT.Valid() && newT.Valid()
      ensures oldT.data == old(newT.data) && newT.data == old(oldT.data)
      ensures oldT.Rows() == old(newT.Rows())
      ensures IsTopK(old(ss.counts), K, newT.Rows())
      ensures trace == [] && ss.counts == map[] && ss.tot == 0 && ss.FullStack()
      ensures Valid() <==> old(ClearsAll())
      ensures ss.flow[..] == old(ss.flow[..])
      ensures !ss.wipe ==> forall w :: 1 <= w < ss.len2 ==> ss.head2[w] == old(ss.head2[w])
    {
      Rotate(oldT, newT);
      Dump(newT);
    }

    // top_k_dump() after the swap.
    method Dump(newT: FlowTable)
      requires Valid() && K <= newT.data.Length && newT !in Repr() && newT.data !in Repr()
      modifies Repr(), newT`used, newT.data
      ensures newT.Valid() && IsTopK(old(ss.counts), K, newT.Rows())
      ensures trace == [] && ss.counts == map[] && ss.tot == 0 && ss.FullStack()
      ensures Valid() <==> old(ClearsAll())
      ensures ss.flow[..] == old(ss.flow[..])
      ensures !ss.wipe ==> forall w :: 1 <= w < ss.len2 ==> ss.head2[w] == old(ss.head2[w])
    {
      Ready();
      FillTable(newT);
      Reset();
    }

    // work() and the fill of new_table.
    method FillTable(newT: FlowTable)
      requires Fits() && ss.Valid() && ss.tot <= q.Length && K <= newT.data.Length
      requires newT.data != q && newT as object != this && newT !in ss.Repr() && newT.data !in ss.Repr()
      modifies `CNT, q, newT`used, newT.data
      ensures newT.Valid() && IsTopK(ss.counts, K, newT.Rows())
    {
      Work();
      CopyRows(newT);
      ghost var rows := q[..CNT];
      assert q[..newT.used] == rows[..newT.used];
      PrefixIsTopK(ss.counts, rows, K, newT.Rows());
    }

    method CopyRows(newT: FlowTable)
      requires CNT <= q.Length && K <= newT.data.Length && newT.data != q && newT as object != this
      modifies newT`used, newT.data
      ensures newT.used == (if CNT <= K then CNT else K)
      ensures Ordered(newT.Rows(), LessId) && multiset(newT.Rows()) == multiset(q[..newT.used])
    {
      newT.used := CNT;
      if newT.used > K {
        newT.used := K;
      }
      for i := 0 to newT.used
        modifies newT.data
        invariant newT.data[..i] == q[..i]
      {
        newT.data[i] := q[i];
        assert newT.data[..i + 1] == newT.data[..i] + [q[i]];
      }
      SortPrefix(newT.data, newT.used, LessId);
    }

    // The parts of top_k_dump() that touch neither table.
    method Reset()
      requires Valid()
      modifies ss.Repr(), `trace, `totalPkt
      ensures trace == [] && ss.counts == map[] && ss.tot == 0 && ss.FullStack()
      ensures ss.flow[..] == old(ss.flow[..])
      ensures !ss.wipe ==> forall w :: 1 <= w < ss.len2 ==> ss.head2[w] == old(ss.head2[w])
      ensures Valid() <==> old(ClearsAll())
    {
      StaleSlots();
      totalPkt := 0;
      ss.Clear();
      trace := [];
      LeadsToNothing(M2);
    }
  }

  // clear() of the old table and std::swap.
  method Rotate(oldT: FlowTable, newT: FlowTable)
    requires oldT != newT && oldT.data != newT.data && oldT.Valid() && newT.Valid()
    modifies oldT, newT
    ensures oldT.data == old(newT.data) && newT.data == old(oldT.data)
    ensures oldT.used == old(newT.used) && newT.used == 0
  {
    oldT.used := 0;
    oldT.data, newT.data := newT.data, oldT.data;
    oldT.used, newT.used := newT.used, oldT.used;
  }
}
