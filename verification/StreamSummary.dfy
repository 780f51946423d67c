/** The array-encoded Stream-Summary (class ssummary of
    platform/drivers/top_k/space_saving.cpp). Four structures share the element ids
    1..M+2: the element chain of every count bucket (head, next, last), the sorted list
    of the nonempty buckets (left, right), the hash chains (head2, next2) and the stack
    of free ids (ids, num). */
module StreamSummaries {
  import opened Sets
  import opened Flows
  import opened SpaceSavingSpec
  import opened OrderedChains
  import opened BucketList

  // ids[1..num] holds exactly the ids 1..m+2 that are not taken.
  ghost predicate FreeIds(m: int, taken: set<int>, ids: seq<int>, num: int) {
    && 0 <= num < |ids|
    && (forall k :: 1 <= k <= num ==> 1 <= ids[k] <= m + 2 && ids[k] !in taken)
    && (forall j, k :: 1 <= j < k <= num ==> ids[j] != ids[k])
    && (forall i :: i in taken ==> 1 <= i <= m + 2)
    && num + |taken| == m + 2
  }

  // m maps the flow of every linked element to its count, owner maps it back to the
  // element.
  ghost predicate IsRow(m: Counts, owner: map<Flow, int>, flow: seq<Flow>, sum: seq<int>, i: int) {
    && 0 < i < |flow| && i < |sum|
    && flow[i] in m && m[flow[i]] == sum[i]
    && flow[i] in owner && owner[flow[i]] == i
  }

  ghost predicate IsOwned(owner: map<Flow, int>, linked: set<int>, flow: seq<Flow>, f: Flow) {
    && f in owner && owner[f] in linked
    && 0 < owner[f] < |flow| && flow[owner[f]] == f
  }

  ghost predicate IsTable(m: Counts, owner: map<Flow, int>, linked: set<int>, flow: seq<Flow>, sum: seq<int>) {
    && |m| == |linked|
    && (forall i {:trigger IsRow(m, owner, flow, sum, i)} :: i in linked ==> IsRow(m, owner, flow, sum, i))
    && (forall f {:trigger IsOwned(owner, linked, flow, f)} :: f in m ==> IsOwned(owner, linked, flow, f))
  }

  lemma TableAdd(m: Counts, owner: map<Flow, int>, linked: set<int>, flow: seq<Flow>, sum: seq<int>,
                 i: int, x: Flow, q: int)
    requires IsTable(m, owner, linked, flow, sum)
    requires 0 < i < |flow| && i < |sum| && i !in linked && x !in m
    ensures IsTable(m[x := q], owner[x := i], linked + {i}, flow[i := x], sum[i := q])
  {
    PutFacts(m, x, q);
    forall k | k in linked + {i}
      ensures IsRow(m[x := q], owner[x := i], flow[i := x], sum[i := q], k)
    {
      if k != i {
        assert IsRow(m, owner, flow, sum, k);
      }
    }
    forall f | f in m || f == x
      ensures IsOwned(owner[x := i], linked + {i}, flow[i := x], f)
    {
      if f != x {
        assert IsOwned(owner, linked, flow, f);
      }
    }
  }

  lemma TableRemove(m: Counts, owner: map<Flow, int>, linked: set<int>, flow: seq<Flow>, sum: seq<int>, i: int)
    requires IsTable(m, owner, linked, flow, sum) && i in linked
    ensures IsRow(m, owner, flow, sum, i)
    ensures IsTable(Drop(m, flow[i]), owner, linked - {i}, flow, sum)
  {
    assert IsRow(m, owner, flow, sum, i);
    DropFacts(m, flow[i]);
    forall k | k in linked - {i}
      ensures IsRow(Drop(m, flow[i]), owner, flow, sum, k)
    {
      assert IsRow(m, owner, flow, sum, k);
    }
    forall f | f in Drop(m, flow[i])
      ensures IsOwned(owner, linked - {i}, flow, f)
    {
      assert IsOwned(owner, linked, flow, f);
    }
  }

  lemma TableSet(m: Counts, owner: map<Flow, int>, linked: set<int>, flow: seq<Flow>, sum: seq<int>, i: int, q: int)
    requires IsTable(m, owner, linked, flow, sum) && i in linked
    ensures IsRow(m, owner, flow, sum, i)
    ensures IsTable(m[flow[i] := q], owner, linked, flow, sum[i := q])
  {
    assert IsRow(m, owner, flow, sum, i);
    PutFacts(m, flow[i], q);
    forall k | k in linked
      ensures IsRow(m[flow[i] := q], owner, flow, sum[i := q], k)
    {
      assert IsRow(m, owner, flow, sum, k);
    }
    forall f | f in m || f == flow[i]
      ensures IsOwned(owner, linked, flow, f)
    {
      assert f in m ==> IsOwned(owner, linked, flow, f);
    }
  }

  // date tells when the element of a monitored flow was linked last.
  ghost predicate IsDated(date: map<Flow, int>, owner: map<Flow, int>, stamp: seq<int>, f: Flow) {
    f in date && f in owner && 0 <= owner[f] < |stamp| && date[f] == stamp[owner[f]]
  }

  ghost predicate AreDated(m: Counts, date: map<Flow, int>, owner: map<Flow, int>, stamp: seq<int>) {
    forall f {:trigger IsDated(date, owner, stamp, f)} :: f in m ==> IsDated(date, owner, stamp, f)
  }

  lemma DatedPut(m: Counts, date: map<Flow, int>, owner: map<Flow, int>, linked: set<int>, stamp: seq<int>,
                 flow: seq<Flow>, sum: seq<int>, i: int, x: Flow, q: int, now: int)
    requires AreDated(m, date, owner, stamp) && IsTable(m, owner, linked, flow, sum) && 0 < i < |stamp|
    requires if i in linked then i < |flow| && x == flow[i] else x !in m
    ensures AreDated(m[x := q], date[x := now], owner[x := i], stamp[i := now])
  {
    forall f | f in m || f == x
      ensures IsDated(date[x := now], owner[x := i], stamp[i := now], f)
    {
      if f != x {
        assert IsDated(date, owner, stamp, f) && IsOwned(owner, linked, flow, f);
      }
    }
  }

  lemma DatesDrop(m: Counts, date: map<Flow, int>, owner: map<Flow, int>, stamp: seq<int>, y: Flow)
    requires AreDated(m, date, owner, stamp)
    ensures AreDated(Drop(m, y), date, owner, stamp)
  {
    forall f | f in Drop(m, y)
      ensures IsDated(date, owner, stamp, f)
    {
    }
  }

  // Element i is indexed under the hash slot of its flow.
  ghost predicate InSlot(location: Flow -> int, slot: seq<int>, flow: seq<Flow>, i: int) {
    0 < i < |slot| && i < |flow| && slot[i] == location(flow[i])
  }

  lemma SlotPut(location: Flow -> int, linked: set<int>, slot: seq<int>, flow: seq<Flow>, i: int, x: Flow)
    requires 0 < i < |slot| && i < |flow|
    requires forall k {:trigger InSlot(location, slot, flow, k)} :: k in linked ==> InSlot(location, slot, flow, k)
    ensures forall k {:trigger InSlot(location, slot[i := location(x)], flow[i := x], k)} :: k in linked + {i} ==>
              InSlot(location, slot[i := location(x)], flow[i := x], k)
  {
    forall k | k in linked + {i}
      ensures InSlot(location, slot[i := location(x)], flow[i := x], k)
    {
      assert k != i ==> InSlot(location, slot, flow, k);
    }
  }

  class StreamSummary {
    const N: nat      // counts stay below N, which is also the right sentinel
    const M: nat
    const K: nat      // capacity; getmin answers 0 below it
    const len2: nat   // number of hash slots
    const location: Flow -> int  // the hash function; only its determinism matters
    // Whether clear() empties all of head2 (what its loop bounds show was meant) or,
    // as written, only head2[0].
    const wipe: bool

    var tot: int
    var num: int
    const sum: array<int>
    const last: array<int>
    const next: array<int>
    const ids: array<int>
    const next2: array<int>
    const flow: array<Flow>
    const head: array<int>
    const left: array<int>
    const right: array<int>
    const head2: array<int>

    ghost var counts: Counts       // the monitored flows with their counts
    ghost var owner: map<Flow, int>  // the element of a monitored flow
    ghost var date: map<Flow, int>  // when it was linked last
    ghost var linked: set<int>     // ids on the element chain of their bucket
    ghost var indexed: set<int>    // ids on the hash chain of their flow
    ghost var taken: set<int>  // ids taken from the free stack
    ghost var buckets: set<int>    // counts on the bucket list
    ghost var slot: seq<int>       // hash slot an id was indexed under
    ghost var stamp: seq<int>      // order of linking
    ghost var clock: int
    ghost var stamp2: seq<int>     // order of indexing
    ghost var clock2: int

    ghost predicate Shape() {
      && 0 < N
      && sum.Length == last.Length == next.Length == ids.Length == next2.Length == flow.Length == M + 10
      && head.Length == left.Length == right.Length == N + 10
      && head2.Length == len2 + 10
      && sum != last && sum != next && sum != ids && sum != next2 && sum != head && sum != left && sum != right
      && sum != head2 && last != next && last != ids && last != next2 && last != head && last != left
      && last != right && last != head2 && next != ids && next != next2 && next != head && next != left
      && next != right && next != head2 && ids != next2 && ids != head && ids != left && ids != right
      && ids != head2 && next2 != head && next2 != left && next2 != right && next2 != head2
      && head != left && head != right && head != head2 && left != right && left != head2 && right != head2
      && forall f :: 0 <= location(f) < len2
    }

    ghost function Repr(): set<object> {
      {this, sum, last, next, ids, next2, flow, head, left, right, head2}
    }

    ghost predicate ChainPart()
      reads `linked, `stamp, `clock, sum, head, next, last
    {
      && Shape()
      && Chained(N + 1, linked, sum[..], stamp, head[..], next[..])
      && Mirrored(linked, sum[..], head[..], next[..], last[..])
      && forall i :: i in linked ==> 0 < sum[i] <= N && stamp[i] < clock
    }

    ghost predicate BucketPart()
      reads `buckets, head, left, right
    {
      && Shape()
      && Listed(N, buckets, left[..], right[..])
      && forall c :: 0 <= c <= N ==> (c in buckets <==> head[c] != 0)
    }

    ghost predicate HashPart()
      reads `indexed, `slot, `stamp2, `clock2, head2, next2
    {
      && Shape()
      && Chained(len2, indexed, slot, stamp2, head2[..], next2[..])
      && |slot| == M + 10
      && forall i :: i in indexed ==> stamp2[i] < clock2
    }

    ghost predicate FreePart()
      reads `taken, `num, ids
    {
      Shape() && FreeIds(M, taken, ids[..], num)
    }

    // The element chains, hash chains and free ids agree on which elements are in use.
    ghost predicate ElementsOk()
      reads `linked, `stamp, `clock, `indexed, `slot, `stamp2, `clock2, `taken, `num, `tot
      reads sum, last, next, ids, next2, flow, head, head2
    {
      && ChainPart() && HashPart() && FreePart()
      && linked == indexed == taken
      && tot == |linked|
      && forall i {:trigger InSlot(location, slot, flow[..], i)} :: i in linked ==> InSlot(location, slot, flow[..], i)
    }

    ghost predicate Consistent()
      reads this, sum, last, next, ids, next2, flow, head, left, right, head2
    {
      ElementsOk() && BucketPart()
    }

    ghost predicate Valid()
      reads this, sum, last, next, ids, next2, flow, head, left, right, head2
    {
      Consistent() && IsTable(counts, owner, linked, flow[..], sum[..]) && AreDated(counts, date, owner, stamp)
    }

    // What is left once a count has reached N, the right sentinel: either the walk of
    // work(), which follows Left from N until it meets 0, never leaves N, or the bucket list
    // is empty although an element is monitored, and getmin() answers 1.
    ghost predicate Broken()
      reads head, left, right
    {
      Shape() && (left[N] == N || (right[0] == N && head[N] != 0))
    }

    lemma ListedIsNotBroken()
      requires BucketPart()
      ensures !Broken()
    {
      assert Behind(N, buckets, left[..], right[..], N) && Ahead(N, buckets, left[..], right[..], 0);
    }

    // Fresh storage is zeroed; the constructor of ssummary itself assigns only K.
    constructor (n: nat, m: nat, k: nat, slots: nat, loc: Flow -> int, wipeAll: bool)
      requires 0 < n && 0 < slots && forall f :: 0 <= loc(f) < slots
      ensures Shape() && N == n && M == m && K == k && len2 == slots && location == loc && wipe == wipeAll
      ensures fresh(Repr())
      ensures forall w :: 0 <= w < slots ==> head2[w] == 0
    {
      N, M, K, len2, location, wipe := n, m, k, slots, loc, wipeAll;
      sum, last, next, ids, next2 := new int[m + 10], new int[m + 10], new int[m + 10], new int[m + 10],
        new int[m + 10];
      flow := new Flow[m + 10];
      head, left, right := new int[n + 10], new int[n + 10], new int[n + 10];
      head2 := new int[slots + 10](_ => 0);
    }

    // clear(): as written, the loop over head2 assigns head2[0] every time.
    method Clear()
      requires Shape()
      modifies Repr()
      ensures Shape() && counts == map[] && tot == 0
      ensures Valid() <==> wipe || forall w :: 1 <= w < len2 ==> old(head2[w]) == 0
      ensures !wipe ==> forall w :: 1 <= w < len2 ==> head2[w] == old(head2[w])
      ensures flow[..] == old(flow[..])
      ensures FullStack()
    {
      ClearArrays();
      ForgetElements();
      assert head2[0] == 0 by { assert 0 <= location(Flow(0, 0, 0)) < len2; }
      ClearedParts();
    }

    // No id is taken; the next one to be is M + 2.
    ghost predicate FullStack()
      reads `num, ids
    {
      Shape() && num == M + 2 && ids[num] == M + 2
    }

    ghost method ForgetElements()
      modifies `counts, `linked, `indexed, `buckets, `stamp, `stamp2, `slot, `clock, `clock2
      ensures counts == map[] && linked == indexed == buckets == {}
      ensures |stamp| == |stamp2| == |slot| == M + 10
    {
      counts, linked, indexed, buckets := map[], {}, {}, {};
      stamp := seq(M + 10, _ => 0);
      stamp2, slot := stamp, stamp;
      clock, clock2 := 0, 0;
    }

    // The loops of clear(), in its order.
    method ClearArrays()
      requires Shape()
      modifies `tot, `num, `taken, sum, last, next2, head2, head, left, right, ids
      ensures tot == 0 && num == M + 2 && taken == {}
      ensures forall w :: 0 <= w < len2 ==> head2[w] == if wipe || w == 0 then 0 else old(head2[w])
      ensures forall c :: 0 <= c <= N ==> head[c] == 0
      ensures forall c :: 0 <= c <= N ==> left[c] == 0 && right[c] == if c == 0 then N else 0
      ensures forall k :: 1 <= k <= M + 2 ==> ids[k] == k
    {
      ClearElements();
      ClearSlots();
      ClearBuckets();
      tot := 0;
      ClearIds();
    }

    method ClearElements()
      requires Shape()
      modifies sum, last, next2
      ensures forall i :: 0 <= i < M + 10 ==> sum[i] == last[i] == next2[i] == 0
    {
      forall i | 0 <= i < sum.Length { sum[i] := 0; }
      forall i | 0 <= i < last.Length { last[i] := 0; }
      forall i | 0 <= i < next2.Length { next2[i] := 0; }
    }

    method ClearSlots()
      requires Shape()
      modifies head2
      ensures forall w :: 0 <= w < len2 ==> head2[w] == if wipe || w == 0 then 0 else old(head2[w])
    {
      for i := 0 to len2
        invariant forall w :: 0 <= w < len2 ==>
          head2[w] == if w < i && (wipe || w == 0) then 0 else old(head2[w])
      {
        head2[if wipe then i else 0] := 0;
      }
    }

    method ClearBuckets()
      requires Shape()
      modifies head, left, right
      ensures forall c :: 0 <= c <= N ==> head[c] == 0
      ensures forall c :: 0 <= c <= N ==> left[c] == 0 && right[c] == if c == 0 then N else 0
    {
      for i := 0 to N + 1
        invariant forall c :: 0 <= c < i ==> head[c] == left[c] == right[c] == 0
      {
        right[i] := 0;
        left[i] := right[i];
        head[i] := left[i];
      }
      right[0] := N;
      left[N] := 0;
    }

    method ClearIds()
      requires Shape()
      modifies `num, `taken, ids
      ensures taken == {} && num == M + 2 && forall k :: 1 <= k <= M + 2 ==> ids[k] == k
    {
      for i := 1 to M + 3
        invariant forall k :: 1 <= k < i ==> ids[k] == k
      {
        ids[i] := i;
      }
      num := M + 2;
      taken := {};
    }

    lemma ClearedParts()
      requires Shape() && counts == map[] && linked == indexed == taken == buckets == {} && tot == 0 && num == M + 2
      requires |stamp| == |stamp2| == |slot| == M + 10
      requires forall c :: 0 <= c <= N ==> head[c] == 0
      requires forall c :: 0 <= c <= N ==> left[c] == 0 && right[c] == if c == 0 then N else 0
      requires forall k :: 1 <= k <= M + 2 ==> ids[k] == k
      ensures Valid() <==> forall w :: 0 <= w < len2 ==> head2[w] == 0
    {
      assert ChainPart();
      assert BucketPart() by {
        var l, r := left[..], right[..];
        assert Ahead(N, buckets, l, r, 0) && Behind(N, buckets, l, r, N);
      }
      assert FreePart();
      if Valid() {
        forall w | 0 <= w < len2
          ensures head2[w] == 0
        {
          assert IsTop(indexed, slot, stamp2, w, head2[..][w]);
        }
      }
    }

    // getid(): pops the top of the free stack and resets the element's fields.
    method GetId() returns (i: int)
      requires Consistent() && 0 < num
      modifies `num, `taken, last, next, sum, next2
      ensures i == old(ids[num]) && 1 <= i <= M + 2 && i !in old(taken) && taken == old(taken) + {i}
      ensures ChainPart() && BucketPart() && HashPart() && FreePart()
      ensures sum[..] == old(sum[..])[i := 0]
    {
      i := ids[num];
      num := num - 1;
      ghost var sum0, next0, last0, next20 := sum[..], next[..], last[..], next2[..];
      next2[i] := 0;
      sum[i] := next2[i];
      next[i] := sum[i];
      last[i] := next[i];
      taken := taken + {i};
      assert sum[..] == sum0[i := 0] && next[..] == next0[i := 0] && last[..] == last0[i := 0] &&
             next2[..] == next20[i := 0];
      UnlinkedWriteKeepsChains(i, sum0, next0, last0);
      ChainedIgnoresOthers(len2, indexed, slot, stamp2, head2[..], next20, slot, stamp2, next2[..]);
    }

    // Writing the fields of an element that is not linked disturbs no chain.
    lemma UnlinkedWriteKeepsChains(i: int, sum0: seq<int>, next0: seq<int>, last0: seq<int>)
      requires Shape() && i !in linked && 0 < i < M + 10 && |sum0| == |next0| == |last0| == M + 10
      requires sum[..] == sum0[i := sum[i]] && next[..] == next0[i := next[i]] && last[..] == last0[i := last[i]]
      requires Chained(N + 1, linked, sum0, stamp, head[..], next0)
      requires Mirrored(linked, sum0, head[..], next0, last0)
      requires forall k :: k in linked ==> 0 < sum0[k] <= N && stamp[k] < clock
      ensures ChainPart()
    {
      ChainedIgnoresOthers(N + 1, linked, sum0, stamp, head[..], next0, sum[..], stamp, next[..]);
      MirroredIgnoresOthers(linked, sum0, head[..], next0, last0, sum[..], next[..], last[..]);
      assert forall k :: k in linked ==> sum[k] == sum[..][k];
    }

    // add2(): pushes element y on the hash chain of slot x.
    method AddIndex(x: int, y: int)
      requires Shape() && 0 <= x < len2 && 0 < y < M + 10
      modifies `indexed, `slot, `stamp2, `clock2, head2, next2
      ensures head2[..] == old(head2[..])[x := y] && next2[..] == old(next2[..])[y := old(head2[x])]
      ensures old(HashPart()) && y !in old(indexed) ==>
                HashPart() && indexed == old(indexed) + {y} && slot == old(slot)[y := x]
    {
      ghost var head0, next0 := head2[..], next2[..];
      ghost var ok := HashPart() && y !in indexed;
      if ok {
        PushIndexed(x, y);
      }
      next2[y] := head2[x];
      head2[x] := y;
      assert head2[..] == head0[x := y] && next2[..] == next0[y := head0[x]];
      if ok {
        slot, stamp2, clock2, indexed := slot[y := x], stamp2[y := clock2], clock2 + 1, indexed + {y};
      }
    }

    lemma PushIndexed(x: int, y: int)
      requires HashPart() && 0 <= x < len2 && 0 < y < M + 10 && y !in indexed
      ensures Chained(len2, indexed + {y}, slot[y := x], stamp2[y := clock2], head2[..][x := y],
                      next2[..][y := head2[x]])
    {
      ChainedIgnoresOthers(len2, indexed, slot, stamp2, head2[..], next2[..], slot[y := x], stamp2, next2[..]);
      PushKeepsChained(len2, indexed, slot[y := x], stamp2, head2[..], next2[..], y, clock2);
    }

    // find(): walks one hash chain.
    method Find(s: Flow) returns (i: int)
      requires Valid()
      ensures i == 0 <==> s !in counts
      ensures i != 0 ==> i in linked && flow[i] == s
    {
      assert s in counts ==> IsOwned(owner, linked, flow[..], s) && InSlot(location, slot, flow[..], owner[s]);
      var w := location(s);
      i := head2[w];
      assert IsTop(indexed, slot, stamp2, w, head2[..][w]);
      while i != 0
        invariant i == 0 || (i in indexed && slot[i] == w)
        invariant forall k :: k in indexed && slot[k] == w && (i == 0 || stamp2[i] < stamp2[k]) ==> flow[k] != s
        decreases if i == 0 then {} else set k | k in indexed && stamp2[k] <= stamp2[i]
      {
        assert IsRow(counts, owner, flow[..], sum[..], i);
        if flow[i] == s {
          return i;
        }
        assert IsBelow(indexed, slot, stamp2, i, next2[..][i]);
        ghost var j := next2[i];
        ghost var rest := set k | k in indexed && stamp2[k] <= stamp2[i];
        assert i in rest;
        assert j != 0 ==> (set k | k in indexed && stamp2[k] <= stamp2[j]) <= rest - {i};
        i := next2[i];
      }
    }

    // Opening bucket N overwrites the links of the right sentinel and no others.
    ghost predicate Overrun(left0: seq<int>, right0: seq<int>)
      reads left, right
    {
      Shape() && |left0| == |right0| == N + 10 && left[..] == left0[N := N] && right[..] == right0[N := N]
    }

    // linkhead(): puts bucket i on the bucket list to the right of j.
    method LinkHead(i: int, j: int)
      requires Shape() && Listed(N, buckets, left[..], right[..])
      requires 0 < i <= N && i !in buckets && IsPred(buckets, i, j)
      modifies `buckets, left, right
      ensures i < N ==> Listed(N, buckets, left[..], right[..]) && buckets == old(buckets) + {i}
      ensures i == N ==> Overrun(old(left[..]), old(right[..])) && buckets == old(buckets)
    {
      ghost var left0, right0 := left[..], right[..];
      if i < N {
        LinkKeepsListed(N, buckets, left0, right0, i, j);
      } else {
        LinkAtSentinelLoops(N, buckets, left0, right0, j);
      }
      left[i] := j;
      right[i] := right[j];
      right[j] := i;
      left[right[i]] := i;
      assert right[..] == LinkedRight(right0, i, j);
      assert left[..] == LinkedLeft(left0, right0, i, j);
      if i < N {
        buckets := buckets + {i};
      }
    }

    // cuthead(): takes bucket i off the bucket list.
    method CutHead(i: int)
      requires Shape() && 0 <= i < N + 10 && 0 <= left[i] < N + 10 && 0 <= right[i] < N + 10
      modifies left, right
      ensures right[..] == old(right[..])[old(left[i]) := old(right[i])]
      ensures left[..] == old(left[..])[old(right[i]) := old(left[i])]
    {
      var t1, t2 := left[i], right[i];
      right[t1] := t2;
      left[t2] := t1;
    }

    // link(): pushes element i on the chain of its bucket. If that opens the bucket, its
    // left neighbour is looked for among the nine counts below it and is ww otherwise.
    // p is the neighbour a full search would find: the fallback has to name it whenever
    // the scan cannot.
    method Link(i: int, ww: int, ghost p: int)
      requires ChainPart() && BucketPart() && i !in linked && 0 < i < M + 10 && 0 < sum[i] <= N
      requires sum[i] !in buckets ==> IsPred(buckets, sum[i], p) && (p == ww || (0 < p && sum[i] - 10 < p))
      modifies `tot, `linked, `stamp, `clock, `buckets, next, last, head, left, right
      ensures ChainPart() && linked == old(linked) + {i} && tot == old(tot) + 1
      ensures stamp == old(stamp)[i := old(clock)] && clock == old(clock) + 1
      ensures head[..] == old(head[..])[sum[i] := i]
      ensures sum[i] < N ==> BucketPart() && buckets == old(buckets) + {sum[i]}
      ensures sum[i] == N ==> Overrun(old(left[..]), old(right[..]))
    {
      tot := tot + 1;
      var c := sum[i];
      var flag := head[c] == 0;
      PushFront(i);
      if flag {
        OpenBucket(c, ww, p);
      }
    }

    // The search of link() for the left neighbour of the new bucket c.
    method OpenBucket(c: int, ww: int, ghost p: int)
      requires Shape() && Listed(N, buckets, left[..], right[..]) && 0 < c <= N && c !in buckets
      requires forall b :: 0 <= b <= N && b != c ==> (b in buckets <==> head[b] != 0)
      requires IsPred(buckets, c, p) && (p == ww || (0 < p && c - 10 < p))
      modifies `buckets, left, right
      ensures c < N ==> Listed(N, buckets, left[..], right[..]) && buckets == old(buckets) + {c}
      ensures c == N ==> Overrun(old(left[..]), old(right[..])) && buckets == old(buckets)
    {
      var j := c - 1;
      while j > 0 && j > c - 10
        invariant p <= j < c
      {
        if head[j] != 0 {
          LinkHead(c, j);
          return;
        }
        j := j - 1;
      }
      LinkHead(c, ww);
    }

    method PushFront(i: int)
      requires ChainPart() && i !in linked && 0 < i < M + 10 && 0 < sum[i] <= N
      modifies `linked, `stamp, `clock, next, last, head
      ensures ChainPart() && linked == old(linked) + {i}
      ensures stamp == old(stamp)[i := old(clock)] && clock == old(clock) + 1
      ensures head[..] == old(head[..])[sum[i] := i]
    {
      var c := sum[i];
      ghost var head0, next0, last0 := head[..], next[..], last[..];
      PushChained(i, head0, next0, last0);
      next[i] := head[c];
      if next[i] != 0 {
        last[next[i]] := i;
      }
      last[i] := 0;
      head[c] := i;
      assert head[..] == head0[c := i] && next[..] == next0[i := head0[c]];
      assert last[..] == (if head0[c] != 0 then last0[head0[c] := i] else last0)[i := 0];
      stamp := stamp[i := clock];
      clock := clock + 1;
      linked := linked + {i};
    }

    lemma PushChained(i: int, head0: seq<int>, next0: seq<int>, last0: seq<int>)
      requires ChainPart() && i !in linked && 0 < i < M + 10 && 0 < sum[i] <= N
      requires head0 == head[..] && next0 == next[..] && last0 == last[..]
      ensures 0 <= head0[sum[i]] < M + 10
      ensures var h := head0[sum[i]];
              var head', next' := head0[sum[i] := i], next0[i := h];
              var last' := (if h != 0 then last0[h := i] else last0)[i := 0];
              && Chained(N + 1, linked + {i}, sum[..], stamp[i := clock], head', next')
              && Mirrored(linked + {i}, sum[..], head', next', last')
    {
      var h := head0[sum[i]];
      assert IsTop(linked, sum[..], stamp, sum[i], h);
      PushKeepsChained(N + 1, linked, sum[..], stamp, head0, next0, i, clock);
      PushKeepsMirrored(N + 1, linked, sum[..], stamp, head0, next0, last0, i,
                        (if h != 0 then last0[h := i] else last0)[i := 0]);
    }

    // The links of bucket c stay within the arrays.
    ghost predicate InBounds(c: int)
      reads left, right
    {
      Shape() && 0 <= c <= N && 0 <= left[c] < N + 10 && 0 <= right[c] < N + 10
    }

    // cut(): unlinks element i, and its bucket if that leaves it empty.
    method Cut(i: int)
      requires ChainPart() && i in linked && InBounds(sum[i])
      modifies `tot, `linked, `buckets, next, last, head, left, right
      ensures ChainPart() && linked == old(linked) - {i} && tot == old(tot) - 1
      ensures head[..] == old(head[..])[sum[i] := head[sum[i]]]
      ensures Unlisted(old(left[..]), old(right[..]), sum[i])
      ensures old(BucketPart()) ==> BucketPart()
    {
      ghost var head0, left0, right0 := head[..], left[..], right[..];
      Unlink(i);
      CutBuckets(sum[i], head0, left0, right0);
      buckets := if head[sum[i]] == 0 then buckets - {sum[i]} else buckets;
    }

    method Unlink(i: int)
      requires ChainPart() && i in linked && InBounds(sum[i])
      modifies `tot, `linked, next, last, head, left, right
      ensures ChainPart() && linked == old(linked) - {i} && tot == old(tot) - 1
      ensures old(head[..])[sum[i]] != 0 && head[..] == old(head[..])[sum[i] := head[sum[i]]]
      ensures Unlisted(old(left[..]), old(right[..]), sum[i])
    {
      tot := tot - 1;
      ghost var head0, next0, last0 := head[..], next[..], last[..];
      assert IsTop(linked, sum[..], stamp, sum[i], head0[sum[i]]);
      CutChained(i, head0, next0, last0);
      CutFirst(i, sum[i]);
      Splice(i);
      linked := linked - {i};
    }

    // The bucket list after the chain of bucket c was shortened.
    ghost predicate Unlisted(left0: seq<int>, right0: seq<int>, c: int)
      reads head, left, right
    {
      && Shape() && |left0| == |right0| == N + 10 && 0 <= c <= N
      && 0 <= left0[c] < N + 10 && 0 <= right0[c] < N + 10
      && (if head[c] == 0 then left[..] == left0[right0[c] := left0[c]] && right[..] == right0[left0[c] := right0[c]]
          else left[..] == left0 && right[..] == right0)
    }

    lemma CutBuckets(c: int, head0: seq<int>, left0: seq<int>, right0: seq<int>)
      requires Unlisted(left0, right0, c) && |head0| == N + 10 && head0[c] != 0 && head[..] == head0[c := head[c]]
      ensures Listed(N, buckets, left0, right0) && (forall b :: 0 <= b <= N ==> (b in buckets <==> head0[b] != 0)) ==>
                var buckets' := if head[c] == 0 then buckets - {c} else buckets;
                && Listed(N, buckets', left[..], right[..])
                && forall b :: 0 <= b <= N ==> (b in buckets' <==> head[b] != 0)
    {
      assert forall b :: 0 <= b <= N ==> head[b] == head[..][b];
      if Listed(N, buckets, left0, right0) && c in buckets {
        CutKeepsListed(N, buckets, left0, right0, c);
      }
    }

    method Splice(i: int)
      requires Shape() && 0 < i < M + 10 && 0 <= last[i] < M + 10 && 0 <= next[i] < M + 10
      modifies next, last
      ensures next[..] == old(if last[i] != 0 then next[..][last[i] := next[i]] else next[..])
      ensures last[..] == old(if next[i] != 0 then last[..][next[i] := last[i]] else last[..])
    {
      var t1, t2 := last[i], next[i];
      if t1 != 0 {
        next[t1] := t2;
      }
      if t2 != 0 {
        last[t2] := t1;
      }
    }

    method CutFirst(i: int, c: int)
      requires 0 < i < M + 10 && InBounds(c)
      modifies head, left, right
      ensures head[..] == old(if head[c] == i then head[..][c := next[i]] else head[..])
      ensures Unlisted(old(left[..]), old(right[..]), c)
    {
      if head[c] == i {
        head[c] := next[i];
      }
      if head[c] == 0 {
        CutHead(c);
      }
    }

    lemma CutChained(i: int, head0: seq<int>, next0: seq<int>, last0: seq<int>)
      requires ChainPart() && i in linked && head0 == head[..] && next0 == next[..] && last0 == last[..]
      ensures 0 <= last[i] < M + 10 && 0 <= next[i] < M + 10
      ensures var head' := if head0[sum[i]] == i then head0[sum[i] := next0[i]] else head0;
              var next' := if last0[i] != 0 then next0[last0[i] := next0[i]] else next0;
              var last' := if next0[i] != 0 then last0[next0[i] := last0[i]] else last0;
              && Chained(N + 1, linked - {i}, sum[..], stamp, head', next')
              && Mirrored(linked - {i}, sum[..], head', next', last')
    {
      var c := sum[i];
      assert IsBelow(linked, sum[..], stamp, i, next0[i]);
      assert IsMirrored(linked, sum[..], head0, next0, last0, i);
      var head' := if head0[c] == i then head0[c := next0[i]] else head0;
      var next' := if last0[i] != 0 then next0[last0[i] := next0[i]] else next0;
      var last' := if next0[i] != 0 then last0[next0[i] := last0[i]] else last0;
      RemoveKeepsMirrored(N + 1, linked, sum[..], stamp, head0, next0, last0, i, head', next', last');
      if last0[i] == 0 {
        PopKeepsChained(N + 1, linked, sum[..], stamp, head0, next0, i);
      } else {
        CutKeepsChained(N + 1, linked, sum[..], stamp, head0, next0, last0[i], i);
      }
    }

    // recycling(): takes element i off its hash chain and frees its id.
    method Recycle(i: int)
      requires HashPart() && FreePart() && i in indexed && i in taken && slot[i] == location(flow[i])
      modifies `indexed, `taken, `num, head2, next2, ids
      ensures HashPart() && FreePart()
      ensures indexed == old(indexed) - {i} && taken == old(taken) - {i}
      ensures num == old(num) + 1 && ids[..] == old(ids[..])[num := i]
    {
      var w := location(flow[i]);
      Unindex(i, w);
      num := num + 1;
      ids[num] := i;
      taken := taken - {i};
    }

    method Unindex(i: int, w: int)
      requires HashPart() && i in indexed && slot[i] == w
      modifies `indexed, head2, next2
      ensures HashPart() && indexed == old(indexed) - {i}
    {
      ghost var head0, next0 := head2[..], next2[..];
      assert IsTop(indexed, slot, stamp2, w, head0[w]);
      if head2[w] == i {
        PopKeepsChained(len2, indexed, slot, stamp2, head0, next0, i);
        head2[w] := next2[i];
        assert head2[..] == head0[w := next0[i]];
      } else {
        var j := head2[w];
        while next2[j] != i
          invariant j in indexed && slot[j] == w && stamp2[i] < stamp2[j]
          invariant head2[..] == head0 && next2[..] == next0
          decreases set k | k in indexed && stamp2[k] <= stamp2[j]
        {
          assert IsBelow(indexed, slot, stamp2, j, next0[j]);
          ghost var below := set k | k in indexed && stamp2[k] <= stamp2[j];
          assert j in below;
          assert (set k | k in indexed && stamp2[k] <= stamp2[next2[j]]) <= below - {j};
          j := next2[j];
        }
        CutKeepsChained(len2, indexed, slot, stamp2, head0, next0, j, i);
        next2[j] := next2[i];
        assert next2[..] == next0[j := next0[i]];
      }
      indexed := indexed - {i};
    }

    // getmin(): the smallest monitored count of a full table.
    method GetMin() returns (r: int)
      requires Valid() && 0 < K
      ensures r == Floor(K, counts)
    {
      MinBucket();
      if tot < K {
        return 0;
      }
      if right[0] == N {
        assert false;
      }
      return right[0];
    }

    // No flow was linked in the future.
    lemma DatesArePast()
      requires Valid()
      ensures forall f :: f in counts ==> f in date && date[f] < clock
    {
      forall f | f in counts
        ensures f in date && date[f] < clock
      {
        assert IsOwned(owner, linked, flow[..], f) && IsDated(date, owner, stamp, f);
      }
    }

    // Right[0] is the smallest count, and the chain of that bucket is not empty.
    lemma MinBucket()
      requires Valid()
      ensures linked == {} ==> right[0] == N
      ensures linked != {} ==> right[0] in buckets && head[right[0]] in linked && sum[head[right[0]]] == right[0]
      ensures linked != {} ==> IsMin(counts, flow[head[right[0]]]) && counts[flow[head[right[0]]]] == right[0]
      ensures linked != {} ==> forall k: nat :: 0 < k <= |counts| ==> Floor(k, counts) == right[0]
    {
      var t := right[0];
      assert Ahead(N, buckets, left[..], right[..], 0);
      if t in buckets {
        assert IsTop(linked, sum[..], stamp, t, head[..][t]);
      }
      forall i | i in linked
        ensures sum[i] in buckets && t <= sum[i]
      {
        assert IsTop(linked, sum[..], stamp, sum[i], head[..][sum[i]]);
      }
      if linked != {} {
        var i := SomeMember(linked);
        forall f | f in counts
          ensures t <= counts[f]
        {
          assert IsOwned(owner, linked, flow[..], f);
          assert IsRow(counts, owner, flow[..], sum[..], owner[f]);
        }
        assert IsRow(counts, owner, flow[..], sum[..], head[t]);
        forall k: nat | 0 < k <= |counts|
          ensures Floor(k, counts) == t
        {
          var low := FloorWitness(k, counts);
        }
      }
    }

    // Insert of an unmonitored flow x at count q. The bounded scan of Link has to find
    // the left neighbour p of bucket q, because Insert passes 0 as the fallback.
    method Admit(x: Flow, q: int, ghost p: int)
      requires Valid() && x !in counts && 0 < q <= N && 0 < num
      requires IsPred(buckets, q, p) && (p == 0 || q - 10 < p)
      modifies `counts, `owner, `date, `tot, `num, `linked, `indexed, `taken, `buckets
      modifies `slot, `stamp, `clock, `stamp2, `clock2, sum, next, last, next2, flow, head, left, right, head2
      ensures date == old(date)[x := old(clock)] && clock == old(clock) + 1
      ensures tot == old(tot) + 1 && owner == old(owner)[x := old(ids[num])]
      ensures q < N ==> Valid() && counts == old(counts)[x := q]
      ensures q == N ==> Broken() && (old(OnlyLast()) ==> AtLimit())
    {
      ghost var linked0, flow0, sum0, stamp0, now := linked, flow[..], sum[..], stamp, clock;
      var i := Place(x, q, p);
      EnterRow(x, q, i, linked0, flow0, sum0, stamp0, now);
    }

    ghost method EnterRow(x: Flow, q: int, i: int, linked0: set<int>, flow0: seq<Flow>, sum0: seq<int>,
                          stamp0: seq<int>, now: int)
      requires IsTable(counts, owner, linked0, flow0, sum0) && AreDated(counts, date, owner, stamp0) && x !in counts
      requires 0 < i < |flow0| && i < |sum0| && i < |stamp0| && i !in linked0
      requires linked == linked0 + {i} && flow[..] == flow0[i := x] && sum[..] == sum0[i := q]
      requires stamp == stamp0[i := now]
      modifies `counts, `owner, `date
      ensures counts == old(counts)[x := q] && owner == old(owner)[x := i] && date == old(date)[x := now]
      ensures IsTable(counts, owner, linked, flow[..], sum[..]) && AreDated(counts, date, owner, stamp)
    {
      TableAdd(counts, owner, linked0, flow0, sum0, i, x, q);
      DatedPut(counts, date, owner, linked0, stamp0, flow0, sum0, i, x, q, now);
      counts, owner, date := counts[x := q], owner[x := i], date[x := now];
    }

    method Place(x: Flow, q: int, ghost p: int) returns (i: int)
      requires Consistent() && 0 < q <= N && 0 < num
      requires IsPred(buckets, q, p) && (p == 0 || q - 10 < p)
      modifies `tot, `num, `linked, `indexed, `taken, `buckets, `slot, `stamp, `clock, `stamp2, `clock2
      modifies sum, next, last, next2, flow, head, left, right, head2
      ensures ElementsOk() && tot == old(tot) + 1
      ensures q < N ==> BucketPart()
      ensures q == N ==> Broken() && (old(OnlyLast()) ==> AtLimit())
      ensures i == old(ids[num]) && 0 < i < M + 10 && i !in old(linked) && linked == old(linked) + {i}
      ensures flow[..] == old(flow[..])[i := x] && sum[..] == old(sum[..])[i := q]
      ensures stamp == old(stamp)[i := old(clock)] && clock == old(clock) + 1
    {
      i := Enter(x);
      LinkAt(i, q, p);
    }

    // The assignment of the count and link, for an element that is on its hash chain already.
    method LinkAt(i: int, q: int, ghost p: int)
      requires ChainPart() && BucketPart() && HashPart() && FreePart() && tot == |linked|
      requires 0 < i < M + 10 && i !in linked && indexed == taken == linked + {i}
      requires forall k {:trigger InSlot(location, slot, flow[..], k)} :: k in linked + {i} ==>
               InSlot(location, slot, flow[..], k)
      requires 0 < q <= N && IsPred(buckets, q, p) && (p == 0 || q - 10 < p)
      modifies `tot, `linked, `buckets, `stamp, `clock, sum, next, last, head, left, right
      ensures ElementsOk() && tot == old(tot) + 1 && linked == old(linked) + {i}
      ensures stamp == old(stamp)[i := old(clock)] && clock == old(clock) + 1
      ensures q < N ==> BucketPart()
      ensures q == N ==> Broken() && (old(OnlyLast()) ==> AtLimit())
      ensures sum[..] == old(sum[..])[i := q]
    {
      ghost var head0, left0, right0 := head[..], left[..], right[..];
      SetSum(i, q);
      Link(i, 0, p);
      if q == N {
        LinkedAtSentinel(head0, left0, right0);
      }
    }

    // An element linked at count N.
    lemma LinkedAtSentinel(head0: seq<int>, left0: seq<int>, right0: seq<int>)
      requires Shape() && |head0| == N + 10 && head[..] == head0[N := head[N]] && head[N] != 0
      requires Overrun(left0, right0)
      ensures Broken()
      ensures N > 1 && head0[N - 1] != 0 && left0[N - 1] == 0 && right0[0] == N - 1 && right0[N - 1] == N ==>
                head[N - 1] != 0 && left[N - 1] == 0 && right[0] == N - 1 && right[N - 1] == N && left[N] == N
    {
      assert left[..][N] == N && head[..][N - 1] == head0[N - 1];
      assert N > 1 ==> left[..][N - 1] == left0[N - 1] && right[..][N - 1] == right0[N - 1];
      assert right[..][0] == right0[0];
    }

    // getid, add2 and the assignment of the flow.
    method Enter(x: Flow) returns (i: int)
      requires Consistent() && 0 < num
      modifies `num, `taken, `indexed, `slot, `stamp2, `clock2, sum, next, last, next2, flow, head2
      ensures ChainPart() && BucketPart() && HashPart() && FreePart()
      ensures i == old(ids[num]) && 0 < i < M + 10 && i !in old(linked) && indexed == taken == linked + {i}
      ensures sum[..] == old(sum[..])[i := 0] && flow[..] == old(flow[..])[i := x]
      ensures forall k {:trigger InSlot(location, slot, flow[..], k)} :: k in linked + {i} ==>
              InSlot(location, slot, flow[..], k)
    {
      ghost var slot0, flow0 := slot, flow[..];
      i := GetId();
      SlotPut(location, linked, slot0, flow0, i, x);
      AddIndex(location(x), i);
      flow[i] := x;
      assert flow[..] == flow0[i := x];
    }

    // sum[i] = q, for an element on no chain.
    method SetSum(i: int, q: int)
      requires ChainPart() && i !in linked && 0 < i < M + 10
      modifies sum
      ensures ChainPart() && sum[..] == old(sum[..])[i := q]
    {
      ghost var sum0 := sum[..];
      sum[i] := q;
      UnlinkedWriteKeepsChains(i, sum0, next[..], last[..]);
    }

    // Bucket N - 1 is the only one.
    ghost predicate OnlyLast()
      reads head, left, right
    {
      Shape() && N > 1 && head[N - 1] != 0 && left[N - 1] == 0 && right[0] == N - 1 && right[N - 1] == N
    }

    // A full table whose minimum was N - 1 and which has just admitted a flow at N.
    ghost predicate AtLimit()
      reads `linked, `stamp, `clock, `indexed, `slot, `stamp2, `clock2, `taken, `num, `tot
      reads sum, last, next, ids, next2, flow, head, left, right, head2
    {
      && ElementsOk() && N > 1 && head[N - 1] != 0 && head[N] != 0
      && left[N - 1] == 0 && right[0] == N - 1 && right[N - 1] == N && left[N] == N
    }

    // Right[0] names a bucket with an element on its chain.
    ghost predicate HasLeast()
      reads `linked, `stamp, `clock, `indexed, `slot, `stamp2, `clock2, `taken, `num, `tot
      reads sum, last, next, ids, next2, flow, head, left, right, head2
    {
      && ElementsOk() && InBounds(right[0])
      && right[0] <= N && head[right[0]] in linked && sum[head[right[0]]] == right[0]
    }

    // The body of Insert's eviction loop: removes the first element of the smallest bucket.
    method Evict() returns (ghost y: Flow)
      requires HasLeast()
      modifies `counts, `tot, `num, `linked, `indexed, `taken, `buckets
      modifies next, last, head, left, right, head2, next2, ids
      ensures tot == old(tot) - 1
      ensures old(Valid()) ==> Valid() && IsMin(old(counts), y) && counts == Drop(old(counts), y)
      ensures old(Valid()) ==> IsNewest(old(counts), date, y)
      ensures old(AtLimit()) ==> Broken()
    {
      y := flow[head[right[0]]];
      LeastRow();
      ghost var valid := Valid();
      RemoveLeast();
      DropRow(y, valid);
    }

    ghost method DropRow(y: Flow, valid: bool)
      requires valid ==> IsTable(Drop(counts, y), owner, linked, flow[..], sum[..]) &&
                         AreDated(Drop(counts, y), date, owner, stamp)
      modifies `counts
      ensures counts == Drop(old(counts), y)
      ensures valid ==> IsTable(counts, owner, linked, flow[..], sum[..]) && AreDated(counts, date, owner, stamp)
    {
      counts := Drop(counts, y);
    }

    lemma LeastRow()
      requires HasLeast()
      ensures var i := head[right[0]];
              Valid() ==>
                && IsMin(counts, flow[i]) && IsNewest(counts, date, flow[i])
                && IsTable(Drop(counts, flow[i]), owner, linked - {i}, flow[..], sum[..])
                && AreDated(Drop(counts, flow[i]), date, owner, stamp)
    {
      if Valid() {
        MinBucket();
        TableRemove(counts, owner, linked, flow[..], sum[..], head[right[0]]);
        DatesDrop(counts, date, owner, stamp, flow[head[right[0]]]);
        LeastIsNewest();
      }
    }

    // The element that link() pushed last heads its bucket.
    lemma LeastIsNewest()
      requires Valid() && HasLeast()
      ensures IsNewest(counts, date, flow[head[right[0]]])
    {
      var i := head[right[0]];
      var y := flow[i];
      assert IsTop(linked, sum[..], stamp, right[0], head[..][right[0]]);
      assert IsRow(counts, owner, flow[..], sum[..], i) && IsDated(date, owner, stamp, y);
      forall f | f in counts && counts[f] == counts[y] && f != y
        ensures f in date && y in date && date[f] < date[y]
      {
        assert IsOwned(owner, linked, flow[..], f) && IsDated(date, owner, stamp, f);
        assert IsRow(counts, owner, flow[..], sum[..], owner[f]);
      }
    }

    method RemoveLeast()
      requires HasLeast()
      modifies `tot, `num, `linked, `indexed, `taken, `buckets, next, last, head, left, right, head2, next2, ids
      ensures ElementsOk() && linked == old(linked) - {old(head[right[0]])} && tot == old(tot) - 1
      ensures old(BucketPart()) ==> BucketPart()
      ensures old(AtLimit()) ==> Broken()
    {
      var t := right[0];
      var tmp := head[t];
      ghost var head0, left0, right0 := head[..], left[..], right[..];
      Remove(tmp);
      assert t != N ==> head[..][N] == head0[N];
      assert head[t] == 0 ==> left[..][right0[t]] == left0[t] && right[..][left0[t]] == right0[t];
      assert head[t] != 0 ==> left[..][N] == left0[N];
    }

    lemma LeastIsLinked()
      requires (Valid() && linked != {}) || AtLimit()
      ensures HasLeast()
    {
      assert IsTop(linked, sum[..], stamp, N - 1, head[..][N - 1]);
      if Valid() {
        MinBucket();
        assert Behind(N, buckets, left[..], right[..], right[0]) && Ahead(N, buckets, left[..], right[..], right[0]);
      }
    }

    // cut and recycling, as the eviction loop calls them.
    method Remove(i: int)
      requires ElementsOk() && i in linked && InBounds(sum[i])
      modifies `tot, `num, `linked, `indexed, `taken, `buckets, next, last, head, left, right, head2, next2, ids
      ensures ElementsOk() && linked == old(linked) - {i} && tot == old(tot) - 1
      ensures old(BucketPart()) ==> BucketPart()
      ensures head[..] == old(head[..])[sum[i] := head[sum[i]]]
      ensures Unlisted(old(left[..]), old(right[..]), sum[i])
    {
      assert InSlot(location, slot, flow[..], i);
      Cut(i);
      Recycle(i);
      assert tot == |linked|;
      assert forall k :: k in linked ==> InSlot(location, slot, flow[..], k);
    }

    // Insert of a monitored flow: moves its element p to the next bucket.
    method Bump(p: int)
      requires Valid() && p in linked
      modifies `counts, `date, `tot, `linked, `stamp, `clock, `buckets, sum, next, last, head, left, right
      ensures 0 < old(sum[p]) < N && date == old(date)[flow[p] := old(clock)] && clock == old(clock) + 1
      ensures old(sum[p]) + 1 < N ==> Valid() && tot == old(tot)
      ensures old(sum[p]) + 1 < N ==>
                flow[p] in old(counts) && counts == old(counts)[flow[p] := old(counts)[flow[p]] + 1]
      ensures old(sum[p]) + 1 == N ==> Broken()
    {
      ghost var sum0, stamp0, now := sum[..], stamp, clock;
      Raise(p);
      RaiseRow(p, sum0, stamp0, now);
    }

    ghost method RaiseRow(p: int, sum0: seq<int>, stamp0: seq<int>, now: int)
      requires IsTable(counts, owner, linked, flow[..], sum0) && AreDated(counts, date, owner, stamp0)
      requires p in linked && 0 < p < flow.Length && p < |sum0| && p < |stamp0|
      requires sum[..] == sum0[p := sum0[p] + 1] && stamp == stamp0[p := now]
      modifies `counts, `date
      ensures flow[p] in old(counts) && old(counts)[flow[p]] == sum0[p]
      ensures counts == old(counts)[flow[p] := sum0[p] + 1] && date == old(date)[flow[p] := now]
      ensures IsTable(counts, owner, linked, flow[..], sum[..]) && AreDated(counts, date, owner, stamp)
    {
      TableSet(counts, owner, linked, flow[..], sum0, p, sum0[p] + 1);
      DatedPut(counts, date, owner, linked, stamp0, flow[..], sum0, p, flow[p], sum0[p] + 1, now);
      assert owner[flow[p] := p] == owner;
      counts, date := counts[flow[p] := sum0[p] + 1], date[flow[p] := now];
    }

    method Raise(p: int)
      requires Consistent() && p in linked
      modifies `tot, `linked, `stamp, `clock, `buckets, sum, next, last, head, left, right
      ensures 0 < old(sum[p]) < N && ChainPart() && linked == old(linked) && tot == old(tot)
      ensures sum[..] == old(sum[..])[p := old(sum[p]) + 1]
      ensures stamp == old(stamp)[p := old(clock)] && clock == old(clock) + 1
      ensures old(sum[p]) + 1 < N ==> BucketPart()
      ensures old(sum[p]) + 1 == N ==> Broken()
    {
      BucketOf(p);
      var tmp := left[sum[p]];
      Cut(p);
      if head[sum[p]] != 0 {
        tmp := sum[p];
      }
      SetSum(p, sum[p] + 1);
      Link(p, tmp, tmp);
    }

    lemma BucketOf(p: int)
      requires ChainPart() && BucketPart() && p in linked
      ensures sum[p] in buckets && 0 < sum[p] < N && InBounds(sum[p]) && IsPred(buckets, sum[p], left[sum[p]])
    {
      assert IsTop(linked, sum[..], stamp, sum[p], head[..][sum[p]]);
      assert Behind(N, buckets, left[..], right[..], sum[p]) && Ahead(N, buckets, left[..], right[..], sum[p]);
    }
  }
}
