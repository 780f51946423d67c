/** diff_cmp of agent/topk_deal.cpp: turning two successive top-K tables into rule
    additions and deletions, and the epoch protocol of insert, dump and diff. */
module TopKDiff {
  import opened Sets
  import opened Flows
  import opened SpaceSavings

  // One call of shc_swTohw_rule, with flag_of_add_del 0 and 1.
  datatype Op = Add(flow: Flow) | Delete(flow: Flow)

  function Apply(installed: set<Flow>, op: Op): set<Flow> {
    match op
    case Add(f) => installed + {f}
    case Delete(f) => installed - {f}
  }

  function Replay(installed: set<Flow>, ops: seq<Op>): set<Flow> {
    if ops == [] then installed else Apply(Replay(installed, ops[..|ops| - 1]), ops[|ops| - 1])
  }

  lemma ReplaySnoc(installed: set<Flow>, ops: seq<Op>, op: Op)
    ensures Replay(installed, ops + [op]) == Apply(Replay(installed, ops), op)
  {
  }

  lemma {:induction false} ReplayConcat(installed: set<Flow>, a: seq<Op>, b: seq<Op>)
    ensures Replay(installed, a + b) == Replay(Replay(installed, a), b)
  {
    if b == [] {
      assert a + b == a;
    } else {
      var init, last := b[..|b| - 1], b[|b| - 1];
      assert a + b == (a + init) + [last];
      ReplaySnoc(installed, a + init, last);
      ReplayConcat(installed, a, init);
    }
  }

  ghost predicate InFlowOrder(ops: seq<Op>) {
    forall i, j :: 0 <= i < j < |ops| ==> ops[i].flow.Less(ops[j].flow)
  }

  // ops leads from the installed flows o to n: one addition for each flow of n alone, one
  // deletion for each flow of o alone, in the order of the flows, and nothing else.
  ghost predicate IsDiff(o: set<Flow>, n: set<Flow>, ops: seq<Op>) {
    && InFlowOrder(ops)
    && (forall f :: Add(f) in ops <==> f in n - o)
    && (forall f :: Delete(f) in ops <==> f in o - n)
  }

  // That determines the operations.
  lemma DiffIsDetermined(o: set<Flow>, n: set<Flow>, a: seq<Op>, b: seq<Op>)
    requires IsDiff(o, n, a) && IsDiff(o, n, b)
    ensures a == b
  {
    forall op
      ensures op in a <==> op in b
    {
      assert op == Add(op.flow) || op == Delete(op.flow);
    }
    SameOps(a, b);
  }

  lemma {:induction false} SameOps(a: seq<Op>, b: seq<Op>)
    requires InFlowOrder(a) && InFlowOrder(b) && forall op :: op in a <==> op in b
    ensures a == b
  {
    if a == [] {
      if b != [] {
        LastIsGreatest(b, a);
      }
    } else {
      var x := a[|a| - 1];
      assert x in b;
      LastIsGreatest(a, b);
      var a', b' := a[..|a| - 1], b[..|b| - 1];
      assert a == a' + [x] && b == b' + [x];
      LastIsNew(a, x);
      LastIsNew(b, x);
      assert forall op :: op in a' <==> op in a && op != x;
      assert forall op :: op in b' <==> op in b && op != x;
      SameOps(a', b');
    }
  }

  lemma LastIsNew(a: seq<Op>, x: Op)
    requires InFlowOrder(a) && a != [] && x == a[|a| - 1]
    ensures x !in a[..|a| - 1]
  {
    forall i | 0 <= i < |a| - 1
      ensures a[i] != x
    {
      LessIsStrictTotalOrder(a[i].flow, x.flow, x.flow);
    }
  }

  lemma LastIsGreatest(a: seq<Op>, b: seq<Op>)
    requires InFlowOrder(a) && InFlowOrder(b) && a != [] && forall op :: op in a <==> op in b
    ensures b != [] && a[|a| - 1] == b[|b| - 1]
  {
    var x := a[|a| - 1];
    assert x in b;
    var y := b[|b| - 1];
    assert y in a;
    if x != y {
      var i :| 0 <= i < |a| && a[i] == y;
      var j :| 0 <= j < |b| && b[j] == x;
      LessIsStrictTotalOrder(x.flow, y.flow, x.flow);
      assert false;
    }
  }

  // What has been emitted when the two cursors stand at i and j.
  ghost predicate Merged(o: seq<Element>, n: seq<Element>, i: nat, j: nat, ops: seq<Op>)
    requires i <= |o| && j <= |n|
  {
    && (forall a, b {:trigger o[a].flowId.Less(n[b].flowId)} :: 0 <= a < i && j <= b < |n| ==>
          o[a].flowId.Less(n[b].flowId))
    && (forall a, b {:trigger n[a].flowId.Less(o[b].flowId)} :: 0 <= a < j && i <= b < |o| ==>
          n[a].flowId.Less(o[b].flowId))
    && (forall f :: Add(f) in ops <==> f in Ids(n[..j]) - Ids(o[..i]))
    && (forall f :: Delete(f) in ops <==> f in Ids(o[..i]) - Ids(n[..j]))
    && InFlowOrder(ops)
  }

  lemma IdsSnoc(t: seq<Element>, i: nat)
    requires i < |t|
    ensures Ids(t[..i + 1]) == Ids(t[..i]) + {t[i].flowId}
  {
    assert t[..i + 1] == t[..i] + [t[i]];
    forall f | f in Ids(t[..i]) + {t[i].flowId}
      ensures f in Ids(t[..i + 1])
    {
      var k :| 0 <= k <= i && t[..i + 1][k].flowId == f;
    }
  }

  // x comes after the first i flows of t.
  ghost predicate After(t: seq<Element>, i: nat, x: Flow)
    requires i <= |t|
  {
    forall f :: f in Ids(t[..i]) ==> f.Less(x)
  }

  lemma AfterOwn(t: seq<Element>, i: nat)
    requires SortedById(t) && i < |t|
    ensures After(t, i, t[i].flowId)
  {
    forall f | f in Ids(t[..i])
      ensures f.Less(t[i].flowId)
    {
      var k :| 0 <= k < i && t[..i][k].flowId == f;
      assert t[k].flowId.Less(t[i].flowId);
    }
  }

  // The flows passed in one table come before the next flow of the other.
  lemma AfterOther(t: seq<Element>, i: nat, x: Flow)
    requires i <= |t| && forall a :: 0 <= a < i ==> t[a].flowId.Less(x)
    ensures After(t, i, x)
  {
    forall f | f in Ids(t[..i])
      ensures f.Less(x)
    {
      var k :| 0 <= k < i && t[..i][k].flowId == f;
    }
  }

  // A flow before the next one of a table comes before all that follow.
  lemma BeforeRest(t: seq<Element>, i: nat, x: Flow)
    requires SortedById(t) && (i < |t| ==> x.Less(t[i].flowId))
    ensures forall b :: i <= b < |t| ==> x.Less(t[b].flowId)
  {
    forall b | i <= b < |t|
      ensures x.Less(t[b].flowId)
    {
      if i < b {
        LessIsStrictTotalOrder(x, t[i].flowId, t[b].flowId);
      }
    }
  }

  // The next operation concerns a flow after all those already handled.
  lemma EmitInOrder(o: seq<Element>, n: seq<Element>, i: nat, j: nat, ops: seq<Op>, op: Op)
    requires i <= |o| && j <= |n| && Merged(o, n, i, j, ops)
    requires After(o, i, op.flow) && After(n, j, op.flow)
    ensures InFlowOrder(ops + [op]) && op.flow !in Ids(o[..i]) && op.flow !in Ids(n[..j])
  {
    forall k | 0 <= k < |ops|
      ensures ops[k].flow.Less(op.flow)
    {
      assert ops[k] in ops && (ops[k] == Add(ops[k].flow) || ops[k] == Delete(ops[k].flow));
    }
    LessIsStrictTotalOrder(op.flow, op.flow, op.flow);
  }

  // The three steps of the merge.
  lemma MergeDelete(o: seq<Element>, n: seq<Element>, i: nat, j: nat, ops: seq<Op>)
    requires SortedById(o) && SortedById(n)
    requires i < |o| && j <= |n| && Merged(o, n, i, j, ops)
    requires j < |n| ==> o[i].flowId.Less(n[j].flowId)
    ensures Merged(o, n, i + 1, j, ops + [Delete(o[i].flowId)])
  {
    var x := o[i].flowId;
    var ops' := ops + [Delete(x)];
    BeforeRest(n, j, x);
    AfterOwn(o, i);
    AfterOther(n, j, x);
    EmitInOrder(o, n, i, j, ops, Delete(x));
    IdsSnoc(o, i);
    forall f
      ensures Add(f) in ops' <==> f in Ids(n[..j]) - Ids(o[..i + 1])
    {
      assert Add(f) in ops' <==> Add(f) in ops;
    }
    forall f
      ensures Delete(f) in ops' <==> f in Ids(o[..i + 1]) - Ids(n[..j])
    {
      assert Delete(f) in ops' <==> Delete(f) in ops || f == x;
    }
  }

  lemma MergeAdd(o: seq<Element>, n: seq<Element>, i: nat, j: nat, ops: seq<Op>)
    requires SortedById(o) && SortedById(n)
    requires i <= |o| && j < |n| && Merged(o, n, i, j, ops)
    requires i < |o| ==> n[j].flowId.Less(o[i].flowId)
    ensures Merged(o, n, i, j + 1, ops + [Add(n[j].flowId)])
  {
    var x := n[j].flowId;
    var ops' := ops + [Add(x)];
    BeforeRest(o, i, x);
    AfterOwn(n, j);
    AfterOther(o, i, x);
    EmitInOrder(o, n, i, j, ops, Add(x));
    IdsSnoc(n, j);
    forall f
      ensures Add(f) in ops' <==> f in Ids(n[..j + 1]) - Ids(o[..i])
    {
      assert Add(f) in ops' <==> Add(f) in ops || f == x;
    }
    forall f
      ensures Delete(f) in ops' <==> f in Ids(o[..i]) - Ids(n[..j + 1])
    {
      assert Delete(f) in ops' <==> Delete(f) in ops;
    }
  }

  lemma MergeSkip(o: seq<Element>, n: seq<Element>, i: nat, j: nat, ops: seq<Op>)
    requires SortedById(o) && SortedById(n)
    requires i < |o| && j < |n| && Merged(o, n, i, j, ops)
    requires o[i].flowId == n[j].flowId
    ensures Merged(o, n, i + 1, j + 1, ops)
  {
    var x := o[i].flowId;
    IdsSnoc(o, i);
    IdsSnoc(n, j);
    AfterOwn(o, i);
    AfterOwn(n, j);
    LessIsStrictTotalOrder(x, x, x);
    assert x !in Ids(o[..i]) && x !in Ids(n[..j]);
    assert forall b :: j < b < |n| ==> x.Less(n[b].flowId);
    assert forall b :: i < b < |o| ==> x.Less(o[b].flowId);
    forall f
      ensures Add(f) in ops <==> f in Ids(n[..j + 1]) - Ids(o[..i + 1])
      ensures Delete(f) in ops <==> f in Ids(o[..i + 1]) - Ids(n[..j + 1])
    {
      assert f in Ids(o[..i + 1]) <==> f in Ids(o[..i]) || f == x;
      assert f in Ids(n[..j + 1]) <==> f in Ids(n[..j]) || f == x;
    }
  }

  // Operations that add new - old and delete old - new lead from old to new.
  lemma {:induction false} ReplayExact(installed: set<Flow>, ops: seq<Op>)
    requires InFlowOrder(ops)
    ensures forall f :: f in Replay(installed, ops) <==> Add(f) in ops || (f in installed && Delete(f) !in ops)
  {
    if ops == [] {
    } else {
      var init, last := ops[..|ops| - 1], ops[|ops| - 1];
      assert ops == init + [last];
      ReplayExact(installed, init);
      forall op | op in init
        ensures op.flow != last.flow
      {
      }
      assert forall op :: op in ops <==> op in init || op == last;
    }
  }

  lemma DiffReplays(o: set<Flow>, n: set<Flow>, ops: seq<Op>)
    requires IsDiff(o, n, ops)
    ensures Replay(o, ops) == n
  {
    ReplayExact(o, ops);
  }

  // The merge of two whole tables.
  lemma MergedAll(o: seq<Element>, n: seq<Element>, ops: seq<Op>)
    requires Merged(o, n, |o|, |n|, ops)
    ensures IsDiff(Ids(o), Ids(n), ops) && Replay(Ids(o), ops) == Ids(n)
  {
    assert o[..|o|] == o && n[..|n|] == n;
    ReplayExact(Ids(o), ops);
  }

  // The loop of diff_cmp over the dumped tables.
  method Diff(oldS: FlowTable, newS: FlowTable) returns (ops: seq<Op>)
    requires oldS.Valid() && newS.Valid() && SortedById(oldS.Rows()) && SortedById(newS.Rows())
    ensures IsDiff(Ids(oldS.Rows()), Ids(newS.Rows()), ops)
    ensures Replay(Ids(oldS.Rows()), ops) == Ids(newS.Rows())
  {
    ghost var o, n := oldS.Rows(), newS.Rows();
    ops := [];
    var oldIndex, newIndex := 0, 0;
    while oldIndex < oldS.used || newIndex < newS.used
      invariant 0 <= oldIndex <= oldS.used && 0 <= newIndex <= newS.used
      invariant Merged(o, n, oldIndex, newIndex, ops)
      decreases oldS.used - oldIndex + newS.used - newIndex
    {
      if oldIndex == oldS.used {
        MergeAdd(o, n, oldIndex, newIndex, ops);
        ops := ops + [Add(newS.data[newIndex].flowId)];
        newIndex := newIndex + 1;
      } else if newIndex == newS.used {
        MergeDelete(o, n, oldIndex, newIndex, ops);
        ops := ops + [Delete(oldS.data[oldIndex].flowId)];
        oldIndex := oldIndex + 1;
      } else if oldS.data[oldIndex].flowId == newS.data[newIndex].flowId {
        MergeSkip(o, n, oldIndex, newIndex, ops);
        newIndex := newIndex + 1;
        oldIndex := oldIndex + 1;
      } else if oldS.data[oldIndex].flowId.Less(newS.data[newIndex].flowId) {
        MergeDelete(o, n, oldIndex, newIndex, ops);
        ops := ops + [Delete(oldS.data[oldIndex].flowId)];
        oldIndex := oldIndex + 1;
      } else {
        LessIsStrictTotalOrder(o[oldIndex].flowId, n[newIndex].flowId, o[oldIndex].flowId);
        MergeAdd(o, n, oldIndex, newIndex, ops);
        ops := ops + [Add(newS.data[newIndex].flowId)];
        newIndex := newIndex + 1;
      }
    }
    MergedAll(o, n, ops);
  }

  // Operations in flow order are as many as the flows they mention: no flow is
  // touched twice, so the log is as short as the symmetric difference allows.
  lemma OpCount(o: set<Flow>, n: set<Flow>, ops: seq<Op>)
    requires IsDiff(o, n, ops)
    ensures |ops| == |o - n| + |n - o|
  {
    var flows := seq(|ops|, k requires 0 <= k < |ops| => ops[k].flow);
    assert NoDuplicates(flows) by {
      forall i, j | 0 <= i < j < |flows|
        ensures flows[i] != flows[j]
      {
        LessIsStrictTotalOrder(ops[i].flow, ops[j].flow, ops[i].flow);
      }
    }
    NoDuplicatesSize(flows);
    assert Elements(flows) == (o - n) + (n - o) by {
      forall f | f in flows
        ensures f in (o - n) + (n - o)
      {
        var k :| 0 <= k < |flows| && flows[k] == f;
        assert ops[k] == Add(f) || ops[k] == Delete(f);
        assert ops[k] in ops;
      }
      forall f | f in (o - n) + (n - o)
        ensures f in flows
      {
        var op := if f in n then Add(f) else Delete(f);
        var k :| 0 <= k < |ops| && ops[k] == op;
        assert flows[k] == f;
      }
    }
    assert (o - n) !! (n - o);
  }
}
