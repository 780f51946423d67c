/** The linked list of counted destination addresses a VRF keeps for routes matched by
    prefix (findVal, addAtHead and deleteAtVal of agent/route.c). */
module CountedLists {
  import opened Sets

  const UINT32: int := 0x1_0000_0000

  class LinkNode {
    var lpmCounter: int   // uint32_t
    const routInfo: int
    var next: LinkNode?

    constructor (info: int, n: LinkNode?)
      ensures lpmCounter == 1 && routInfo == info && next == n
    {
      lpmCounter, routInfo, next := 1, info, n;
    }
  }

  // The addresses and counters of the nodes record exactly the references in bag.
  ghost predicate Tally(infos: seq<int>, counts: seq<int>, bag: multiset<int>) {
    && |infos| == |counts| && NoDuplicates(infos)
    && (forall i :: 0 <= i < |infos| ==> 1 <= counts[i] < UINT32 && counts[i] == bag[infos[i]])
    && forall v :: v in bag <==> v in infos
  }

  lemma TallyAdd(infos: seq<int>, counts: seq<int>, bag: multiset<int>, val: int)
    requires Tally(infos, counts, bag) && val !in bag
    ensures Tally([val] + infos, [1] + counts, bag + multiset{val})
  {
  }

  // Counter k may be rewritten if the references of its address change with it.
  lemma TallySet(infos: seq<int>, counts: seq<int>, bag: multiset<int>, k: nat, c: int, bag': multiset<int>)
    requires Tally(infos, counts, bag) && k < |infos|
    requires bag' == bag[infos[k] := bag'[infos[k]]]
    ensures c == bag'[infos[k]] && 1 <= c < UINT32 ==> Tally(infos, counts[k := c], bag')
    ensures Tally(infos, counts[k := c], bag') ==> c == bag'[infos[k]] && 1 <= c < UINT32
  {
  }

  lemma TallyRemove(infos: seq<int>, counts: seq<int>, bag: multiset<int>, k: nat)
    requires Tally(infos, counts, bag) && k < |infos| && counts[k] == 1
    ensures Tally(infos[..k] + infos[k + 1..], counts[..k] + counts[k + 1..], bag - multiset{infos[k]})
  {
  }

  // The list lost the node of val, and the others stay in their order.
  ghost predicate OneLess(infos: seq<int>, infos': seq<int>, val: int) {
    exists a, b :: infos == a + [val] + b && infos' == a + b
  }

  lemma CutOut(infos: seq<int>, k: nat)
    requires k < |infos|
    ensures OneLess(infos, infos[..k] + infos[k + 1..], infos[k])
  {
    assert infos == infos[..k] + [infos[k]] + infos[k + 1..];
  }

  class CountedList {
    var listHead: LinkNode?
    var listLen: int
    ghost var nodes: seq<LinkNode>  // the nodes from the head on
    ghost var infos: seq<int>       // their addresses
    ghost var counts: seq<int>      // their counters
    ghost var bag: multiset<int>    // every recorded reference

    ghost predicate LinkAt(i: int)
      reads this, nodes
      requires 0 <= i < |nodes|
    {
      nodes[i].next == if i + 1 < |nodes| then nodes[i + 1] else null
    }

    ghost predicate NodeAt(i: int)
      reads this, nodes
      requires 0 <= i < |nodes|
    {
      i < |infos| && i < |counts| && nodes[i].routInfo == infos[i] && nodes[i].lpmCounter == counts[i]
    }

    ghost predicate Linked()
      reads this, nodes
    {
      && listHead == (if nodes == [] then null else nodes[0])
      && forall i {:trigger LinkAt(i)} :: 0 <= i < |nodes| ==> LinkAt(i)
    }

    ghost predicate Recorded()
      reads this, nodes
    {
      && |infos| == |nodes| && Tally(infos, counts, bag)
      && forall i {:trigger NodeAt(i)} :: 0 <= i < |nodes| ==> NodeAt(i)
    }

    ghost predicate Valid()
      reads this, nodes
    {
      Linked() && Recorded() && listLen == |nodes|
    }

    // initLink()
    constructor ()
      ensures Valid() && bag == multiset{} && nodes == []
    {
      listLen := 0;
      listHead := null;
      nodes, infos, counts, bag := [], [], [], multiset{};
    }

    lemma NodesDistinct()
      requires Recorded()
      ensures NoDuplicates(nodes)
    {
      forall i, j | 0 <= i < j < |nodes|
        ensures nodes[i] != nodes[j]
      {
        assert NodeAt(i) && NodeAt(j) && infos[i] != infos[j];
      }
    }

    // findVal(): counts one more reference if the address is present. The 32-bit counter
    // loses count exactly when it wraps.
    method FindVal(val: int) returns (found: bool)
      requires Valid()
      modifies `counts, `bag, nodes`lpmCounter
      ensures found <==> val in old(bag)
      ensures bag == if found then old(bag) + multiset{val} else old(bag)
      ensures Valid() <==> (found ==> old(bag[val]) + 1 < 0x1_0000_0000)
    {
      var curNode := listHead;
      ghost var k := 0;
      while curNode != null
        invariant 0 <= k <= |nodes| && curNode == if k < |nodes| then nodes[k] else null
        invariant val !in infos[..k]
        invariant Valid() && bag == old(bag)
        decreases |nodes| - k
      {
        assert NodeAt(k) && LinkAt(k);
        if curNode.routInfo == val {
          assert infos[k] in infos;
          SetCounter(curNode, k, (curNode.lpmCounter + 1) % UINT32, bag + multiset{val});
          return true;
        }
        curNode := curNode.next;
        k := k + 1;
      }
      assert infos[..k] == infos;
      return false;
    }

    method SetCounter(n: LinkNode, ghost k: nat, c: int, ghost bag': multiset<int>)
      requires Valid() && k < |nodes| && n == nodes[k]
      requires bag' == bag[n.routInfo := bag'[n.routInfo]]
      modifies `counts, `bag, n`lpmCounter
      ensures n.lpmCounter == c && bag == bag'
      ensures Valid() <==> c == bag'[n.routInfo] && 1 <= c < UINT32
    {
      NodesDistinct();
      assert NodeAt(k);
      TallySet(infos, counts, bag, k, c, bag');
      n.lpmCounter := c;
      counts, bag := counts[k := c], bag';
      forall i | 0 <= i < |nodes|
        ensures NodeAt(i) && LinkAt(i)
      {
        assert old(NodeAt(i)) && old(LinkAt(i));
      }
    }

    // addAtHead(), called after findVal() failed.
    method AddAtHead(val: int)
      requires Valid() && val !in bag
      modifies this
      ensures Valid() && bag == old(bag) + multiset{val}
      ensures nodes != [] && nodes[1..] == old(nodes) && fresh(nodes[0]) && infos == [val] + old(infos)
    {
      TallyAdd(infos, counts, bag, val);
      listLen := listLen + 1;
      var newNode := new LinkNode(val, listHead);
      listHead := newNode;
      nodes, infos, counts, bag := [newNode] + nodes, [val] + infos, [1] + counts, bag + multiset{val};
      forall i | 0 <= i < |nodes|
        ensures NodeAt(i) && LinkAt(i)
      {
        assert i > 0 ==> old(NodeAt(i - 1)) && old(LinkAt(i - 1));
      }
    }

    // deleteAtVal(): drops one reference, and the node with the last one.
    method DeleteAtVal(val: int)
      requires Valid()
      modifies this, nodes
      ensures Valid() && bag == old(bag) - multiset{val}
      ensures if old(bag[val]) == 1 then OneLess(old(infos), infos, val) else infos == old(infos)
    {
      assert nodes != [] ==> NodeAt(0) && LinkAt(0);
      if listHead != null && listHead.routInfo == val {
        if listHead.lpmCounter == 1 {
          PopHead();
        } else {
          SetCounter(listHead, 0, listHead.lpmCounter - 1, bag - multiset{val});
        }
        return;
      }
      var curNode := listHead;
      ghost var k := 0;
      while curNode != null && curNode.next != null
        invariant 0 <= k <= |nodes| && curNode == if k < |nodes| then nodes[k] else null
        invariant forall i :: 0 <= i <= k && i < |nodes| ==> infos[i] != val
        invariant Valid() && bag == old(bag) && nodes == old(nodes) && infos == old(infos) && counts == old(counts)
        decreases |nodes| - k
      {
        assert LinkAt(k) && k + 1 < |nodes| && NodeAt(k + 1) && LinkAt(k + 1);
        if curNode.next.routInfo == val {
          if curNode.next.lpmCounter == 1 {
            SpliceAfter(curNode, k);
          } else {
            SetCounter(curNode.next, k + 1, curNode.next.lpmCounter - 1, bag - multiset{val});
          }
          return;
        }
        curNode := curNode.next;
        k := k + 1;
      }
      assert k < |nodes| ==> LinkAt(k);
    }

    // Takes the first node out of the list.
    method PopHead()
      requires Valid() && listHead != null && nodes != [] && counts[0] == 1
      modifies this
      ensures Valid() && bag == old(bag) - multiset{old(infos[0])} && OneLess(old(infos), infos, old(infos[0]))
    {
      assert LinkAt(0);
      listLen := listLen - 1;
      listHead := listHead.next;
      forall i | 0 <= i < |nodes|
        ensures LinkAt(i) && NodeAt(i)
      {
        assert old(LinkAt(i)) && old(NodeAt(i));
      }
      CutOut(infos, 0);
      Unlinked(0);
    }

    // Takes the successor of node k out of the list.
    method SpliceAfter(n: LinkNode, ghost k: nat)
      requires Valid() && k + 1 < |nodes| && n == nodes[k] && n.next == nodes[k + 1] && counts[k + 1] == 1
      modifies this, n
      ensures Valid() && bag == old(bag) - multiset{old(infos[k + 1])}
      ensures OneLess(old(infos), infos, old(infos[k + 1]))
    {
      NodesDistinct();
      assert LinkAt(k + 1);
      listLen := listLen - 1;
      n.next := n.next.next;
      forall i | 0 <= i < |nodes| && i != k
        ensures LinkAt(i)
      {
        assert old(LinkAt(i));
      }
      forall i | 0 <= i < |nodes|
        ensures NodeAt(i)
      {
        assert old(NodeAt(i));
      }
      CutOut(infos, k + 1);
      Unlinked(k + 1);
    }

    // Node k has been spliced out; the ghost view follows.
    ghost method Unlinked(k: nat)
      requires Recorded() && k < |nodes| && listLen == |nodes| - 1 && counts[k] == 1
      requires listHead == if k > 0 then nodes[0] else if |nodes| > 1 then nodes[1] else null
      requires k > 0 ==> nodes[k - 1].next == if k + 1 < |nodes| then nodes[k + 1] else null
      requires forall i {:trigger LinkAt(i)} :: 0 <= i < |nodes| && i != k - 1 ==> LinkAt(i)
      modifies `nodes, `infos, `counts, `bag
      ensures Valid() && bag == old(bag) - multiset{old(infos[k])}
      ensures infos == old(infos)[..k] + old(infos)[k + 1..]
    {
      TallyRemove(infos, counts, bag, k);
      bag := bag - multiset{infos[k]};
      nodes, infos, counts := nodes[..k] + nodes[k + 1..], infos[..k] + infos[k + 1..], counts[..k] + counts[k + 1..];
      forall i | 0 <= i < |nodes|
        ensures NodeAt(i) && LinkAt(i)
      {
        assert old(NodeAt(if i < k then i else i + 1));
        assert i != k - 1 ==> old(LinkAt(if i < k then i else i + 1));
      }
    }

    // The reference a route lookup takes: find, else add.
    method Record(val: int)
      requires Valid() && bag[val] + 1 < UINT32
      modifies this, nodes`lpmCounter
      ensures Valid() && bag == old(bag) + multiset{val}
      ensures forall n :: n in nodes ==> n in old(nodes) || fresh(n)
    {
      var res := FindVal(val);
      if !res {
        AddAtHead(val);
        assert nodes == [nodes[0]] + nodes[1..];
      }
    }

    // The number of nodes is the number of distinct addresses recorded.
    lemma LengthIsDistinctCount()
      requires Valid()
      ensures listLen == |set v | v in bag|
    {
      NoDuplicatesSize(infos);
      assert forall v :: v in Elements(infos) <==> v in bag;
      assert Elements(infos) == set v | v in bag;
    }
  }

  // Recording an address and deleting it again restores the references.
  method RecordThenDelete(l: CountedList, val: int)
    requires l.Valid() && l.bag[val] + 1 < UINT32
    modifies l, l.nodes
    ensures l.Valid() && l.bag == old(l.bag)
  {
    ghost var before := l.nodes;
    l.Record(val);
    assert forall i :: 0 <= i < |l.nodes| ==> l.nodes[i] in before || fresh(l.nodes[i]);
    l.DeleteAtVal(val);
  }
}
