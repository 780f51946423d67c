/** The doubly linked list of count buckets (linkhead and cuthead of
    platform/drivers/top_k/space_saving.cpp), threaded through Left and Right by
    count. 0 is the sentinel on the left and n the one on the right. */
module BucketList {

  // d is the neighbour to the right of c: nothing lies strictly between them.
  ghost predicate IsNext(n: int, buckets: set<int>, c: int, d: int) {
    && c < d <= n && (d == n || d in buckets)
    && forall e :: e in buckets ==> e <= c || d <= e
  }

  // j is the greatest bucket below c, or sentinel 0 if there is none.
  ghost predicate IsPred(buckets: set<int>, c: int, j: int) {
    && 0 <= j < c && (j == 0 || j in buckets)
    && forall e :: e in buckets && e < c ==> e <= j
  }

  ghost predicate Ahead(n: int, buckets: set<int>, left: seq<int>, right: seq<int>, c: int)
    requires 0 <= c < |right| && n < |left|
  {
    IsNext(n, buckets, c, right[c]) && left[right[c]] == c
  }

  ghost predicate Behind(n: int, buckets: set<int>, left: seq<int>, right: seq<int>, c: int)
    requires 0 <= c <= n < |left| && c < |right| && |left| == |right|
  {
    IsPred(buckets, c, left[c]) && right[left[c]] == c
  }

  ghost predicate Listed(n: int, buckets: set<int>, left: seq<int>, right: seq<int>) {
    && 0 < n < |left| && |left| == |right|
    && (forall c :: c in buckets ==> 0 < c < n)
    && (forall c {:trigger Ahead(n, buckets, left, right, c)} :: c in buckets + {0} ==>
       Ahead(n, buckets, left, right, c))
    && (forall c {:trigger Behind(n, buckets, left, right, c)} :: c in buckets + {n} ==>
       Behind(n, buckets, left, right, c))
  }

  // The arrays linkhead(i, j) leaves behind.
  function LinkedRight(right: seq<int>, i: nat, j: nat): seq<int>
    requires i < |right| && j < |right|
  {
    right[i := right[j]][j := i]
  }

  function LinkedLeft(left: seq<int>, right: seq<int>, i: nat, j: nat): seq<int>
    requires i < |right| && j < |right| && i < |left|
    requires 0 <= LinkedRight(right, i, j)[i] < |left|
  {
    left[i := j][LinkedRight(right, i, j)[i] := i]
  }

  lemma LinkKeepsListed(n: int, buckets: set<int>, left: seq<int>, right: seq<int>, i: int, j: int)
    requires Listed(n, buckets, left, right)
    requires i !in buckets && 0 < i < n && IsPred(buckets, i, j)
    ensures 0 <= LinkedRight(right, i, j)[i] < |left|
    ensures Listed(n, buckets + {i}, LinkedLeft(left, right, i, j), LinkedRight(right, i, j))
  {
    assert j in buckets + {0};
    assert Ahead(n, buckets, left, right, j);
    var buckets', left', right' := buckets + {i}, LinkedLeft(left, right, i, j), LinkedRight(right, i, j);
    assert IsNext(n, buckets', j, i) && IsNext(n, buckets', i, right[j]);
    forall c | c in buckets' + {0}
      ensures Ahead(n, buckets', left', right', c)
    {
      if c != i && c != j {
        assert c in buckets + {0};
        assert Ahead(n, buckets, left, right, c);
        assert right[c] != right[j];
        assert right[c] != i;
      }
    }
    forall c | c in buckets' + {n}
      ensures Behind(n, buckets', left', right', c)
    {
      if c != i {
        assert c in buckets + {n};
        assert Behind(n, buckets, left, right, c);
        assert left[c] != i;
      }
    }
  }

  lemma CutKeepsListed(n: int, buckets: set<int>, left: seq<int>, right: seq<int>, i: int)
    requires Listed(n, buckets, left, right) && i in buckets
    ensures 0 <= left[i] < |right| && 0 <= right[i] < |left|
    ensures Listed(n, buckets - {i}, left[right[i] := left[i]], right[left[i] := right[i]])
  {
    assert i in buckets + {0} && i in buckets + {n};
    assert Ahead(n, buckets, left, right, i) && Behind(n, buckets, left, right, i);
    var buckets', left', right' := buckets - {i}, left[right[i] := left[i]], right[left[i] := right[i]];
    forall c | c in buckets' + {0}
      ensures Ahead(n, buckets', left', right', c)
    {
      assert c in buckets + {0};
      assert Ahead(n, buckets, left, right, c);
      assert right[c] == right[i] ==> c == i;
    }
    forall c | c in buckets' + {n}
      ensures Behind(n, buckets', left', right', c)
    {
      assert c in buckets + {n};
      assert Behind(n, buckets, left, right, c);
    }
  }

  // Opening the bucket of the right sentinel itself ties Left[n] to n, so the walk
  // of work(), which follows Left from n until it meets 0, never leaves n.
  lemma LinkAtSentinelLoops(n: int, buckets: set<int>, left: seq<int>, right: seq<int>, j: int)
    requires Listed(n, buckets, left, right) && IsPred(buckets, n, j)
    ensures 0 <= LinkedRight(right, n, j)[n] < |left|
    ensures LinkedLeft(left, right, n, j)[n] == n
    ensures forall b: set<int> :: !Listed(n, b, LinkedLeft(left, right, n, j), LinkedRight(right, n, j))
  {
    assert n in buckets + {n};
    assert Behind(n, buckets, left, right, n);
    assert j == left[n];
    forall b: set<int>
      ensures !Listed(n, b, LinkedLeft(left, right, n, j), LinkedRight(right, n, j))
    {
      var left', right' := LinkedLeft(left, right, n, j), LinkedRight(right, n, j);
      assert !IsPred(b, n, n);
      assert n in b + {n} && (n < |left'| ==> !Behind(n, b, left', right', n));
    }
  }
}
