/** Singly linked chains threaded through arrays by index, one chain per key.

    A chain is described without paths: every member carries a stamp, stamps are
    distinct, head[c] is the member of key c with the greatest stamp, and next[i]
    is the member of the same key with the greatest stamp below that of i. Index 0
    ends a chain. Both the element chains (head/Next) and the hash chains
    (head2/Next2) of platform/drivers/top_k/space_saving.cpp have this form. */
module OrderedChains {

  ghost predicate Members(keys: int, members: set<int>, key: seq<int>, stamp: seq<int>) {
    && |key| == |stamp|
    && (forall i :: i in members ==> 0 < i < |key| && 0 <= key[i] < keys)
    && (forall i, j :: i in members && j in members && stamp[i] == stamp[j] ==> i == j)
  }

  ghost predicate IsTop(members: set<int>, key: seq<int>, stamp: seq<int>, c: int, h: int)
    requires |key| == |stamp| && forall i :: i in members ==> 0 < i < |key|
  {
    if h == 0 then
      forall i :: i in members ==> key[i] != c
    else
      && h in members && key[h] == c
      && forall i :: i in members && key[i] == c ==> stamp[i] <= stamp[h]
  }

  ghost predicate IsBelow(members: set<int>, key: seq<int>, stamp: seq<int>, i: int, j: int)
    requires |key| == |stamp| && forall k :: k in members ==> 0 < k < |key|
    requires 0 <= i < |key|
  {
    if j == 0 then
      forall k :: k in members && key[k] == key[i] ==> stamp[i] <= stamp[k]
    else
      && j in members && key[j] == key[i] && stamp[j] < stamp[i]
      && forall k :: k in members && key[k] == key[i] ==> stamp[k] <= stamp[j] || stamp[i] <= stamp[k]
  }

  ghost predicate Chained(keys: int, members: set<int>, key: seq<int>, stamp: seq<int>, head: seq<int>,
                          next: seq<int>) {
    && Members(keys, members, key, stamp)
    && |next| == |key| && 0 <= keys <= |head|
    && (forall c {:trigger IsTop(members, key, stamp, c, head[c])} :: 0 <= c < keys ==>
       IsTop(members, key, stamp, c, head[c]))
    && (forall i {:trigger IsBelow(members, key, stamp, i, next[i])} :: i in members ==>
       IsBelow(members, key, stamp, i, next[i]))
  }

  // last[] is the inverse of next[]; 0 marks the first element of a chain.
  ghost predicate IsMirrored(members: set<int>, key: seq<int>, head: seq<int>, next: seq<int>, last: seq<int>, i: int)
    requires |next| == |key| == |last| && forall k :: k in members ==> 0 < k < |key|
    requires 0 <= i < |key| && 0 <= key[i] < |head|
  {
    && (next[i] in members ==> last[next[i]] == i)
    && (if last[i] == 0 then head[key[i]] == i else last[i] in members && next[last[i]] == i)
  }

  ghost predicate Mirrored(members: set<int>, key: seq<int>, head: seq<int>, next: seq<int>, last: seq<int>)
    requires |next| == |key| && forall i :: i in members ==> 0 < i < |key| && 0 <= key[i] < |head|
  {
    && |last| == |key|
    && forall i {:trigger IsMirrored(members, key, head, next, last, i)} :: i in members ==>
         IsMirrored(members, key, head, next, last, i)
  }

  // Linking a member with a fresh, greatest stamp in front of the chain of its key.
  lemma PushKeepsChained(keys: int, members: set<int>, key: seq<int>, stamp: seq<int>, head: seq<int>, next: seq<int>,
                         i: int, t: int)
    requires Chained(keys, members, key, stamp, head, next)
    requires i !in members && 0 < i < |key| && 0 <= key[i] < keys
    requires forall k :: k in members ==> stamp[k] < t
    ensures Chained(keys, members + {i}, key, stamp[i := t], head[key[i] := i], next[i := head[key[i]]])
  {
    var members', stamp', head', next' := members + {i}, stamp[i := t], head[key[i] := i], next[i := head[key[i]]];
    forall c | 0 <= c < keys
      ensures IsTop(members', key, stamp', c, head'[c])
    {
      assert IsTop(members, key, stamp, c, head[c]);
    }
    forall k | k in members'
      ensures IsBelow(members', key, stamp', k, next'[k])
    {
      if k == i {
        assert IsTop(members, key, stamp, key[i], head[key[i]]);
      } else {
        assert IsBelow(members, key, stamp, k, next[k]);
      }
    }
  }

  // Unlinking the first member of a chain.
  lemma PopKeepsChained(keys: int, members: set<int>, key: seq<int>, stamp: seq<int>, head: seq<int>, next: seq<int>,
                        i: int)
    requires Chained(keys, members, key, stamp, head, next)
    requires i in members && head[key[i]] == i
    ensures Chained(keys, members - {i}, key, stamp, head[key[i] := next[i]], next)
  {
    var members', head' := members - {i}, head[key[i] := next[i]];
    assert IsBelow(members, key, stamp, i, next[i]);
    assert IsTop(members, key, stamp, key[i], i);
    forall c | 0 <= c < keys
      ensures IsTop(members', key, stamp, c, head'[c])
    {
      assert IsTop(members, key, stamp, c, head[c]);
    }
    forall k | k in members'
      ensures IsBelow(members', key, stamp, k, next[k])
    {
      assert IsBelow(members, key, stamp, k, next[k]);
    }
  }

  // Unlinking a member through its predecessor p.
  lemma CutKeepsChained(keys: int, members: set<int>, key: seq<int>, stamp: seq<int>, head: seq<int>, next: seq<int>,
                        p: int, i: int)
    requires Chained(keys, members, key, stamp, head, next)
    requires i in members && p in members && next[p] == i
    ensures head[key[i]] != i
    ensures Chained(keys, members - {i}, key, stamp, head, next[p := next[i]])
  {
    var members', next' := members - {i}, next[p := next[i]];
    assert IsBelow(members, key, stamp, p, i);
    assert IsBelow(members, key, stamp, i, next[i]);
    forall c | 0 <= c < keys
      ensures IsTop(members', key, stamp, c, head[c]) && (c == key[i] ==> head[c] != i)
    {
      assert IsTop(members, key, stamp, c, head[c]);
    }
    forall k | k in members'
      ensures IsBelow(members', key, stamp, k, next'[k])
    {
      assert IsBelow(members, key, stamp, k, next[k]);
    }
  }

  // Nothing but the members' own keys, stamps and links matters.
  lemma ChainedIgnoresOthers(keys: int, members: set<int>, key: seq<int>, stamp: seq<int>, head: seq<int>,
                             next: seq<int>, key': seq<int>, stamp': seq<int>, next': seq<int>)
    requires Chained(keys, members, key, stamp, head, next)
    requires |key'| == |key| && |stamp'| == |key| && |next'| == |key|
    requires forall k :: k in members ==> key'[k] == key[k] && stamp'[k] == stamp[k] && next'[k] == next[k]
    ensures Chained(keys, members, key', stamp', head, next')
  {
    forall c | 0 <= c < keys
      ensures IsTop(members, key', stamp', c, head[c])
    {
      assert IsTop(members, key, stamp, c, head[c]);
    }
    forall k | k in members
      ensures IsBelow(members, key', stamp', k, next'[k])
    {
      assert IsBelow(members, key, stamp, k, next[k]);
    }
  }

  lemma PushKeepsMirrored(keys: int, members: set<int>, key: seq<int>, stamp: seq<int>, head: seq<int>, next: seq<int>,
                          last: seq<int>, i: int, last': seq<int>)
    requires Chained(keys, members, key, stamp, head, next) && Mirrored(members, key, head, next, last)
    requires i !in members && 0 < i < |key| && 0 <= key[i] < keys
    requires var h := head[key[i]]; 0 <= h < |key| && last' == (if h != 0 then last[h := i] else last)[i := 0]
    ensures Mirrored(members + {i}, key, head[key[i] := i], next[i := head[key[i]]], last')
  {
    var h := head[key[i]];
    var members', head', next' := members + {i}, head[key[i] := i], next[i := h];
    assert IsTop(members, key, stamp, key[i], h);
    forall k | k in members'
      ensures IsMirrored(members', key, head', next', last', k)
    {
      if k != i {
        assert IsMirrored(members, key, head, next, last, k);
        assert IsBelow(members, key, stamp, k, next[k]);
        if last[k] != 0 {
          assert IsBelow(members, key, stamp, last[k], k);
        }
      }
    }
  }

  lemma RemoveKeepsMirrored(keys: int, members: set<int>, key: seq<int>, stamp: seq<int>, head: seq<int>,
                            next: seq<int>, last: seq<int>, i: int, head': seq<int>, next': seq<int>, last': seq<int>)
    requires Chained(keys, members, key, stamp, head, next) && Mirrored(members, key, head, next, last)
    requires i in members
    requires 0 <= next[i] < |key| && 0 <= last[i] < |key|
    requires head' == if head[key[i]] == i then head[key[i] := next[i]] else head
    requires next' == if last[i] != 0 then next[last[i] := next[i]] else next
    requires last' == if next[i] != 0 then last[next[i] := last[i]] else last
    ensures Mirrored(members - {i}, key, head', next', last')
    ensures last[i] == 0 <==> head[key[i]] == i
    ensures last[i] != 0 ==> last[i] in members && next[last[i]] == i
  {
    var members' := members - {i};
    assert IsMirrored(members, key, head, next, last, i);
    assert IsBelow(members, key, stamp, i, next[i]);
    assert IsTop(members, key, stamp, key[i], head[key[i]]);
    if last[i] != 0 {
      assert IsBelow(members, key, stamp, last[i], i);
    }
    forall k | k in members'
      ensures IsMirrored(members', key, head', next', last', k)
    {
      assert IsMirrored(members, key, head, next, last, k);
      assert IsBelow(members, key, stamp, k, next[k]);
      if last[k] != 0 {
        assert IsBelow(members, key, stamp, last[k], k);
      }
    }
  }

  lemma MirroredIgnoresOthers(members: set<int>, key: seq<int>, head: seq<int>, next: seq<int>, last: seq<int>,
                              key': seq<int>, next': seq<int>, last': seq<int>)
    requires |next| == |key| && forall i :: i in members ==> 0 < i < |key| && 0 <= key[i] < |head|
    requires Mirrored(members, key, head, next, last)
    requires |key'| == |next'| == |last'| == |key|
    requires forall k :: k in members ==> key'[k] == key[k] && next'[k] == next[k] && last'[k] == last[k]
    ensures Mirrored(members, key', head, next', last')
  {
    forall k | k in members
      ensures IsMirrored(members, key', head, next', last', k)
    {
      assert IsMirrored(members, key, head, next, last, k);
    }
  }
}
