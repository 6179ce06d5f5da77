/**
 The skip list that keeps the timers: a sorted sequence with express lanes.
 Which levels a node gets is up to the caller's random source.
 */
module SkipLists {
  import opened MnetData
  import opened SkipLevels
  import opened QueueSpec

  ghost predicate Sorted(q: seq<SkipNode>) {
    q == [] || ((forall x :: x in q[1..] ==> q[0].key <= x.key) && Sorted(q[1..]))
  }

  lemma {:induction false} SortedConcat(a: seq<SkipNode>, b: seq<SkipNode>)
    ensures Sorted(a + b) <==> Sorted(a) && Sorted(b) && forall x, y :: x in a && y in b ==> x.key <= y.key
  {
    if a == [] {
      assert a + b == b;
    } else {
      assert (a + b)[1..] == a[1..] + b;
      SortedConcat(a[1..], b);
      assert forall x :: x in a <==> x == a[0] || x in a[1..];
      assert forall x :: x in a[1..] + b <==> x in a[1..] || x in b;
    }
  }

  /** The sequence with a node put just before the first whose key is not less. */
  ghost function Inserted(q: seq<SkipNode>, node: SkipNode): seq<SkipNode> {
    if q == [] || q[0].key >= node.key then [node] + q else [q[0]] + Inserted(q[1..], node)
  }

  lemma InsertedStep(x: SkipNode, q: seq<SkipNode>, node: SkipNode)
    requires x.key < node.key
    ensures Inserted([x] + q, node) == [x] + Inserted(q, node)
  {
    assert ([x] + q)[1..] == q;
  }

  lemma {:induction false} InsertedAt(lo: seq<SkipNode>, node: SkipNode, hi: seq<SkipNode>)
    requires forall x :: x in lo ==> x.key < node.key
    requires hi == [] || hi[0].key >= node.key
    ensures Inserted(lo + hi, node) == lo + [node] + hi
  {
    if lo == [] {
      assert lo + hi == hi && lo + [node] + hi == [node] + hi;
    } else {
      var x, t := lo[0], lo[1..];
      assert x in lo;
      InsertedAt(t, node, hi);
      InsertedStep(x, t + hi, node);
      assert lo + hi == [x] + (t + hi);
      assert lo + [node] + hi == [x] + (t + [node] + hi);
    }
  }

  /** A sorted sequence in two: the keys less than `key`, and the others. */
  lemma {:induction false} SplitAt(q: seq<SkipNode>, key: int) returns (lo: seq<SkipNode>, hi: seq<SkipNode>)
    requires Sorted(q)
    ensures q == lo + hi
    ensures forall x :: x in lo ==> x.key < key
    ensures forall x :: x in hi ==> x.key >= key
  {
    if q == [] || q[0].key >= key {
      lo, hi := [], q;
      assert forall x :: x in q ==> x == q[0] || x in q[1..];
    } else {
      lo, hi := SplitAt(q[1..], key);
      lo := [q[0]] + lo;
    }
  }

  /** Every level from `from` to `to` is linked. */
  ghost predicate LevelsLinked(head: SkipNode, q: seq<SkipNode>, from: nat, to: nat)
    reads head, q
  {
    forall i :: from <= i < to ==> LevelLinked(head, q, i)
  }

  ghost predicate LevelLinked(head: SkipNode, q: seq<SkipNode>, i: nat)
    reads head, q
  {
    Linked([head] + Level(q, i), i)
  }

  ghost predicate Sized(head: SkipNode, q: seq<SkipNode>)
    reads head, q
  {
    && |head.next| == |head.prev| == MAX_LEVEL
    && forall x :: x in q ==> 1 <= x.level <= MAX_LEVEL && |x.next| == |x.prev| == x.level
  }

  /** Walks along level i from `pos` to the first node whose key is not less, or to `end`. */
  method FindEnd(ghost r: seq<SkipNode>, ghost m: nat, pos: SkipNode, end: SkipNode, i: nat, key: int)
    returns (p: SkipNode, e: SkipNode)
    requires m < |r| && Linked(r, i)
    requires forall k :: 1 <= k <= m ==> r[k].key < key
    requires forall k :: m < k < |r| ==> r[k].key >= key
    requires forall j, k :: 0 <= j < k < |r| ==> r[j] != r[k]
    requires exists k :: 0 <= k <= m && r[k] == pos
    requires end == r[0] || exists k :: m < k < |r| && r[k] == end
    ensures p == r[m] && e == if m + 1 < |r| then r[m + 1] else r[0]
  {
    ghost var k :| 0 <= k <= m && r[k] == pos;
    var next := pos.next[i];
    e := end;
    k := k + 1;
    while next != e
      invariant e == end && 1 <= k <= m + 1
      invariant next == if k < |r| then r[k] else r[0]
      decreases |r| - k
    {
      if next.key >= key {
        e := next;
        break;
      }
      next := next.next[i];
      k := k + 1;
    }
    assert k == m + 1;
    assert m + 1 < |r| ==> r[m + 1].prev[i] == r[m];
    p := e.prev[i];
  }

  /** The node's i-th links go between the end of `a` and the start of `b`. */
  method LinkInto(ghost a: seq<SkipNode>, ghost b: seq<SkipNode>, node: SkipNode, pos: SkipNode, end: SkipNode, i: nat)
    requires a != [] && Linked(a + b, i) && node !in a + b && i < |node.next| && i < |node.prev|
    requires forall j, k :: 0 <= j < k < |a + b| ==> (a + b)[j] != (a + b)[k]
    requires pos == a[|a| - 1] && end == if b == [] then a[0] else b[0]
    modifies node`next, node`prev, pos`next, end`prev
    ensures Linked(a + [node] + b, i)
    ensures OnlyLevel(node, i) && OnlyLevel(pos, i) && OnlyLevel(end, i)
  {
    ghost var r, s, m := a + b, a + [node] + b, |a|;
    assert r[m - 1] == pos && end == r[if m < |r| then m else 0];
    AddBetween(node, pos, end, i);
    forall k | 0 <= k < |s| ensures |s[k].next| > i && |s[k].prev| > i {
      assert k != m ==> s[k] == r[if k < m then k else k - 1];
    }
    forall k | 0 <= k < |s| - 1 ensures s[k].next[i] == s[k + 1] && s[k + 1].prev[i] == s[k] {
      if k < m - 1 {
        assert s[k] == r[k] && s[k + 1] == r[k + 1];
      } else if k > m {
        assert s[k] == r[k - 1] && s[k + 1] == r[k - 1 + 1];
      }
    }
  }

  /** LinkInto, and what the other nodes notice of it. */
  method LinkFramed(ghost a: seq<SkipNode>, ghost b: seq<SkipNode>, node: SkipNode, pos: SkipNode, end: SkipNode,
                    i: nat, ghost others: seq<SkipNode>)
    requires a != [] && Linked(a + b, i) && node !in a + b && i < |node.next| && i < |node.prev|
    requires forall j, k :: 0 <= j < k < |a + b| ==> (a + b)[j] != (a + b)[k]
    requires pos == a[|a| - 1] && end == if b == [] then a[0] else b[0]
    modifies node`next, node`prev, pos`next, end`prev
    ensures Linked(a + [node] + b, i)
    ensures OnlyLevel(node, i) && OnlyLevel(a[0], i) && forall x :: x in others ==> OnlyLevel(x, i)
  {
    LinkInto(a, b, node, pos, end, i);
    forall x | x in others + [a[0]] ensures OnlyLevel(x, i) {
      if x != pos && x != end && x != node { assert unchanged(x); }
    }
  }

  /** Nothing but the links of level i changed. */
  twostate predicate OnlyLevel(x: SkipNode, i: nat)
    reads x
  {
    && |x.next| == |old(x.next)| && |x.prev| == |old(x.prev)|
    && (forall j :: 0 <= j < |x.next| && j != i ==> x.next[j] == old(x.next[j]))
    && (forall j :: 0 <= j < |x.prev| && j != i ==> x.prev[j] == old(x.prev[j]))
  }

  /** The levels of a list, given by its head and nodes, that a change at level i leaves as they were. */
  twostate lemma OtherLevels(list: (SkipNode, seq<SkipNode>), new from: nat, new to: nat, new i: nat)
    requires old(LevelsLinked(list.0, list.1, from, to)) && !(from <= i < to)
    requires OnlyLevel(list.0, i) && forall x :: x in list.1 ==> OnlyLevel(x, i)
    ensures LevelsLinked(list.0, list.1, from, to)
  {
    var head, q := list.0, list.1;
    forall j | from <= j < to ensures LevelLinked(head, q, j) {
      assert old(LevelLinked(head, q, j));
      var r := [head] + Level(q, j);
      forall k | 0 <= k < |r| ensures OnlyLevel(r[k], i) {
        assert r[k] == head || r[k] in q;
      }
    }
  }

  twostate lemma OtherLevelsWith(list: (SkipNode, seq<SkipNode>, SkipNode, seq<SkipNode>), new from: nat,
                                 new to: nat, new i: nat)
    requires old(LevelsLinked(list.0, list.1 + [list.2] + list.3, from, to)) && !(from <= i < to)
    requires OnlyLevel(list.0, i) && OnlyLevel(list.2, i) && forall x :: x in list.1 + list.3 ==> OnlyLevel(x, i)
    ensures LevelsLinked(list.0, list.1 + [list.2] + list.3, from, to)
  {
    var q := list.1 + [list.2] + list.3;
    forall x | x in q ensures OnlyLevel(x, i) {
      assert x == list.2 || x in list.1 + list.3;
    }
    OtherLevels((list.0, q), from, to, i);
  }

  /** The ring of level i is the head, what comes before the new key, and what comes after. */
  lemma RingParts(head: SkipNode, lo: seq<SkipNode>, hi: seq<SkipNode>, i: nat)
    requires NoDup(lo + hi) && head !in lo + hi
    ensures Level(lo + hi, i) == Level(lo, i) + Level(hi, i)
    ensures var r := [head] + Level(lo, i) + Level(hi, i);
            && [head] + Level(lo + hi, i) == r
            && forall j, k :: 0 <= j < k < |r| ==> r[j] != r[k]
  {
    LevelConcat(lo, hi, i);
    ShortRing(head, lo, hi, i);
    RingDistinct(head, lo + hi, i);
  }

  lemma RingDistinct(head: SkipNode, q: seq<SkipNode>, i: nat)
    requires NoDup(q) && head !in q
    ensures var r := [head] + Level(q, i); forall j, k :: 0 <= j < k < |r| ==> r[j] != r[k]
  {
    LevelNoDup(q, i);
    assert head !in Level(q, i);
    NoDupAppend(Level(q, i), head);
    NoDupIndex([head] + Level(q, i));
  }

  lemma NotInRing(head: SkipNode, lo: seq<SkipNode>, hi: seq<SkipNode>, i: nat, node: SkipNode)
    requires node != head && node !in lo + hi
    ensures node !in [head] + Level(lo, i) + Level(hi, i)
  {
    assert node !in lo && node !in hi;
  }

  lemma RingWith(head: SkipNode, lo: seq<SkipNode>, node: SkipNode, hi: seq<SkipNode>, i: nat)
    ensures [head] + Level(lo + [node] + hi, i) ==
            if node.level > i then [head] + Level(lo, i) + [node] + Level(hi, i) else [head] + Level(lo + hi, i)
  {
    LevelInsert(lo, node, hi, i);
    if node.level > i {
      Regroup([head], Level(lo, i), [node], Level(hi, i));
    } else {
      LevelConcat(lo, hi, i);
      Regroup([], Level(lo, i), [], Level(hi, i));
    }
  }

  lemma Regroup(h: seq<SkipNode>, a: seq<SkipNode>, n: seq<SkipNode>, b: seq<SkipNode>)
    ensures h + (a + n + b) == h + a + n + b
    ensures n == [] ==> a + n + b == a + b
  {
  }

  lemma RingKeys(head: SkipNode, lo: seq<SkipNode>, hi: seq<SkipNode>, i: nat, key: int)
    requires forall x :: x in lo ==> x.key < key
    requires forall x :: x in hi ==> x.key >= key
    ensures var a, b := [head] + Level(lo, i), Level(hi, i); var r := a + b;
            && (forall k :: 1 <= k < |a| ==> r[k].key < key)
            && (forall k :: |a| <= k < |r| ==> r[k].key >= key)
  {
    var a, b := [head] + Level(lo, i), Level(hi, i);
    var r := a + b;
    forall k | 1 <= k < |a| ensures r[k].key < key {
      assert r[k] == Level(lo, i)[k - 1];
    }
    forall k | |a| <= k < |r| ensures r[k].key >= key {
      assert r[k] == b[k - |a|];
    }
  }

  lemma RingPlaces(head: SkipNode, a: seq<SkipNode>, b: seq<SkipNode>, pos: SkipNode, end: SkipNode)
    requires (pos == head || pos in a) && (end == head || end in b)
    ensures var r := [head] + a + b;
            && r[0] == head
            && (exists k :: 0 <= k <= |a| && r[k] == pos)
            && (end == head || exists k :: |a| < k < |r| && r[k] == end)
  {
    var r := [head] + a + b;
    if pos == head {
      assert r[0] == pos;
    } else {
      var k :| 0 <= k < |a| && a[k] == pos;
      assert r[k + 1] == pos;
    }
    if end != head {
      var k :| 0 <= k < |b| && b[k] == end;
      assert r[k + |a| + 1] == end;
    }
  }

  /** `p` and `e` are the neighbours at level i of a key that belongs between `lo` and `hi`. */
  ghost predicate Between(head: SkipNode, lo: seq<SkipNode>, hi: seq<SkipNode>, i: nat, p: SkipNode, e: SkipNode) {
    var a, b := [head] + Level(lo, i), Level(hi, i);
    p == a[|a| - 1] && e == if b == [] then head else b[0]
  }

  /** The search of one level: the neighbours the key belongs between. */
  method Neighbours(head: SkipNode, key: int, pos: SkipNode, end: SkipNode, i: nat,
                    ghost lo: seq<SkipNode>, ghost hi: seq<SkipNode>) returns (p: SkipNode, e: SkipNode)
    requires NoDup(lo + hi) && head !in lo + hi && LevelLinked(head, lo + hi, i)
    requires forall x :: x in lo ==> x.key < key
    requires forall x :: x in hi ==> x.key >= key
    requires (pos == head || pos in Level(lo, i)) && (end == head || end in Level(hi, i))
    ensures Between(head, lo, hi, i, p, e)
    ensures (p == head || (p in Level(lo, i) && p in lo + hi)) && (e == head || (e in Level(hi, i) && e in lo + hi))
  {
    ghost var r := [head] + Level(lo, i) + Level(hi, i);
    RingParts(head, lo, hi, i);
    RingKeys(head, lo, hi, i, key);
    RingPlaces(head, Level(lo, i), Level(hi, i), pos, end);
    p, e := FindEnd(r, |Level(lo, i)|, pos, end, i, key);
  }

  /** The node joins level i between its neighbours there. */
  method LinkLevel(head: SkipNode, node: SkipNode, p: SkipNode, e: SkipNode, i: nat,
                   ghost lo: seq<SkipNode>, ghost hi: seq<SkipNode>)
    requires NoDup(lo + hi) && head !in lo + hi && LevelLinked(head, lo + hi, i) && i < node.level
    requires node != head && node !in lo + hi && |node.next| == |node.prev| == node.level
    requires Between(head, lo, hi, i, p, e)
    modifies node`next, node`prev, p`next, e`prev
    ensures LevelLinked(head, lo + [node] + hi, i)
    ensures OnlyLevel(head, i) && OnlyLevel(node, i) && forall x :: x in lo + hi ==> OnlyLevel(x, i)
  {
    RingParts(head, lo, hi, i);
    NotInRing(head, lo, hi, i, node);
    LinkFramed([head] + Level(lo, i), Level(hi, i), node, p, e, i, lo + hi);
    RingWith(head, lo, node, hi, i);
  }

  /** A level above the node's height has no part in its insertion. */
  lemma TooShort(head: SkipNode, lo: seq<SkipNode>, node: SkipNode, hi: seq<SkipNode>, i: nat)
    requires node.level <= i
    ensures LevelLinked(head, lo + [node] + hi, i) <==> LevelLinked(head, lo + hi, i)
  {
    RingWith(head, lo, node, hi, i);
  }

  /** The turn of level i in skiplist_insert. */
  method InsertLevel(head: SkipNode, node: SkipNode, pos: SkipNode, end: SkipNode, i: nat,
                     ghost lo: seq<SkipNode>, ghost hi: seq<SkipNode>) returns (p: SkipNode, e: SkipNode)
    requires NoDup(lo + hi) && head !in lo + hi && LevelLinked(head, lo + hi, i)
    requires node != head && node !in lo + hi && |node.next| == |node.prev| == node.level
    requires forall x :: x in lo ==> x.key < node.key
    requires forall x :: x in hi ==> x.key >= node.key
    requires (pos == head || pos in Level(lo, i)) && (end == head || end in Level(hi, i))
    modifies node`next, node`prev, head`next, head`prev, (lo + hi)`next, (lo + hi)`prev
    ensures LevelLinked(head, lo + [node] + hi, i)
    ensures OnlyLevel(head, i) && OnlyLevel(node, i) && forall x :: x in lo + hi ==> OnlyLevel(x, i)
    ensures (p == head || p in Level(lo, i)) && (e == head || e in Level(hi, i))
  {
    p, e := Neighbours(head, node.key, pos, end, i, lo, hi);
    if i < node.level {
      LinkLevel(head, node, p, e, i, lo, hi);
    } else {
      TooShort(head, lo, node, hi, i);
    }
  }

  /** The node's i-th links leave the ring. */
  method UnlinkFrom(ghost a: seq<SkipNode>, ghost b: seq<SkipNode>, node: SkipNode, i: nat, ghost p: SkipNode,
                    ghost e: SkipNode)
    requires a != [] && Linked(a + [node] + b, i)
    requires var r := a + [node] + b; forall j, k :: 0 <= j < k < |r| ==> r[j] != r[k]
    requires p == a[|a| - 1] && e == if b == [] then a[0] else b[0]
    modifies node`next, node`prev, p`next, e`prev
    ensures Linked(a + b, i)
    ensures OnlyLevel(node, i) && OnlyLevel(p, i) && OnlyLevel(e, i)
  {
    ghost var r, s, m := a + [node] + b, a + b, |a|;
    assert r[m] == node && r[m - 1] == p && e == r[if m + 1 < |r| then m + 1 else 0];
    assert r[m - 1].next[i] == r[m - 1 + 1];
    DeleteLink(node, i, p, e);
    forall k | 0 <= k < |s| ensures |s[k].next| > i && |s[k].prev| > i {
      assert s[k] == r[if k < m then k else k + 1];
    }
    forall k | 0 <= k < |s| - 1 ensures s[k].next[i] == s[k + 1] && s[k + 1].prev[i] == s[k] {
      if k < m - 1 {
        assert s[k] == r[k] && s[k + 1] == r[k + 1];
      } else if k >= m {
        assert s[k] == r[k + 1] && s[k + 1] == r[k + 1 + 1];
      }
    }
  }

  method UnlinkFramed(ghost a: seq<SkipNode>, ghost b: seq<SkipNode>, node: SkipNode, i: nat,
                      ghost p: SkipNode, ghost e: SkipNode, ghost others: seq<SkipNode>)
    requires a != [] && Linked(a + [node] + b, i)
    requires var r := a + [node] + b; forall j, k :: 0 <= j < k < |r| ==> r[j] != r[k]
    requires p == a[|a| - 1] && e == if b == [] then a[0] else b[0]
    modifies node`next, node`prev, p`next, e`prev
    ensures Linked(a + b, i)
    ensures OnlyLevel(node, i) && OnlyLevel(a[0], i) && forall x :: x in others ==> OnlyLevel(x, i)
  {
    UnlinkFrom(a, b, node, i, p, e);
    forall x | x in others + [a[0]] ensures OnlyLevel(x, i) {
      if x != p && x != e && x != node { assert unchanged(x); }
    }
  }

  lemma FullRing(head: SkipNode, lo: seq<SkipNode>, node: SkipNode, hi: seq<SkipNode>, i: nat)
    requires NoDup(lo + [node] + hi) && head !in lo + [node] + hi && i < node.level
    ensures var r := [head] + Level(lo, i) + [node] + Level(hi, i);
            && r == [head] + Level(lo + [node] + hi, i)
            && forall j, k :: 0 <= j < k < |r| ==> r[j] != r[k]
  {
    RingWith(head, lo, node, hi, i);
    RingDistinct(head, lo + [node] + hi, i);
  }

  /** The turn of level i in skiplist_remove_skipnode. */
  method RemoveLevel(head: SkipNode, node: SkipNode, i: nat, ghost lo: seq<SkipNode>, ghost hi: seq<SkipNode>)
    requires NoDup(lo + [node] + hi) && head !in lo + [node] + hi && LevelLinked(head, lo + [node] + hi, i)
    requires i < node.level
    modifies head`next, head`prev, (lo + [node] + hi)`next, (lo + [node] + hi)`prev
    ensures LevelLinked(head, lo + hi, i)
    ensures OnlyLevel(head, i) && OnlyLevel(node, i) && forall x :: x in lo + hi ==> OnlyLevel(x, i)
  {
    ghost var a, b := [head] + Level(lo, i), Level(hi, i);
    FullRing(head, lo, node, hi, i);
    ghost var p, e := a[|a| - 1], if b == [] then head else b[0];
    assert (p == head || p in lo + [node] + hi) && (e == head || e in lo + [node] + hi) && node in lo + [node] + hi;
    UnlinkFramed(a, b, node, i, p, e, lo + hi);
    ShortRing(head, lo, hi, i);
  }

  lemma ShortRing(head: SkipNode, lo: seq<SkipNode>, hi: seq<SkipNode>, i: nat)
    ensures [head] + Level(lo + hi, i) == [head] + Level(lo, i) + Level(hi, i)
  {
    LevelConcat(lo, hi, i);
    var a, b := Level(lo, i), Level(hi, i);
    assert [head] + (a + b) == [head] + a + b;
  }

  /** One level deeper; the levels above have the node, those below do not yet. */
  method InsertStep(head: SkipNode, node: SkipNode, pos: SkipNode, end: SkipNode, i: nat,
                    ghost lo: seq<SkipNode>, ghost hi: seq<SkipNode>) returns (p: SkipNode, e: SkipNode)
    requires NoDup(lo + hi) && head !in lo + hi
    requires node != head && node !in lo + hi && |node.next| == |node.prev| == node.level
    requires forall x :: x in lo ==> x.key < node.key
    requires forall x :: x in hi ==> x.key >= node.key
    requires i < MAX_LEVEL && Sized(head, lo + hi)
    requires LevelsLinked(head, lo + hi, 0, i + 1) && LevelsLinked(head, lo + [node] + hi, i + 1, MAX_LEVEL)
    requires (pos == head || pos in Level(lo, i)) && (end == head || end in Level(hi, i))
    modifies node`next, node`prev, head`next, head`prev, (lo + hi)`next, (lo + hi)`prev
    ensures Sized(head, lo + hi) && |node.next| == |node.prev| == node.level
    ensures LevelsLinked(head, lo + hi, 0, i) && LevelsLinked(head, lo + [node] + hi, i, MAX_LEVEL)
    ensures (p == head || p in Level(lo, i)) && (e == head || e in Level(hi, i))
  {
    assert LevelLinked(head, lo + hi, i);
    p, e := InsertLevel(head, node, pos, end, i, lo, hi);
    OtherLevels((head, lo + hi), 0, i, i);
    OtherLevelsWith((head, lo, node, hi), i + 1, MAX_LEVEL, i);
  }

  lemma LevelDown(q: seq<SkipNode>, i: nat, x: SkipNode)
    requires x in Level(q, i) && i > 0
    ensures x in Level(q, i - 1)
  {
    LevelMember(q, i, x);
    LevelMember(q, i - 1, x);
  }

  lemma TopLevels(head: SkipNode, node: SkipNode, level: nat, lo: seq<SkipNode>, hi: seq<SkipNode>)
    requires LevelsLinked(head, lo + hi, 0, MAX_LEVEL) && node.level <= level
    ensures LevelsLinked(head, lo + [node] + hi, level, MAX_LEVEL)
  {
    forall i | level <= i < MAX_LEVEL ensures LevelLinked(head, lo + [node] + hi, i) {
      assert LevelLinked(head, lo + hi, i);
      TooShort(head, lo, node, hi, i);
    }
  }

  /** The descent of skiplist_insert through all levels. */
  method Thread(head: SkipNode, node: SkipNode, level: nat, ghost lo: seq<SkipNode>, ghost hi: seq<SkipNode>)
    requires NoDup(lo + hi) && head !in lo + hi
    requires node != head && node !in lo + hi && |node.next| == |node.prev| == node.level
    requires forall x :: x in lo ==> x.key < node.key
    requires forall x :: x in hi ==> x.key >= node.key
    requires 1 <= node.level <= level <= MAX_LEVEL
    requires Sized(head, lo + hi) && LevelsLinked(head, lo + hi, 0, MAX_LEVEL)
    modifies node`next, node`prev, head`next, head`prev, (lo + hi)`next, (lo + hi)`prev
    ensures Sized(head, lo + [node] + hi) && LevelsLinked(head, lo + [node] + hi, 0, MAX_LEVEL)
  {
    var i, pos, end := level, head, head;
    TopLevels(head, node, level, lo, hi);
    while i > 0
      invariant 0 <= i <= level
      invariant Sized(head, lo + hi) && |node.next| == |node.prev| == node.level
      invariant LevelsLinked(head, lo + hi, 0, i)
      invariant LevelsLinked(head, lo + [node] + hi, i, MAX_LEVEL)
      invariant i > 0 ==> (pos == head || pos in Level(lo, i - 1)) && (end == head || end in Level(hi, i - 1))
    {
      i := i - 1;
      pos, end := InsertStep(head, node, pos, end, i, lo, hi);
      if i > 0 {
        if pos != head { LevelDown(lo, i, pos); }
        if end != head { LevelDown(hi, i, end); }
      }
    }
  }

  /** A removal under way: the levels below i have lost the node, the others not yet. */
  ghost predicate Mid(head: SkipNode, q: seq<SkipNode>, node: SkipNode, rest: seq<SkipNode>, i: nat)
    reads head, q, rest
  {
    Sized(head, q) && LevelsLinked(head, rest, 0, i) && LevelsLinked(head, q, i, MAX_LEVEL)
  }

  /** One level up; the levels below have lost the node, the others not yet. */
  method RemoveStep(head: SkipNode, node: SkipNode, i: nat, ghost q: seq<SkipNode>)
    requires NoDup(q) && node in q && head !in q && i < node.level <= MAX_LEVEL && Sized(head, q)
    requires LevelsLinked(head, Without(q, node), 0, i) && LevelsLinked(head, q, i, MAX_LEVEL)
    modifies head`next, head`prev, q`next, q`prev
    ensures Sized(head, q)
    ensures LevelsLinked(head, Without(q, node), 0, i + 1) && LevelsLinked(head, q, i + 1, MAX_LEVEL)
  {
    ghost var lo, hi := Parts(q, node);
    ghost var rest := Without(q, node);
    assert LevelLinked(head, q, i);
    WithoutKeeps(q, node);
    RemoveLevel(head, node, i, lo, hi);
    assert forall x :: x in q ==> OnlyLevel(x, i);
    OtherLevels((head, rest), 0, i, i);
    OtherLevels((head, q), i + 1, MAX_LEVEL, i);
  }

  lemma LevelsAbove(head: SkipNode, node: SkipNode, q: seq<SkipNode>)
    requires NoDup(q) && node in q && Sized(head, q)
    requires LevelsLinked(head, Without(q, node), 0, node.level) && LevelsLinked(head, q, node.level, MAX_LEVEL)
    ensures LevelsLinked(head, Without(q, node), 0, MAX_LEVEL)
  {
    forall i | node.level <= i < MAX_LEVEL ensures LevelLinked(head, Without(q, node), i) {
      assert LevelLinked(head, q, i);
      SameAbove(q, node, i);
    }
  }

  lemma SameAbove(q: seq<SkipNode>, node: SkipNode, i: nat)
    requires NoDup(q) && node in q && node.level <= i
    ensures Level(Without(q, node), i) == Level(q, i)
  {
    var lo, hi := Parts(q, node);
    LevelInsert(lo, node, hi, i);
    LevelConcat(lo, hi, i);
  }

  /** list_empty on the head of a level. */
  lemma HeadAlone(head: SkipNode, q: seq<SkipNode>, i: nat)
    requires LevelLinked(head, q, i) && head !in q
    ensures |head.next| > i && (head.next[i] == head <==> i >= Height(q))
  {
    LevelEmpty(q, i);
    var r := [head] + Level(q, i);
    assert r[0] == head;
    if Level(q, i) != [] {
      assert r[0].next[i] == r[0 + 1] == Level(q, i)[0];
    }
  }

  /** The part of `level` that a removal takes off as it passes level i. */
  function Lost(i: nat, height: nat): nat {
    if i > height then i - height else 0
  }

  /** The nodes of `q` in order, each linked at all its levels. */
  ghost predicate Shape(head: SkipNode, q: seq<SkipNode>)
    reads head, q
  {
    NoDup(q) && head !in q && Sorted(q) && Sized(head, q) && LevelsLinked(head, q, 0, MAX_LEVEL)
  }

  lemma HeightWithin(head: SkipNode, q: seq<SkipNode>)
    requires Sized(head, q)
    ensures Height(q) <= MAX_LEVEL
  {
    HeightIsMax(q);
  }

  /** A new node takes its place between the smaller keys and the others. */
  method Attach(head: SkipNode, node: SkipNode, level: nat, ghost lo: seq<SkipNode>, ghost hi: seq<SkipNode>)
    requires Shape(head, lo + hi) && node != head && node !in lo + hi && |node.next| == |node.prev| == node.level
    requires forall x :: x in lo ==> x.key < node.key
    requires forall x :: x in hi ==> x.key >= node.key
    requires 1 <= node.level <= level <= MAX_LEVEL
    modifies node`next, node`prev, head`next, head`prev, (lo + hi)`next, (lo + hi)`prev
    ensures Shape(head, lo + [node] + hi)
  {
    InsertFacts(lo, node, hi);
    Thread(head, node, level, lo, hi);
  }

  /** A new node with its links in place. */
  method MakeNode(head: SkipNode, key: int, value: Timer, height: nat, level: nat,
                  ghost lo: seq<SkipNode>, ghost hi: seq<SkipNode>) returns (node: SkipNode)
    requires Shape(head, lo + hi) && 1 <= height <= level <= MAX_LEVEL
    requires forall x :: x in lo ==> x.key < key
    requires forall x :: x in hi ==> x.key >= key
    modifies head`next, head`prev, (lo + hi)`next, (lo + hi)`prev
    ensures Shape(head, lo + [node] + hi) && fresh(node)
    ensures node.key == key && node.value == value && node.level == height
  {
    node := new SkipNode(height, key, value);
    Attach(head, node, level, lo, hi);
  }

  /** The node is gone from level i; was it the last one there? */
  method Vacate(head: SkipNode, node: SkipNode, i: nat, ghost q: seq<SkipNode>) returns (empty: bool)
    requires NoDup(q) && node in q && head !in q && i < node.level <= MAX_LEVEL &&
             Mid(head, q, node, Without(q, node), i)
    modifies head`next, head`prev, q`next, q`prev
    ensures Mid(head, q, node, Without(q, node), i + 1)
    ensures empty <==> i >= Height(Without(q, node))
  {
    RemoveStep(head, node, i, q);
    assert head !in Without(q, node) by { WithoutKeeps(q, node); }
    HeadAlone(head, Without(q, node), i);
    empty := head.next[i] == head;
  }

  class SkipList {
    const head: SkipNode
    var level: nat
    var count: nat
    ghost var items: seq<SkipNode>
    ghost var nodes: set<SkipNode>    // all nodes that ever were in the list

    /** Nodes in order, each linked at all its levels, the level being the greatest height. */
    ghost predicate InOrder()
      reads `level, `count, `items, head, items
    {
      && Shape(head, items)
      && count == |items| && (if items == [] then level <= 1 else level == Height(items))
    }

    ghost predicate Valid()
      reads this, head, nodes
    {
      (forall k :: 0 <= k < |items| ==> items[k] in nodes) && InOrder()
    }

    constructor ()
      ensures Valid() && items == [] && level == 1 && fresh(head) && nodes == {}
    {
      head := new SkipNode(MAX_LEVEL, 0, null);
      level, count, items, nodes := 1, 0, [], {};
      new;
      head.next := seq(MAX_LEVEL, _ => head);
      head.prev := seq(MAX_LEVEL, _ => head);
    }

    /** A new node between the smaller keys and the others. */
    method Place(key: int, value: Timer, height: nat, ghost lo: seq<SkipNode>, ghost hi: seq<SkipNode>)
      returns (node: SkipNode)
      requires InOrder() && 1 <= height <= MAX_LEVEL && items == lo + hi
      requires forall x :: x in lo ==> x.key < key
      requires forall x :: x in hi ==> x.key >= key
      modifies `level, `count, `items, head`next, head`prev, items`next, items`prev
      ensures InOrder() && fresh(node) && items == lo + [node] + hi
      ensures node.key == key && node.value == value && node.level == height
    {
      HeightWithin(head, items);
      if height > level {
        level := height;
      }
      node := MakeNode(head, key, value, height, level, lo, hi);
      HeightInsert(lo, node, hi);
      count := count + 1;
      items := lo + [node] + hi;
    }

    /** skiplist_insert; `height` is the random level. */
    method Insert(key: int, value: Timer, height: nat) returns (node: SkipNode)
      requires Valid() && 1 <= height <= MAX_LEVEL
      modifies this, head, nodes
      ensures Valid() && fresh(node) && items == Inserted(old(items), node) && nodes == old(nodes) + {node}
      ensures node.key == key && node.value == value && node.level == height
    {
      ghost var lo, hi := SplitAt(items, key);
      node := Place(key, value, height, lo, hi);
      WithNode(lo, node, hi, nodes);
      nodes := nodes + {node};
      if hi != [] { assert hi[0] in hi; }
      InsertedAt(lo, node, hi);
    }

    /** One turn of the loop of skiplist_remove_skipnode. */
    method VacateLevel(node: SkipNode, i: nat, ghost q: seq<SkipNode>)
      requires NoDup(q) && node in q && head !in q && i < node.level <= MAX_LEVEL &&
               Mid(head, q, node, Without(q, node), i)
      requires level > 0
      modifies `level, head`next, head`prev, q`next, q`prev
      ensures Mid(head, q, node, Without(q, node), i + 1)
      ensures level == old(level) - if i >= Height(Without(q, node)) then 1 else 0
    {
      var empty := Vacate(head, node, i, q);
      if empty {
        level := level - 1;
      }
    }

    /** The loop of skiplist_remove_skipnode. */
    method Unthread(node: SkipNode, ghost q: seq<SkipNode>)
      requires NoDup(q) && node in q && head !in q && node.level <= MAX_LEVEL && Mid(head, q, node, Without(q, node), 0)
      requires level >= node.level
      modifies `level, head`next, head`prev, q`next, q`prev
      ensures Mid(head, q, node, Without(q, node), node.level)
      ensures level == old(level) - Lost(node.level, Height(Without(q, node)))
    {
      for i := 0 to node.level
        invariant Mid(head, q, node, Without(q, node), i)
        invariant level == old(level) - Lost(i, Height(Without(q, node)))
      {
        VacateLevel(node, i, q);
      }
    }

    /** skiplist_remove_skipnode. */
    method Remove(node: SkipNode)
      requires Valid() && node in items
      modifies this, head, nodes
      ensures Valid() && items == Without(old(items), node) && nodes == old(nodes)
      ensures items == [] ==> level == 0
      ensures forall k :: 0 <= k < |items| ==> items[k] in old(items) && items[k] != node
    {
      RemoveFacts(items, node);
      Unthread(node, items);
      LevelsAbove(head, node, items);
      count := count - 1;
      items := Without(items, node);
    }
  }

  lemma WithNode(lo: seq<SkipNode>, node: SkipNode, hi: seq<SkipNode>, nodes: set<SkipNode>)
    requires forall k :: 0 <= k < |lo + hi| ==> (lo + hi)[k] in nodes
    ensures forall k :: 0 <= k < |lo + [node] + hi| ==> (lo + [node] + hi)[k] in nodes + {node}
  {
    var q, r := lo + [node] + hi, lo + hi;
    forall k | 0 <= k < |q| ensures q[k] in nodes + {node} {
      assert k != |lo| ==> q[k] == r[if k < |lo| then k else k - 1];
    }
  }

  /** What inserting a node between `lo` and `hi` does to the sequence. */
  lemma InsertFacts(lo: seq<SkipNode>, node: SkipNode, hi: seq<SkipNode>)
    requires NoDup(lo + hi) && node !in lo + hi && Sorted(lo + hi)
    requires forall x :: x in lo ==> x.key < node.key
    requires forall x :: x in hi ==> x.key >= node.key
    ensures NoDup(lo + [node] + hi) && Sorted(lo + [node] + hi)
  {
    assert node !in lo && node !in hi;
    NoDupConcat(lo, hi);
    NoDupConcat(lo, [node]);
    NoDupConcat(lo + [node], hi);
    SortedConcat(lo, hi);
    SortedConcat(lo, [node]);
    assert forall x :: x in lo + [node] <==> x in lo || x == node;
    SortedConcat(lo + [node], hi);
  }

  lemma RemoveFacts(q: seq<SkipNode>, node: SkipNode)
    requires NoDup(q) && Sorted(q) && node in q
    ensures var rest := Without(q, node);
            && NoDup(rest) && Sorted(rest) && |rest| == |q| - 1
            && (forall k :: 0 <= k < |rest| ==> rest[k] in q && rest[k] != node)
            && Height(q) == if node.level > Height(rest) then node.level else Height(rest)
  {
    var lo, hi := Parts(q, node);
    HeightInsert(lo, node, hi);
    WithoutKeeps(q, node);
    SortedRest(lo, node, hi);
  }

  lemma SortedRest(lo: seq<SkipNode>, node: SkipNode, hi: seq<SkipNode>)
    requires Sorted(lo + [node] + hi)
    ensures Sorted(lo + hi)
  {
    SortedConcat(lo + [node], hi);
    SortedConcat(lo, [node]);
    SortedConcat(lo, hi);
    assert forall x :: x in lo ==> x in lo + [node];
  }

  /** At each of its levels, too, an inserted node stands just before the first key that is not less. */
  lemma {:induction false} LevelInserted(q: seq<SkipNode>, node: SkipNode, i: nat)
    requires Sorted(q)
    ensures Level(Inserted(q, node), i) == if node.level > i then Inserted(Level(q, i), node) else Level(q, i)
  {
    if q == [] || q[0].key >= node.key {
      assert Inserted(q, node)[1..] == q;
      if Level(q, i) != [] { assert Level(q, i)[0] in q; }
    } else {
      var t := Level(q[1..], i);
      assert Inserted(q, node)[1..] == Inserted(q[1..], node);
      LevelInserted(q[1..], node, i);
      InsertedStep(q[0], t, node);
      assert q[0].level <= i ==> Level(q, i) == t;
    }
  }

  /** A removed node is gone from all its levels, and nothing else is. */
  lemma {:induction false} LevelRemoved(q: seq<SkipNode>, node: SkipNode, i: nat)
    requires NoDup(q)
    ensures Level(Without(q, node), i) == Without(Level(q, i), node)
  {
    if q != [] {
      var t := Level(q[1..], i);
      if q[0] == node {
        if q[0].level <= i {
          assert node !in t;
          WithoutAbsent(t, node);
        }
      } else {
        assert Without(q, node)[1..] == Without(q[1..], node);
        LevelRemoved(q[1..], node, i);
        assert ([q[0]] + t)[1..] == t;
      }
      assert q[0].level <= i ==> Level(q, i) == t;
    }
  }

  /** The lowest level goes through every node. */
  lemma NextAt(head: SkipNode, q: seq<SkipNode>, k: nat)
    requires Shape(head, q) && k < |q|
    ensures |head.next| > 0 && head.next[0] == q[0]
    ensures |q[k].next| > 0 && q[k].next[0] == if k + 1 < |q| then q[k + 1] else head
  {
    LevelZero(q);
    assert LevelLinked(head, q, 0);
    RingNext(head, q, 0);
    RingNext(head, q, k);
  }

  lemma RingNext(head: SkipNode, q: seq<SkipNode>, k: nat)
    requires Linked([head] + q, 0) && k < |q|
    ensures |head.next| > 0 && head.next[0] == q[0]
    ensures |q[k].next| > 0 && q[k].next[0] == if k + 1 < |q| then q[k + 1] else head
  {
    var r := [head] + q;
    assert r[0] == head && r[0].next[0] == r[0 + 1];
    assert r[k + 1] == q[k];
    if k + 1 < |q| { assert r[k + 1].next[0] == r[k + 1 + 1]; }
  }
}
