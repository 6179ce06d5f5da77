/** The levels of a skip list as sequences, and the links of one level. */
module SkipLevels {

  import opened MnetData
  import opened QueueSpec

  // ----- the nodes of a level

  /** The nodes tall enough for level i, in their order. */
  ghost function Level(q: seq<SkipNode>, i: nat): (r: seq<SkipNode>)
    ensures forall k :: 0 <= k < |r| ==> r[k] in q && r[k].level > i
  {
    if q == [] then [] else (if q[0].level > i then [q[0]] else []) + Level(q[1..], i)
  }

  lemma {:induction false} LevelConcat(a: seq<SkipNode>, b: seq<SkipNode>, i: nat)
    ensures Level(a + b, i) == Level(a, i) + Level(b, i)
  {
    if a == [] {
      assert a + b == b;
    } else {
      assert (a + b)[1..] == a[1..] + b;
      LevelConcat(a[1..], b, i);
    }
  }

  lemma {:induction false} LevelMember(q: seq<SkipNode>, i: nat, x: SkipNode)
    ensures x in Level(q, i) <==> x in q && x.level > i
  {
    if q != [] {
      LevelMember(q[1..], i, x);
    }
  }

  lemma {:induction false} LevelNoDup(q: seq<SkipNode>, i: nat)
    requires NoDup(q)
    ensures NoDup(Level(q, i))
  {
    if q != [] {
      LevelNoDup(q[1..], i);
      var rest := Level(q[1..], i);
      if q[0].level > i {
        NoDupAppend(rest, q[0]);
      } else {
        assert Level(q, i) == rest;
      }
    }
  }

  /** Each level is what the one below keeps of its taller nodes. */
  lemma {:induction false} LevelOfLevel(q: seq<SkipNode>, i: nat, j: nat)
    requires i <= j
    ensures Level(Level(q, i), j) == Level(q, j)
  {
    if q != [] {
      LevelOfLevel(q[1..], i, j);
      LevelConcat(if q[0].level > i then [q[0]] else [], Level(q[1..], i), j);
    }
  }

  lemma {:induction false} LevelZero(q: seq<SkipNode>)
    requires forall x :: x in q ==> x.level > 0
    ensures Level(q, 0) == q
  {
    if q != [] {
      assert q[0] in q && forall x :: x in q[1..] ==> x in q;
      LevelZero(q[1..]);
    }
  }

  ghost function Height(q: seq<SkipNode>): nat {
    if q == [] then 0 else var h := Height(q[1..]); if q[0].level > h then q[0].level else h
  }

  lemma {:induction false} LevelEmpty(q: seq<SkipNode>, i: nat)
    ensures Level(q, i) == [] <==> i >= Height(q)
  {
    if q != [] {
      LevelEmpty(q[1..], i);
    }
  }

  lemma {:induction false} HeightConcat(a: seq<SkipNode>, b: seq<SkipNode>)
    ensures Height(a + b) == if Height(a) > Height(b) then Height(a) else Height(b)
  {
    if a == [] {
      assert a + b == b;
    } else {
      assert (a + b)[1..] == a[1..] + b;
      HeightConcat(a[1..], b);
    }
  }

  /** The height is reached by some node and exceeded by none. */
  lemma {:induction false} HeightIsMax(q: seq<SkipNode>)
    ensures forall x :: x in q ==> x.level <= Height(q)
    ensures q != [] ==> exists x :: x in q && x.level == Height(q)
  {
    if q != [] {
      HeightIsMax(q[1..]);
      assert forall x :: x in q <==> x == q[0] || x in q[1..];
      if q[1..] == [] || q[0].level > Height(q[1..]) { assert q[0] in q; }
    }
  }

  lemma HeightInsert(a: seq<SkipNode>, node: SkipNode, b: seq<SkipNode>)
    ensures Height(a + [node] + b) == if node.level > Height(a + b) then node.level else Height(a + b)
  {
    HeightConcat(a + [node], b);
    HeightConcat(a, [node]);
    HeightConcat(a, b);
  }

  lemma LevelInsert(a: seq<SkipNode>, node: SkipNode, b: seq<SkipNode>, i: nat)
    ensures Level(a + [node] + b, i) == Level(a, i) + (if node.level > i then [node] else []) + Level(b, i)
  {
    LevelConcat(a + [node], b, i);
    LevelConcat(a, [node], i);
  }

  // ----- the links of a level

  /** The ring `r` is linked at level i. */
  ghost predicate Linked(r: seq<SkipNode>, i: nat)
    reads r
  {
    && |r| > 0
    && (forall k :: 0 <= k < |r| ==> |r[k].next| > i && |r[k].prev| > i)
    && (forall k :: 0 <= k < |r| - 1 ==> r[k].next[i] == r[k + 1] && r[k + 1].prev[i] == r[k])
    && r[|r| - 1].next[i] == r[0] && r[0].prev[i] == r[|r| - 1]
  }

  /** __list_add at level i. */
  method AddBetween(node: SkipNode, pos: SkipNode, end: SkipNode, i: nat)
    requires i < |node.next| && i < |node.prev| && i < |pos.next| && i < |end.prev|
    requires node != pos && node != end
    modifies node`next, node`prev, pos`next, end`prev
    ensures node.next == old(node.next)[i := end] && node.prev == old(node.prev)[i := pos]
    ensures pos.next == old(pos.next)[i := node] && end.prev == old(end.prev)[i := node]
  {
    node.next := node.next[i := end];
    node.prev := node.prev[i := pos];
    end.prev := end.prev[i := node];
    pos.next := pos.next[i := node];
  }

  /** list_del at level i. */
  method DeleteLink(node: SkipNode, i: nat, ghost p: SkipNode, ghost n: SkipNode)
    requires i < |node.next| && i < |node.prev| && node.next[i] == n && node.prev[i] == p
    requires i < |p.next| && i < |n.prev| && n != node && p != node
    modifies node`next, node`prev, p`next, n`prev
    ensures node.next == old(node.next)[i := node] && node.prev == old(node.prev)[i := node]
    ensures p.next == old(p.next)[i := n] && n.prev == old(n.prev)[i := p]
  {
    node.prev[i].next := node.prev[i].next[i := node.next[i]];
    node.next[i].prev := node.next[i].prev[i := node.prev[i]];
    node.prev := node.prev[i := node];
    node.next := node.next[i := node];
  }
}
