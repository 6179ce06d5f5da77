/**
 Queues of nodes that carry their own links. A queue is a ring through its head;
 a node in no queue is a ring of its own, which is how it can tell.
 */
module IntrusiveQueue {
  import opened QueueSpec

  class QueueNode {
    var prev: QueueNode?
    var next: QueueNode?

    constructor ()
      ensures Ring([this])
    {
      new;
      prev, next := this, this;
    }
  }

  /** The nodes of `r`, in this order, and back to the first. */
  ghost predicate Ring(r: seq<QueueNode>)
    reads r
  {
    && |r| > 0
    && Distinct(r)
    && (forall i :: 0 <= i < |r| - 1 ==> r[i].next == r[i + 1] && r[i + 1].prev == r[i])
    && r[|r| - 1].next == r[0] && r[0].prev == r[|r| - 1]
  }

  /** queue_is_enqueued: a node alone in its ring is in no queue. */
  method IsEnqueued(node: QueueNode, ghost r: seq<QueueNode>) returns (b: bool)
    requires Ring(r) && node in r
    ensures b <==> |r| > 1
  {
    ghost var i :| 0 <= i < |r| && r[i] == node;
    if i > 0 { assert r[i - 1].next == r[i - 1 + 1]; }
    b := node.prev != node;
  }

  /** queue_node_init. */
  method InitNode(node: QueueNode)
    modifies node
    ensures Ring([node])
  {
    node.prev, node.next := node, node;
  }

  /** The ring without its i-th node. */
  ghost function Cut(r: seq<QueueNode>, i: nat): seq<QueueNode>
    requires 0 < i < |r|
  {
    r[..i] + r[i + 1..]
  }

  /** queue__detach_node: the neighbours close ranks; the node itself is left alone. */
  method Detach(node: QueueNode, ghost r: seq<QueueNode>, ghost i: nat)
    requires Ring(r) && 0 < i < |r| && r[i] == node
    modifies r
    ensures Ring(Cut(r, i)) && node !in Cut(r, i)
  {
    ghost var before := r[i - 1];
    ghost var after := r[if i + 1 < |r| then i + 1 else 0];
    assert r[i - 1].next == r[i - 1 + 1];
    assert node.prev == before && node.next == after;
    node.prev.next := node.next;
    node.next.prev := node.prev;
  }

  /** queue_append, written from the head of the ring. */
  method LinkLast(head: QueueNode, node: QueueNode, ghost r: seq<QueueNode>)
    requires Ring(r) && r[0] == head && node !in r
    modifies r, node
    ensures Ring(r + [node])
  {
    node.next := head;
    node.prev := head.prev;
    node.prev.next := node;
    head.prev := node;
  }

  /** queue_prepend. */
  method LinkFirst(head: QueueNode, node: QueueNode, ghost r: seq<QueueNode>)
    requires Ring(r) && r[0] == head && node !in r
    modifies r, node
    ensures Ring([head, node] + r[1..])
  {
    ghost var after := r[if |r| > 1 then 1 else 0];
    assert |r| > 1 ==> r[0].next == r[0 + 1];
    assert head.next == after;
    node.next := head.next;
    node.prev := head;
    node.next.prev := node;
    head.next := node;
  }

  class Queue {
    const head: QueueNode
    ghost var items: seq<QueueNode>

    ghost predicate Valid()
      reads this, head, items
    {
      Ring([head] + items)
    }

    constructor ()
      ensures Valid() && items == [] && fresh(head)
    {
      head := new QueueNode();
      items := [];
    }

    /** queue_is_empty. */
    method IsEmpty() returns (b: bool)
      requires Valid()
      ensures b <==> items == []
    {
      var enqueued := IsEnqueued(head, [head] + items);
      b := !enqueued;
    }

    /** queue_first. */
    method First() returns (node: QueueNode?)
      requires Valid()
      ensures if items == [] then node == null else node == items[0]
    {
      var empty := IsEmpty();
      node := if empty then null else head.next;
      assert items != [] ==> ([head] + items)[0].next == ([head] + items)[1];
    }

    /** queue_last. */
    method Last() returns (node: QueueNode?)
      requires Valid()
      ensures if items == [] then node == null else node == items[|items| - 1]
    {
      var empty := IsEmpty();
      node := if empty then null else head.prev;
    }

    /** queue_append. */
    method Append(node: QueueNode)
      requires Valid() && node != head && node !in items
      modifies this, head, items, node
      ensures Valid() && items == old(items) + [node]
    {
      LinkLast(head, node, [head] + items);
      assert [head] + (items + [node]) == [head] + items + [node];
      items := items + [node];
    }

    /** queue_prepend. */
    method Prepend(node: QueueNode)
      requires Valid() && node != head && node !in items
      modifies this, head, items, node
      ensures Valid() && items == [node] + old(items)
    {
      LinkFirst(head, node, [head] + items);
      assert [head, node] + ([head] + items)[1..] == [head] + ([node] + items);
      items := [node] + items;
    }

    /** The node leaves the ring with its own links untouched. */
    method Unhook(node: QueueNode)
      requires Valid() && node in items
      modifies this, head, items
      ensures Valid() && items == Without(old(items), node) && node != head && node !in items
      ensures forall j :: 0 <= j < |items| ==> items[j] in old(items)
    {
      ghost var i := CutItems(head, items, node);
      Detach(node, [head] + items, i + 1);
      items := Without(items, node);
    }

    /** queue_remove: the node ends up in no queue, and knows it. */
    method Remove(node: QueueNode)
      requires Valid() && node in items
      modifies this, head, items
      ensures Valid() && items == Without(old(items), node) && node !in items && Ring([node])
    {
      Unhook(node);
      InitNode(node);
    }

    /** queue_move_to_end. */
    method MoveToEnd(node: QueueNode)
      requires Valid() && node in items
      modifies this, head, items
      ensures Valid() && items == Without(old(items), node) + [node]
    {
      Unhook(node);
      Append(node);
    }

    /** queue_move_to_start. */
    method MoveToStart(node: QueueNode)
      requires Valid() && node in items
      modifies this, head, items
      ensures Valid() && items == [node] + Without(old(items), node)
    {
      Unhook(node);
      Prepend(node);
    }
  }

  lemma CutItems(head: QueueNode, q: seq<QueueNode>, node: QueueNode) returns (i: nat)
    requires Distinct([head] + q) && node in q
    ensures i < |q| && node != head && ([head] + q)[i + 1] == node && node !in Without(q, node)
    ensures Cut([head] + q, i + 1) == [head] + Without(q, node)
    ensures var rest := Without(q, node); forall j :: 0 <= j < |rest| ==> rest[j] in q
  {
    NoDupIndex([head] + q);
    assert ([head] + q)[1..] == q;
    var a, b := Parts(q, node);
    i := |a|;
    WithoutSubset(q, node);
    CutAt(head, a, node, b);
  }

  lemma CutAt(head: QueueNode, a: seq<QueueNode>, node: QueueNode, b: seq<QueueNode>)
    ensures var r := [head] + (a + [node] + b); Cut(r, |a| + 1) == [head] + (a + b) && r[|a| + 1] == node
  {
  }

  /** A node is in one queue at most: two rings that meet run together until one reaches the other's head. */
  lemma {:induction false} NeverInTwo(p: Queue, q: Queue, i: nat, j: nat)
    requires p.Valid() && q.Valid() && p.head != q.head && p.head !in q.items && q.head !in p.items
    requires i < |p.items| && j < |q.items|
    ensures p.items[i] != q.items[j]
    decreases |p.items| - i
  {
    NextOf(p.head, p.items, i);
    NextOf(q.head, q.items, j);
    if i + 1 < |p.items| && j + 1 < |q.items| {
      NeverInTwo(p, q, i + 1, j + 1);
    }
  }

  lemma NextOf(head: QueueNode, q: seq<QueueNode>, i: nat)
    requires Ring([head] + q) && i < |q|
    ensures q[i].next == if i + 1 < |q| then q[i + 1] else head
  {
    var r := [head] + q;
    assert r[i + 1] == q[i];
    if i + 1 < |q| { assert r[i + 2] == q[i + 1]; }
  }

  /** Links decide the contents: a queue's items can be read off in one way only. */
  lemma {:induction false} ItemsUnique(head: QueueNode, a: seq<QueueNode>, b: seq<QueueNode>, k: nat)
    requires Ring([head] + a) && Ring([head] + b) && |a| <= |b| && k <= |a|
    requires a[..k] == b[..k]
    ensures a == b
    decreases |a| - k
  {
    var r, s := [head] + a, [head] + b;
    assert r[k] == s[k] by { if k > 0 { assert a[..k][k - 1] == b[..k][k - 1]; } }
    assert r[k].next == if k < |a| then r[k + 1] else head;
    assert s[k].next == if k < |b| then s[k + 1] else head;
    assert k < |b| ==> s[k + 1] != s[0];
    if k < |a| {
      assert a[..k + 1] == a[..k] + [a[k]] && b[..k + 1] == b[..k] + [b[k]];
      ItemsUnique(head, a, b, k + 1);
    } else {
      assert a[..k] == a && |b| == k ==> b[..k] == b;
    }
  }
}
