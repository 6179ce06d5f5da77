/**
 The intrusive red-black tree that indexes ports by handle and sockets by
 number. Nodes carry parent pointers and are relinked in place; the ghost field
 `shape` says which tree the links spell out, and every method is specified by
 what it does to that shape.
 */
module RedBlackTree {
  import opened TreeShape
  import opened TreeRepair

  /** The heap links of the nodes of `s` are those of `s`, hanging below `p`. */
  ghost predicate Linked(s: Shape, p: Node?)
    reads Nodes(s)
  {
    s.Cell? ==>
      && s.node.key == s.key && s.node.red == s.red && s.node.parent == p
      && s.node.left == Root(s.left) && s.node.right == Root(s.right)
      && Linked(s.left, s.node) && Linked(s.right, s.node)
  }

  /** The heap links along and beside `p` are those of `p`, with `hole` below it. */
  ghost predicate LinkedPath(p: Path, hole: Node?)
    reads PathNodes(p)
  {
    !p.Top? ==>
      && p.node.key == p.key && p.node.red == p.red && p.node.parent == Parent(p.up)
      && p.node.left == (if p.InLeft? then hole else Root(p.left))
      && p.node.right == (if p.InLeft? then Root(p.right) else hole)
      && Linked(Sibling(p), p.node) && LinkedPath(p.up, p.node)
  }

  lemma {:induction false} PlugLinked(p: Path, s: Shape)
    ensures Linked(Plug(p, s), null) <==> Linked(s, Parent(p)) && LinkedPath(p, Root(s))
    decreases p
  {
    match p
    case Top =>
    case InLeft(up, n, k, c, r) => PlugLinked(up, Cell(s, n, k, c, r));
    case InRight(l, n, k, c, up) => PlugLinked(up, Cell(l, n, k, c, s));
  }

  lemma {:induction false} PlugRoot(p: Path, s: Shape, t: Shape)
    ensures Root(Plug(p, s)) == if p.Top? then Root(s) else Root(Plug(p, t))
    decreases p
  {
    match p
    case Top =>
    case InLeft(up, n, k, c, r) => PlugRoot(up, Cell(s, n, k, c, r), Cell(t, n, k, c, r));
    case InRight(l, n, k, c, up) => PlugRoot(up, Cell(l, n, k, c, s), Cell(l, n, k, c, t));
  }

  ghost function ParentOf(p: Path): set<Node> {
    if p.Top? then {} else {p.node}
  }

  /** Hangs the subtree `t` below another parent. */
  method Reparent(n: Node?, parent: Node?, ghost t: Shape, ghost from: Node?, ghost all: set<Node>)
    requires n == Root(t) && Linked(t, from) && Distinct(t) && Nodes(t) <= all
    modifies if n == null then {} else {n}`parent
    ensures Linked(t, parent)
  {
    if n != null {
      n.parent := parent;
      assert Linked(t.left, t.node) == old(Linked(t.left, t.node));
      assert Linked(t.right, t.node) == old(Linked(t.right, t.node));
    }
  }

  /** The part of a rotation that rewrites links inside the rotated subtree. */
  method PivotLeft(node: Node, q: Node, parent: Node?, ghost s: Shape, ghost all: set<Node>)
    requires s.Cell? && s.node == node && s.right.Cell? && s.right.node == q
    requires Distinct(s) && Nodes(s) <= all && Linked(s, parent)
    modifies Nodes(s)
    ensures Linked(RotatedLeft(s), parent)
  {
    RotatedLeftNodes(s);
    ghost var a, b, c := s.left, s.right.left, s.right.right;
    assert Linked(s.right, node) && Linked(a, node) && Linked(b, q) && Linked(c, q) && Distinct(s.right);
    q.parent := parent;
    node.parent := q;
    node.right := q.left;
    assert Linked(b, q) == old(Linked(b, q));
    Reparent(node.right, node, b, q, all);
    label done:
    q.left := node;
    assert Linked(b, node) == old@done(Linked(b, node));
    assert Linked(a, node) == old(Linked(a, node));
    assert Linked(c, q) == old(Linked(c, q));
  }

  /** The part of a rotation that rewrites links inside the rotated subtree. */
  method PivotRight(node: Node, q: Node, parent: Node?, ghost s: Shape, ghost all: set<Node>)
    requires s.Cell? && s.node == node && s.left.Cell? && s.left.node == q
    requires Distinct(s) && Nodes(s) <= all && Linked(s, parent)
    modifies Nodes(s)
    ensures Linked(RotatedRight(s), parent)
  {
    RotatedRightNodes(s);
    ghost var a, b, c := s.right, s.left.right, s.left.left;
    assert Linked(s.left, node) && Linked(a, node) && Linked(b, q) && Linked(c, q) && Distinct(s.left);
    q.parent := parent;
    node.parent := q;
    node.left := q.right;
    assert Linked(b, q) == old(Linked(b, q));
    Reparent(node.left, node, b, q, all);
    label done:
    q.right := node;
    assert Linked(b, node) == old@done(Linked(b, node));
    assert Linked(a, node) == old(Linked(a, node));
    assert Linked(c, q) == old(Linked(c, q));
  }

  /** Copies the links and the colour of `node`, and makes its children those of `next`. */
  method AdoptChildren(node: Node, next: Node, ghost s: Shape, ghost all: set<Node>, ghost parent: Node?)
    requires s.Cell? && s.node == node && s.left.Cell? && Distinct(s) && Linked(s, parent)
    requires Nodes(s) <= all && next !in all
    modifies next, Nodes(s)
    ensures Linked(Cell(s.left, next, next.key, s.red, s.right), parent) && next.key == old(next.key)
  {
    next.red := node.red;
    next.parent := node.parent;
    next.left := node.left;
    next.right := node.right;
    assert Linked(s.left, node) == old(Linked(s.left, node));
    assert Linked(s.right, node) == old(Linked(s.right, node));
    assert s.left.node in Nodes(s.left) && (s.right.Cell? ==> s.right.node in Nodes(s.right));
    Reparent(next.left, next, s.left, node, all);
    assert Linked(s.right, node) == old(Linked(s.right, node));
    label left:
    Reparent(next.right, next, s.right, node, all);
    assert Linked(s.left, next) == old@left(Linked(s.left, next));
  }

  class Tree {
    var root: Node?
    ghost var shape: Shape
    ghost var nodes: set<Node>

    constructor ()
      ensures Inv() && nodes == {} && Contents() == map[]
    {
      root, shape, nodes := null, Nil, {};
    }

    ghost predicate Valid()
      reads this, nodes
    {
      nodes == Nodes(shape) && Distinct(shape) && Linked(shape, null) && root == Root(shape)
    }

    /** The whole tree is `s` inside `p`, and both parts are linked and disjoint. */
    ghost predicate Split(p: Path, s: Shape)
      reads this, nodes
    {
      && shape == Plug(p, s) && nodes == PathNodes(p) + Nodes(s)
      && Distinct(s) && DistinctPath(p) && Nodes(s) !! PathNodes(p)
      && Linked(s, Parent(p)) && LinkedPath(p, Root(s))
      && root == Root(Plug(p, s))
    }

    /** The same tree can be split at any of its subtrees. */
    lemma Refocus(p: Path, s: Shape)
      requires shape == Plug(p, s)
      ensures Valid() <==> Split(p, s)
    {
      PlugNodes(p, s);
      PlugLinked(p, s);
    }

    /** Makes `heir` take the place of `child` below the node `p` leads up to. */
    method ReplaceChild(parent: Node?, child: Node, heir: Node?, ghost p: Path)
      requires DistinctPath(p) && LinkedPath(p, child) && child !in PathNodes(p)
      requires parent == Parent(p)
      modifies this`root, ParentOf(p)
      ensures LinkedPath(p, heir)
      ensures root == if p.Top? then heir else old(root)
    {
      assert !p.Top? && Sibling(p).Cell? ==> Root(Sibling(p)) in Nodes(Sibling(p));
      if parent != null {
        if parent.left == child {
          parent.left := heir;
        } else {
          parent.right := heir;
        }
      } else {
        root := heir;
      }
    }

    method RotateLeft(node: Node, ghost p: Path, ghost s: Shape)
      requires Valid() && shape == Plug(p, s)
      requires s.Cell? && s.node == node && s.right.Cell?
      modifies this`root, this`shape, nodes
      ensures Valid() && shape == Plug(p, RotatedLeft(s))
    {
      assert Split(p, s) by { Refocus(p, s); }
      RotatedLeftNodes(s);
      PlugRoot(p, s, RotatedLeft(s));
      var q := node.right;
      var parent := node.parent;
      shape := Plug(p, RotatedLeft(s));
      ReplaceChild(parent, node, q, p);
      assert Linked(s, parent) == old(Linked(s, parent));
      label replaced:
      PivotLeft(node, q, parent, s, nodes);
      assert LinkedPath(p, q) == old@replaced(LinkedPath(p, q));
      Refocus(p, RotatedLeft(s));
    }

    method RotateRight(node: Node, ghost p: Path, ghost s: Shape)
      requires Valid() && shape == Plug(p, s)
      requires s.Cell? && s.node == node && s.left.Cell?
      modifies this`root, this`shape, nodes
      ensures Valid() && shape == Plug(p, RotatedRight(s))
    {
      assert Split(p, s) by { Refocus(p, s); }
      RotatedRightNodes(s);
      PlugRoot(p, s, RotatedRight(s));
      var q := node.left;
      var parent := node.parent;
      shape := Plug(p, RotatedRight(s));
      ReplaceChild(parent, node, q, p);
      assert Linked(s, parent) == old(Linked(s, parent));
      label replaced:
      PivotRight(node, q, parent, s, nodes);
      assert LinkedPath(p, q) == old@replaced(LinkedPath(p, q));
      Refocus(p, RotatedRight(s));
    }

    method SetRed(node: Node, red: bool, ghost p: Path, ghost s: Shape)
      requires Valid() && shape == Plug(p, s)
      requires s.Cell? && s.node == node
      modifies this`shape, node`red
      ensures Valid() && shape == Plug(p, s.(red := red))
    {
      Refocus(p, s);
      node.red := red;
      shape := Plug(p, s.(red := red));
      PlugRoot(p, s, s.(red := red));
      Refocus(p, s.(red := red));
    }

    /** One round of repair after an insertion, for a parent that is a left child. */
    method RebalanceAfterInsertLeft(node: Node, parent: Node, ghost p: Path, ghost s: Shape)
      returns (node': Node, ghost p': Path, ghost s': Shape)
      requires Valid() && shape == Plug(p, s) && RedHole(p, s) && TopRed(p)
      requires s.node == node && p.node == parent && p.up.InLeft?
      modifies this`root, this`shape, nodes
      ensures Valid() && shape == Plug(p', s') && RedHole(p', s') && s'.node == node'
      ensures Depth(p') < Depth(p)
      ensures InOrder(shape) == old(InOrder(shape))
    {
      Refocus(p, s);
      assert LinkedPath(p.up, parent) && Linked(p.up.right, p.up.node);
      var grandparent := parent.parent;
      var uncle := grandparent.right;
      if uncle != null && uncle.red {
        SetRed(parent, false, p.up, Fill(p, s));
        SetRed(uncle, false, Across(p.up, Fill(p, s).(red := false)), p.up.right);
        ghost var t := Fill(p.up.(right := p.up.right.(red := false)), Fill(p, s).(red := false));
        SetRed(grandparent, true, p.up.up, t);
        LiftRed(p, s);
        node', p', s' := grandparent, p.up.up, t.(red := true);
      } else {
        var parent';
        if node == parent.right {
          BentPath(p, s);
          RotateLeft(parent, p.up, Fill(p, s));
          node', parent', p', s' := parent, node, Bend(p, s), Bent(p, s);
        } else {
          node', parent', p', s' := node, parent, p, s;
        }
        SetRed(parent', false, p.up, Fill(p', s'));
        ghost var t := Fill(p.up, Fill(p', s').(red := false));
        SetRed(grandparent, true, p.up.up, t);
        RotateRight(grandparent, p.up.up, t.(red := true));
        TurnBlack(p', s');
        p' := Turned(p');
      }
    }

    /** One round of repair after an insertion, for a parent that is a right child. */
    method RebalanceAfterInsertRight(node: Node, parent: Node, ghost p: Path, ghost s: Shape)
      returns (node': Node, ghost p': Path, ghost s': Shape)
      requires Valid() && shape == Plug(p, s) && RedHole(p, s) && TopRed(p)
      requires s.node == node && p.node == parent && p.up.InRight?
      modifies this`root, this`shape, nodes
      ensures Valid() && shape == Plug(p', s') && RedHole(p', s') && s'.node == node'
      ensures Depth(p') < Depth(p)
      ensures InOrder(shape) == old(InOrder(shape))
    {
      Refocus(p, s);
      assert LinkedPath(p.up, parent) && Linked(p.up.left, p.up.node);
      var grandparent := parent.parent;
      var uncle := grandparent.left;
      if uncle != null && uncle.red {
        SetRed(parent, false, p.up, Fill(p, s));
        SetRed(uncle, false, Across(p.up, Fill(p, s).(red := false)), p.up.left);
        ghost var t := Fill(p.up.(left := p.up.left.(red := false)), Fill(p, s).(red := false));
        SetRed(grandparent, true, p.up.up, t);
        LiftRed(p, s);
        node', p', s' := grandparent, p.up.up, t.(red := true);
      } else {
        var parent';
        if node == parent.left {
          BentPath(p, s);
          RotateRight(parent, p.up, Fill(p, s));
          node', parent', p', s' := parent, node, Bend(p, s), Bent(p, s);
        } else {
          node', parent', p', s' := node, parent, p, s;
        }
        SetRed(parent', false, p.up, Fill(p', s'));
        ghost var t := Fill(p.up, Fill(p', s').(red := false));
        SetRed(grandparent, true, p.up.up, t);
        RotateLeft(grandparent, p.up.up, t.(red := true));
        TurnBlack(p', s');
        p' := Turned(p');
      }
    }

    ghost function Contents(): map<nat, Node>
      reads this
    {
      AsMap(InOrder(shape))
    }

    /** What every public operation keeps. */
    ghost predicate Inv()
      reads this, nodes
    {
      Valid() && RedBlack(shape) && SearchTree(shape)
    }

    /** What one can read off the fields of a node that lies in the tree. */
    lemma Peek(p: Path, s: Shape)
      requires Valid() && shape == Plug(p, s) && s.Cell?
      ensures s.node in nodes
      ensures s.node.key == s.key && s.node.red == s.red && s.node.parent == Parent(p)
      ensures s.node.left == Root(s.left) && s.node.right == Root(s.right)
      ensures !p.Top? ==> p.node in nodes && p.node.red == p.red
    {
      Refocus(p, s);
    }

    lemma WhichChild(p: Path, s: Shape)
      requires Valid() && shape == Plug(p, s) && s.Cell? && !p.Top?
      ensures p.node in nodes && s.node.parent == p.node
      ensures p.InLeft? <==> p.node.left == s.node
    {
      Refocus(p, s);
      assert Sibling(p).Cell? ==> Root(Sibling(p)) in Nodes(Sibling(p));
    }

    /** Links `node` into the empty place at the end of `q`. */
    method LinkAt(node: Node, parent: Node?, left: bool, ghost q: Path)
      requires Valid() && shape == Plug(q, Nil)
      requires parent == Parent(q) && (left <==> q.InLeft?)
      modifies this`root, ParentOf(q)
      ensures nodes == PathNodes(q) && DistinctPath(q) && LinkedPath(q, node)
      ensures root == if q.Top? then node else old(root)
    {
      assert Split(q, Nil) by { Refocus(q, Nil); }
      if parent == null {
        root := node;
      } else if left {
        parent.left := node;
      } else {
        parent.right := node;
      }
    }

    /** What comparing `key` with the node at the end of `q` tells. */
    lemma Compare(q: Path, s: Shape, key: nat)
      requires Valid() && SearchTree(shape) && shape == Plug(q, s) && s.Cell? && Fits(q, key)
      ensures s.node.key == s.key && s.node.left == Root(s.left) && s.node.right == Root(s.right)
      ensures key < s.key ==> Fits(InLeftOf(q, s), key) && shape == Plug(InLeftOf(q, s), s.left)
      ensures key > s.key ==> Fits(InRightOf(q, s), key) && shape == Plug(InRightOf(q, s), s.right)
      ensures key == s.key ==> key in Contents() && Contents()[key] == s.node && s.node in nodes
    {
      Peek(q, s);
      FitsBelow(q, s, key);
    }

    /** Descends to the empty place where `key` belongs, unless the key is present. */
    method Descend(key: nat) returns (parent: Node?, left: bool, found: bool, ghost q: Path)
      requires Valid() && SearchTree(shape)
      ensures found <==> key in Contents()
      ensures !found ==> shape == Plug(q, Nil) && Fits(q, key)
      ensures !found ==> parent == Parent(q) && (left <==> q.InLeft?)
    {
      var child := root;
      q, left, parent := Top, false, null;
      ghost var s := shape;
      while child != null
        invariant shape == Plug(q, s) && child == Root(s) && Fits(q, key)
        invariant parent == Parent(q) && (left <==> q.InLeft?)
        decreases s
      {
        Compare(q, s, key);
        parent := child;
        if key < parent.key {
          child, left := parent.left, true;
          q, s := InLeftOf(q, s), s.left;
        } else if key > parent.key {
          child, left := parent.right, false;
          q, s := InRightOf(q, s), s.right;
        } else {
          found := true;
          return;
        }
      }
      FitsAbsent(q, key);
      found := false;
    }

    /** Gives a linked-in node its fields: a red leaf. */
    method InitLeaf(node: Node, key: nat, parent: Node?, ghost q: Path)
      requires shape == Plug(q, Nil) && nodes == PathNodes(q) && DistinctPath(q) && LinkedPath(q, node)
      requires node !in nodes && parent == Parent(q)
      requires root == Root(Plug(q, Cell(Nil, node, key, true, Nil)))
      modifies this`shape, this`nodes, node
      ensures Valid() && shape == Plug(q, Cell(Nil, node, key, true, Nil))
      ensures nodes == old(nodes) + {node}
    {
      node.key := key;
      node.left, node.right := null, null;
      node.parent := parent;
      node.red := true;
      ghost var s := Cell(Nil, node, key, true, Nil);
      assert Nodes(s) == Nodes(Nil) + {node} + Nodes(Nil) == {node};
      shape, nodes := Plug(q, s), nodes + {node};
      assert LinkedPath(q, Root(s)) == old(LinkedPath(q, node));
      assert Split(q, s);
      Refocus(q, s);
    }

    /** Moves a possible red-red pair up the tree until it is gone. */
    method RepairAfterAdd(node: Node, parent: Node?, ghost p: Path, ghost s: Shape)
      requires Valid() && shape == Plug(p, s) && RedHole(p, s)
      requires node == s.node && parent == Parent(p)
      modifies this`root, this`shape, nodes
      ensures Valid() && RedBlack(shape) && InOrder(shape) == old(InOrder(shape))
    {
      var n, parent := node, parent;
      ghost var p, s := p, s;
      Peek(p, s);
      while parent != null && parent.red
        invariant Valid() && shape == Plug(p, s) && RedHole(p, s)
        invariant n == s.node && parent == Parent(p)
        invariant parent != null ==> parent.red == p.red
        invariant InOrder(shape) == old(InOrder(shape))
        decreases Depth(p)
      {
        WhichChild(p.up, Fill(p, s));
        if parent == parent.parent.left {
          n, p, s := RebalanceAfterInsertLeft(n, parent, p, s);
        } else {
          n, p, s := RebalanceAfterInsertRight(n, parent, p, s);
        }
        Peek(p, s);
        parent := n.parent;
      }
      BlackRoot(p, s);
      PlugRootCell(p, s);
      SetRed(root, false, Top, shape);
    }

    method Add(node: Node, key: nat) returns (r: int)
      requires Inv() && node !in nodes
      modifies this, nodes, node
      ensures Inv()
      ensures r == if key in old(Contents()) then -1 else 0
      ensures r == -1 ==> unchanged(this) && unchanged(nodes) && unchanged(node)
      ensures r == 0 ==> Contents() == old(Contents())[key := node] && nodes == old(nodes) + {node}
    {
      var parent, left, found; ghost var p;
      parent, left, found, p := Descend(key);
      if found {
        return -1;
      }
      NewLeaf(p, node, key);
      PlugRoot(p, Cell(Nil, node, key, true, Nil), Nil);
      assert ParentOf(p) <= nodes by { PlugNodes(p, Nil); }
      LinkAt(node, parent, left, p);
      InitLeaf(node, key, parent, p);
      RepairAfterAdd(node, parent, p, Cell(Nil, node, key, true, Nil));
      return 0;
    }

    /** What one can read off the fields of a sibling and of its children. */
    lemma PeekSibling(p: Path, s: Shape)
      requires Valid() && shape == Plug(p, s) && !p.Top? && Sibling(p).Cell?
      ensures p.node in nodes && p.node.red == p.red && p.node.parent == Parent(p.up)
      ensures (if p.InLeft? then p.node.right else p.node.left) == Sibling(p).node
      ensures var w := Sibling(p);
              && w.node in nodes && w.node.red == w.red && w.node.left == Root(w.left) && w.node.right == Root(w.right)
              && (w.left.Cell? ==> w.left.node in nodes && w.left.node.red == w.left.red)
              && (w.right.Cell? ==> w.right.node in nodes && w.right.node.red == w.right.red)
    {
      var w := Sibling(p);
      Peek(Across(p, s), w);
      Peek(p.up, Fill(p, s));
      if w.left.Cell? { Peek(InLeftOf(Across(p, s), w), w.left); }
      if w.right.Cell? { Peek(InRightOf(Across(p, s), w), w.right); }
    }

    /** One round of repair after a removal, for a short left child. */
    method RebalanceAfterRemoveLeft(parent: Node, ghost p: Path, ghost s: Shape)
      returns (done: bool, ghost p': Path, ghost s': Shape)
      requires Valid() && shape == Plug(p, s) && Short(p, s) && !IsRed(s)
      requires p.InLeft? && p.node == parent
      modifies this`root, this`shape, nodes
      ensures Valid() && InOrder(shape) == old(InOrder(shape))
      ensures done ==> RedBlack(shape)
      ensures !done ==> shape == Plug(p', s') && s'.Cell? && s'.node == parent
      ensures !done && !s'.red ==> Short(p', s') && Depth(p') < Depth(p)
      ensures !done && s'.red ==>
                RedBlack(Plug(p', Colour(s', false))) && InOrder(Plug(p', Colour(s', false))) == InOrder(shape)
    {
      p', s' := p, s;
      ShortSibling(p, s);
      PeekSibling(p, s);
      var sibling := parent.right;
      if sibling.red {
        SetRed(sibling, false, Across(p, s), p.right);
        SetRed(parent, true, p.up, Fill(WithSibling(p, Colour(p.right, false)), s));
        LowerShort(p, s);
        RotateLeft(parent, p.up, Colour(Fill(WithSibling(p, Colour(p.right, false)), s), true));
        p' := Lowered(p);
        PeekSibling(p', s);
        sibling := parent.right;
      }
      assert Short(p', s) && p'.InLeft? && p'.right.Cell? && !p'.right.red && sibling == p'.right.node;
      PeekSibling(p', s);
      if (sibling.left != null && sibling.left.red) || (sibling.right != null && sibling.right.red) {
        if sibling.right == null || !sibling.right.red {
          StraightShort(p', s);
          SetRed(sibling.left, false, InLeftOf(Across(p', s), p'.right), Near(p'));
          SetRed(sibling, true, Across(p', s),
                 Cell(Colour(Near(p'), false), sibling, p'.right.key, false, p'.right.right));
          RotateRight(sibling, Across(p', s),
                      Cell(Colour(Near(p'), false), sibling, p'.right.key, true, p'.right.right));
          p' := Straight(p');
          PeekSibling(p', s);
          sibling := parent.right;
        }
        SupplyBlackLeft(parent, sibling, p', s);
        done := true;
      } else {
        RaiseShort(p', s);
        SetRed(sibling, true, Across(p', s), p'.right);
        done, s' := false, Fill(WithSibling(p', Colour(p'.right, true)), s);
        p' := p'.up;
      }
    }

    method SupplyBlackLeft(parent: Node, sibling: Node, ghost p: Path, ghost s: Shape)
      requires Valid() && shape == Plug(p, s) && Short(p, s)
      requires p.InLeft? && p.node == parent && p.right.Cell? && p.right.node == sibling
      requires !IsRed(p.right) && IsRed(Far(p))
      modifies this`root, this`shape, nodes
      ensures Valid() && RedBlack(shape) && InOrder(shape) == old(InOrder(shape))
    {
      SupplyShort(p, s);
      PeekSibling(p, s);
      ghost var w := p.right;
      SetRed(sibling, parent.red, Across(p, s), w);
      ghost var w1 := w.(red := p.red);
      SetRed(parent, false, p.up, Fill(WithSibling(p, w1), s));
      ghost var p2 := InLeft(p.up, p.node, p.key, false, w1);
      SetRed(sibling.right, false, InRightOf(Across(p2, s), w1), w.right);
      RotateLeft(parent, p.up, Fill(WithSibling(p2, Cell(w.left, w.node, w.key, p.red, Colour(w.right, false))), s));
    }

    /** One round of repair after a removal, for a short right child. */
    method RebalanceAfterRemoveRight(parent: Node, ghost p: Path, ghost s: Shape)
      returns (done: bool, ghost p': Path, ghost s': Shape)
      requires Valid() && shape == Plug(p, s) && Short(p, s) && !IsRed(s)
      requires p.InRight? && p.node == parent
      modifies this`root, this`shape, nodes
      ensures Valid() && InOrder(shape) == old(InOrder(shape))
      ensures done ==> RedBlack(shape)
      ensures !done ==> shape == Plug(p', s') && s'.Cell? && s'.node == parent
      ensures !done && !s'.red ==> Short(p', s') && Depth(p') < Depth(p)
      ensures !done && s'.red ==>
                RedBlack(Plug(p', Colour(s', false))) && InOrder(Plug(p', Colour(s', false))) == InOrder(shape)
    {
      p', s' := p, s;
      ShortSibling(p, s);
      PeekSibling(p, s);
      var sibling := parent.left;
      if sibling.red {
        SetRed(sibling, false, Across(p, s), p.left);
        SetRed(parent, true, p.up, Fill(WithSibling(p, Colour(p.left, false)), s));
        LowerShort(p, s);
        RotateRight(parent, p.up, Colour(Fill(WithSibling(p, Colour(p.left, false)), s), true));
        p' := Lowered(p);
        PeekSibling(p', s);
        sibling := parent.left;
      }
      assert Short(p', s) && p'.InRight? && p'.left.Cell? && !p'.left.red && sibling == p'.left.node;
      PeekSibling(p', s);
      if (sibling.left != null && sibling.left.red) || (sibling.right != null && sibling.right.red) {
        if sibling.left == null || !sibling.left.red {
          StraightShort(p', s);
          SetRed(sibling.right, false, InRightOf(Across(p', s), p'.left), Near(p'));
          SetRed(sibling, true, Across(p', s),
                 Cell(p'.left.left, sibling, p'.left.key, false, Colour(Near(p'), false)));
          RotateLeft(sibling, Across(p', s), Cell(p'.left.left, sibling, p'.left.key, true, Colour(Near(p'), false)));
          p' := Straight(p');
          PeekSibling(p', s);
          sibling := parent.left;
        }
        SupplyBlackRight(parent, sibling, p', s);
        done := true;
      } else {
        RaiseShort(p', s);
        SetRed(sibling, true, Across(p', s), p'.left);
        done, s' := false, Fill(WithSibling(p', Colour(p'.left, true)), s);
        p' := p'.up;
      }
    }

    method SupplyBlackRight(parent: Node, sibling: Node, ghost p: Path, ghost s: Shape)
      requires Valid() && shape == Plug(p, s) && Short(p, s)
      requires p.InRight? && p.node == parent && p.left.Cell? && p.left.node == sibling
      requires !IsRed(p.left) && IsRed(Far(p))
      modifies this`root, this`shape, nodes
      ensures Valid() && RedBlack(shape) && InOrder(shape) == old(InOrder(shape))
    {
      SupplyShort(p, s);
      PeekSibling(p, s);
      ghost var w := p.left;
      SetRed(sibling, parent.red, Across(p, s), w);
      ghost var w1 := w.(red := p.red);
      SetRed(parent, false, p.up, Fill(WithSibling(p, w1), s));
      ghost var p2 := InRight(w1, p.node, p.key, false, p.up);
      SetRed(sibling.left, false, InLeftOf(Across(p2, s), w1), w.left);
      RotateRight(parent, p.up, Fill(WithSibling(p2, Cell(Colour(w.left, false), w.node, w.key, p.red, w.right)), s));
    }

    /** Links the only child of `node`, or nothing, where `node` was. */
    method Bypass(node: Node, next: Node?, parent: Node?, ghost p: Path, ghost t: Shape)
      requires DistinctPath(p) && LinkedPath(p, node) && node !in PathNodes(p) && node !in Nodes(t)
      requires Distinct(t) && Linked(t, node) && Nodes(t) !! PathNodes(p) && Nodes(t) + PathNodes(p) <= nodes
      requires next == Root(t) && parent == Parent(p)
      modifies this`root, ParentOf(p), if next == null then {} else {next}
      ensures LinkedPath(p, next) && Linked(t, parent)
      ensures root == if p.Top? then next else old(root)
    {
      assert t.Cell? ==> t.node in Nodes(t);
      ReplaceChild(parent, node, next, p);
      assert Linked(t, node) == old(Linked(t, node));
      label replaced:
      Reparent(next, parent, t, node, nodes);
      assert LinkedPath(p, next) == old@replaced(LinkedPath(p, next));
    }

    /** Takes a node with at most one child out of the tree. */
    method SpliceOut(node: Node, next: Node?, parent: Node?, ghost p: Path, ghost s: Shape, ghost t: Shape)
      requires Valid() && shape == Plug(p, s) && s.Cell? && s.node == node
      requires (s.left.Nil? && t == s.right) || (s.right.Nil? && t == s.left)
      requires next == Root(t) && parent == Parent(p)
      modifies this, nodes
      ensures Valid() && shape == Plug(p, t) && nodes == old(nodes) - {node}
      ensures unchanged(node)
    {
      assert Split(p, s) by { Refocus(p, s); }
      PlugRoot(p, s, t);
      SplicedOut(s, t);
      shape, nodes := Plug(p, t), nodes - {node};
      Bypass(node, next, parent, p, t);
      Refocus(p, t);
    }

    /** Links `next` where `node` was, above the children of `node`. */
    method Substitute(node: Node, next: Node, ghost p: Path, ghost s: Shape, ghost all: set<Node>)
      requires s.Cell? && s.node == node && s.left.Cell? && Distinct(s) && Linked(s, Parent(p))
      requires DistinctPath(p) && LinkedPath(p, node) && Nodes(s) !! PathNodes(p)
      requires Nodes(s) + PathNodes(p) <= all && next !in all
      modifies this`root, ParentOf(p), next, Nodes(s)
      ensures LinkedPath(p, next) && Linked(Cell(s.left, next, next.key, s.red, s.right), Parent(p))
      ensures root == (if p.Top? then next else old(root)) && next.key == old(next.key)
    {
      ReplaceChild(node.parent, node, next, p);
      assert Linked(s, Parent(p)) == old(Linked(s, Parent(p)));
      label replaced:
      AdoptChildren(node, next, s, all, Parent(p));
      assert LinkedPath(p, next) == old@replaced(LinkedPath(p, next));
    }

    /** Puts `next`, which lies outside the tree, in the place of `node`. */
    method TakeOver(node: Node, next: Node, ghost p: Path, ghost s: Shape)
      requires Valid() && shape == Plug(p, s) && s.Cell? && s.node == node && s.left.Cell?
      requires next !in nodes
      modifies this, nodes, next
      ensures Valid() && nodes == old(nodes) - {node} + {next}
      ensures shape == Plug(p, Cell(s.left, next, old(next.key), s.red, s.right))
    {
      ghost var t := Cell(s.left, next, next.key, s.red, s.right);
      assert Split(p, s) by { Refocus(p, s); }
      PlugRoot(p, s, t);
      TakenOver(s, next, next.key);
      ghost var all := nodes;
      shape, nodes := Plug(p, t), nodes - {node} + {next};
      Substitute(node, next, p, s, all);
      Refocus(p, t);
    }

    lemma AtRoot(p: Path, s: Shape)
      requires Valid() && shape == Plug(p, s)
      ensures p.Top? <==> root == Root(s)
    {
      Refocus(p, s);
      if !p.Top? {
        PlugRootOutside(p, s);
        assert s.Cell? ==> s.node in Nodes(s);
      }
    }

    lemma ShortChild(p: Path, s: Shape)
      requires Valid() && shape == Plug(p, s) && Short(p, s) && !p.Top?
      ensures p.node in nodes
      ensures p.InLeft? <==> p.node.left == Root(s)
    {
      Refocus(p, s);
      ShortSibling(p, s);
      assert Sibling(p).node in Nodes(Sibling(p));
      assert s.Cell? ==> s.node in Nodes(s);
    }

    lemma DifferentNodes(p: Path, s: Shape, q: Path, n: Shape)
      requires Valid() && shape == Plug(p, s) && s.Cell? && s.right == Plug(q, n) && n.Cell?
      ensures s.node in nodes && n.node in nodes && s.node != n.node
      ensures !q.Top? ==> q.node != s.node
    {
      PlugNodes(p, s);
      BelowApart(s, q, n);
    }

    /** Walks down the left links of a right subtree, to the successor of its parent. */
    method Leftmost(right: Node, ghost f: Path, ghost r: Shape) returns (next: Node, ghost q: Path, ghost n: Shape)
      requires Valid() && shape == Plug(f, r) && r.Cell? && r.node == right
      ensures LeftSpine(q) && r == Plug(q, n) && n.Cell? && n.left.Nil? && next == n.node
    {
      next, q, n := right, Top, r;
      PlugAppend(q, f, n);
      Peek(f, n);
      while next.left != null
        invariant LeftSpine(q) && r == Plug(q, n) && n.Cell? && next == n.node
        invariant next.left == Root(n.left)
        decreases n
      {
        q, n := InLeftOf(q, n), n.left;
        next := next.left;
        PlugAppend(q, f, n);
        Peek(Append(q, f), n);
      }
    }

    /** Takes `node` out; the place that lost a node is `hole`, below `parent`. */
    method Unlink(node: Node, ghost p: Path, ghost s: Shape)
      returns (hole: Node?, parent: Node?, red: bool, ghost p': Path, ghost s': Shape)
      requires Inv() && shape == Plug(p, s) && s.Cell? && s.node == node
      modifies this, nodes
      ensures Valid() && shape == Plug(p', s') && nodes == old(nodes) - {node}
      ensures hole == Root(s') && parent == Parent(p') && Removed(p', s', red)
      ensures SearchTree(shape) && Contents() == old(Contents()) - {s.key}
    {
      Peek(p, s);
      parent, red := node.parent, node.red;
      if node.left == null {
        hole, p', s' := node.right, p, s.right;
        SpliceOrder(p, s, s');
        SpliceColours(p, s, s');
        SpliceOut(node, hole, parent, p, s, s');
      } else if node.right == null {
        hole, p', s' := node.left, p, s.left;
        SpliceOrder(p, s, s');
        SpliceColours(p, s, s');
        SpliceOut(node, hole, parent, p, s, s');
      } else {
        var next; ghost var q, n;
        next, q, n := Leftmost(node.right, InRightOf(p, s), s.right);
        SuccessorOrder(p, s, q, n);
        SuccessorColours(p, s, q, n);
        hole, parent, red, p', s' := ReplaceBySuccessor(node, next, p, s, q, n);
      }
    }

    /** The successor leaves its own place and takes over that of `node`. */
    method ReplaceBySuccessor(node: Node, next: Node, ghost p: Path, ghost s: Shape, ghost q: Path, ghost n: Shape)
      returns (hole: Node?, parent: Node?, red: bool, ghost p': Path, ghost s': Shape)
      requires Valid() && shape == Plug(p, s) && s.Cell? && s.node == node && s.left.Cell?
      requires s.right == Plug(q, n) && n.Cell? && n.left.Nil? && n.node == next
      modifies this, nodes
      ensures Valid() && shape == Plug(p', s') && nodes == old(nodes) - {node}
      ensures hole == Root(s') && parent == Parent(p') && red == n.red
      ensures p' == Append(q, InRight(s.left, n.node, n.key, s.red, p)) && s' == n.right
      ensures shape == Plug(p, Cell(s.left, n.node, n.key, s.red, Plug(q, n.right)))
    {
      ghost var f := InRightOf(p, s);
      PlugAppend(q, f, n);
      PlugAppend(q, f, n.right);
      Peek(Append(q, f), n);
      DifferentNodes(p, s, q, n);
      red := next.red;
      hole := next.right;
      parent := next.parent;
      SpliceOut(next, hole, parent, Append(q, f), n, n.right);
      ghost var t := Cell(s.left, node, s.key, s.red, Plug(q, n.right));
      TakeOver(node, next, p, t);
      p', s' := Append(q, InRight(s.left, next, n.key, s.red, p)), n.right;
      PlugAppend(q, InRight(s.left, next, n.key, s.red, p), n.right);
      if parent == node {
        parent := next;
      }
    }

    method RepairAfterRemove(hole: Node?, parent: Node?, ghost p: Path, ghost s: Shape)
      requires Valid() && shape == Plug(p, s) && Short(p, s) && !IsRed(s)
      requires hole == Root(s) && parent == Parent(p)
      modifies this`root, this`shape, nodes
      ensures Valid() && RedBlack(shape) && InOrder(shape) == old(InOrder(shape))
    {
      var n, parent, done := hole, parent, false;
      ghost var p, s := p, s;
      while true
        invariant Valid() && shape == Plug(p, s) && Short(p, s) && !IsRed(s)
        invariant n == Root(s) && parent == Parent(p)
        invariant InOrder(shape) == old(InOrder(shape))
        decreases Depth(p)
      {
        AtRoot(p, s);
        if n == root {
          BlackenShort(p, s);
          break;
        }
        ShortChild(p, s);
        if n == parent.left {
          done, p, s := RebalanceAfterRemoveLeft(parent, p, s);
        } else {
          done, p, s := RebalanceAfterRemoveRight(parent, p, s);
        }
        if done {
          n := root;
          p, s := Top, shape;
          break;
        }
        Peek(p, s);
        n := parent;
        parent := n.parent;
        if n.red {
          break;
        }
      }
      if n != null {
        SetRed(n, false, p, s);
      }
    }

    lemma OwnKey(node: Node, key: nat)
      requires Inv() && node in nodes && key in Contents() && Contents()[key] == node
      ensures node.key == key
    {
      var p, s := PathTo(Top, shape, node);
      Peek(p, s);
      KeyPresent(p, s);
      assert Contents()[s.key] == node;
      SameNodeSameKey(shape, key, s.key);
    }

    method Delete(node: Node)
      requires Inv() && node in nodes
      modifies this, nodes
      ensures Inv() && nodes == old(nodes) - {node}
      ensures old(node.key) in old(Contents()) && Contents() == old(Contents()) - {old(node.key)}
    {
      ghost var p, s := PathTo(Top, shape, node);
      Peek(p, s);
      KeyPresent(p, s);
      var hole, parent, red;
      hole, parent, red, p, s := Unlink(node, p, s);
      if red {
        return;
      }
      if s.Cell? { Peek(p, s); }
      if hole != null && hole.red {
        BlackenShort(p, s);
        SetRed(hole, false, p, s);
        return;
      }
      RepairAfterRemove(hole, parent, p, s);
    }

    /** The lookup, with the number of nodes it visits. */
    method Find(key: nat) returns (node: Node?, ghost visits: nat)
      requires Inv()
      ensures key in Contents() ==> node == Contents()[key] && node in nodes
      ensures key !in Contents() ==> node == null
      ensures Pow2(visits) <= (|Contents()| + 1) * (|Contents()| + 1)
    {
      node, visits := Search(key);
      FewVisits(shape, visits);
    }

    method Search(key: nat) returns (node: Node?, ghost visits: nat)
      requires Inv()
      ensures key in Contents() ==> node == Contents()[key] && node in nodes
      ensures key !in Contents() ==> node == null
      ensures visits <= Levels(shape)
    {
      ghost var p, s := Top, shape;
      node, visits := root, 0;
      while node != null
        invariant shape == Plug(p, s) && node == Root(s) && Fits(p, key)
        invariant visits + Levels(s) <= Levels(shape)
        decreases s
      {
        Compare(p, s, key);
        visits := visits + 1;
        if key < node.key {
          node := node.left;
          p, s := InLeftOf(p, s), s.left;
        } else if key > node.key {
          node := node.right;
          p, s := InRightOf(p, s), s.right;
        } else {
          return;
        }
      }
      FitsAbsent(p, key);
    }
  }

  // ----- whole runs

  datatype Op = AddKey(key: nat) | DelKey(key: nat)

  /** The keys that remain after a run, read as operations on a finite set. */
  ghost function KeysAfter(ops: seq<Op>): set<nat> {
    if ops == [] then {}
    else
      var before := KeysAfter(ops[..|ops| - 1]);
      match ops[|ops| - 1]
      case AddKey(k) => before + {k}
      case DelKey(k) => before - {k}
  }

  method Run(ops: seq<Op>) returns (tree: Tree)
    ensures tree.Inv() && tree.Contents().Keys == KeysAfter(ops)
  {
    tree := new Tree();
    for i := 0 to |ops|
      invariant fresh(tree) && fresh(tree.nodes)
      invariant tree.Inv() && tree.Contents().Keys == KeysAfter(ops[..i])
    {
      assert ops[..i + 1][..i] == ops[..i];
      match ops[i]
      case AddKey(k) => InsertKey(tree, k);
      case DelKey(k) => RemoveKey(tree, k);
    }
    assert ops[..|ops|] == ops;
  }

  method InsertKey(tree: Tree, k: nat)
    requires tree.Inv()
    modifies tree, tree.nodes
    ensures tree.Inv() && fresh(tree.nodes - old(tree.nodes))
    ensures tree.Contents().Keys == old(tree.Contents()).Keys + {k}
  {
    var node := new Node();
    var r := tree.Add(node, k);
    assert r == -1 ==> tree.Contents() == old(tree.Contents());
  }

  method RemoveKey(tree: Tree, k: nat)
    requires tree.Inv()
    modifies tree, tree.nodes
    ensures tree.Inv() && fresh(tree.nodes - old(tree.nodes))
    ensures tree.Contents().Keys == old(tree.Contents()).Keys - {k}
  {
    var node, _ := tree.Find(k);
    if node != null {
      tree.OwnKey(node, k);
      tree.Delete(node);
    }
  }
}
