/**
 Rotations and recolourings of a red-black tree as functions on shapes, with
 the reasons why each step of the repair after an insertion or a removal moves
 an imbalance up the tree or ends it, and never disturbs the order of keys.
 */
module TreeRepair {
  import opened TreeShape

  ghost function RotatedLeft(s: Shape): Shape
    requires s.Cell? && s.right.Cell?
  {
    var q := s.right;
    Cell(Cell(s.left, s.node, s.key, s.red, q.left), q.node, q.key, q.red, q.right)
  }

  ghost function RotatedRight(s: Shape): Shape
    requires s.Cell? && s.left.Cell?
  {
    var q := s.left;
    Cell(q.left, q.node, q.key, q.red, Cell(q.right, s.node, s.key, s.red, s.right))
  }

  lemma RotatedLeftNodes(s: Shape)
    requires s.Cell? && s.right.Cell? && Distinct(s)
    ensures Distinct(RotatedLeft(s)) && Nodes(RotatedLeft(s)) == Nodes(s)
    ensures var a, b, c, p, q := s.left, s.right.left, s.right.right, s.node, s.right.node;
            && Nodes(s) == Nodes(a) + {p} + Nodes(b) + {q} + Nodes(c)
            && Nodes(a) !! Nodes(b) && Nodes(a) !! Nodes(c) && Nodes(b) !! Nodes(c)
            && p != q && p !in Nodes(a) + Nodes(b) + Nodes(c) && q !in Nodes(a) + Nodes(b) + Nodes(c)
            && (b.Cell? ==> b.node in Nodes(b) && b.node !in Nodes(b.left) && b.node !in Nodes(b.right))
  {
    assert Nodes(s) == Nodes(s.left) + {s.node} + Nodes(s.right);
    var q := s.right;
    assert Nodes(q) == Nodes(q.left) + {q.node} + Nodes(q.right);
    assert Distinct(q);
    assert Distinct(q.left);
    var t := RotatedLeft(s);
    assert Nodes(t.left) == Nodes(t.left.left) + {t.left.node} + Nodes(t.left.right);
  }

  lemma RotatedRightNodes(s: Shape)
    requires s.Cell? && s.left.Cell? && Distinct(s)
    ensures Distinct(RotatedRight(s)) && Nodes(RotatedRight(s)) == Nodes(s)
    ensures var a, b, c, p, q := s.right, s.left.right, s.left.left, s.node, s.left.node;
            && Nodes(s) == Nodes(a) + {p} + Nodes(b) + {q} + Nodes(c)
            && Nodes(a) !! Nodes(b) && Nodes(a) !! Nodes(c) && Nodes(b) !! Nodes(c)
            && p != q && p !in Nodes(a) + Nodes(b) + Nodes(c) && q !in Nodes(a) + Nodes(b) + Nodes(c)
            && (b.Cell? ==> b.node in Nodes(b) && b.node !in Nodes(b.left) && b.node !in Nodes(b.right))
  {
    assert Nodes(s) == Nodes(s.left) + {s.node} + Nodes(s.right);
    var q := s.left;
    assert Nodes(q) == Nodes(q.left) + {q.node} + Nodes(q.right);
    assert Distinct(q);
    assert Distinct(q.right);
    var t := RotatedRight(s);
    assert Nodes(t.right) == Nodes(t.right.left) + {t.right.node} + Nodes(t.right.right);
  }

  // ----- repair after an insertion, on shapes

  /** Balanced but for `s`, which is red and may hang below a red parent. */
  ghost predicate RedHole(p: Path, s: Shape) {
    Balanced(s) && IsRed(s) && BalancedPath(p, Height(s)) && BlackTop(p)
  }

  /** The subtree one level up. */
  ghost function Fill(p: Path, s: Shape): (t: Shape)
    requires !p.Top?
    ensures t.Cell? && Plug(p.up, t) == Plug(p, s)
  {
    if p.InLeft? then Cell(s, p.node, p.key, p.red, p.right) else Cell(p.left, p.node, p.key, p.red, s)
  }

  /** The path to the sibling of `s`. */
  ghost function Across(p: Path, s: Shape): Path
    requires !p.Top?
  {
    if p.InLeft? then InRight(s, p.node, p.key, p.red, p.up) else InLeft(p.up, p.node, p.key, p.red, s)
  }

  /** The paths to the children of `s`. */
  ghost function InLeftOf(p: Path, s: Shape): Path
    requires s.Cell?
  {
    InLeft(p, s.node, s.key, s.red, s.right)
  }

  ghost function InRightOf(p: Path, s: Shape): Path
    requires s.Cell?
  {
    InRight(s.left, s.node, s.key, s.red, p)
  }

  ghost function WithSibling(p: Path, t: Shape): (q: Path)
    requires !p.Top?
    ensures !q.Top? && Sibling(q) == t
  {
    if p.InLeft? then p.(right := t) else p.(left := t)
  }

  ghost function Colour(s: Shape, red: bool): Shape {
    if s.Cell? then s.(red := red) else s
  }

  /** With a red uncle, the red node moves two levels up. */
  lemma LiftRed(p: Path, s: Shape)
    requires RedHole(p, s) && TopRed(p) && !p.up.Top? && IsRed(Sibling(p.up))
    ensures var t := Colour(Fill(WithSibling(p.up, Colour(Sibling(p.up), false)), Colour(Fill(p, s), false)), true);
            && RedHole(p.up.up, t)
            && InOrder(Plug(p.up.up, t)) == InOrder(Plug(p, s))
    ensures Depth(p.up.up) < Depth(p)
  {
    var U, P := Sibling(p.up), Fill(p, s);
    var t := Colour(Fill(WithSibling(p.up, Colour(U, false)), Colour(P, false)), true);
    assert InOrder(Colour(P, false)) == InOrder(P) && InOrder(Colour(U, false)) == InOrder(U);
    assert InOrder(t) == InOrder(Fill(p.up, P));
    SameOrder(p.up.up, t, Fill(p.up, P));
    assert BlackTop(p.up);
    assert BalancedPath(p.up, Height(s)) && Balanced(U);
    assert Height(Colour(P, false)) == Height(s) + 1;
    assert Balanced(Colour(P, false)) && Balanced(Colour(U, false));
  }

  /** A node that leans away from its parent's side is rotated onto that side. */
  ghost function Bend(p: Path, s: Shape): Path
    requires s.Cell? && !p.Top?
  {
    if p.InLeft? then InRight(s.left, s.node, s.key, s.red, p.up) else InLeft(p.up, s.node, s.key, s.red, s.right)
  }

  ghost function Bent(p: Path, s: Shape): Shape
    requires s.Cell? && !p.Top?
  {
    if p.InLeft? then Cell(s.right, p.node, p.key, p.red, p.right) else Cell(p.left, p.node, p.key, p.red, s.left)
  }

  lemma BentPath(p: Path, s: Shape)
    requires RedHole(p, s) && TopRed(p)
    ensures RedHole(Bend(p, s), Bent(p, s)) && TopRed(Bend(p, s))
    ensures Bend(p, s).up == p.up
    ensures InOrder(Plug(Bend(p, s), Bent(p, s))) == InOrder(Plug(p, s))
  {
    var t := if p.InLeft? then RotatedRight(Fill(p, s)) else RotatedLeft(Fill(p, s));
    assert t == Fill(Bend(p, s), Bent(p, s));
    assert InOrder(t) == InOrder(Fill(p, s));
    SameOrder(p.up, t, Fill(p, s));
  }

  /** With a black uncle, recolouring and one rotation end the repair. */
  ghost function Turned(p: Path): Path
    requires !p.Top? && !p.up.Top?
  {
    var g := p.up;
    if p.InLeft?
    then InLeft(g.up, p.node, p.key, false, Cell(p.right, g.node, g.key, true, Sibling(g)))
    else InRight(Cell(Sibling(g), g.node, g.key, true, p.left), p.node, p.key, false, g.up)
  }

  lemma TurnBlack(p: Path, s: Shape)
    requires RedHole(p, s) && TopRed(p) && !p.up.Top? && !IsRed(Sibling(p.up))
    requires p.InLeft? <==> p.up.InLeft?
    ensures var t := Colour(Fill(p.up, Colour(Fill(p, s), false)), true);
            Plug(Turned(p), s) == Plug(p.up.up, if p.InLeft? then RotatedRight(t) else RotatedLeft(t))
    ensures RedHole(Turned(p), s)
    ensures Depth(Turned(p)) < Depth(p)
    ensures InOrder(Plug(Turned(p), s)) == InOrder(Plug(p, s))
  {
    var t := Colour(Fill(p.up, Colour(Fill(p, s), false)), true);
    var r := if p.InLeft? then RotatedRight(t) else RotatedLeft(t);
    assert r == Fill(Turned(p), s);
    assert BlackTop(p.up);
    assert BalancedPath(p.up, Height(s)) && BalancedPath(p.up.up, Height(s) + 1);
    assert InOrder(r) == InOrder(t) == InOrder(Fill(p.up, Fill(p, s)));
    SameOrder(p.up.up, r, Fill(p.up, Fill(p, s)));
  }

  lemma NewLeaf(p: Path, n: Node, key: nat)
    requires RedBlack(Plug(p, Nil)) && SearchTree(Plug(p, Nil)) && Fits(p, key)
    ensures var t := Plug(p, Cell(Nil, n, key, true, Nil));
            && RedHole(p, Cell(Nil, n, key, true, Nil)) && SearchTree(t)
            && key !in AsMap(InOrder(Plug(p, Nil)))
            && AsMap(InOrder(t)) == AsMap(InOrder(Plug(p, Nil)))[key := n]
  {
    PlugBalanced(p, Nil);
    if !p.Top? { PlugRootRed(p, Nil); }
    FitsHere(p, Item(key, n));
    PlugInOrder(p, Cell(Nil, n, key, true, Nil));
    assert InOrder(Cell(Nil, n, key, true, Nil)) == [Item(key, n)];
  }

  /** Once the parent is black, blackening the root completes the repair. */
  lemma BlackRoot(p: Path, s: Shape)
    requires RedHole(p, s) && !TopRed(p)
    ensures var t := Colour(Plug(p, s), false); RedBlack(t) && InOrder(t) == InOrder(Plug(p, s))
  {
    PlugBalanced(p, s);
  }

  lemma PlugRootCell(p: Path, s: Shape)
    requires s.Cell?
    ensures Plug(p, s).Cell?
  {
    if !p.Top? { PlugRootRed(p, s); }
  }

  // ----- search order around a place in the tree

  /** `key` belongs at the end of path `p`. */
  ghost predicate Fits(p: Path, key: nat) {
    && (forall x :: x in Before(p) ==> x.key < key)
    && (forall x :: x in After(p) ==> key < x.key)
  }

  lemma SortedAround(a: seq<Item>, e: Item, b: seq<Item>)
    requires Sorted(a + [e] + b)
    ensures forall x :: x in a ==> x.key < e.key
    ensures forall x :: x in b ==> e.key < x.key
  {
    var w := a + [e] + b;
    assert w[|a|] == e;
    assert forall i :: 0 <= i < |a| ==> a[i] == w[i];
    assert forall i :: 0 <= i < |b| ==> b[i] == w[|a| + 1 + i];
  }

  /** Comparing with the key of a subtree's root tells on which side `key` belongs. */
  lemma FitsBelow(p: Path, s: Shape, key: nat)
    requires s.Cell? && SearchTree(Plug(p, s)) && Fits(p, key)
    ensures key < s.key ==> Fits(InLeft(p, s.node, s.key, s.red, s.right), key)
    ensures key > s.key ==> Fits(InRight(s.left, s.node, s.key, s.red, p), key)
    ensures key == s.key ==> key in AsMap(InOrder(Plug(p, s))) && AsMap(InOrder(Plug(p, s)))[key] == s.node
  {
    AroundSubtree(p, s);
    FitsSides(p, s, key);
    KeyPresent(p, s);
  }

  lemma AroundSubtree(p: Path, s: Shape)
    requires s.Cell? && SearchTree(Plug(p, s))
    ensures forall x :: x in Before(p) + InOrder(s.left) ==> x.key < s.key
    ensures forall x :: x in InOrder(s.right) + After(p) ==> s.key < x.key
  {
    var e, a, b := Item(s.key, s.node), Before(p) + InOrder(s.left), InOrder(s.right) + After(p);
    PlugInOrder(p, s);
    Regroup(Before(p), InOrder(s.left), e, InOrder(s.right), After(p));
    SortedAround(a, e, b);
  }

  lemma FitsSides(p: Path, s: Shape, key: nat)
    requires s.Cell? && Fits(p, key)
    requires forall x :: x in Before(p) + InOrder(s.left) ==> x.key < s.key
    requires forall x :: x in InOrder(s.right) + After(p) ==> s.key < x.key
    ensures key < s.key ==> Fits(InLeft(p, s.node, s.key, s.red, s.right), key)
    ensures key > s.key ==> Fits(InRight(s.left, s.node, s.key, s.red, p), key)
  {
    assert forall x :: x in InOrder(s.left) ==> x in Before(p) + InOrder(s.left);
    assert forall x :: x in InOrder(s.right) ==> x in InOrder(s.right) + After(p);
  }

  lemma EmptyPlace(q: Path)
    ensures InOrder(Plug(q, Nil)) == Before(q) + After(q)
  {
    PlugInOrder(q, Nil);
    assert InOrder(Nil) == [];
  }

  lemma FitsAbsent(q: Path, key: nat)
    requires SearchTree(Plug(q, Nil)) && Fits(q, key)
    ensures key !in AsMap(InOrder(Plug(q, Nil)))
  {
    EmptyPlace(q);
    AsMapEntries(Before(q) + After(q));
  }

  lemma SortedInsert(a: seq<Item>, e: Item, b: seq<Item>)
    requires Sorted(a + b)
    requires forall x :: x in a ==> x.key < e.key
    requires forall x :: x in b ==> e.key < x.key
    ensures Sorted(a + [e] + b)
  {
    var w, v := a + b, a + [e] + b;
    forall i, j | 0 <= i < j < |v| ensures v[i].key < v[j].key {
      if i == |a| {
        assert v[j] == b[j - |a| - 1];
      } else if j == |a| {
        assert v[i] == a[i];
      } else {
        assert v[i] == w[if i < |a| then i else i - 1];
        assert v[j] == w[if j < |a| then j else j - 1];
      }
    }
  }

  /** An empty place that fits shows that the key is absent, and can take it. */
  lemma FitsHere(q: Path, e: Item)
    requires SearchTree(Plug(q, Nil)) && Fits(q, e.key)
    ensures Sorted(Before(q) + [e] + After(q))
    ensures e.key !in AsMap(InOrder(Plug(q, Nil)))
    ensures AsMap(Before(q) + [e] + After(q)) == AsMap(InOrder(Plug(q, Nil)))[e.key := e.node]
  {
    EmptyPlace(q);
    SortedInsert(Before(q), e, After(q));
    AsMapAdd(Before(q), e, After(q));
  }

  // ----- taking a node out, on shapes

  lemma KeyPresent(p: Path, s: Shape)
    requires s.Cell? && SearchTree(Plug(p, s))
    ensures s.key in AsMap(InOrder(Plug(p, s))) && AsMap(InOrder(Plug(p, s)))[s.key] == s.node
  {
    PlugInOrder(p, s);
    AsMapEntries(InOrder(Plug(p, s)));
    assert Item(s.key, s.node) in InOrder(s);
  }

  lemma {:induction false} ItemNodes(s: Shape, e: Item)
    requires e in InOrder(s)
    ensures e.node in Nodes(s)
  {
    if e in InOrder(s.left) {
      ItemNodes(s.left, e);
    } else if e in InOrder(s.right) {
      ItemNodes(s.right, e);
    }
  }

  /** Distinct nodes make the map from keys to nodes one-to-one. */
  lemma {:induction false} SameNode(s: Shape, e: Item, f: Item)
    requires Distinct(s) && e in InOrder(s) && f in InOrder(s) && e.node == f.node
    ensures e == f
  {
    if s.Cell? {
      forall x | x in InOrder(s.left) ensures x.node in Nodes(s.left) { ItemNodes(s.left, x); }
      forall x | x in InOrder(s.right) ensures x.node in Nodes(s.right) { ItemNodes(s.right, x); }
      if e in InOrder(s.left) && f in InOrder(s.left) {
        SameNode(s.left, e, f);
      } else if e in InOrder(s.right) && f in InOrder(s.right) {
        SameNode(s.right, e, f);
      }
    }
  }

  lemma SameNodeSameKey(s: Shape, k: nat, k': nat)
    requires Distinct(s) && SearchTree(s)
    requires k in AsMap(InOrder(s)) && k' in AsMap(InOrder(s))
    requires AsMap(InOrder(s))[k] == AsMap(InOrder(s))[k']
    ensures k == k'
  {
    AsMapEntries(InOrder(s));
    var n := AsMap(InOrder(s))[k];
    SameNode(s, Item(k, n), Item(k', n));
  }

  /** The path `q`, continued upwards by `p`. */
  ghost function Append(q: Path, p: Path): Path {
    match q
    case Top => p
    case InLeft(up, n, k, c, r) => InLeft(Append(up, p), n, k, c, r)
    case InRight(l, n, k, c, up) => InRight(l, n, k, c, Append(up, p))
  }

  lemma {:induction false} PlugAppend(q: Path, p: Path, s: Shape)
    ensures Plug(Append(q, p), s) == Plug(p, Plug(q, s))
    decreases q
  {
    match q
    case Top =>
    case InLeft(up, n, k, c, r) => PlugAppend(up, p, Cell(s, n, k, c, r));
    case InRight(l, n, k, c, up) => PlugAppend(up, p, Cell(l, n, k, c, s));
  }

  /** Balance speaks of colours only, so another node may take the place of one on the path. */
  lemma {:induction false} AppendBalanced(q: Path, p: Path, p': Path, h: nat)
    requires p.InRight? && p'.InRight? && p.left == p'.left && p.red == p'.red && p.up == p'.up
    ensures BalancedPath(Append(q, p), h) <==> BalancedPath(Append(q, p'), h)
    ensures TopRed(Append(q, p)) <==> TopRed(Append(q, p'))
    ensures BlackTop(Append(q, p)) <==> BlackTop(Append(q, p'))
    ensures !Append(q, p).Top? && !Append(q, p').Top?
    decreases q
  {
    if !q.Top? { AppendBalanced(q.up, p, p', h + if q.red then 0 else 1); }
  }

  /** `q` leads down left links only. */
  ghost predicate LeftSpine(q: Path) {
    !q.Top? ==> q.InLeft? && LeftSpine(q.up)
  }

  lemma {:induction false} LeftSpineBefore(q: Path)
    requires LeftSpine(q)
    ensures Before(q) == []
  {
    if !q.Top? { LeftSpineBefore(q.up); }
  }

  lemma ItemRemoved(b: seq<Item>, l: seq<Item>, e: Item, r: seq<Item>, a: seq<Item>)
    requires Sorted(b + (l + [e] + r) + a)
    ensures Sorted(b + (l + r) + a)
    ensures AsMap(b + (l + r) + a) == AsMap(b + (l + [e] + r) + a) - {e.key}
  {
    Regroup(b, l, e, r, a);
    assert b + (l + r) + a == (b + l) + (r + a);
    AsMapAdd(b + l, e, r + a);
  }

  lemma SplicedItems(s: Shape, t: Shape)
    requires s.Cell?
    requires (s.left.Nil? && t == s.right) || (s.right.Nil? && t == s.left)
    ensures InOrder(t) == InOrder(s.left) + InOrder(s.right)
  {
    assert s.left.Nil? ==> InOrder(s.left) == [];
    assert s.right.Nil? ==> InOrder(s.right) == [];
  }

  /** Removing a node with at most one child: its place goes to that child. */
  lemma SpliceOrder(p: Path, s: Shape, t: Shape)
    requires s.Cell? && SearchTree(Plug(p, s))
    requires (s.left.Nil? && t == s.right) || (s.right.Nil? && t == s.left)
    ensures SearchTree(Plug(p, t))
    ensures AsMap(InOrder(Plug(p, t))) == AsMap(InOrder(Plug(p, s))) - {s.key}
  {
    var l, e, r := InOrder(s.left), Item(s.key, s.node), InOrder(s.right);
    SplicedItems(s, t);
    PlugInOrder(p, s);
    PlugInOrder(p, t);
    ItemRemoved(Before(p), l, e, r, After(p));
  }

  /** Removing a node with two children: its place goes to its successor. */
  lemma SuccessorOrder(p: Path, s: Shape, q: Path, n: Shape)
    requires s.Cell? && SearchTree(Plug(p, s)) && LeftSpine(q)
    requires s.right == Plug(q, n) && n.Cell? && n.left.Nil?
    ensures var t := Cell(s.left, n.node, n.key, s.red, Plug(q, n.right));
            && SearchTree(Plug(p, t))
            && AsMap(InOrder(Plug(p, t))) == AsMap(InOrder(Plug(p, s))) - {s.key}
  {
    var t := Cell(s.left, n.node, n.key, s.red, Plug(q, n.right));
    SuccessorFirst(q, n);
    PlugInOrder(p, s);
    PlugInOrder(p, t);
    var l, e, r := InOrder(s.left), Item(s.key, s.node), InOrder(s.right);
    assert InOrder(t) == l + r;
    ItemRemoved(Before(p), l, e, r, After(p));
  }

  lemma ConsFirst(e: Item, r: seq<Item>, a: seq<Item>)
    ensures [] + ([e] + r) + a == [e] + ([] + r + a)
  {
  }

  lemma SuccessorFirst(q: Path, n: Shape)
    requires LeftSpine(q) && n.Cell? && n.left.Nil?
    ensures InOrder(Plug(q, n)) == [Item(n.key, n.node)] + InOrder(Plug(q, n.right))
  {
    LeftSpineBefore(q);
    PlugInOrder(q, n);
    PlugInOrder(q, n.right);
    assert InOrder(n) == [Item(n.key, n.node)] + InOrder(n.right) by { assert InOrder(n.left) == []; }
    ConsFirst(Item(n.key, n.node), InOrder(n.right), After(q));
  }

  lemma SplicedOut(s: Shape, t: Shape)
    requires s.Cell? && Distinct(s)
    requires (s.left.Nil? && t == s.right) || (s.right.Nil? && t == s.left)
    ensures Distinct(t) && s.node !in Nodes(t) && Nodes(s) == Nodes(t) + {s.node}
  {
  }

  lemma TakenOver(s: Shape, n: Node, k: nat)
    requires s.Cell? && Distinct(s) && n !in Nodes(s)
    ensures var t := Cell(s.left, n, k, s.red, s.right);
            Distinct(t) && Nodes(t) == Nodes(s) - {s.node} + {n}
  {
  }

  /** Balanced if one more black node stood between `s` and the rest of the tree. */
  ghost predicate Short(p: Path, s: Shape) {
    Balanced(s) && BalancedPath(p, Height(s) + 1) && BlackTop(p)
  }

  /** After a removal: nothing to repair if the node taken out was red, else `s` is short. */
  ghost predicate Removed(p: Path, s: Shape, red: bool) {
    if red then RedBlack(Plug(p, s)) else Short(p, s)
  }

  lemma SpliceColours(p: Path, s: Shape, t: Shape)
    requires s.Cell? && RedBlack(Plug(p, s))
    requires (s.left.Nil? && t == s.right) || (s.right.Nil? && t == s.left)
    ensures Removed(p, t, s.red)
  {
    PlugBalanced(p, s);
    PlugBalanced(p, t);
    if !p.Top? {
      PlugRootRed(p, s);
      PlugRootRed(p, t);
    }
  }

  lemma SuccessorColours(p: Path, s: Shape, q: Path, n: Shape)
    requires s.Cell? && RedBlack(Plug(p, s))
    requires s.right == Plug(q, n) && n.Cell? && n.left.Nil?
    ensures Removed(Append(q, InRight(s.left, n.node, n.key, s.red, p)), n.right, n.red)
  {
    var f, f' := InRight(s.left, s.node, s.key, s.red, p), InRight(s.left, n.node, n.key, s.red, p);
    PlugAppend(q, f, n);
    SpliceColours(Append(q, f), n, n.right);
    AppendBalanced(q, f, f', Height(n.right));
    AppendBalanced(q, f, f', Height(n.right) + 1);
    PlugBalanced(Append(q, f), n.right);
    PlugBalanced(Append(q, f'), n.right);
    PlugRootRed(Append(q, f), n.right);
    PlugRootRed(Append(q, f'), n.right);
  }

  /** A red root of the short subtree makes up for the missing black node. */
  lemma BlackenShort(p: Path, s: Shape)
    requires Short(p, s) && (p.Top? || IsRed(s))
    ensures var t := Plug(p, Colour(s, false)); RedBlack(t) && InOrder(t) == InOrder(Plug(p, s))
  {
    var t := Colour(s, false);
    PlugBalanced(p, t);
    if !p.Top? { PlugRootRed(p, t); }
    SameOrder(p, s, t);
  }

  // ----- repair after a removal, on shapes

  ghost function Near(p: Path): Shape
    requires !p.Top? && Sibling(p).Cell?
  {
    if p.InLeft? then p.right.left else p.left.right
  }

  ghost function Far(p: Path): Shape
    requires !p.Top? && Sibling(p).Cell?
  {
    if p.InLeft? then p.right.right else p.left.left
  }

  /** A black short subtree that is not the root has a sibling. */
  lemma ShortSibling(p: Path, s: Shape)
    requires Short(p, s) && !p.Top?
    ensures Sibling(p).Cell? && (IsRed(Sibling(p)) ==> Near(p).Cell? && Far(p).Cell?)
  {
  }

  /** The path after a red sibling was rotated above the parent. */
  ghost function Lowered(p: Path): Path
    requires !p.Top? && Sibling(p).Cell?
  {
    var w := Sibling(p);
    if p.InLeft?
    then InLeft(InLeft(p.up, w.node, w.key, false, w.right), p.node, p.key, true, w.left)
    else InRight(w.right, p.node, p.key, true, InRight(w.left, w.node, w.key, false, p.up))
  }

  lemma LowerShort(p: Path, s: Shape)
    requires Short(p, s) && !p.Top? && IsRed(Sibling(p))
    ensures var t := Colour(Fill(WithSibling(p, Colour(Sibling(p), false)), s), true);
            Plug(Lowered(p), s) == Plug(p.up, if p.InLeft? then RotatedLeft(t) else RotatedRight(t))
    ensures Short(Lowered(p), s) && Sibling(Lowered(p)).Cell? && !IsRed(Sibling(Lowered(p)))
    ensures InOrder(Plug(Lowered(p), s)) == InOrder(Plug(p, s))
  {
    var t := Colour(Fill(WithSibling(p, Colour(Sibling(p), false)), s), true);
    var r := if p.InLeft? then RotatedLeft(t) else RotatedRight(t);
    var p' := Lowered(p);
    assert r == Fill(p'.up, Fill(p', s));
    assert InOrder(r) == InOrder(t) == InOrder(Fill(p, s));
    SameOrder(p.up, r, Fill(p, s));
    assert BalancedPath(p.up, Height(s) + 2);
  }

  /** A black sibling without red children turns red, which moves the shortage up. */
  lemma RaiseShort(p: Path, s: Shape)
    requires Short(p, s) && !IsRed(s) && !p.Top? && Sibling(p).Cell? && !IsRed(Sibling(p))
    requires !IsRed(Near(p)) && !IsRed(Far(p))
    ensures var t := Fill(WithSibling(p, Colour(Sibling(p), true)), s);
            && (if p.red then RedBlack(Plug(p.up, Colour(t, false))) else Short(p.up, t))
            && InOrder(Plug(p.up, t)) == InOrder(Plug(p.up, Colour(t, false))) == InOrder(Plug(p, s))
  {
    RaiseBalance(p, s);
    var t := Fill(WithSibling(p, Colour(Sibling(p), true)), s);
    assert InOrder(Colour(Sibling(p), true)) == InOrder(Sibling(p));
    assert InOrder(t) == InOrder(Fill(p, s)) == InOrder(Colour(t, false));
    SameOrder(p.up, t, Fill(p, s));
    SameOrder(p.up, t, Colour(t, false));
  }

  lemma RaiseBalance(p: Path, s: Shape)
    requires Short(p, s) && !IsRed(s) && !p.Top? && Sibling(p).Cell? && !IsRed(Sibling(p))
    requires !IsRed(Near(p)) && !IsRed(Far(p))
    ensures var t := Fill(WithSibling(p, Colour(Sibling(p), true)), s);
            if p.red then RedBlack(Plug(p.up, Colour(t, false))) else Short(p.up, t)
  {
    var w := Colour(Sibling(p), true);
    var t := Fill(WithSibling(p, w), s);
    assert Balanced(w) && Height(w) == Height(s);
    assert Height(Colour(t, false)) == Height(s) + 1 && Balanced(Colour(t, false));
    if p.red {
      PlugBalanced(p.up, Colour(t, false));
      if !p.up.Top? { PlugRootRed(p.up, Colour(t, false)); }
    }
  }

  /** A sibling whose near child is red is rotated so that the far one is. */
  ghost function Straight(p: Path): Path
    requires !p.Top? && Sibling(p).Cell? && Near(p).Cell?
  {
    var w, x := Sibling(p), Near(p);
    WithSibling(p, if p.InLeft?
                   then Cell(x.left, x.node, x.key, false, Cell(x.right, w.node, w.key, true, w.right))
                   else Cell(Cell(w.left, w.node, w.key, true, x.left), x.node, x.key, false, x.right))
  }

  lemma StraightShort(p: Path, s: Shape)
    requires Short(p, s) && !p.Top? && Sibling(p).Cell? && !IsRed(Sibling(p))
    requires IsRed(Near(p)) && !IsRed(Far(p))
    ensures Short(Straight(p), s) && !IsRed(Sibling(Straight(p))) && IsRed(Far(Straight(p)))
    ensures Straight(p).up == p.up
    ensures InOrder(Plug(Straight(p), s)) == InOrder(Plug(p, s))
  {
    var w, w' := Sibling(p), Sibling(Straight(p));
    assert Balanced(w) && Balanced(Near(p)) && Height(Near(p)) == Height(Far(p));
    assert Balanced(if p.InLeft? then w'.right else w'.left);
    assert Balanced(w');
    assert InOrder(w') == InOrder(w);
    assert InOrder(Fill(Straight(p), s)) == InOrder(Fill(p, s));
    SameOrder(p.up, Fill(Straight(p), s), Fill(p, s));
  }

  /** With a red far child of the sibling, one rotation supplies the missing black node. */
  ghost function Supplied(p: Path, s: Shape): Shape
    requires !p.Top? && Sibling(p).Cell?
  {
    var w := Sibling(p);
    if p.InLeft?
    then Cell(Cell(s, p.node, p.key, false, w.left), w.node, w.key, p.red, Colour(w.right, false))
    else Cell(Colour(w.left, false), w.node, w.key, p.red, Cell(w.right, p.node, p.key, false, s))
  }

  lemma SupplyShort(p: Path, s: Shape)
    requires Short(p, s) && !p.Top? && Sibling(p).Cell? && !IsRed(Sibling(p)) && IsRed(Far(p))
    ensures RedBlack(Plug(p.up, Supplied(p, s)))
    ensures InOrder(Plug(p.up, Supplied(p, s))) == InOrder(Plug(p, s))
  {
    SupplyBalance(p, s);
    SupplyOrder(p, s);
  }

  lemma SupplyBalance(p: Path, s: Shape)
    requires Short(p, s) && !p.Top? && Sibling(p).Cell? && !IsRed(Sibling(p)) && IsRed(Far(p))
    ensures RedBlack(Plug(p.up, Supplied(p, s)))
  {
    var w, t := Sibling(p), Supplied(p, s);
    assert Balanced(w) && Balanced(Far(p)) && Balanced(Near(p));
    assert Balanced(t.left) && Balanced(t.right) && !IsRed(t.left) && !IsRed(t.right);
    assert Balanced(t);
    PlugBalanced(p.up, t);
    if !p.up.Top? { PlugRootRed(p.up, t); }
  }

  lemma SupplyOrder(p: Path, s: Shape)
    requires !p.Top? && Sibling(p).Cell?
    ensures InOrder(Plug(p.up, Supplied(p, s))) == InOrder(Plug(p, s))
  {
    var w, t := Sibling(p), Supplied(p, s);
    assert InOrder(Colour(Far(p), false)) == InOrder(Far(p));
    if p.InLeft? {
      assert InOrder(t.left) == InOrder(s) + [Item(p.key, p.node)] + InOrder(w.left);
      assert InOrder(w) == InOrder(w.left) + [Item(w.key, w.node)] + InOrder(w.right);
    } else {
      assert InOrder(t.right) == InOrder(w.right) + [Item(p.key, p.node)] + InOrder(s);
      assert InOrder(w) == InOrder(w.left) + [Item(w.key, w.node)] + InOrder(w.right);
    }
    assert InOrder(t.left) + [Item(t.key, t.node)] + InOrder(t.right) == InOrder(Fill(p, s));
    SameOrder(p.up, t, Fill(p, s));
  }
}
