/**
 The mathematical side of the red-black tree: the shape a linked tree has, the
 path from one of its subtrees up to the root (a zipper), and the three
 properties the tree code maintains on them: no node occurs twice, keys are in
 order, and the colours balance the tree.
 */
module TreeShape {

  class Node {
    var left: Node?
    var right: Node?
    var parent: Node?
    var key: nat
    var red: bool

    constructor ()
      ensures left == null && right == null && parent == null && key == 0 && !red
    {
      left, right, parent, key, red := null, null, null, 0, false;
    }
  }

  datatype Shape = Nil | Cell(left: Shape, node: Node, key: nat, red: bool, right: Shape)

  /** Everything around a subtree: `InLeft` says that the subtree is a left child. */
  datatype Path =
    | Top
    | InLeft(up: Path, node: Node, key: nat, red: bool, right: Shape)
    | InRight(left: Shape, node: Node, key: nat, red: bool, up: Path)

  function Plug(p: Path, s: Shape): Shape
    decreases p
  {
    match p
    case Top => s
    case InLeft(up, n, k, c, r) => Plug(up, Cell(s, n, k, c, r))
    case InRight(l, n, k, c, up) => Plug(up, Cell(l, n, k, c, s))
  }

  function Root(s: Shape): Node? {
    if s.Nil? then null else s.node
  }

  function Parent(p: Path): Node? {
    if p.Top? then null else p.node
  }

  function Depth(p: Path): nat {
    if p.Top? then 0 else 1 + Depth(p.up)
  }

  // ----- the nodes of a tree, and that none occurs twice

  ghost function Nodes(s: Shape): set<Node> {
    if s.Nil? then {} else Nodes(s.left) + {s.node} + Nodes(s.right)
  }

  ghost function PathNodes(p: Path): set<Node> {
    match p
    case Top => {}
    case InLeft(up, n, _, _, r) => {n} + Nodes(r) + PathNodes(up)
    case InRight(l, n, _, _, up) => {n} + Nodes(l) + PathNodes(up)
  }

  ghost predicate Distinct(s: Shape) {
    s.Cell? ==>
      && Distinct(s.left) && Distinct(s.right)
      && s.node !in Nodes(s.left) && s.node !in Nodes(s.right)
      && Nodes(s.left) !! Nodes(s.right)
  }

  ghost function Sibling(p: Path): Shape
    requires !p.Top?
  {
    if p.InLeft? then p.right else p.left
  }

  ghost predicate DistinctPath(p: Path) {
    !p.Top? ==>
      && DistinctPath(p.up) && Distinct(Sibling(p))
      && p.node !in Nodes(Sibling(p)) && p.node !in PathNodes(p.up)
      && Nodes(Sibling(p)) !! PathNodes(p.up)
  }

  lemma {:induction false} PlugNodes(p: Path, s: Shape)
    ensures Nodes(Plug(p, s)) == PathNodes(p) + Nodes(s)
    ensures Distinct(Plug(p, s)) <==> Distinct(s) && DistinctPath(p) && Nodes(s) !! PathNodes(p)
    decreases p
  {
    match p
    case Top =>
    case InLeft(up, n, k, c, r) => PlugNodes(up, Cell(s, n, k, c, r));
    case InRight(l, n, k, c, up) => PlugNodes(up, Cell(l, n, k, c, s));
  }

  /** What is below a node is another node. */
  lemma BelowApart(s: Shape, q: Path, n: Shape)
    requires Distinct(s) && s.Cell? && s.right == Plug(q, n) && n.Cell?
    ensures n.node in Nodes(s) && s.node != n.node && (!q.Top? ==> q.node != s.node)
  {
    PlugNodes(q, n);
    assert n.node in Nodes(s.right) && (!q.Top? ==> q.node in Nodes(s.right));
  }

  /** Every node of a tree is the root of a subtree, reached along some path. */
  lemma {:induction false} PathTo(p: Path, s: Shape, n: Node) returns (q: Path, t: Shape)
    requires n in Nodes(s)
    ensures Plug(p, s) == Plug(q, t) && t.Cell? && t.node == n
    decreases s
  {
    if n == s.node {
      q, t := p, s;
    } else if n in Nodes(s.left) {
      q, t := PathTo(InLeft(p, s.node, s.key, s.red, s.right), s.left, n);
    } else {
      q, t := PathTo(InRight(s.left, s.node, s.key, s.red, p), s.right, n);
    }
  }

  // ----- contents in key order

  datatype Item = Item(key: nat, node: Node)

  ghost function InOrder(s: Shape): seq<Item> {
    if s.Nil? then [] else InOrder(s.left) + [Item(s.key, s.node)] + InOrder(s.right)
  }

  ghost function Before(p: Path): seq<Item> {
    match p
    case Top => []
    case InLeft(up, _, _, _, _) => Before(up)
    case InRight(l, n, k, _, up) => Before(up) + InOrder(l) + [Item(k, n)]
  }

  ghost function After(p: Path): seq<Item> {
    match p
    case Top => []
    case InLeft(up, n, k, _, r) => [Item(k, n)] + InOrder(r) + After(up)
    case InRight(_, _, _, _, up) => After(up)
  }

  lemma {:induction false} PlugInOrder(p: Path, s: Shape)
    ensures InOrder(Plug(p, s)) == Before(p) + InOrder(s) + After(p)
    decreases p
  {
    match p
    case Top =>
    case InLeft(up, n, k, c, r) => PlugInOrder(up, Cell(s, n, k, c, r));
    case InRight(l, n, k, c, up) => PlugInOrder(up, Cell(l, n, k, c, s));
  }

  lemma Regroup(b: seq<Item>, l: seq<Item>, e: Item, r: seq<Item>, a: seq<Item>)
    ensures b + (l + [e] + r) + a == (b + l) + [e] + (r + a)
  {
  }

  lemma SameOrder(p: Path, s: Shape, t: Shape)
    requires InOrder(s) == InOrder(t)
    ensures InOrder(Plug(p, s)) == InOrder(Plug(p, t))
  {
    PlugInOrder(p, s);
    PlugInOrder(p, t);
  }

  ghost predicate Sorted(q: seq<Item>) {
    forall i, j :: 0 <= i < j < |q| ==> q[i].key < q[j].key
  }

  /** The finite map a sorted sequence of items stands for. */
  ghost function AsMap(q: seq<Item>): map<nat, Node> {
    map k | k in (set e | e in q :: e.key) :: NodeAt(q, k)
  }

  ghost function NodeAt(q: seq<Item>, k: nat): Node
    requires exists e :: e in q && e.key == k
  {
    var e :| e in q && e.key == k; e.node
  }

  ghost predicate Entries(m: map<nat, Node>, q: seq<Item>) {
    && (forall k :: k in m ==> Item(k, m[k]) in q)
    && (forall e :: e in q ==> e.key in m && m[e.key] == e.node)
  }

  lemma AsMapEntries(q: seq<Item>)
    requires Sorted(q)
    ensures Entries(AsMap(q), q)
  {
    forall e | e in q ensures e.key in AsMap(q) && AsMap(q)[e.key] == e.node {
      assert e.key in (set e | e in q :: e.key);
    }
    forall k | k in AsMap(q) ensures Item(k, AsMap(q)[k]) in q {
      var e :| e in q && e.key == k;
      assert e == Item(k, e.node);
    }
  }

  lemma {:induction false} AsMapSize(q: seq<Item>)
    requires Sorted(q)
    ensures |AsMap(q)| == |q|
  {
    if q != [] {
      var q', e := q[..|q| - 1], q[|q| - 1];
      assert q == q' + [e] + [] && q' == q' + [];
      AsMapAdd(q', e, []);
      AsMapSize(q');
    }
  }

  lemma SortedWithout(a: seq<Item>, e: Item, b: seq<Item>)
    requires Sorted(a + [e] + b)
    ensures Sorted(a + b)
    ensures forall x :: x in a + b ==> x.key != e.key
  {
    var w := a + [e] + b;
    assert w[|a|] == e;
    assert forall i :: 0 <= i < |a| ==> a[i] == w[i];
    assert forall i :: 0 <= i < |b| ==> b[i] == w[|a| + 1 + i];
  }

  lemma AsMapAdd(a: seq<Item>, e: Item, b: seq<Item>)
    requires Sorted(a + [e] + b)
    ensures Sorted(a + b) && e.key !in AsMap(a + b)
    ensures AsMap(a + [e] + b) == AsMap(a + b)[e.key := e.node]
    ensures AsMap(a + b) == AsMap(a + [e] + b) - {e.key}
  {
    var w, q := a + [e] + b, a + b;
    SortedWithout(a, e, b);
    AsMapEntries(q);
    AsMapEntries(w);
    assert forall x :: x in w <==> x in q || x == e;
    EntriesExtend(AsMap(w), w, e, AsMap(q), q);
  }

  lemma EntriesExtend(m: map<nat, Node>, w: seq<Item>, e: Item, m': map<nat, Node>, q: seq<Item>)
    requires Entries(m, w) && Entries(m', q)
    requires forall x :: x in w <==> x in q || x == e
    requires forall x :: x in q ==> x.key != e.key
    ensures e.key !in m' && m == m'[e.key := e.node] && m' == m - {e.key}
  {
    assert e in w;
    forall k | k in m' ensures k != e.key && k in m && m[k] == m'[k] {
      assert Item(k, m'[k]) in q && Item(k, m'[k]) in w;
    }
    forall k | k in m && k != e.key ensures k in m' {
      assert Item(k, m[k]) in q;
    }
  }

  // ----- colours

  predicate IsRed(s: Shape) {
    s.Cell? && s.red
  }

  predicate TopRed(p: Path) {
    !p.Top? && p.red
  }

  ghost function Height(s: Shape): nat {
    if s.Nil? then 0 else Height(s.left) + if s.red then 0 else 1
  }

  /** No red node has a red child, and all paths down cross equally many black nodes. */
  ghost predicate Balanced(s: Shape) {
    s.Cell? ==>
      && Balanced(s.left) && Balanced(s.right)
      && Height(s.left) == Height(s.right)
      && (s.red ==> !IsRed(s.left) && !IsRed(s.right))
  }

  /** Plugging in a balanced tree of black height `h` that has a black root keeps the balance. */
  ghost predicate BalancedPath(p: Path, h: nat) {
    !p.Top? ==>
      && Balanced(Sibling(p)) && Height(Sibling(p)) == h
      && (p.red ==> !IsRed(Sibling(p)) && !TopRed(p.up))
      && BalancedPath(p.up, h + if p.red then 0 else 1)
  }

  /** The outermost node of the path, the root of the whole tree, is black. */
  ghost predicate BlackTop(p: Path) {
    !p.Top? ==> if p.up.Top? then !p.red else BlackTop(p.up)
  }

  lemma {:induction false} PlugBalanced(p: Path, s: Shape)
    ensures Balanced(Plug(p, s)) <==>
            Balanced(s) && BalancedPath(p, Height(s)) && !(TopRed(p) && IsRed(s))
    decreases p
  {
    match p
    case Top =>
    case InLeft(up, n, k, c, r) =>
      var t := Cell(s, n, k, c, r);
      PlugBalanced(up, t);
      assert Height(t) == Height(s) + if c then 0 else 1;
    case InRight(l, n, k, c, up) =>
      var t := Cell(l, n, k, c, s);
      PlugBalanced(up, t);
      if Height(l) == Height(s) {
        assert Height(t) == Height(s) + if c then 0 else 1;
      }
  }

  lemma {:induction false} PlugRootRed(p: Path, s: Shape)
    requires !p.Top?
    ensures IsRed(Plug(p, s)) <==> !BlackTop(p)
    ensures Plug(p, s).Cell?
    decreases p
  {
    match p
    case InLeft(up, n, k, c, r) =>
      if !up.Top? { PlugRootRed(up, Cell(s, n, k, c, r)); }
    case InRight(l, n, k, c, up) =>
      if !up.Top? { PlugRootRed(up, Cell(l, n, k, c, s)); }
  }

  lemma {:induction false} PlugRootOutside(p: Path, s: Shape)
    requires !p.Top?
    ensures Root(Plug(p, s)) in PathNodes(p)
    decreases p
  {
    match p
    case InLeft(up, n, k, c, r) =>
      if !up.Top? { PlugRootOutside(up, Cell(s, n, k, c, r)); }
    case InRight(l, n, k, c, up) =>
      if !up.Top? { PlugRootOutside(up, Cell(l, n, k, c, s)); }
  }

  ghost predicate RedBlack(s: Shape) {
    Balanced(s) && !IsRed(s)
  }

  ghost predicate SearchTree(s: Shape) {
    Sorted(InOrder(s))
  }

  // ----- a red-black tree is shallow

  ghost function Size(s: Shape): nat {
    if s.Nil? then 0 else Size(s.left) + 1 + Size(s.right)
  }

  ghost function Levels(s: Shape): nat {
    if s.Nil? then 0
    else 1 + if Levels(s.left) < Levels(s.right) then Levels(s.right) else Levels(s.left)
  }

  ghost function Pow2(n: nat): nat {
    if n == 0 then 1 else 2 * Pow2(n - 1)
  }

  lemma {:induction false} SizeFromHeight(s: Shape)
    requires Balanced(s)
    ensures Pow2(Height(s)) <= Size(s) + 1
    ensures Levels(s) <= 2 * Height(s) + if IsRed(s) then 1 else 0
  {
    if s.Cell? {
      SizeFromHeight(s.left);
      SizeFromHeight(s.right);
    }
  }

  lemma {:induction false} Pow2Double(n: nat)
    ensures Pow2(2 * n) == Pow2(n) * Pow2(n)
  {
    if n > 0 {
      Pow2Double(n - 1);
      assert Pow2(2 * n) == 2 * (2 * Pow2(2 * (n - 1)));
      assert Pow2(n) * Pow2(n) == 4 * (Pow2(n - 1) * Pow2(n - 1));
    }
  }

  lemma {:induction false} Pow2Monotone(m: nat, n: nat)
    requires m <= n
    ensures 1 <= Pow2(m) <= Pow2(n)
  {
    if m > 0 { Pow2Monotone(m - 1, n - 1); } else if n > 0 { Pow2Monotone(m, n - 1); }
  }

  lemma SquareMonotone(a: nat, b: nat)
    requires a <= b
    ensures a * a <= b * b
  {
    assert b * b == a * a + (b - a) * (a + b);
  }

  /** At most 2 * log2(size + 1) levels, that is, 2^levels is at most (size + 1)^2. */
  lemma Shallow(s: Shape)
    requires RedBlack(s)
    ensures Pow2(Levels(s)) <= (Size(s) + 1) * (Size(s) + 1)
  {
    var h, n := Height(s), Size(s) + 1;
    SizeFromHeight(s);
    Pow2Monotone(Levels(s), 2 * h);
    Pow2Double(h);
    SquareMonotone(Pow2(h), n);
  }

  /** A search that visits one node per level visits few nodes. */
  lemma FewVisits(s: Shape, visits: nat)
    requires RedBlack(s) && SearchTree(s) && visits <= Levels(s)
    ensures var n := |AsMap(InOrder(s))|; Pow2(visits) <= (n + 1) * (n + 1)
  {
    Shallow(s);
    SizeIsCount(s);
    AsMapSize(InOrder(s));
    Pow2Monotone(visits, Levels(s));
  }

  lemma {:induction false} SizeIsCount(s: Shape)
    ensures |InOrder(s)| == Size(s)
  {
    if s.Cell? {
      SizeIsCount(s.left);
      SizeIsCount(s.right);
    }
  }
}
