// The tree as the program builds it: nodes in memory whose fields insertion and
// rotation overwrite, refining the tree as a value.

module AvlHeap {
  import opened Base
  import opened NameOrder
  import T = AvlTree
  import N = AvlNullPointer

  class Node {
    var data: Contact
    var left: Node?
    var right: Node?
    var height: int

    constructor (c: Contact)
      ensures data == c && left == null && right == null && height == 1
    {
      data, left, right, height := c, null, null, 1;
    }
  }

  // Which node stands where.
  datatype Shape = Nil | Cell(left: Shape, node: Node, right: Shape)

  ghost function Root(s: Shape): Node? { if s.Nil? then null else s.node }

  ghost function Nodes(s: Shape): set<Node> { if s.Nil? then {} else Nodes(s.left) + {s.node} + Nodes(s.right) }

  // No node stands in two places.
  ghost predicate Proper(s: Shape) {
    s.Cell? ==>
      && Proper(s.left) && Proper(s.right)
      && s.node !in Nodes(s.left) && s.node !in Nodes(s.right) && Nodes(s.left) !! Nodes(s.right)
  }

  // The fields of the nodes of `s` are those of the tree `t`.
  ghost predicate Rep(s: Shape, t: T.Tree)
    reads Nodes(s)
  {
    match s
    case Nil => t.Leaf?
    case Cell(l, n, r) =>
      && t.Node? && n.data == t.data && n.height == t.height && n.left == Root(l) && n.right == Root(r)
      && Rep(l, t.left) && Rep(r, t.right)
  }

  function Height(n: Node?): int
    reads n
  {
    if n == null then 0 else n.height
  }

  // The stored height of a represented subtree.
  lemma HeightOf(s: Shape, t: T.Tree)
    requires Rep(s, t)
    ensures Height(Root(s)) == T.Height(t)
  {
  }

  // Everything reachable from a live node is live.
  lemma NodesAllocated(s: Shape, t: T.Tree)
    requires Rep(s, t) && (s.Cell? ==> allocated(s.node))
    ensures forall m <- Nodes(s) :: allocated(m)
  {
    if s.Cell? {
      assert allocated(s.node.left) && allocated(s.node.right);
      NodesAllocated(s.left, t.left);
      NodesAllocated(s.right, t.right);
    }
  }

  lemma ApartRight(s: Shape)
    requires Proper(s) && s.Cell? && s.left.Cell?
    ensures var x, y, a, b, c := s.left.node, s.node, s.left.left, s.left.right, s.right;
            && x != y && x !in Nodes(a) && x !in Nodes(b) && x !in Nodes(c)
            && y !in Nodes(a) && y !in Nodes(b) && y !in Nodes(c)
            && Proper(Cell(a, x, Cell(b, y, c))) && Nodes(Cell(a, x, Cell(b, y, c))) == Nodes(s)
  {
  }

  method RotateRight(y: Node, ghost s: Shape, ghost t: T.Tree) returns (x: Node, ghost s': Shape)
    requires Proper(s) && Rep(s, t) && Root(s) == y && T.RotateRight(t).Some?
    modifies y, y.left
    ensures Proper(s') && Rep(s', T.RotateRight(t).value) && Root(s') == x && Nodes(s') == Nodes(s)
  {
    ApartRight(s);
    x := y.left;
    var t2 := x.right;
    ghost var a, b, c := s.left.left, s.left.right, s.right;
    assert Rep(s.left, t.left) && Rep(a, t.left.left) && Rep(b, t.left.right);
    HeightOf(a, t.left.left);
    HeightOf(b, t.left.right);
    HeightOf(c, t.right);
    x.right := y;
    y.left := t2;
    y.height := T.Max(Height(y.left), Height(y.right)) + 1;
    x.height := T.Max(Height(x.left), Height(x.right)) + 1;
    assert Rep(a, t.left.left) && Rep(b, t.left.right) && Rep(c, t.right);
    s' := Cell(a, x, Cell(b, y, c));
  }

  lemma ApartLeft(s: Shape)
    requires Proper(s) && s.Cell? && s.right.Cell?
    ensures var x, y, a, b, c := s.node, s.right.node, s.left, s.right.left, s.right.right;
            && x != y && x !in Nodes(a) && x !in Nodes(b) && x !in Nodes(c)
            && y !in Nodes(a) && y !in Nodes(b) && y !in Nodes(c)
            && Proper(Cell(Cell(a, x, b), y, c)) && Nodes(Cell(Cell(a, x, b), y, c)) == Nodes(s)
  {
  }

  method RotateLeft(x: Node, ghost s: Shape, ghost t: T.Tree) returns (y: Node, ghost s': Shape)
    requires Proper(s) && Rep(s, t) && Root(s) == x && T.RotateLeft(t).Some?
    modifies x, x.right
    ensures Proper(s') && Rep(s', T.RotateLeft(t).value) && Root(s') == y && Nodes(s') == Nodes(s)
  {
    ApartLeft(s);
    y := x.right;
    var t2 := y.left;
    ghost var a, b, c := s.left, s.right.left, s.right.right;
    assert Rep(s.right, t.right) && Rep(b, t.right.left) && Rep(c, t.right.right);
    HeightOf(a, t.left);
    HeightOf(b, t.right.left);
    HeightOf(c, t.right.right);
    y.left := x;
    x.right := t2;
    x.height := T.Max(Height(x.left), Height(x.right)) + 1;
    y.height := T.Max(Height(y.left), Height(y.right)) + 1;
    assert Rep(a, t.left) && Rep(b, t.right.left) && Rep(c, t.right.right);
    s' := Cell(Cell(a, x, b), y, c);
  }

  method RotateLeftRight(n: Node, ghost s: Shape, ghost t: T.Tree) returns (r: Node, ghost s': Shape)
    requires Proper(s) && Rep(s, t) && Root(s) == n && T.RotateLeftRight(t).Some?
    modifies Nodes(s)
    ensures Proper(s') && Rep(s', T.RotateLeftRight(t).value) && Root(s') == r && Nodes(s') == Nodes(s)
  {
    NodesAllocated(s, t);
    var l, sl := RotateLeft(n.left, s.left, t.left);
    assert Rep(s.right, t.right);
    n.left := l;
    assert Rep(s.right, t.right) && Rep(sl, T.RotateLeft(t.left).value);
    r, s' := RotateRight(n, Cell(sl, n, s.right), t.(left := T.RotateLeft(t.left).value));
  }

  method RotateRightLeft(n: Node, ghost s: Shape, ghost t: T.Tree) returns (r: Node, ghost s': Shape)
    requires Proper(s) && Rep(s, t) && Root(s) == n && T.RotateRightLeft(t).Some?
    modifies Nodes(s)
    ensures Proper(s') && Rep(s', T.RotateRightLeft(t).value) && Root(s') == r && Nodes(s') == Nodes(s)
  {
    NodesAllocated(s, t);
    var m, sr := RotateRight(n.right, s.right, t.right);
    assert Rep(s.left, t.left);
    n.right := m;
    assert Rep(s.left, t.left) && Rep(sr, T.RotateRight(t.right).value);
    r, s' := RotateLeft(n, Cell(s.left, n, sr), t.(right := T.RotateRight(t.right).value));
  }

  // The end of insert, on a node whose height is up to date.
  method Rebalance(n: Node, c: Contact, ghost s: Shape, ghost t: T.Tree) returns (r: Node, ghost s': Shape)
    requires Proper(s) && Rep(s, t) && Root(s) == n && T.Rebalance(t, c).Some?
    modifies Nodes(s)
    ensures Proper(s') && Rep(s', T.Rebalance(t, c).value) && Root(s') == r && Nodes(s') == Nodes(s)
  {
    HeightOf(s.left, t.left);
    HeightOf(s.right, t.right);
    var balance := Height(n.left) - Height(n.right);
    if balance > 1 && Compare(c, n.left.data) < 0 {
      r, s' := RotateRight(n, s, t);
    } else if balance < -1 && Compare(c, n.right.data) > 0 {
      r, s' := RotateLeft(n, s, t);
    } else if balance > 1 && Compare(c, n.left.data) > 0 {
      r, s' := RotateLeftRight(n, s, t);
    } else if balance < -1 && Compare(c, n.right.data) < 0 {
      r, s' := RotateRightLeft(n, s, t);
    } else {
      r, s' := n, s;
    }
  }

  // After the recursive call: bring the height up to date and rebalance.
  method Finish(n: Node, c: Contact, ghost s: Shape, ghost l: T.Tree, ghost r: T.Tree) returns (m: Node, ghost s': Shape)
    requires s.Cell? && Proper(s) && Root(s) == n && n.left == Root(s.left) && n.right == Root(s.right)
    requires Rep(s.left, l) && Rep(s.right, r) && T.Rebalance(T.Mk(l, n.data, r), c).Some?
    modifies Nodes(s)
    ensures Proper(s') && Rep(s', T.Rebalance(T.Mk(l, old(n.data), r), c).value) && Root(s') == m && Nodes(s') == Nodes(s)
  {
    HeightOf(s.left, l);
    HeightOf(s.right, r);
    n.height := 1 + T.Max(Height(n.left), Height(n.right));
    assert Rep(s.left, l) && Rep(s.right, r);
    m, s' := Rebalance(n, c, s, T.Mk(l, n.data, r));
  }

  method InsertLeft(n: Node, c: Contact, ghost s: Shape, ghost t: T.Tree) returns (r: Node, ghost s': Shape)
    requires Proper(s) && Rep(s, t) && Root(s) == n && Compare(c, n.data) < 0 && T.Insert(t, c).Some?
    modifies Nodes(s)
    ensures Proper(s') && Rep(s', T.Insert(t, c).value) && Root(s') == r
    ensures Nodes(s) <= Nodes(s') && fresh(Nodes(s') - Nodes(s))
    decreases s, 0
  {
    NodesAllocated(s, t);
    var l, sl := Insert(n.left, c, s.left, t.left);
    n.left := l;
    assert Rep(s.right, t.right) && Rep(sl, T.Insert(t.left, c).value);
    r, s' := Finish(n, c, Cell(sl, n, s.right), T.Insert(t.left, c).value, t.right);
  }

  method InsertRight(n: Node, c: Contact, ghost s: Shape, ghost t: T.Tree) returns (r: Node, ghost s': Shape)
    requires Proper(s) && Rep(s, t) && Root(s) == n && Compare(c, n.data) >= 0 && T.Insert(t, c).Some?
    modifies Nodes(s)
    ensures Proper(s') && Rep(s', T.Insert(t, c).value) && Root(s') == r
    ensures Nodes(s) <= Nodes(s') && fresh(Nodes(s') - Nodes(s))
    decreases s, 0
  {
    NodesAllocated(s, t);
    var m, sr := Insert(n.right, c, s.right, t.right);
    n.right := m;
    assert Rep(s.left, t.left) && Rep(sr, T.Insert(t.right, c).value);
    r, s' := Finish(n, c, Cell(s.left, n, sr), t.left, T.Insert(t.right, c).value);
  }

  // insert, wherever the insertion into the value follows no null pointer.
  method Insert(n: Node?, c: Contact, ghost s: Shape, ghost t: T.Tree) returns (r: Node, ghost s': Shape)
    requires Proper(s) && Rep(s, t) && Root(s) == n && T.Insert(t, c).Some?
    modifies Nodes(s)
    ensures Proper(s') && Rep(s', T.Insert(t, c).value) && Root(s') == r
    ensures Nodes(s) <= Nodes(s') && fresh(Nodes(s') - Nodes(s))
    decreases s, 1
  {
    if n == null {
      r := new Node(c);
      s' := Cell(Nil, r, Nil);
    } else if Compare(c, n.data) < 0 {
      r, s' := InsertLeft(n, c, s, t);
    } else {
      r, s' := InsertRight(n, c, s, t);
    }
  }

  // search reads the nodes only.
  method Search(n: Node?, lastName: Bytes, ghost s: Shape, ghost t: T.Tree) returns (found: Node?)
    requires Rep(s, t) && Root(s) == n
    ensures found != null <==> T.Search(t, lastName).Some?
    ensures found != null ==> T.Search(t, lastName) == Some(found.data)
    decreases s
  {
    if n == null { return null; }
    var cmp := StrCmp(lastName, n.data.lastName);
    if cmp == 0 {
      found := n;
    } else if cmp < 0 {
      found := Search(n.left, lastName, s.left, t.left);
    } else {
      found := Search(n.right, lastName, s.right, t.right);
    }
  }

  // The phone book of the program.
  class Book {
    var root: Node?
    ghost var shape: Shape
    ghost var tree: T.Tree

    ghost predicate Valid()
      reads this, Nodes(shape)
    {
      Proper(shape) && Rep(shape, tree) && Root(shape) == root && T.Exact(tree) && Sorted(T.InOrder(tree))
    }

    constructor ()
      ensures Valid() && tree == T.Leaf && shape == Nil
    {
      root, shape, tree := null, Nil, T.Leaf;
    }

    // Any contact may be added unless the insertion would follow a null pointer.
    method Add(c: Contact)
      requires Valid() && !N.Crashes(tree, c)
      modifies this, Nodes(shape)
      ensures Valid() && fresh(Nodes(shape) - old(Nodes(shape))) && N.Entered(old(tree), tree, c)
    {
      N.EnteredOnce(tree, c);
      root, shape := Insert(root, c, shape, tree);
      tree := T.Insert(tree, c).value;
    }

    method Find(lastName: Bytes) returns (found: Node?)
      requires Valid()
      ensures found != null <==> exists x :: x in T.InOrder(tree) && x.lastName == lastName
      ensures found != null ==> found.data in T.InOrder(tree) && found.data.lastName == lastName
    {
      T.SearchIsCorrect(tree, lastName);
      found := Search(root, lastName, shape, tree);
    }
  }
}
