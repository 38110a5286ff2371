// The balanced tree of contacts as a value: insertion with the rotations the
// program chooses, and what it keeps.

module AvlTree {
  import opened Base
  import opened NameOrder

  datatype Tree = Leaf | Node(left: Tree, data: Contact, right: Tree, height: int)

  function Height(t: Tree): int { if t.Leaf? then 0 else t.height }

  function Max(a: int, b: int): int { if a > b then a else b }

  // A node with its height brought up to date.
  function Mk(left: Tree, data: Contact, right: Tree): (r: Tree)
    ensures r.Node?
  {
    Node(left, data, right, 1 + Max(Height(left), Height(right)))
  }

  function Balance(t: Tree): int { if t.Leaf? then 0 else Height(t.left) - Height(t.right) }

  // None stands for following a null pointer.
  function RotateRight(y: Tree): Option<Tree> {
    if y.Leaf? || y.left.Leaf? then None
    else Some(Mk(y.left.left, y.left.data, Mk(y.left.right, y.data, y.right)))
  }

  function RotateLeft(x: Tree): Option<Tree> {
    if x.Leaf? || x.right.Leaf? then None
    else Some(Mk(Mk(x.left, x.data, x.right.left), x.right.data, x.right.right))
  }

  function RotateLeftRight(t: Tree): Option<Tree> {
    if t.Leaf? then None else
    match RotateLeft(t.left)
    case None => None
    case Some(l) => RotateRight(t.(left := l))
  }

  function RotateRightLeft(t: Tree): Option<Tree> {
    if t.Leaf? then None else
    match RotateRight(t.right)
    case None => None
    case Some(r) => RotateLeft(t.(right := r))
  }

  // The four cases at the end of insert.
  function Rebalance(t: Tree, c: Contact): Option<Tree> {
    if t.Leaf? then None
    else if Balance(t) > 1 then
      if t.left.Leaf? then None
      else if Compare(c, t.left.data) < 0 then RotateRight(t)
      else if Compare(c, t.left.data) > 0 then RotateLeftRight(t)
      else Some(t)
    else if Balance(t) < -1 then
      if t.right.Leaf? then None
      else if Compare(c, t.right.data) > 0 then RotateLeft(t)
      else if Compare(c, t.right.data) < 0 then RotateRightLeft(t)
      else Some(t)
    else Some(t)
  }

  function Insert(t: Tree, c: Contact): Option<Tree> {
    if t.Leaf? then Some(Node(Leaf, c, Leaf, 1))
    else if Compare(c, t.data) < 0 then
      match Insert(t.left, c)
      case None => None
      case Some(l) => Rebalance(Mk(l, t.data, t.right), c)
    else
      match Insert(t.right, c)
      case None => None
      case Some(r) => Rebalance(Mk(t.left, t.data, r), c)
  }

  function Search(t: Tree, lastName: Bytes): Option<Contact> {
    if t.Leaf? then None
    else
      var cmp := StrCmp(lastName, t.data.lastName);
      if cmp == 0 then Some(t.data)
      else if cmp < 0 then Search(t.left, lastName)
      else Search(t.right, lastName)
  }

  // -------------------------------------------------------------- invariants

  function InOrder(t: Tree): seq<Contact> {
    if t.Leaf? then [] else InOrder(t.left) + [t.data] + InOrder(t.right)
  }

  // Stored heights are the heights.
  ghost predicate Exact(t: Tree) {
    t.Node? ==> Exact(t.left) && Exact(t.right) && t.height == 1 + Max(Height(t.left), Height(t.right))
  }

  ghost predicate Balanced(t: Tree) {
    t.Node? ==> Balanced(t.left) && Balanced(t.right) && -1 <= Balance(t) <= 1
  }

  ghost predicate Avl(t: Tree) { Exact(t) && Balanced(t) && Sorted(InOrder(t)) }

  lemma HeightIsNatural(t: Tree)
    requires Exact(t)
    ensures Height(t) >= 0 && (Height(t) == 0 <==> t.Leaf?)
  {
  }

  // Rotations do not change the order of the contacts.
  lemma RotateRightInOrder(y: Tree)
    requires RotateRight(y).Some?
    ensures InOrder(RotateRight(y).value) == InOrder(y)
  {
  }

  lemma RotateLeftInOrder(x: Tree)
    requires RotateLeft(x).Some?
    ensures InOrder(RotateLeft(x).value) == InOrder(x)
  {
  }

  lemma DoubleRotationsInOrder(t: Tree)
    ensures RotateLeftRight(t).Some? ==> InOrder(RotateLeftRight(t).value) == InOrder(t)
    ensures RotateRightLeft(t).Some? ==> InOrder(RotateRightLeft(t).value) == InOrder(t)
  {
    if RotateLeftRight(t).Some? {
      RotateLeftInOrder(t.left);
      RotateRightInOrder(t.(left := RotateLeft(t.left).value));
    }
    if RotateRightLeft(t).Some? {
      RotateRightInOrder(t.right);
      RotateLeftInOrder(t.(right := RotateRight(t.right).value));
    }
  }

  lemma RebalanceInOrder(t: Tree, c: Contact)
    requires Rebalance(t, c).Some?
    ensures InOrder(Rebalance(t, c).value) == InOrder(t)
  {
    if RotateRight(t).Some? { RotateRightInOrder(t); }
    if RotateLeft(t).Some? { RotateLeftInOrder(t); }
    DoubleRotationsInOrder(t);
  }

  // Insertion into the tree is insertion into the sorted sequence of contacts.
  lemma {:induction false} InsertInOrder(t: Tree, c: Contact)
    requires Sorted(InOrder(t)) && Insert(t, c).Some?
    ensures InOrder(Insert(t, c).value) == InsertSorted(InOrder(t), c)
  {
    if t.Node? {
      var l, r := InOrder(t.left), InOrder(t.right);
      SortedParts(l, t.data, r);
      if Compare(c, t.data) < 0 {
        InsertInOrder(t.left, c);
        InsertLeft(l, t.data, r, c);
        RebalanceInOrder(Mk(Insert(t.left, c).value, t.data, t.right), c);
      } else {
        InsertInOrder(t.right, c);
        InsertRight(l, t.data, r, c);
        RebalanceInOrder(Mk(t.left, t.data, Insert(t.right, c).value), c);
      }
    }
  }

  // A subtree that has grown is heavier on the side of the new contact.
  ghost predicate GrownSide(t: Tree, r: Tree, c: Contact) {
    Height(r) == Height(t) + 1 && t.Node? ==>
      && r.Node? && r.data == t.data
      && (Compare(c, r.data) < 0 ==> Height(r.left) == Height(r.right) + 1)
      && (Compare(c, r.data) > 0 ==> Height(r.right) == Height(r.left) + 1)
  }

  // What one insertion does to a subtree of which it is a part.
  ghost predicate Inserted(t: Tree, r: Tree, c: Contact) {
    && r.Node? && Exact(r) && Balanced(r)
    && Height(t) <= Height(r) <= Height(t) + 1
    && GrownSide(t, r, c)
  }

  ghost predicate Good(t: Tree) { Exact(t) && Balanced(t) }

  // A single rotation repairs an outer overweight, and the height is as before.
  lemma SingleRight(l: Tree, d: Contact, r: Tree)
    requires Good(l) && Good(r) && Height(l) == Height(r) + 2
    requires l.Node? && Height(l.left) == Height(l.right) + 1
    ensures var t := RotateRight(Mk(l, d, r)); t.Some? && Good(t.value) && t.value.Node? && Height(t.value) == Height(l)
  {
  }

  lemma SingleLeft(l: Tree, d: Contact, r: Tree)
    requires Good(l) && Good(r) && Height(r) == Height(l) + 2
    requires r.Node? && Height(r.right) == Height(r.left) + 1
    ensures var t := RotateLeft(Mk(l, d, r)); t.Some? && Good(t.value) && t.value.Node? && Height(t.value) == Height(r)
  {
  }

  // A double rotation repairs an inner overweight.
  lemma DoubleRight(l: Tree, d: Contact, r: Tree)
    requires Good(l) && Good(r) && Height(l) == Height(r) + 2
    requires l.Node? && Height(l.right) == Height(l.left) + 1
    ensures var t := RotateLeftRight(Mk(l, d, r));
            t.Some? && Good(t.value) && t.value.Node? && Height(t.value) == Height(l)
  {
    HeightIsNatural(l.left);
    HeightIsNatural(l.right);
    var m := l.right;
    HeightIsNatural(m.left);
    HeightIsNatural(m.right);
    assert Good(m) && Good(m.left) && Good(m.right);
    assert Good(Mk(l.left, l.data, m.left)) && Good(Mk(m.right, d, r));
    assert RotateLeft(l).value == Mk(Mk(l.left, l.data, m.left), m.data, m.right);
  }

  lemma DoubleLeft(l: Tree, d: Contact, r: Tree)
    requires Good(l) && Good(r) && Height(r) == Height(l) + 2
    requires r.Node? && Height(r.left) == Height(r.right) + 1
    ensures var t := RotateRightLeft(Mk(l, d, r));
            t.Some? && Good(t.value) && t.value.Node? && Height(t.value) == Height(r)
  {
    HeightIsNatural(r.left);
    HeightIsNatural(r.right);
    var m := r.left;
    HeightIsNatural(m.left);
    HeightIsNatural(m.right);
    assert Good(m) && Good(m.left) && Good(m.right);
    assert Good(Mk(l, d, m.left)) && Good(Mk(m.right, r.data, r.right));
    assert RotateRight(r).value == Mk(m.left, m.data, Mk(m.right, r.data, r.right));
  }

  // An overweight after insertion on the left: the comparison of the new contact
  // with the child's picks the rotation that fits.
  lemma RebalanceLeft(t: Tree, l: Tree, c: Contact)
    requires t.Node? && Good(t) && Compare(c, t.data) < 0
    requires Inserted(t.left, l, c) && (t.left.Node? ==> c != t.left.data)
    ensures Rebalance(Mk(l, t.data, t.right), c).Some?
    ensures var t' := Rebalance(Mk(l, t.data, t.right), c).value;
            && Inserted(t, t', c)
            && (Height(t') > Height(t) <==> Height(l) > Height(t.left) && Height(t.left) == Height(t.right))
  {
    HeightIsNatural(t.left);
    HeightIsNatural(t.right);
    if Height(l) == Height(t.right) + 2 {
      assert Compare(c, l.data) != 0;
      if Compare(c, l.data) < 0 { SingleRight(l, t.data, t.right); } else { DoubleRight(l, t.data, t.right); }
    }
  }

  lemma RebalanceRight(t: Tree, r: Tree, c: Contact)
    requires t.Node? && Good(t) && Compare(c, t.data) >= 0
    requires Inserted(t.right, r, c) && (t.right.Node? ==> c != t.right.data)
    ensures Rebalance(Mk(t.left, t.data, r), c).Some?
    ensures var t' := Rebalance(Mk(t.left, t.data, r), c).value;
            && Inserted(t, t', c)
            && (Height(t') > Height(t) <==> Height(r) > Height(t.right) && Height(t.left) == Height(t.right))
  {
    HeightIsNatural(t.left);
    HeightIsNatural(t.right);
    if Height(r) == Height(t.left) + 2 {
      assert Compare(c, r.data) != 0;
      if Compare(c, r.data) > 0 { SingleLeft(t.left, t.data, r); } else { DoubleLeft(t.left, t.data, r); }
    }
  }

  // ----------------------------------------------------------- fresh contacts

  lemma {:induction false} InsertFreshShape(t: Tree, c: Contact)
    requires Good(t) && c !in InOrder(t)
    ensures Insert(t, c).Some? && Inserted(t, Insert(t, c).value, c)
  {
    if t.Node? {
      assert t.data in InOrder(t);
      assert t.left.Node? ==> t.left.data in InOrder(t);
      assert t.right.Node? ==> t.right.data in InOrder(t);
      if Compare(c, t.data) < 0 {
        InsertFreshShape(t.left, c);
        RebalanceLeft(t, Insert(t.left, c).value, c);
      } else {
        InsertFreshShape(t.right, c);
        RebalanceRight(t, Insert(t.right, c).value, c);
      }
    }
  }

  // Inserting a contact that is not yet in the tree keeps it balanced, its
  // heights exact and its order, and never follows a null pointer.
  lemma InsertFresh(t: Tree, c: Contact)
    requires Avl(t) && c !in InOrder(t)
    ensures Insert(t, c).Some?
    ensures var r := Insert(t, c).value;
            Avl(r) && Height(t) <= Height(r) <= Height(t) + 1 && InOrder(r) == InsertSorted(InOrder(t), c)
  {
    InsertFreshShape(t, c);
    InsertInOrder(t, c);
    InsertSortedKeeps(InOrder(t), c);
  }

  // A phone book filled one contact after the other.
  function InsertAll(cs: seq<Contact>): Option<Tree> {
    if cs == [] then Some(Leaf) else
    match InsertAll(cs[..|cs| - 1])
    case None => None
    case Some(t) => Insert(t, cs[|cs| - 1])
  }

  ghost predicate Distinct(cs: seq<Contact>) { forall i, j :: 0 <= i < j < |cs| ==> cs[i] != cs[j] }

  lemma {:induction false} BookOfDistinct(cs: seq<Contact>)
    requires Distinct(cs)
    ensures InsertAll(cs).Some?
    ensures Avl(InsertAll(cs).value) && multiset(InOrder(InsertAll(cs).value)) == multiset(cs)
  {
    if cs != [] {
      var front, c := cs[..|cs| - 1], cs[|cs| - 1];
      assert cs == front + [c];
      BookOfDistinct(front);
      var t := InsertAll(front).value;
      assert c !in multiset(front) && multiset(InOrder(t)) == multiset(front);
      InsertFresh(t, c);
      InsertSortedContents(InOrder(t), c);
    }
  }

  // ------------------------------------------------------------------- height

  function Fib(n: nat): nat { if n < 2 then n else Fib(n - 1) + Fib(n - 2) }

  function Count(t: Tree): nat { |InOrder(t)| }

  lemma {:induction false} FibIncreases(n: nat)
    ensures Fib(n) <= Fib(n + 1)
  {
  }

  // A balanced tree of height h holds at least Fib(h + 2) - 1 contacts.
  lemma {:induction false} HeightIsLogarithmic(t: Tree)
    requires Good(t)
    ensures Height(t) >= 0 && Count(t) >= Fib(Height(t) + 2) - 1
  {
    HeightIsNatural(t);
    if t.Node? {
      HeightIsLogarithmic(t.left);
      HeightIsLogarithmic(t.right);
      var h := Height(t);
      assert Fib(h + 2) == Fib(h + 1) + Fib(h);
      FibIncreases(h);
      FibIncreases(Height(t.left) + 2);
    }
  }

  lemma BookHeight(cs: seq<Contact>)
    requires Distinct(cs)
    ensures InsertAll(cs).Some? && Height(InsertAll(cs).value) >= 0
    ensures |cs| >= Fib(Height(InsertAll(cs).value) + 2) - 1
  {
    BookOfDistinct(cs);
    var t := InsertAll(cs).value;
    HeightIsLogarithmic(t);
    assert |multiset(InOrder(t))| == |multiset(cs)|;
  }

  // ------------------------------------------------------------------- search

  // Search by last name alone is right although the order is on both names.
  lemma {:induction false} SearchIsCorrect(t: Tree, lastName: Bytes)
    requires Sorted(InOrder(t))
    ensures Search(t, lastName).Some? <==> exists x :: x in InOrder(t) && x.lastName == lastName
    ensures Search(t, lastName).Some? ==>
              Search(t, lastName).value in InOrder(t) && Search(t, lastName).value.lastName == lastName
  {
    if t.Node? {
      var l, r := InOrder(t.left), InOrder(t.right);
      SortedParts(l, t.data, r);
      SearchIsCorrect(t.left, lastName);
      SearchIsCorrect(t.right, lastName);
      var cmp := StrCmp(lastName, t.data.lastName);
      if cmp == 0 {
        assert t.data in InOrder(t);
      } else {
        forall x | x in InOrder(t) && x.lastName == lastName ensures x in (if cmp < 0 then l else r) {
          StrCmpSwap(lastName, t.data.lastName);
          assert x in l || x == t.data || x in r;
        }
        assert forall x :: x in l || x in r ==> x in InOrder(t);
      }
    }
  }
}
