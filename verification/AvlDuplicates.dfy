// What the tree does with contacts it already holds: exactly when the height
// rises and exactly when the balance survives, for every balanced tree.

module AvlDuplicates {
  import opened Base
  import opened NameOrder
  import opened AvlTree

  // The subtree the new contact goes into, and the other one.
  function Side(t: Tree, c: Contact): Tree
    requires t.Node?
  {
    if Compare(c, t.data) < 0 then t.left else t.right
  }

  function Other(t: Tree, c: Contact): Tree
    requires t.Node?
  {
    if Compare(c, t.data) < 0 then t.right else t.left
  }

  // The tree with a new subtree on that side, its height up to date.
  function Put(t: Tree, s: Tree, c: Contact): Tree
    requires t.Node?
  {
    if Compare(c, t.data) < 0 then Mk(s, t.data, t.right) else Mk(t.left, t.data, s)
  }

  // The node leans towards the new contact already.
  predicate Leans(t: Tree, c: Contact)
    requires t.Node?
  {
    Height(Side(t, c)) == Height(Other(t, c)) + 1
  }

  // The next node on the way down holds the same contact: the comparison with it
  // then picks no rotation.
  predicate HolderBelow(t: Tree, c: Contact)
    requires t.Node?
  {
    Side(t, c).Node? && Side(t, c).data == c
  }

  // The tree gets higher: every node on the way down is level, or leans to a holder.
  predicate Grows(t: Tree, c: Contact) {
    t.Node? ==> Grows(Side(t, c), c) && (Height(t.left) == Height(t.right) || (Leans(t, c) && HolderBelow(t, c)))
  }

  // The node becomes two too heavy and is not rotated.
  predicate Stuck(t: Tree, c: Contact) { t.Node? && Leans(t, c) && HolderBelow(t, c) && Grows(Side(t, c), c) }

  // The node above a stuck one leans to it as well. Its rotation takes the stuck
  // node apart, and with it, from an inner holder, a second stuck node below.
  predicate Repaired(t: Tree, c: Contact)
    requires t.Node?
    decreases t, 0
  {
    var s := Side(t, c);
    && Stuck(s, c) && s.data != c && Leans(t, c)
    && (|| !Unlucky(Side(s, c), c)
        || (Compare(c, t.data) < 0 && Compare(c, s.data) > 0 && !Unlucky(Side(Side(s, c), c), c)))
  }

  // Some stuck node on the way down is left unrepaired.
  predicate Unlucky(t: Tree, c: Contact)
    decreases t, 1
  {
    t.Node? && (Stuck(t, c) || (Unlucky(Side(t, c), c) && !Repaired(t, c)))
  }

  // What insertion of `c` makes of the balanced tree `t`.
  ghost predicate Outcome(t: Tree, r: Tree, c: Contact) {
    && r.Node? && Exact(r)
    && Height(r) == Height(t) + (if Grows(t, c) then 1 else 0)
    && (Balanced(r) <==> !Unlucky(t, c))
  }

  lemma GoodParts(t: Tree)
    requires Good(t) && t.Node?
    ensures Good(t.left) && Good(t.right) && Height(t) >= 1
    ensures Height(t.left) >= 0 && (Height(t.left) == 0 <==> t.left.Leaf?)
    ensures Height(t.right) >= 0 && (Height(t.right) == 0 <==> t.right.Leaf?)
  {
    HeightIsNatural(t.left);
    HeightIsNatural(t.right);
  }

  // No rotation at this node.
  lemma StaysPut(t: Tree, s: Tree, c: Contact)
    requires Good(t) && t.Node? && Outcome(Side(t, c), s, c)
    requires !Grows(Side(t, c), c) || !Leans(t, c) || HolderBelow(t, c)
    requires HolderBelow(t, c) && Grows(Side(t, c), c) ==> s.data == c
    ensures Rebalance(Put(t, s, c), c) == Some(Put(t, s, c))
    ensures Outcome(t, Put(t, s, c), c)
  {
    GoodParts(t);
  }

  // Whether luck holds at a node that rotates, from what is below it.
  lemma UnluckyRotated(t: Tree, c: Contact)
    requires Good(t) && t.Node? && Leans(t, c) && Side(t, c).Node? && Grows(Side(t, c), c) && !HolderBelow(t, c)
    ensures var s := Side(t, c);
            var p := Side(s, c);
            Unlucky(t, c) <==>
              Unlucky(p, c) && (Stuck(s, c) && Compare(c, t.data) < 0 && Compare(c, s.data) > 0 ==> Unlucky(Side(p, c), c))
  {
    var s := Side(t, c);
    assert !Stuck(t, c) && !Repaired(s, c);
    assert Unlucky(t, c) <==> Unlucky(s, c) && !Repaired(t, c);
    assert Unlucky(s, c) <==> Stuck(s, c) || Unlucky(Side(s, c), c);
  }

  // A tree that grows is unlucky at its top or where its new side is.
  lemma UnluckyGrown(p: Tree, c: Contact)
    requires p.Node? && Grows(p, c)
    ensures Unlucky(p, c) <==> Stuck(p, c) || Unlucky(Side(p, c), c)
  {
  }

  // A single rotation: the new contact went to the outer side of a node that grew.
  lemma OuterLeft(t: Tree, p: Tree, c: Contact)
    requires Good(t) && t.Node? && Compare(c, t.data) < 0 && Leans(t, c) && Grows(t.left, c) && t.left.Node?
    requires Compare(c, t.left.data) < 0 && Outcome(t.left.left, p, c)
    ensures var r := Rebalance(Mk(Put(t.left, p, c), t.data, t.right), c); r.Some? && Outcome(t, r.value, c)
  {
    var s := t.left;
    GoodParts(t);
    GoodParts(s);
    UnluckyRotated(t, c);
    assert Rebalance(Mk(Put(s, p, c), t.data, t.right), c).value == Mk(p, s.data, Mk(s.right, t.data, t.right));
  }

  lemma OuterRight(t: Tree, p: Tree, c: Contact)
    requires Good(t) && t.Node? && Compare(c, t.data) >= 0 && Leans(t, c) && Grows(t.right, c) && t.right.Node?
    requires Compare(c, t.right.data) > 0 && Outcome(t.right.right, p, c)
    ensures var r := Rebalance(Mk(t.left, t.data, Put(t.right, p, c)), c); r.Some? && Outcome(t, r.value, c)
  {
    var s := t.right;
    GoodParts(t);
    GoodParts(s);
    UnluckyRotated(t, c);
    assert Rebalance(Mk(t.left, t.data, Put(s, p, c)), c).value == Mk(Mk(t.left, t.data, s.left), s.data, p);
  }

  // The subtree that a double rotation takes apart.
  ghost predicate Split(p: Tree, p': Tree, q: Tree, c: Contact) {
    && Outcome(p, p', c) && Grows(p, c)
    && (if p.Leaf? then p' == Node(Leaf, c, Leaf, 1) else Outcome(Side(p, c), q, c) && p' == Put(p, q, c))
  }

  lemma InnerLeft(t: Tree, p: Tree, q: Tree, c: Contact)
    requires Good(t) && t.Node? && Compare(c, t.data) < 0 && Leans(t, c) && Grows(t.left, c) && t.left.Node?
    requires Compare(c, t.left.data) > 0 && Split(t.left.right, p, q, c)
    ensures var r := Rebalance(Mk(Put(t.left, p, c), t.data, t.right), c); r.Some? && Outcome(t, r.value, c)
  {
    var s := t.left;
    GoodParts(t);
    GoodParts(s);
    UnluckyRotated(t, c);
    if s.right.Node? { GoodParts(s.right); UnluckyGrown(s.right, c); }
    assert Rebalance(Mk(Put(s, p, c), t.data, t.right), c).value
        == Mk(Mk(s.left, s.data, p.left), p.data, Mk(p.right, t.data, t.right));
  }

  lemma InnerRight(t: Tree, p: Tree, q: Tree, c: Contact)
    requires Good(t) && t.Node? && Compare(c, t.data) >= 0 && Leans(t, c) && Grows(t.right, c) && t.right.Node?
    requires Compare(c, t.right.data) < 0 && Split(t.right.left, p, q, c)
    ensures var r := Rebalance(Mk(t.left, t.data, Put(t.right, p, c)), c); r.Some? && Outcome(t, r.value, c)
  {
    var s := t.right;
    GoodParts(t);
    GoodParts(s);
    UnluckyRotated(t, c);
    if s.left.Node? { GoodParts(s.left); UnluckyGrown(s.left, c); }
    assert Rebalance(Mk(t.left, t.data, Put(s, p, c)), c).value
        == Mk(Mk(t.left, t.data, p.left), p.data, Mk(p.right, s.data, s.right));
  }

  // The insertion of `c` into `t` is foreseen; a tree that grows is not rotated.
  ghost predicate Foreseen(t: Tree, c: Contact) {
    && Insert(t, c).Some? && Outcome(t, Insert(t, c).value, c)
    && (t.Node? && Grows(t, c) ==> Insert(t, c) == Some(Put(t, InsertValue(Side(t, c), c), c)))
  }

  function InsertValue(t: Tree, c: Contact): Tree { if Insert(t, c).Some? then Insert(t, c).value else Leaf }

  lemma {:induction false} InsertOutcome(t: Tree, c: Contact)
    requires Good(t)
    ensures Foreseen(t, c)
  {
    if t.Node? {
      var s := Side(t, c);
      GoodParts(t);
      InsertOutcome(s, c);
      if Grows(s, c) && Leans(t, c) && !HolderBelow(t, c) {
        var p := Side(s, c);
        GoodParts(s);
        InsertOutcome(p, c);
        if p.Node? {
          GoodParts(p);
          InsertOutcome(Side(p, c), c);
        }
        RotatesAt(t, c);
      } else {
        StaysPut(t, Insert(s, c).value, c);
      }
    }
  }

  lemma RotatesAt(t: Tree, c: Contact)
    requires Good(t) && t.Node? && Leans(t, c) && Side(t, c).Node? && Grows(Side(t, c), c) && !HolderBelow(t, c)
    requires var s := Side(t, c); var p := Side(s, c);
             Foreseen(s, c) && Foreseen(p, c) && (p.Node? ==> Foreseen(Side(p, c), c))
    ensures Foreseen(t, c) && !Grows(t, c)
  {
    var s := Side(t, c);
    var p := Side(s, c);
    var p' := InsertValue(p, c);
    var q := if p.Leaf? then Leaf else InsertValue(Side(p, c), c);
    if Compare(c, t.data) < 0 {
      if Compare(c, s.data) < 0 { OuterLeft(t, p', c); } else { InnerLeft(t, p', q, c); }
    } else {
      if Compare(c, s.data) > 0 { OuterRight(t, p', c); } else { InnerRight(t, p', q, c); }
    }
  }

  // For every balanced tree, whatever it holds already: insertion follows no null
  // pointer and keeps order and heights, it raises the height if and only if
  // `Grows`, and it keeps the balance if and only if not `Unlucky`.
  lemma BalancedUnlessUnlucky(t: Tree, c: Contact)
    requires Avl(t)
    ensures Insert(t, c).Some?
    ensures Balanced(Insert(t, c).value) <==> !Unlucky(t, c)
    ensures Height(Insert(t, c).value) == Height(t) + (if Grows(t, c) then 1 else 0)
    ensures Exact(Insert(t, c).value) && InOrder(Insert(t, c).value) == InsertSorted(InOrder(t), c)
    ensures Sorted(InOrder(Insert(t, c).value))
  {
    InsertOutcome(t, c);
    InsertInOrder(t, c);
    InsertSortedKeeps(InOrder(t), c);
  }

  // A contact the tree does not hold is never unlucky.
  lemma {:induction false} FreshIsNeverUnlucky(t: Tree, c: Contact)
    requires c !in InOrder(t)
    ensures !Unlucky(t, c)
  {
    if t.Node? {
      assert c !in InOrder(Side(t, c));
      FreshIsNeverUnlucky(Side(t, c), c);
      assert Side(t, c).Node? ==> Side(t, c).data in InOrder(Side(t, c));
    }
  }

  // One name entered three times in a row is the smallest example: each copy goes
  // to the right of the last, and no comparison breaks the chain.
  lemma ThreeEqualNamesUnbalance(a: Contact)
    ensures var two := Node(Leaf, a, Node(Leaf, a, Leaf, 1), 2);
            Avl(two) && Unlucky(two, a) && Insert(two, a).Some? && !Balanced(Insert(two, a).value)
  {
    var one := Node(Leaf, a, Leaf, 1);
    var two := Node(Leaf, a, one, 2);
    assert InOrder(one) == [a];
    assert InOrder(two) == [a, a];
    assert Grows(one, a) && Stuck(two, a);
    BalancedUnlessUnlucky(two, a);
  }
}
