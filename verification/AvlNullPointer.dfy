// Exactly when insertion follows a null pointer. A rotation may meet a missing
// child once equal names have left the tree out of balance; whether it does can be
// told from the tree and the new contact beforehand.

module AvlNullPointer {
  import opened Base
  import opened NameOrder
  import opened AvlTree
  import opened AvlDuplicates

  // A node on the way to a contact: the heights of its subtrees on the side of the
  // contact and on the other.
  datatype Level = Level(data: Contact, near: int, far: int)

  // The two topmost nodes on the way, all that a rotation further up looks at.
  datatype Crown = Crown(top: Level, below: Option<Level>)

  function LevelHeight(l: Level): int { 1 + Max(l.near, l.far) }

  predicate SameWay(c: Contact, a: Contact, b: Contact) { (Compare(c, a) < 0) == (Compare(c, b) < 0) }

  // The subtree of the other side that a double rotation would lift.
  function Inner(t: Tree, c: Contact): Tree
    requires t.Node? && Other(t, c).Node?
  {
    if Compare(c, t.data) < 0 then t.right.left else t.left.right
  }

  function Outer(t: Tree, c: Contact): Tree
    requires t.Node? && Other(t, c).Node?
  {
    if Compare(c, t.data) < 0 then t.right.right else t.left.left
  }

  // The new side has become too heavy: what the rotations leave on the way.
  function NearRotated(d: Contact, far: int, s: Crown, c: Contact): Crown {
    if SameWay(c, s.top.data, d) then
      Crown(Level(s.top.data, s.top.near, 1 + Max(s.top.far, far)), s.below)
    else match s.below
      case None => s
      case Some(m) =>
        if SameWay(c, m.data, d) then
          Crown(Level(m.data, 1 + Max(m.near, s.top.far), 1 + Max(m.far, far)), Some(Level(s.top.data, m.near, s.top.far)))
        else
          Crown(Level(m.data, 1 + Max(m.near, far), 1 + Max(m.far, s.top.far)), Some(Level(d, m.near, far)))
  }

  // The other side was too heavy: its inner subtree `m` is lifted.
  function FarRotated(d: Contact, near: int, m: Tree, outer: int, left: bool): Crown
    requires m.Node?
  {
    var mNear, mFar := if left then Height(m.left) else Height(m.right), if left then Height(m.right) else Height(m.left);
    Crown(Level(m.data, 1 + Max(near, mNear), 1 + Max(mFar, outer)), Some(Level(d, near, mNear)))
  }

  // The top of a node after the insertion, from the top of its new side.
  function CrownAt(t: Tree, s: Crown, c: Contact): Crown
    requires t.Node?
  {
    var near, o := LevelHeight(s.top), Other(t, c);
    if near > Height(o) + 1 && s.top.data != c then NearRotated(t.data, Height(o), s, c)
    else if Height(o) > near + 1 && o.Node? && o.data != c && Inner(t, c).Node? then
      FarRotated(t.data, near, Inner(t, c), Height(Outer(t, c)), Compare(c, t.data) < 0)
    else Crown(Level(t.data, near, Height(o)), Some(s.top))
  }

  // The top of the tree after the insertion of `c`, from heights alone.
  function Crowned(t: Tree, c: Contact): Crown {
    if t.Leaf? then Crown(Level(c, 0, 0), None) else CrownAt(t, Crowned(Side(t, c), c), c)
  }

  // The other side is too heavy for a new side of height `near`, a different
  // contact is at its top, and it has no inner subtree to lift.
  predicate CrashesAt(t: Tree, near: int, c: Contact)
    requires t.Node?
  {
    Other(t, c).Node? && Other(t, c).data != c && Inner(t, c).Leaf? && Height(Other(t, c)) > near + 1
  }

  // Such a node is met on the way down.
  predicate Crashes(t: Tree, c: Contact) {
    t.Node? && (Crashes(Side(t, c), c) || CrashesAt(t, LevelHeight(Crowned(Side(t, c), c).top), c))
  }

  function LevelOf(r: Tree, c: Contact): Level
    requires r.Node?
  {
    Level(r.data, Height(Side(r, c)), Height(Other(r, c)))
  }

  // `k` is the top of `r` on the way to `c`.
  ghost predicate Tops(k: Crown, r: Tree, c: Contact) {
    && r.Node? && k.top == LevelOf(r, c)
    && k.below == (if Side(r, c).Node? then Some(LevelOf(Side(r, c), c)) else None)
  }

  // What is known of a subtree that `c` was inserted into.
  ghost predicate Holder(k: Crown, l: Tree, c: Contact) {
    Tops(k, l, c) && Exact(l) && (l.data != c ==> Side(l, c).Node?)
  }

  ghost predicate Result(r: Option<Tree>, k: Crown, c: Contact) { r.Some? && Tops(k, r.value, c) }

  // Rotations leave exact heights behind.
  lemma RebalanceExact(l: Tree, d: Contact, r: Tree, c: Contact)
    requires Exact(l) && Exact(r) && Rebalance(Mk(l, d, r), c).Some?
    ensures Exact(Rebalance(Mk(l, d, r), c).value)
  {
    if l.Node? {
      assert Exact(Mk(l.right, d, r));
      if l.right.Node? { assert Exact(Mk(l.left, l.data, l.right.left)) && Exact(Mk(l.right.right, d, r)); }
    }
    if r.Node? {
      assert Exact(Mk(l, d, r.left));
      if r.left.Node? { assert Exact(Mk(l, d, r.left.left)) && Exact(Mk(r.left.right, r.data, r.right)); }
    }
  }

  lemma HeavyLeft(t: Tree, l: Tree, k: Crown, c: Contact)
    requires t.Node? && Exact(t) && Compare(c, t.data) < 0 && Holder(k, l, c)
    requires Height(l) > Height(t.right) + 1 && l.data != c
    ensures Result(Rebalance(Mk(l, t.data, t.right), c), NearRotated(t.data, Height(t.right), k, c), c)
  {
    var r := Rebalance(Mk(l, t.data, t.right), c);
    if Compare(c, l.data) < 0 {
      assert r == Some(Mk(l.left, l.data, Mk(l.right, t.data, t.right)));
    } else {
      var m := l.right;
      assert r == Some(Mk(Mk(l.left, l.data, m.left), m.data, Mk(m.right, t.data, t.right)));
    }
  }

  lemma HeavyRight(t: Tree, l: Tree, k: Crown, c: Contact)
    requires t.Node? && Exact(t) && Compare(c, t.data) >= 0 && Holder(k, l, c)
    requires Height(l) > Height(t.left) + 1 && l.data != c
    ensures Result(Rebalance(Mk(t.left, t.data, l), c), NearRotated(t.data, Height(t.left), k, c), c)
  {
    var r := Rebalance(Mk(t.left, t.data, l), c);
    if Compare(c, l.data) > 0 {
      assert r == Some(Mk(Mk(t.left, t.data, l.left), l.data, l.right));
    } else {
      var m := l.left;
      assert r == Some(Mk(Mk(t.left, t.data, m.left), m.data, Mk(m.right, l.data, l.right)));
    }
  }

  lemma OverRight(t: Tree, l: Tree, c: Contact)
    requires t.Node? && Compare(c, t.data) < 0 && t.right.Node?
    requires Height(t.right) > Height(l) + 1 && Compare(c, t.right.data) < 0
    requires t.right.left.Node? ==> Compare(c, t.right.left.data) < 0
    ensures var r := Rebalance(Mk(l, t.data, t.right), c);
            if t.right.left.Leaf? then r.None?
            else l.Node? ==> Result(r, FarRotated(t.data, Height(l), t.right.left, Height(t.right.right), true), c)
  {
    var k, m := t.right, t.right.left;
    if m.Node? {
      assert Rebalance(Mk(l, t.data, k), c) == Some(Mk(Mk(l, t.data, m.left), m.data, Mk(m.right, k.data, k.right)));
    }
  }

  lemma OverLeft(t: Tree, l: Tree, c: Contact)
    requires t.Node? && Compare(c, t.data) >= 0 && t.left.Node?
    requires Height(t.left) > Height(l) + 1 && Compare(c, t.left.data) > 0
    requires t.left.right.Node? ==> Compare(c, t.left.right.data) >= 0
    ensures var r := Rebalance(Mk(t.left, t.data, l), c);
            if t.left.right.Leaf? then r.None?
            else l.Node? ==> Result(r, FarRotated(t.data, Height(l), t.left.right, Height(t.left.left), false), c)
  {
    var k, m := t.left, t.left.right;
    if m.Node? {
      assert Rebalance(Mk(k, t.data, l), c) == Some(Mk(Mk(k.left, k.data, m.left), m.data, Mk(m.right, t.data, l)));
    }
  }

  // The order of the tree places its contacts relative to a new one.
  lemma OtherSide(t: Tree, c: Contact)
    requires t.Node? && Sorted(InOrder(t))
    ensures Compare(c, t.data) < 0 ==> forall x <- InOrder(t.right) :: Compare(c, x) < 0
    ensures Compare(c, t.data) >= 0 ==> forall x <- InOrder(t.left) :: Compare(c, x) >= 0
  {
    SortedParts(InOrder(t.left), t.data, InOrder(t.right));
    if Compare(c, t.data) < 0 {
      forall x <- InOrder(t.right) ensures Compare(c, x) < 0 { CompareTransitive(c, t.data, x); }
    } else {
      CompareSwap(c, t.data);
      forall x <- InOrder(t.left) ensures Compare(c, x) >= 0 {
        CompareTransitive(x, t.data, c);
        CompareSwap(x, c);
      }
    }
  }

  lemma TopsInOrder(t: Tree)
    ensures t.Node? ==> t.data in InOrder(t)
    ensures t.Node? && t.left.Node? ==> t.left.data in InOrder(t)
    ensures t.Node? && t.right.Node? ==> t.right.data in InOrder(t)
  {
    if t.Node? { assert InOrder(t) == InOrder(t.left) + [t.data] + InOrder(t.right); }
  }

  // A contact that is not at the top is on its own side.
  lemma OnItsSide(l: Tree, c: Contact)
    requires Sorted(InOrder(l)) && c in InOrder(l) && l.data != c
    ensures c in InOrder(Side(l, c))
  {
    SortedParts(InOrder(l.left), l.data, InOrder(l.right));
    CompareSwap(c, l.data);
    assert c in InOrder(l.left) || c in InOrder(l.right);
  }

  lemma NewSideHolds(t: Tree, c: Contact, l: Tree)
    requires Sorted(InOrder(t)) && Insert(t, c) == Some(l) && l.Node?
    ensures l.data != c ==> Side(l, c).Node?
  {
    InsertInOrder(t, c);
    InsertSortedKeeps(InOrder(t), c);
    InsertSortedContents(InOrder(t), c);
    assert c in multiset(InOrder(l));
    if l.data != c { OnItsSide(l, c); }
  }

  // The node after its side has become `l`, whose top is `k`.
  ghost predicate Follows(t: Tree, l: Tree, k: Crown, c: Contact)
    requires t.Node?
  {
    if CrashesAt(t, Height(l), c) then Rebalance(Put(t, l, c), c).None?
    else Result(Rebalance(Put(t, l, c), c), CrownAt(t, k, c), c)
  }

  // No rotation: the sides are level enough, or the child that decides holds `c`.
  lemma NothingRotates(t: Tree, l: Tree, k: Crown, c: Contact)
    requires t.Node? && Exact(t) && Holder(k, l, c)
    requires Height(l) > Height(Other(t, c)) + 1 ==> l.data == c
    requires Height(Other(t, c)) > Height(l) + 1 ==> Other(t, c).Node? && Other(t, c).data == c
    ensures Follows(t, l, k, c)
  {
    assert Rebalance(Put(t, l, c), c) == Some(Put(t, l, c));
  }

  // What the rotations find at the top of the other side and of its inner subtree.
  lemma OtherTops(t: Tree, c: Contact)
    requires t.Node? && Sorted(InOrder(t)) && Other(t, c).Node? && Other(t, c).data != c
    ensures if Compare(c, t.data) < 0 then Compare(c, t.right.data) < 0 else Compare(c, t.left.data) > 0
    ensures Inner(t, c).Node? ==> (Compare(c, Inner(t, c).data) < 0 <==> Compare(c, t.data) < 0)
  {
    OtherSide(t, c);
    TopsInOrder(Other(t, c));
  }

  lemma FarFollows(t: Tree, l: Tree, k: Crown, c: Contact)
    requires t.Node? && Sorted(InOrder(t)) && Other(t, c).Node? && Other(t, c).data != c && Holder(k, l, c)
    requires Height(Other(t, c)) > Height(l) + 1
    ensures Follows(t, l, k, c)
  {
    OtherTops(t, c);
    assert LevelHeight(k.top) == Height(l);
    if Compare(c, t.data) < 0 { FarLeft(t, l, k, c); } else { FarRight(t, l, k, c); }
  }

  lemma FarLeft(t: Tree, l: Tree, k: Crown, c: Contact)
    requires t.Node? && Compare(c, t.data) < 0 && t.right.Node? && Compare(c, t.right.data) < 0
    requires t.right.left.Node? ==> Compare(c, t.right.left.data) < 0
    requires l.Node? && LevelHeight(k.top) == Height(l) && Height(t.right) > Height(l) + 1
    ensures Follows(t, l, k, c)
  {
    OverRight(t, l, c);
  }

  lemma FarRight(t: Tree, l: Tree, k: Crown, c: Contact)
    requires t.Node? && Compare(c, t.data) >= 0 && t.left.Node? && Compare(c, t.left.data) > 0
    requires t.left.right.Node? ==> Compare(c, t.left.right.data) >= 0
    requires l.Node? && LevelHeight(k.top) == Height(l) && Height(t.left) > Height(l) + 1
    ensures Follows(t, l, k, c)
  {
    OverLeft(t, l, c);
  }

  lemma NearFollows(t: Tree, l: Tree, k: Crown, c: Contact)
    requires t.Node? && Exact(t) && Holder(k, l, c) && l.data != c && Height(l) > Height(Other(t, c)) + 1
    ensures Follows(t, l, k, c)
  {
    if Compare(c, t.data) < 0 { HeavyLeft(t, l, k, c); } else { HeavyRight(t, l, k, c); }
  }

  lemma StepFollows(t: Tree, l: Tree, k: Crown, c: Contact)
    requires t.Node? && Exact(t) && Sorted(InOrder(t)) && Holder(k, l, c)
    ensures Follows(t, l, k, c)
  {
    HeightIsNatural(l);
    HeightIsNatural(Other(t, c));
    if Height(l) > Height(Other(t, c)) + 1 && l.data != c {
      NearFollows(t, l, k, c);
    } else if Height(Other(t, c)) > Height(l) + 1 && Other(t, c).data != c {
      FarFollows(t, l, k, c);
    } else {
      NothingRotates(t, l, k, c);
    }
  }

  // Insertion into any ordered tree with exact heights, in balance or not,
  // follows a null pointer if and only if `Crashes`; otherwise the top of the
  // result, and with it the height, is as computed beforehand.
  lemma {:induction false} CrashesExactly(t: Tree, c: Contact)
    requires Exact(t) && Sorted(InOrder(t))
    ensures Insert(t, c).None? <==> Crashes(t, c)
    ensures Insert(t, c).Some? ==>
              Exact(Insert(t, c).value) && Tops(Crowned(t, c), Insert(t, c).value, c)
              && InOrder(Insert(t, c).value) == InsertSorted(InOrder(t), c)
  {
    if t.Node? {
      var s := Side(t, c);
      SortedParts(InOrder(t.left), t.data, InOrder(t.right));
      CrashesExactly(s, c);
      if Insert(s, c).Some? {
        var l := Insert(s, c).value;
        NewSideHolds(s, c, l);
        StepFollows(t, l, Crowned(s, c), c);
        if Insert(t, c).Some? {
          if Compare(c, t.data) < 0 { RebalanceExact(l, t.data, t.right, c); } else { RebalanceExact(t.left, t.data, l, c); }
          InsertInOrder(t, c);
        }
      }
    }
  }

  // No node on the way down is out of balance.
  predicate PathBalanced(t: Tree, c: Contact) { t.Node? ==> -1 <= Balance(t) <= 1 && PathBalanced(Side(t, c), c) }

  // The height after a rotation towards the lower side.
  lemma RotatedHeight(d: Contact, far: int, l: Tree, s: Crown, c: Contact)
    requires Exact(l) && Tops(s, l, c) && Height(l) == far + 2 && (Side(l, c).Leaf? ==> SameWay(c, l.data, d))
    requires far >= 0
    ensures far + 2 <= LevelHeight(NearRotated(d, far, s, c).top) <= far + 3
  {
    HeightIsNatural(l.left);
    HeightIsNatural(l.right);
    if Side(l, c).Node? {
      HeightIsNatural(Side(l, c).left);
      HeightIsNatural(Side(l, c).right);
    }
  }

  // A crash needs a node on the way that is out of balance already.
  lemma {:induction false} BalancedPathIsSafe(t: Tree, c: Contact)
    requires Exact(t) && Sorted(InOrder(t)) && PathBalanced(t, c)
    ensures !Crashes(t, c) && Insert(t, c).Some?
    ensures Height(t) <= Height(Insert(t, c).value) <= Height(t) + 1
  {
    CrashesExactly(t, c);
    if t.Node? {
      var s, o := Side(t, c), Height(Other(t, c));
      SortedParts(InOrder(t.left), t.data, InOrder(t.right));
      BalancedPathIsSafe(s, c);
      CrashesExactly(s, c);
      HeightIsNatural(s);
      HeightIsNatural(Other(t, c));
      var l := Insert(s, c).value;
      if Height(l) > o + 1 && l.data != c {
        NewSideHolds(s, c, l);
        RotatedHeight(t.data, o, l, Crowned(s, c), c);
      }
    }
  }

  // `r` is `t` with `c` entered: in order, with exact heights, and still in balance
  // if and only if `c` was not unlucky.
  ghost predicate Entered(t: Tree, r: Tree, c: Contact) {
    && Exact(r) && Sorted(InOrder(r)) && InOrder(r) == InsertSorted(InOrder(t), c)
    && (Balanced(t) ==> (Balanced(r) <==> !Unlucky(t, c)))
  }

  lemma EnteredOnce(t: Tree, c: Contact)
    requires Exact(t) && Sorted(InOrder(t)) && !Crashes(t, c)
    ensures Insert(t, c).Some? && Entered(t, Insert(t, c).value, c)
  {
    CrashesExactly(t, c);
    if Balanced(t) { BalancedUnlessUnlucky(t, c); }
    InsertSortedKeeps(InOrder(t), c);
  }

  ghost predicate Holds(t: Tree, cs: seq<Contact>) {
    Exact(t) && Sorted(InOrder(t)) && multiset(InOrder(t)) == multiset(cs)
  }

  // Any names, in any order: up to the first crash the book is ordered and has exact
  // heights and exactly the contacts entered, and the next one crashes if and only
  // if `Crashes`.
  lemma {:induction false} BookUntilCrash(cs: seq<Contact>, c: Contact)
    requires InsertAll(cs).Some?
    ensures Holds(InsertAll(cs).value, cs)
    ensures InsertAll(cs + [c]).None? <==> Crashes(InsertAll(cs).value, c)
  {
    if cs != [] {
      var front, last := cs[..|cs| - 1], cs[|cs| - 1];
      assert cs == front + [last];
      BookUntilCrash(front, last);
      EnteredOnce(InsertAll(front).value, last);
      InsertSortedContents(InOrder(InsertAll(front).value), last);
    }
    CrashesExactly(InsertAll(cs).value, c);
    assert (cs + [c])[..|cs|] == cs;
  }

  // Two such trees. A smaller name makes the code rotate around a missing left child
  // once a name has been entered four times, or three times after another one.
  lemma EqualNamesCrash(p: Contact, q: Contact, b: Contact)
    requires Compare(b, p) < 0 && Compare(p, q) < 0 && Compare(b, q) < 0
    ensures InsertAll([q, q, q, q]).Some? && InsertAll([q, q, q, q, b]).None?
    ensures InsertAll([p, q, q, q]).Some? && InsertAll([p, q, q, q, b]).None?
  {
    var one := Node(Leaf, q, Leaf, 1);
    var two := Node(Leaf, q, one, 2);
    var three := Node(Leaf, q, two, 3);
    AllEqual(q, one, two, three);
    EntersNone([q, q, q, q], b, Node(Leaf, q, three, 4));
    BehindAnother(p, q, one, two, three);
    EntersNone([p, q, q, q], b, Node(Leaf, p, three, 4));
    assert [q, q, q] + [q] == [q, q, q, q] && [q, q, q, q] + [b] == [q, q, q, q, b];
    assert [p, q, q, q] + [b] == [p, q, q, q, b];
  }

  lemma AllEqual(q: Contact, one: Tree, two: Tree, three: Tree)
    requires one == Node(Leaf, q, Leaf, 1) && two == Node(Leaf, q, one, 2) && three == Node(Leaf, q, two, 3)
    ensures InsertAll([q, q, q, q]) == Some(Node(Leaf, q, three, 4))
  {
    EntersInto([], q, Leaf, one);
    EntersInto([] + [q], q, one, two);
    EntersInto([] + [q] + [q], q, two, three);
    EntersInto([] + [q] + [q] + [q], q, three, Node(Leaf, q, three, 4));
    assert [] + [q] + [q] + [q] + [q] == [q, q, q, q];
  }

  lemma BehindAnother(p: Contact, q: Contact, one: Tree, two: Tree, three: Tree)
    requires Compare(p, q) < 0 && one == Node(Leaf, q, Leaf, 1) && two == Node(Leaf, q, one, 2) && three == Node(Leaf, q, two, 3)
    ensures InsertAll([p, q, q, q]) == Some(Node(Leaf, p, three, 4))
  {
    CompareSwap(q, p);
    EntersInto([], p, Leaf, Node(Leaf, p, Leaf, 1));
    EntersInto([] + [p], q, Node(Leaf, p, Leaf, 1), Node(Leaf, p, one, 2));
    EntersInto([] + [p] + [q], q, Node(Leaf, p, one, 2), Node(Leaf, p, two, 3));
    EntersInto([] + [p] + [q] + [q], q, Node(Leaf, p, two, 3), Node(Leaf, p, three, 4));
    assert [] + [p] + [q] + [q] + [q] == [p, q, q, q];
  }

  lemma EntersInto(cs: seq<Contact>, c: Contact, t: Tree, t': Tree)
    requires InsertAll(cs) == Some(t) && Insert(t, c) == Some(t')
    ensures InsertAll(cs + [c]) == Some(t')
  {
    assert (cs + [c])[..|cs|] == cs;
  }

  lemma EntersNone(cs: seq<Contact>, c: Contact, t: Tree)
    requires InsertAll(cs) == Some(t) && Insert(t, c) == None
    ensures InsertAll(cs + [c]) == None
  {
    assert (cs + [c])[..|cs|] == cs;
  }
}
