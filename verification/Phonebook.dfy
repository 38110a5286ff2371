// The phone book as a doubly linked list, kept in order by name. Contacts are
// compared by last and first name; the other fields are carried along.

module Phonebook {
  import opened Base
  import opened NameOrder

  datatype Record = Record(name: Contact, details: Bytes)

  ghost function Names(s: seq<Record>): seq<Contact> { seq(|s|, i requires 0 <= i < |s| => s[i].name) }

  ghost predicate InOrder(s: seq<Record>) { Sorted(Names(s)) }

  // ------------------------------------------------- insertion into the sequence

  // Behind the first record: before the first one that is not smaller.
  function InsertRest(s: seq<Record>, r: Record): (s': seq<Record>)
    ensures |s'| == |s| + 1
  {
    if s == [] || Compare(s[0].name, r.name) >= 0 then [r] + s else [s[0]] + InsertRest(s[1..], r)
  }

  function InsertRecord(s: seq<Record>, r: Record): (s': seq<Record>)
    ensures |s'| == |s| + 1
  {
    if s == [] || Compare(r.name, s[0].name) < 0 then [r] + s else [s[0]] + InsertRest(s[1..], r)
  }

  function RestPosition(s: seq<Record>, r: Record): (k: nat)
    ensures k <= |s|
  {
    if s == [] || Compare(s[0].name, r.name) >= 0 then 0 else RestPosition(s[1..], r) + 1
  }

  // How many records stay in front of the new one.
  function Position(s: seq<Record>, r: Record): (k: nat)
    ensures k <= |s|
  {
    if s == [] || Compare(r.name, s[0].name) < 0 then 0 else RestPosition(s[1..], r) + 1
  }

  function Splice(s: seq<Record>, k: nat, r: Record): seq<Record>
    requires k <= |s|
  {
    s[..k] + [r] + s[k..]
  }

  lemma SpliceBehindFirst(s: seq<Record>, k: nat, r: Record)
    requires 0 < k <= |s|
    ensures Splice(s, k, r) == [s[0]] + Splice(s[1..], k - 1, r)
  {
  }

  lemma {:induction false} InsertRestSplices(s: seq<Record>, r: Record)
    ensures InsertRest(s, r) == Splice(s, RestPosition(s, r), r)
  {
    if s != [] && Compare(s[0].name, r.name) < 0 {
      InsertRestSplices(s[1..], r);
      SpliceBehindFirst(s, RestPosition(s, r), r);
    }
  }

  lemma InsertSplices(s: seq<Record>, r: Record)
    ensures InsertRecord(s, r) == Splice(s, Position(s, r), r)
  {
    if s != [] && Compare(r.name, s[0].name) >= 0 {
      InsertRestSplices(s[1..], r);
      SpliceBehindFirst(s, Position(s, r), r);
    }
  }

  // A place with smaller records in front and none behind is the place.
  lemma {:induction false} RestPositionIs(s: seq<Record>, r: Record, k: nat)
    requires k <= |s|
    requires forall i :: 0 <= i < k ==> Compare(s[i].name, r.name) < 0
    requires k < |s| ==> Compare(s[k].name, r.name) >= 0
    ensures RestPosition(s, r) == k
  {
    if k > 0 { RestPositionIs(s[1..], r, k - 1); }
  }

  lemma {:induction false} RestPositionSides(s: seq<Record>, r: Record)
    ensures forall i :: 0 <= i < RestPosition(s, r) ==> Compare(s[i].name, r.name) < 0
    ensures RestPosition(s, r) < |s| ==> Compare(s[RestPosition(s, r)].name, r.name) >= 0
  {
    if s != [] && Compare(s[0].name, r.name) < 0 { RestPositionSides(s[1..], r); }
  }

  // In an ordered sequence nothing in front of the place is greater, and nothing
  // behind it is smaller.
  lemma PositionFits(s: seq<Record>, r: Record, i: nat)
    requires InOrder(s) && i < |s|
    ensures if i < Position(s, r) then Compare(s[i].name, r.name) <= 0 else Compare(r.name, s[i].name) <= 0
  {
    var k := Position(s, r);
    if k > 0 { RestPositionSides(s[1..], r); }
    if i < k {
      CompareSwap(r.name, s[0].name);
    } else {
      CompareSwap(s[k].name, r.name);
      if k < i {
        assert Compare(Names(s)[k], Names(s)[i]) <= 0;
        CompareTransitive(r.name, s[k].name, s[i].name);
      }
    }
  }

  // Among equal names the new record comes first, but never in front of the first
  // record of the book.
  lemma PlaceAmongEquals(s: seq<Record>, r: Record, i: nat)
    requires InOrder(s) && i < |s|
    ensures i < Position(s, r) <==> Compare(s[i].name, r.name) < 0 || (i == 0 && s[0].name == r.name)
  {
    var k := Position(s, r);
    PositionFits(s, r, i);
    CompareSwap(r.name, s[i].name);
    CompareSwap(r.name, s[0].name);
    if k > 0 {
      RestPositionSides(s[1..], r);
      if k <= i && k < |s| {
        assert Compare(Names(s)[k], Names(s)[i]) <= 0 || i == k;
        CompareSwap(s[k].name, r.name);
        CompareTransitive(r.name, s[k].name, s[i].name);
      }
    }
  }

  lemma SpliceOrdered(s: seq<Record>, k: nat, r: Record)
    requires InOrder(s) && k <= |s|
    requires forall i :: 0 <= i < |s| ==> if i < k then Compare(s[i].name, r.name) <= 0 else Compare(r.name, s[i].name) <= 0
    ensures InOrder(Splice(s, k, r))
  {
    var s' := Splice(s, k, r);
    forall i, j | 0 <= i < j < |s'| ensures Compare(Names(s')[i], Names(s')[j]) <= 0 {
      var i', j' := if i < k then i else i - 1, if j < k then j else j - 1;
      if i != k && j != k { assert Compare(Names(s)[i'], Names(s)[j']) <= 0; }
    }
  }

  // Adding keeps the order, adds one record and drops none.
  lemma InsertRecordKeepsOrder(s: seq<Record>, r: Record)
    requires InOrder(s)
    ensures InOrder(InsertRecord(s, r))
    ensures multiset(InsertRecord(s, r)) == multiset(s) + multiset{r}
  {
    var k := Position(s, r);
    InsertSplices(s, r);
    assert s == s[..k] + s[k..];
    forall i | 0 <= i < |s|
      ensures if i < k then Compare(s[i].name, r.name) <= 0 else Compare(r.name, s[i].name) <= 0
    {
      PositionFits(s, r, i);
    }
    SpliceOrdered(s, k, r);
  }

  lemma DeleteKeepsOrder(s: seq<Record>, k: nat)
    requires InOrder(s) && k < |s|
    ensures InOrder(s[..k] + s[k + 1..])
    ensures multiset(s[..k] + s[k + 1..]) + multiset{s[k]} == multiset(s)
  {
    var s' := s[..k] + s[k + 1..];
    assert s == s[..k] + [s[k]] + s[k + 1..];
    forall i, j | 0 <= i < j < |s'| ensures Compare(Names(s')[i], Names(s')[j]) <= 0 {
      assert Compare(Names(s)[if i < k then i else i + 1], Names(s)[if j < k then j else j + 1]) <= 0;
    }
  }

  // -------------------------------------------------------------- linked nodes

  class Node {
    const data: Record
    var prev: Node?
    var next: Node?

    constructor (data: Record)
      ensures this.data == data && prev == null && next == null
    {
      this.data, prev, next := data, null, null;
    }
  }

  // From `head` the nodes follow each other in both directions.
  ghost predicate Linked(head: Node?, nodes: seq<Node>)
    reads nodes
  {
    && (nodes == [] <==> head == null)
    && (nodes != [] ==> head == nodes[0] && nodes[0].prev == null && nodes[|nodes| - 1].next == null)
    && (forall i, j :: 0 <= i && j == i + 1 && j < |nodes| ==> nodes[i].next == nodes[j] && nodes[j].prev == nodes[i])
    && (forall i, j :: 0 <= i < j < |nodes| ==> nodes[i] != nodes[j])
  }

  ghost function Data(nodes: seq<Node>): (r: seq<Record>)
    ensures |r| == |nodes|
  {
    seq(|nodes|, i requires 0 <= i < |nodes| => nodes[i].data)
  }

  class Book {
    var head: Node?
    ghost var nodes: seq<Node>

    ghost predicate Valid()
      reads this, nodes
    {
      Linked(head, nodes) && InOrder(Data(nodes))
    }

    constructor ()
      ensures Valid() && nodes == []
    {
      head, nodes := null, [];
    }

    // Walk to the last node in front of the new one.
    method FindPlace(r: Record) returns (cur: Node)
      requires Linked(head, nodes) && nodes != [] && Compare(r.name, nodes[0].data.name) >= 0
      ensures 0 < Position(Data(nodes), r) <= |nodes| && cur == nodes[Position(Data(nodes), r) - 1]
    {
      ghost var k := 1;
      cur := head;
      while cur.next != null && Compare(cur.next.data.name, r.name) < 0
        invariant 0 < k <= |nodes| && cur == nodes[k - 1] && cur.next == (if k < |nodes| then nodes[k] else null)
        invariant forall i :: 0 < i < k ==> Compare(nodes[i].data.name, r.name) < 0
        decreases |nodes| - k
      {
        assert k + 1 < |nodes| ==> nodes[k].next == nodes[k + 1];
        cur := cur.next;
        k := k + 1;
      }
      PositionUnique(Data(nodes), r, k);
    }

    method LinkBehind(cur: Node, n: Node, ghost k: nat)
      requires Linked(head, nodes) && 0 < k <= |nodes| && cur == nodes[k - 1]
      requires n !in nodes && n.next == null && n.prev == null
      modifies nodes, n, this`nodes
      ensures Linked(head, nodes) && nodes == old(nodes)[..k] + [n] + old(nodes)[k..]
    {
      assert cur.next == (if k < |nodes| then nodes[k] else null);
      n.next := cur.next;
      if cur.next != null { cur.next.prev := n; }
      cur.next := n;
      n.prev := cur;
      nodes := nodes[..k] + [n] + nodes[k..];
      assert forall i :: 0 <= i < |nodes| && i != k ==> nodes[i] == old(nodes)[if i < k then i else i - 1];
    }

    method LinkFirst(n: Node)
      requires Linked(head, nodes) && n !in nodes && n.next == null && n.prev == null
      modifies this, nodes, n
      ensures Linked(head, nodes) && nodes == [n] + old(nodes)
    {
      if head != null {
        n.next := head;
        head.prev := n;
      }
      head := n;
      nodes := [n] + nodes;
    }

    method Add(r: Record)
      requires Valid()
      modifies this, nodes
      ensures Valid() && Data(nodes) == InsertRecord(old(Data(nodes)), r)
    {
      ghost var data := InsertRecord(Data(nodes), r);
      InsertRecordKeepsOrder(Data(nodes), r);
      InsertSplices(Data(nodes), r);
      Place(r);
      assert Data(nodes) == data;
    }

    method Place(r: Record)
      requires Linked(head, nodes)
      modifies this, nodes
      ensures Linked(head, nodes) && Data(nodes) == Splice(old(Data(nodes)), Position(old(Data(nodes)), r), r)
    {
      var n := new Node(r);
      if head == null || Compare(r.name, head.data.name) < 0 {
        LinkFirst(n);
      } else {
        var cur := FindPlace(r);
        LinkBehind(cur, n, Position(Data(nodes), r));
      }
    }

    // Any negative index means the first node.
    method GetByIndex(index: int) returns (cur: Node?)
      requires Linked(head, nodes)
      ensures var k := if index < 0 then 0 else index;
              if k < |nodes| then cur == nodes[k] else cur == null
    {
      cur := head;
      var i := 0;
      while cur != null && i < index
        invariant 0 <= i && (index >= 0 ==> i <= index) && (index < 0 ==> i == 0)
        invariant i <= |nodes| && (cur == null <==> i == |nodes|) && (i < |nodes| ==> cur == nodes[i])
      {
        assert i + 1 < |nodes| ==> nodes[i].next == nodes[i + 1];
        cur := cur.next;
        i := i + 1;
      }
    }

    method Unlink(c: Node, ghost k: nat)
      requires Linked(head, nodes) && k < |nodes| && c == nodes[k]
      modifies this, nodes
      ensures Linked(head, nodes) && nodes == old(nodes)[..k] + old(nodes)[k + 1..]
    {
      assert c.prev == (if k > 0 then nodes[k - 1] else null);
      assert c.next == (if k + 1 < |nodes| then nodes[k + 1] else null);
      if c.prev != null { c.prev.next := c.next; } else { head := c.next; }
      if c.next != null { c.next.prev := c.prev; }
      nodes := nodes[..k] + nodes[k + 1..];
      assert forall i :: 0 <= i < |nodes| ==> nodes[i] == old(nodes)[if i < k then i else i + 1];
    }

    // Deleting at an index removes exactly that record, or reports an error.
    method Delete(index: int) returns (ok: bool)
      requires Valid()
      modifies this, nodes
      ensures Valid()
      ensures var k := if index < 0 then 0 else index;
              && (ok <==> k < |old(nodes)|)
              && (ok ==> Data(nodes) == old(Data(nodes))[..k] + old(Data(nodes))[k + 1..])
              && (!ok ==> nodes == old(nodes))
    {
      if head == null { return false; }
      var c := GetByIndex(index);
      if c == null { return false; }
      DeleteNode(c, if index < 0 then 0 else index);
      ok := true;
    }

    method DeleteNode(c: Node, ghost k: nat)
      requires Valid() && k < |nodes| && c == nodes[k]
      modifies this, nodes
      ensures Valid() && Data(nodes) == old(Data(nodes))[..k] + old(Data(nodes))[k + 1..]
    {
      ghost var data := Data(nodes)[..k] + Data(nodes)[k + 1..];
      DeleteKeepsOrder(Data(nodes), k);
      Unlink(c, k);
      assert Data(nodes) == data;
    }
  }

  lemma PositionUnique(s: seq<Record>, r: Record, k: nat)
    requires 0 < k <= |s| && Compare(r.name, s[0].name) >= 0
    requires forall i :: 0 < i < k ==> Compare(s[i].name, r.name) < 0
    requires k < |s| ==> Compare(s[k].name, r.name) >= 0
    ensures k == Position(s, r)
  {
    RestPositionIs(s[1..], r, k - 1);
  }
}
