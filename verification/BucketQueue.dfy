// The priority queue: one linked list per priority. It behaves as a single
// sequence in order of arrival from which the oldest fitting entry is taken.

module BucketQueue {
  const MAX_PRIORITY := 256

  datatype Item = Item(data: int, priority: nat)

  // ------------------------------------------------------ the abstract queue

  // The entries of one priority, oldest first.
  function Filter(q: seq<Item>, p: nat): seq<Item> {
    if q == [] then [] else (if q[0].priority == p then [q[0]] else []) + Filter(q[1..], p)
  }

  // Without the oldest entry of priority `p`.
  function RemoveFirst(q: seq<Item>, p: nat): seq<Item> {
    if q == [] then [] else if q[0].priority == p then q[1..] else [q[0]] + RemoveFirst(q[1..], p)
  }

  lemma {:induction false} FilterAppend(q: seq<Item>, item: Item, p: nat)
    ensures Filter(q + [item], p) == Filter(q, p) + (if item.priority == p then [item] else [])
  {
    if q == [] {
      assert q + [item] == [item] && Filter([], p) == [];
    } else {
      assert (q + [item])[1..] == q[1..] + [item];
      FilterAppend(q[1..], item, p);
    }
  }

  // Taking the oldest entry of one priority leaves the others in their order.
  lemma {:induction false} FilterRemove(q: seq<Item>, p: nat, p': nat)
    requires Filter(q, p) != []
    ensures Filter(RemoveFirst(q, p), p') == if p' == p then Filter(q, p)[1..] else Filter(q, p')
  {
    if q[0].priority != p {
      FilterRemove(q[1..], p, p');
      assert ([q[0]] + RemoveFirst(q[1..], p))[1..] == RemoveFirst(q[1..], p);
    }
  }

  // Nothing else is lost.
  lemma {:induction false} RemoveConserves(q: seq<Item>, p: nat)
    requires Filter(q, p) != []
    ensures multiset(RemoveFirst(q, p)) + multiset{Filter(q, p)[0]} == multiset(q)
    ensures Filter(q, p)[0] in q
  {
    assert q == [q[0]] + q[1..];
    if q[0].priority != p { RemoveConserves(q[1..], p); }
  }

  // The entry that is taken is the first one of its priority, and the others close up.
  lemma {:induction false} OldestLeaves(q: seq<Item>, p: nat) returns (k: nat)
    requires Filter(q, p) != []
    ensures k < |q| && q[k].priority == p && (forall i :: 0 <= i < k ==> q[i].priority != p)
    ensures Filter(q, p)[0] == q[k] && RemoveFirst(q, p) == q[..k] + q[k + 1..]
  {
    if q[0].priority == p {
      k := 0;
    } else {
      k := OldestLeaves(q[1..], p);
      assert q[..k + 1] == [q[0]] + q[1..][..k];
      k := k + 1;
    }
  }

  lemma {:induction false} FilterEmpty(q: seq<Item>, p: nat)
    ensures Filter(q, p) == [] <==> forall item <- q :: item.priority != p
  {
    if q != [] {
      FilterEmpty(q[1..], p);
      assert q == [q[0]] + q[1..];
    }
  }

  // `item` is the oldest entry of the greatest priority that is at least `min`.
  ghost predicate IsBest(q: seq<Item>, min: int, item: Item) {
    && item in q && item.priority >= min
    && (forall other <- q :: other.priority <= item.priority)
    && Filter(q, item.priority) != [] && item == Filter(q, item.priority)[0]
  }

  // ---------------------------------------------------------------------- runs

  // A dequeue of any kind takes the oldest entry of some priority.
  datatype Op = Put(item: Item) | Take(priority: nat)

  datatype History = History(queue: seq<Item>, put: seq<Item>, taken: seq<Item>)

  function Apply(h: History, op: Op): History {
    match op
    case Put(item) => h.(queue := h.queue + [item], put := h.put + [item])
    case Take(p) =>
      if Filter(h.queue, p) == [] then h
      else h.(queue := RemoveFirst(h.queue, p), taken := h.taken + [Filter(h.queue, p)[0]])
  }

  function Replay(ops: seq<Op>): History {
    if ops == [] then History([], [], []) else Apply(Replay(ops[..|ops| - 1]), ops[|ops| - 1])
  }

  ghost predicate Conserved(h: History, p: nat) {
    && Filter(h.put, p) == Filter(h.taken, p) + Filter(h.queue, p)
    && multiset(h.put) == multiset(h.taken) + multiset(h.queue)
  }

  lemma PutConserves(h: History, item: Item, p: nat)
    requires Conserved(h, p)
    ensures Conserved(Apply(h, Put(item)), p)
  {
    FilterAppend(h.queue, item, p);
    FilterAppend(h.put, item, p);
  }

  lemma TakeConserves(h: History, p': nat, p: nat)
    requires Conserved(h, p) && Filter(h.queue, p') != []
    ensures Conserved(Apply(h, Take(p')), p)
  {
    TakeKeepsOrder(h.queue, h.taken, p', p);
    RemoveConserves(h.queue, p');
  }

  lemma TakeKeepsOrder(queue: seq<Item>, taken: seq<Item>, p': nat, p: nat)
    requires Filter(queue, p') != []
    ensures Filter(taken + [Filter(queue, p')[0]], p) + Filter(RemoveFirst(queue, p'), p)
            == Filter(taken, p) + Filter(queue, p)
  {
    var f := Filter(queue, p');
    FilterPriority(queue, p');
    assert f[0] in f;
    FilterAppend(taken, f[0], p);
    FilterRemove(queue, p', p);
    if p == p' { Shift(Filter(taken, p), f); } else { Nothing(Filter(taken, p)); }
  }

  lemma Shift(a: seq<Item>, f: seq<Item>)
    requires f != []
    ensures (a + [f[0]]) + f[1..] == a + f
  {
  }

  lemma Nothing(a: seq<Item>)
    ensures a + [] == a
  {
  }

  // Over any run, what was put in is what was taken out and what remains, and
  // within every priority it leaves in the order in which it came.
  lemma {:induction false} FirstInFirstOut(ops: seq<Op>, p: nat)
    ensures Conserved(Replay(ops), p)
  {
    if ops != [] {
      var h := Replay(ops[..|ops| - 1]);
      FirstInFirstOut(ops[..|ops| - 1], p);
      match ops[|ops| - 1]
      case Put(item) => PutConserves(h, item, p);
      case Take(p') => if Filter(h.queue, p') != [] { TakeConserves(h, p', p); }
    }
  }

  lemma {:induction false} FilterPriority(q: seq<Item>, p: nat)
    ensures forall item <- Filter(q, p) :: item.priority == p
  {
    if q != [] { FilterPriority(q[1..], p); }
  }

  // --------------------------------------------------------------- the buckets

  class Node {
    const item: Item
    var next: Node?

    constructor (item: Item)
      ensures this.item == item && next == null
    {
      this.item, next := item, null;
    }
  }

  ghost predicate Linked(head: Node?, nodes: seq<Node>)
    reads nodes
  {
    && (nodes == [] <==> head == null)
    && (nodes != [] ==> head == nodes[0] && nodes[|nodes| - 1].next == null)
    && (forall i, j :: 0 <= i && j == i + 1 && j < |nodes| ==> nodes[i].next == nodes[j])
    && (forall i, j :: 0 <= i < j < |nodes| ==> nodes[i] != nodes[j])
  }

  ghost function Items(nodes: seq<Node>): (r: seq<Item>)
    ensures |r| == |nodes|
  {
    seq(|nodes|, i requires 0 <= i < |nodes| => nodes[i].item)
  }

  class PriorityQueue {
    const heads: array<Node?>
    ghost var buckets: seq<seq<Node>>
    ghost var pool: set<Node>
    ghost var queue: seq<Item>

    // Bucket `p` is a list of the entries of priority `p` in order of arrival.
    ghost predicate Valid()
      reads this, heads, pool
    {
      && |buckets| == MAX_PRIORITY && Chained() && Matches(queue)
      && (forall item <- queue :: item.priority < MAX_PRIORITY)
    }

    constructor ()
      ensures Valid() && fresh(heads) && heads.Length == 256 && queue == []
    {
      heads := new Node?[MAX_PRIORITY](_ => null);
      buckets, pool, queue := seq(MAX_PRIORITY, _ => []), {}, [];
    }

    // Walk to the last node of a bucket.
    method Tail(p: nat) returns (t: Node)
      requires p < heads.Length == |buckets| && Linked(heads[p], buckets[p]) && heads[p] != null
      ensures t == buckets[p][|buckets[p]| - 1]
    {
      ghost var nodes, k := buckets[p], 0;
      t := heads[p];
      while t.next != null
        invariant 0 <= k < |nodes| && t == nodes[k] && (k + 1 < |nodes| ==> t.next == nodes[k + 1])
        decreases |nodes| - k
      {
        t := t.next;
        k := k + 1;
        assert k + 1 < |nodes| ==> nodes[k].next == nodes[k + 1];
      }
    }

    // The lists alone, without what they mean.
    ghost predicate Chained()
      reads this, heads, pool
    {
      && heads.Length == |buckets|
      && (forall p :: 0 <= p < |buckets| ==> forall n <- buckets[p] :: n in pool && n.item.priority == p)
      && (forall p :: 0 <= p < |buckets| ==> Linked(heads[p], buckets[p]))
    }

    ghost predicate Matches(q: seq<Item>)
      reads this
    {
      forall p :: 0 <= p < |buckets| ==> Items(buckets[p]) == Filter(q, p)
    }

    method Link(n: Node)
      requires Chained() && n.item.priority < heads.Length && n !in pool && n.next == null
      modifies heads, pool, this`buckets, this`pool
      ensures Chained() && var p := n.item.priority; buckets == old(buckets)[p := old(buckets)[p] + [n]]
      ensures fresh(pool - old(pool) - {n})
    {
      var p := n.item.priority;
      assert Linked(heads[p], buckets[p]);
      if heads[p] == null {
        heads[p] := n;
      } else {
        var t := Tail(p);
        t.next := n;
      }
      buckets := buckets[p := buckets[p] + [n]];
      pool := pool + {n};
      forall q | 0 <= q < |buckets| ensures Linked(heads[q], buckets[q]) {
        assert old(Linked(heads[q], buckets[q]));
      }
    }

    method Enqueue(data: int, priority: nat)
      requires Valid() && priority < MAX_PRIORITY
      modifies this, heads, pool
      ensures Valid() && fresh(pool - old(pool)) && queue == old(queue) + [Item(data, priority)]
    {
      var n := new Node(Item(data, priority));
      ghost var item, was := Item(data, priority), buckets;
      Link(n);
      forall p | 0 <= p < |buckets| ensures Items(buckets[p]) == Filter(queue + [item], p) {
        FilterAppend(queue, item, p);
        assert Items(was[p]) == Filter(queue, p);
      }
      queue := queue + [item];
    }

    // Take the first node off a bucket that has one.
    method Unlink(p: nat) returns (n: Node)
      requires Chained() && p < heads.Length && heads[p] != null
      modifies heads, this`buckets
      ensures Chained() && old(buckets)[p] != [] && n == old(buckets)[p][0]
      ensures buckets == old(buckets)[p := old(buckets)[p][1..]]
    {
      assert Linked(heads[p], buckets[p]);
      assert |buckets[p]| > 1 ==> buckets[p][0].next == buckets[p][1];
      n := heads[p];
      heads[p] := n.next;
      buckets := buckets[p := buckets[p][1..]];
      forall q | 0 <= q < |buckets| ensures Linked(heads[q], buckets[q]) {
        assert old(Linked(heads[q], buckets[q]));
      }
    }

    method Dequeue(p: nat) returns (n: Node)
      requires Valid() && p < MAX_PRIORITY && heads[p] != null
      modifies this, heads
      ensures Valid() && Filter(old(queue), p) != [] && n.item == Filter(old(queue), p)[0]
      ensures queue == RemoveFirst(old(queue), p)
    {
      ghost var was := buckets;
      n := Unlink(p);
      assert Items(was[p]) == Filter(queue, p);
      forall q | 0 <= q < |buckets| ensures Items(buckets[q]) == Filter(RemoveFirst(queue, p), q) {
        FilterRemove(queue, p, q);
        assert Items(was[q]) == Filter(queue, q);
      }
      RemoveConserves(queue, p);
      forall item <- RemoveFirst(queue, p) ensures item.priority < MAX_PRIORITY {
        assert item in multiset(RemoveFirst(queue, p));
        assert item in multiset(queue);
      }
      queue := RemoveFirst(queue, p);
    }

    // The oldest entry of priority `p`, or null when there is none.
    method DequeueByPriority(p: nat) returns (n: Node?)
      requires Valid() && p < MAX_PRIORITY
      modifies this, heads
      ensures Valid()
      ensures n == null <==> Filter(old(queue), p) == []
      ensures n == null ==> queue == old(queue)
      ensures n != null ==> n.item == Filter(old(queue), p)[0] && queue == RemoveFirst(old(queue), p)
    {
      EmptyBucket(p);
      if heads[p] != null {
        n := Dequeue(p);
      } else {
        n := null;
      }
    }

    // A bucket is empty exactly when no entry has its priority.
    lemma EmptyBucket(p: nat)
      requires Valid() && p < MAX_PRIORITY
      ensures heads[p] == null <==> Filter(queue, p) == []
      ensures heads[p] == null <==> forall item <- queue :: item.priority != p
    {
      assert Linked(heads[p], buckets[p]) && Items(buckets[p]) == Filter(queue, p);
      FilterEmpty(queue, p);
    }

    // The oldest entry of the greatest priority not below `min`, or null exactly
    // when there is no such entry. With a negative bound an empty queue makes the loop
    // run on below the first bucket.
    method DequeueAtLeast(min: int) returns (n: Node?)
      requires Valid() && (min >= 0 || queue != [])
      modifies this, heads
      ensures Valid()
      ensures n == null <==> forall item <- old(queue) :: item.priority < min
      ensures n == null ==> queue == old(queue)
      ensures n != null ==> IsBest(old(queue), min, n.item) && queue == RemoveFirst(old(queue), n.item.priority)
    {
      var i := MAX_PRIORITY - 1;
      while i >= min
        invariant min - 1 <= i < MAX_PRIORITY || i == MAX_PRIORITY - 1 < min
        invariant i >= -1
        invariant Valid() && queue == old(queue)
        invariant forall item <- queue :: item.priority <= i || item.priority < min
      {
        assert min < 0 ==> queue[0] in queue && i >= queue[0].priority;
        EmptyBucket(i);
        if heads[i] != null {
          RemoveConserves(queue, i);
          n := Dequeue(i);
          assert n.item.priority == i by { FilterPriority(old(queue), i); }
          return;
        }
        i := i - 1;
      }
      n := null;
    }

    method DequeueHighest() returns (n: Node?)
      requires Valid()
      modifies this, heads
      ensures Valid()
      ensures n == null <==> old(queue) == []
      ensures n == null ==> queue == old(queue)
      ensures n != null ==> IsBest(old(queue), 0, n.item) && queue == RemoveFirst(old(queue), n.item.priority)
    {
      n := DequeueAtLeast(0);
      assert old(queue) != [] ==> old(queue)[0] in old(queue);
    }
  }
}
