// The echo server's table of clients: a singly linked list, relinked in place,
// that numbers the messages of every endpoint.

module ClientTable {
  import opened Base

  const CLOSE: Bytes := [67, 76, 79, 83, 69]
  const INT_MAX := 0x7fff_ffff

  datatype Key = Key(ip: nat, port: nat)

  // A datagram for the server: its sender and its data.
  datatype Packet = Packet(from: Key, data: Bytes)

  predicate IsClose(data: Bytes) { CString(data) == CLOSE }

  // How many messages an endpoint has sent since its last CLOSE.
  function SinceClose(history: seq<Packet>, key: Key): (r: nat)
    ensures r <= |history|
  {
    if history == [] then 0 else
    var p := history[|history| - 1];
    if p.from != key then SinceClose(history[..|history| - 1], key)
    else if IsClose(p.data) then 0
    else SinceClose(history[..|history| - 1], key) + 1
  }

  lemma SinceCloseStep(history: seq<Packet>, p: Packet, key: Key)
    ensures SinceClose(history + [p], key)
            == if p.from != key then SinceClose(history, key)
               else if IsClose(p.data) then 0 else SinceClose(history, key) + 1
  {
  }

  lemma CloseIsCLOSE(data: Bytes)
    requires 0 !in data
    ensures IsClose(data) <==> data == Ascii("CLOSE")
    ensures IsClose(Ascii("CLOSE") + [0] + data)
  {
    assert Ascii("CLOSE") == CLOSE;
    CStringOfPadded(data, []);
    assert data + [] == data;
    CStringOfPadded(CLOSE, [0] + data);
    assert CLOSE + ([0] + data) == CLOSE + [0] + data;
  }

  // The messages of an endpoint among the packets from the `c`-th on.
  ghost function MessagesFrom(history: seq<Packet>, key: Key, c: nat): set<int> {
    set i | c <= i < |history| && history[i].from == key
  }

  lemma OneMoreFrom(history: seq<Packet>, p: Packet, key: Key, c: nat)
    requires c <= |history|
    ensures |MessagesFrom(history + [p], key, c)| == |MessagesFrom(history, key, c)| + (if p.from == key then 1 else 0)
  {
    var n := |history|;
    assert MessagesFrom(history + [p], key, c) == MessagesFrom(history, key, c) + (if p.from == key then {n} else {});
    assert n !in MessagesFrom(history, key, c);
  }

  // The number is how many packets of the endpoint there are behind its last CLOSE,
  // or in all when it sent none.
  lemma {:induction false} NumberCounts(history: seq<Packet>, key: Key, c: nat)
    requires c <= |history|
    requires c == 0 || (history[c - 1].from == key && IsClose(history[c - 1].data))
    requires forall i :: c <= i < |history| && history[i].from == key ==> !IsClose(history[i].data)
    ensures SinceClose(history, key) == |MessagesFrom(history, key, c)|
  {
    if |history| == c {
      assert MessagesFrom(history, key, c) == {};
    } else {
      var n := |history| - 1;
      var front := history[..n];
      NumberCounts(front, key, c);
      OneMoreFrom(front, history[n], key, c);
      assert history == front + [history[n]];
    }
  }

  // ------------------------------------------------------- the table as rows

  datatype Row = Row(key: Key, counter: int)

  ghost predicate Listed(rows: seq<Row>, key: Key) { exists i :: 0 <= i < |rows| && rows[i].key == key }

  // One row for every endpoint with messages since its last CLOSE, holding their
  // number, and no other rows.
  ghost predicate Counted(rows: seq<Row>, history: seq<Packet>) {
    && (forall i, j :: 0 <= i < j < |rows| ==> rows[i].key != rows[j].key)
    && (forall i :: 0 <= i < |rows| ==> rows[i].counter == SinceClose(history, rows[i].key) > 0)
    && (forall key :: SinceClose(history, key) > 0 ==> Listed(rows, key))
  }

  // Without the first row for `key`.
  function RemoveRow(rows: seq<Row>, key: Key): seq<Row> {
    if rows == [] then [] else if rows[0].key == key then rows[1..] else [rows[0]] + RemoveRow(rows[1..], key)
  }

  lemma SplitFirst(rows: seq<Row>, k: nat)
    requires 1 <= k < |rows|
    ensures rows[..k] + rows[k + 1..] == [rows[0]] + (rows[1..][..k - 1] + rows[1..][k..])
  {
  }

  lemma {:induction false} RemoveRowAt(rows: seq<Row>, key: Key, k: nat)
    requires k <= |rows| && (k < |rows| ==> rows[k].key == key)
    requires forall i :: 0 <= i < k ==> rows[i].key != key
    ensures RemoveRow(rows, key) == if k < |rows| then rows[..k] + rows[k + 1..] else rows
    decreases |rows|
  {
    if rows != [] && rows[0].key != key {
      RemoveRowAt(rows[1..], key, k - 1);
      if k < |rows| { SplitFirst(rows, k); }
    }
  }

  lemma CountedAbsent(rows: seq<Row>, history: seq<Packet>, p: Packet)
    requires Counted(rows, history) && IsClose(p.data) && !Listed(rows, p.from)
    ensures Counted(rows, history + [p])
  {
  }

  // Where a row is found after row `k` is gone.
  function Old(k: nat, i: nat): nat { if i < k then i else i + 1 }

  lemma CountedClose(rows: seq<Row>, rows': seq<Row>, history: seq<Packet>, p: Packet, k: nat)
    requires Counted(rows, history) && IsClose(p.data) && k < |rows| && rows[k].key == p.from
    requires |rows'| == |rows| - 1 && forall i :: 0 <= i < |rows'| ==> rows'[i] == rows[Old(k, i)]
    ensures Counted(rows', history + [p])
  {
    forall i, j | 0 <= i < j < |rows'| ensures rows'[i].key != rows'[j].key {
      assert rows[Old(k, i)].key != rows[Old(k, j)].key;
    }
    forall i | 0 <= i < |rows'|
      ensures rows'[i].counter == SinceClose(history + [p], rows'[i].key) > 0
    {
      SinceCloseStep(history, p, rows'[i].key);
      assert rows[Old(k, i)].key != rows[k].key;
    }
    forall key | SinceClose(history + [p], key) > 0 ensures Listed(rows', key) {
      SinceCloseStep(history, p, key);
      var i :| 0 <= i < |rows| && rows[i].key == key;
      assert rows'[if i < k then i else i - 1].key == key;
    }
  }

  lemma CountedFirst(rows: seq<Row>, history: seq<Packet>, p: Packet)
    requires Counted(rows, history) && !IsClose(p.data) && !Listed(rows, p.from)
    ensures Counted([Row(p.from, 1)] + rows, history + [p])
    ensures SinceClose(history + [p], p.from) == 1
  {
    var rows' := [Row(p.from, 1)] + rows;
    SinceCloseStep(history, p, p.from);
    forall i | 0 <= i < |rows'|
      ensures rows'[i].counter == SinceClose(history + [p], rows'[i].key) > 0
    {
      SinceCloseStep(history, p, rows'[i].key);
    }
    forall key | SinceClose(history + [p], key) > 0 ensures Listed(rows', key) {
      SinceCloseStep(history, p, key);
      if key == p.from {
        assert rows'[0].key == key;
      } else {
        var i :| 0 <= i < |rows| && rows[i].key == key;
        assert rows'[i + 1].key == key;
      }
    }
  }

  lemma CountedNext(rows: seq<Row>, history: seq<Packet>, p: Packet, k: nat)
    requires Counted(rows, history) && !IsClose(p.data) && k < |rows| && rows[k].key == p.from
    ensures Counted(rows[k := Row(p.from, rows[k].counter + 1)], history + [p])
    ensures SinceClose(history + [p], p.from) == rows[k].counter + 1
  {
    var rows' := rows[k := Row(p.from, rows[k].counter + 1)];
    SinceCloseStep(history, p, p.from);
    forall i | 0 <= i < |rows'|
      ensures rows'[i].counter == SinceClose(history + [p], rows'[i].key) > 0
    {
      SinceCloseStep(history, p, rows'[i].key);
    }
    forall key | SinceClose(history + [p], key) > 0 ensures Listed(rows', key) {
      SinceCloseStep(history, p, key);
      var i :| 0 <= i < |rows| && rows[i].key == key;
      assert rows'[i].key == key;
    }
  }

  // ------------------------------------------------------------ the linked list

  class Entry {
    const key: Key
    var counter: int
    var next: Entry?

    constructor (key: Key, next: Entry?)
      ensures this.key == key && counter == 1 && this.next == next
    {
      this.key, counter, this.next := key, 1, next;
    }
  }

  // The list that starts at `head` consists of `nodes`.
  ghost predicate Linked(head: Entry?, nodes: seq<Entry>)
    reads nodes
  {
    && (nodes == [] <==> head == null)
    && (nodes != [] ==> head == nodes[0] && nodes[|nodes| - 1].next == null)
    && (forall i, j :: 0 <= i && j == i + 1 && j < |nodes| ==> nodes[i].next == nodes[j])
    && (forall i, j :: 0 <= i < j < |nodes| ==> nodes[i] != nodes[j])
  }

  ghost function Rows(nodes: seq<Entry>): (r: seq<Row>)
    reads nodes
    ensures |r| == |nodes|
  {
    seq(|nodes|, i requires 0 <= i < |nodes| reads nodes => Row(nodes[i].key, nodes[i].counter))
  }

  class Server {
    var clients: Entry?
    ghost var nodes: seq<Entry>
    ghost var history: seq<Packet>

    ghost predicate Valid()
      reads this, nodes
    {
      Linked(clients, nodes) && Counted(Rows(nodes), history)
    }

    constructor ()
      ensures Valid() && history == []
    {
      clients, nodes, history := null, [], [];
    }

    method FindClient(key: Key) returns (cur: Entry?, ghost k: nat)
      requires Linked(clients, nodes)
      ensures cur == null ==> !Listed(Rows(nodes), key)
      ensures cur != null ==> k < |nodes| && cur == nodes[k] && cur.key == key
    {
      k := 0;
      cur := clients;
      while cur != null
        invariant 0 <= k <= |nodes| && (cur == null <==> k == |nodes|) && (k < |nodes| ==> cur == nodes[k])
        invariant forall i :: 0 <= i < k ==> nodes[i].key != key
        decreases |nodes| - k
      {
        if cur.key == key { return; }
        assert k + 1 < |nodes| ==> nodes[k].next == nodes[k + 1];
        cur := cur.next;
        k := k + 1;
      }
    }

    method AddClient(key: Key)
      requires Linked(clients, nodes)
      modifies this`clients, this`nodes
      ensures clients != null && fresh(clients) && clients.key == key && clients.counter == 1
      ensures nodes == [clients] + old(nodes) && Linked(clients, nodes)
      ensures Rows(nodes) == [Row(key, 1)] + old(Rows(nodes))
    {
      var head := new Entry(key, clients);
      nodes := [head] + nodes;
      clients := head;
    }

    // Redirect the pointer that leads to entry `k`.
    method Unlink(prev: Entry?, cur: Entry, ghost k: nat)
      requires Linked(clients, nodes) && k < |nodes| && cur == nodes[k]
      requires k == 0 ==> prev == null
      requires k > 0 ==> prev == nodes[k - 1]
      modifies this`clients, this`nodes, nodes
      ensures Linked(clients, nodes) && Rows(nodes) == old(Rows(nodes)[..k] + Rows(nodes)[k + 1..])
    {
      assert k + 1 < |nodes| ==> nodes[k].next == nodes[k + 1];
      if prev == null { clients := cur.next; } else { prev.next := cur.next; }
      nodes := nodes[..k] + nodes[k + 1..];
      assert forall i :: 0 <= i < |nodes| ==> nodes[i] == old(nodes)[if i < k then i else i + 1];
    }

    // Unlink the first entry with this key, through the pointer that leads to it.
    method RemoveClient(key: Key)
      requires Linked(clients, nodes)
      modifies this`clients, this`nodes, nodes
      ensures Linked(clients, nodes) && Rows(nodes) == RemoveRow(old(Rows(nodes)), key)
    {
      var prev: Entry? := null;
      var cur := clients;
      ghost var k := 0;
      while cur != null
        invariant Linked(clients, nodes) && nodes == old(nodes) && Rows(nodes) == old(Rows(nodes))
        invariant 0 <= k <= |nodes| && (cur == null <==> k == |nodes|) && (k < |nodes| ==> cur == nodes[k])
        invariant (k == 0 ==> prev == null) && (k > 0 ==> prev == nodes[k - 1])
        invariant forall i :: 0 <= i < k ==> nodes[i].key != key
        decreases |nodes| - k
      {
        if cur.key == key {
          RemoveRowAt(Rows(nodes), key, k);
          Unlink(prev, cur, k);
          return;
        }
        assert k + 1 < |nodes| ==> nodes[k].next == nodes[k + 1];
        prev := cur;
        cur := cur.next;
        k := k + 1;
      }
      RemoveRowAt(Rows(nodes), key, k);
    }

    method Increment(client: Entry, ghost k: nat)
      requires Linked(clients, nodes) && k < |nodes| && client == nodes[k]
      modifies client`counter
      ensures Linked(clients, nodes) && client.counter == old(client.counter) + 1
      ensures Rows(nodes) == old(Rows(nodes))[k := Row(client.key, client.counter)]
    {
      client.counter := client.counter + 1;
    }

    method CountFirst(p: Packet)
      requires Valid() && !IsClose(p.data) && !Listed(Rows(nodes), p.from)
      modifies this, nodes
      ensures Valid() && history == old(history) + [p]
      ensures clients != null && clients.counter == 1 == SinceClose(history, p.from)
    {
      ghost var rows := [Row(p.from, 1)] + Rows(nodes);
      CountedFirst(Rows(nodes), history, p);
      AddClient(p.from);
      history := history + [p];
      assert Rows(nodes) == rows;
    }

    method CountNext(client: Entry, ghost k: nat, p: Packet)
      requires Valid() && !IsClose(p.data) && k < |nodes| && client == nodes[k] && client.key == p.from
      modifies this, nodes
      ensures Valid() && history == old(history) + [p] && client.counter == SinceClose(history, p.from)
    {
      ghost var rows := Rows(nodes)[k := Row(p.from, client.counter + 1)];
      CountedNext(Rows(nodes), history, p, k);
      Increment(client, k);
      history := history + [p];
      assert Rows(nodes) == rows;
    }

    method CountMessage(p: Packet) returns (number: int)
      requires Valid() && !IsClose(p.data)
      modifies this, nodes
      ensures Valid() && history == old(history) + [p] && number == SinceClose(history, p.from)
    {
      var client;
      ghost var k;
      client, k := FindClient(p.from);
      if client == null {
        CountFirst(p);
        client := clients;
      } else {
        CountNext(client, k, p);
      }
      number := client.counter;
    }

    // The reply to a message carries its number; CLOSE gets none.
    method ProcessMessage(p: Packet) returns (number: Option<int>)
      requires Valid() && (IsClose(p.data) || SinceClose(history, p.from) < INT_MAX)
      modifies this, nodes
      ensures Valid() && history == old(history) + [p]
      ensures number.None? <==> IsClose(p.data)
      ensures number.Some? ==> number.value == SinceClose(history, p.from) <= INT_MAX
    {
      if CString(p.data) == CLOSE {
        CloseKeeps(Rows(nodes), history, p);
        RemoveClient(p.from);
        history := history + [p];
        number := None;
      } else {
        SinceCloseStep(history, p, p.from);
        var n := CountMessage(p);
        number := Some(n);
      }
    }
  }

  lemma CloseKeeps(rows: seq<Row>, history: seq<Packet>, p: Packet)
    requires Counted(rows, history) && IsClose(p.data)
    ensures Counted(RemoveRow(rows, p.from), history + [p])
  {
    if Listed(rows, p.from) {
      var k :| 0 <= k < |rows| && rows[k].key == p.from;
      RemoveOnlyRow(rows, p.from, k);
      CountedClose(rows, RemoveRow(rows, p.from), history, p, k);
    } else {
      RemoveRowAt(rows, p.from, |rows|);
      CountedAbsent(rows, history, p);
    }
  }

  lemma RemoveOnlyRow(rows: seq<Row>, key: Key, k: nat)
    requires k < |rows| && rows[k].key == key
    requires forall i, j :: 0 <= i < j < |rows| ==> rows[i].key != rows[j].key
    ensures |RemoveRow(rows, key)| == |rows| - 1
    ensures forall i :: 0 <= i < |rows| - 1 ==> RemoveRow(rows, key)[i] == rows[Old(k, i)]
  {
    forall i | 0 <= i < k ensures rows[i].key != key { assert rows[i].key != rows[k].key; }
    RemoveRowAt(rows, key, k);
  }
}
