// The broker's subscription table: an array of subscribers with their topics,
// which behaves as a relation between processes and topics.

module PubSub {
  import opened Base

  const MAX_TEXT := 1024

  type Topic = Bytes

  datatype Subscriber = Subscriber(pid: int, topics: seq<Topic>)

  // What sscanf makes of a message.
  datatype Command = Subscribe(pid: int, topic: Topic) | Unsubscribe(pid: int, topic: Topic)
                   | Send(pid: int, topic: Topic) | Unknown

  datatype Delivery = Delivery(pid: int, text: Bytes)

  ghost predicate Distinct<T>(s: seq<T>) { forall i, j :: 0 <= i < j < |s| ==> s[i] != s[j] }

  // Who is subscribed to what.
  ghost function Relation(subs: seq<Subscriber>): set<(int, Topic)> {
    set i, j | 0 <= i < |subs| && 0 <= j < |subs[i].topics| :: (subs[i].pid, subs[i].topics[j])
  }

  // One row per process, no topic twice, no row without topics.
  ghost predicate Proper(subs: seq<Subscriber>) {
    && (forall i, j :: 0 <= i < j < |subs| ==> subs[i].pid != subs[j].pid)
    && (forall i :: 0 <= i < |subs| ==> Distinct(subs[i].topics) && subs[i].topics != [])
  }

  ghost function Apply(relation: set<(int, Topic)>, c: Command): set<(int, Topic)> {
    match c
    case Subscribe(pid, topic) => relation + {(pid, topic)}
    case Unsubscribe(pid, topic) => relation - {(pid, topic)}
    case _ => relation
  }

  // Exactly one delivery of `text` to each process subscribed to `topic`.
  ghost predicate DeliveredOnce(out: seq<Delivery>, relation: set<(int, Topic)>, topic: Topic, text: Bytes) {
    && (forall i, j :: 0 <= i < j < |out| ==> out[i].pid != out[j].pid)
    && (forall i :: 0 <= i < |out| ==> out[i].text == text)
    && (forall pid :: (pid, topic) in relation <==> exists i :: 0 <= i < |out| && out[i].pid == pid)
  }

  // strncpy into the message buffer, cut to leave room for the NUL.
  function Cut(text: Bytes): Bytes { CString(text)[..Min(|CString(text)|, MAX_TEXT - 1)] }

  // A text without NUL is delivered whole up to 1023 bytes, and cut behind them.
  lemma CutKeeps(text: Bytes)
    requires 0 !in text
    ensures Cut(text) == text[..Min(|text|, 1023)]
    ensures |text| <= 1023 ==> Cut(text) == text
  {
    CStringOfPadded(text, []);
    assert text + [] == text;
  }

  // The relation after a sequence of commands.
  ghost function After(commands: seq<Command>): set<(int, Topic)> {
    if commands == [] then {} else Apply(After(commands[..|commands| - 1]), commands[|commands| - 1])
  }

  // Command `i` subscribes, and no later one unsubscribes.
  ghost predicate Stands(commands: seq<Command>, i: nat, pid: int, topic: Topic) {
    && i < |commands| && commands[i] == Subscribe(pid, topic)
    && Unsubscribe(pid, topic) !in commands[i + 1..]
  }

  lemma StandsSnoc(commands: seq<Command>, c: Command, i: nat, pid: int, topic: Topic)
    ensures Stands(commands + [c], i, pid, topic) <==>
            if i == |commands| then c == Subscribe(pid, topic)
            else Stands(commands, i, pid, topic) && c != Unsubscribe(pid, topic)
  {
    if i < |commands| { assert (commands + [c])[i + 1..] == commands[i + 1..] + [c]; }
  }

  // A process is subscribed to a topic if and only if it has subscribed and not
  // unsubscribed since.
  lemma {:induction false} LastWordCounts(commands: seq<Command>, pid: int, topic: Topic)
    ensures (pid, topic) in After(commands) <==> exists i: nat :: Stands(commands, i, pid, topic)
  {
    if commands != [] {
      var front, c := commands[..|commands| - 1], commands[|commands| - 1];
      assert commands == front + [c];
      LastWordCounts(front, pid, topic);
      forall i: nat
        ensures Stands(commands, i, pid, topic) <==>
                if i == |front| then c == Subscribe(pid, topic) else Stands(front, i, pid, topic) && c != Unsubscribe(pid, topic)
      {
        StandsSnoc(front, c, i, pid, topic);
      }
      if c == Subscribe(pid, topic) {
        assert Stands(commands, |front|, pid, topic);
      } else if i: nat :| Stands(front, i, pid, topic) {
        assert i != |front|;
        assert c != Unsubscribe(pid, topic) ==> Stands(commands, i, pid, topic);
      }
    }
  }

  ghost predicate Holds(subs: seq<Subscriber>, pid: int, topic: Topic) {
    exists i :: 0 <= i < |subs| && subs[i].pid == pid && topic in subs[i].topics
  }

  lemma RelationRow(subs: seq<Subscriber>, k: nat, topic: Topic)
    requires Proper(subs) && k < |subs|
    ensures (subs[k].pid, topic) in Relation(subs) <==> topic in subs[k].topics
  {
  }

  // A row as the broker keeps it: the topics are the first `count` of an array.
  datatype Entry = Entry(pid: int, topics: array<Topic>, count: nat)

  ghost predicate IsRow(e: Entry, row: Subscriber)
    reads e.topics
  {
    e.count <= e.topics.Length && row == Subscriber(e.pid, e.topics[..e.count])
  }

  // Where element `i` was before element `k` left.
  function Behind(k: nat, i: nat): nat { if i < k then i else i + 1 }

  // The elements behind `k` move one place to the front.
  method ShiftDown<T>(a: array<T>, k: nat, n: nat)
    requires k < n <= a.Length
    modifies a
    ensures a[..n - 1] == old(a[..k] + a[k + 1..n])
  {
    var j := k;
    while j < n - 1
      invariant k <= j < n
      invariant forall m :: 0 <= m < j ==> a[m] == old(a[if m < k then m else m + 1])
      invariant forall m :: j <= m < n ==> a[m] == old(a[m])
    {
      a[j] := a[j + 1];
      j := j + 1;
    }
  }

  class Broker {
    var publishers: array<int>
    var pubCount: nat
    var subscribers: array<Entry>
    var subCount: nat
    ghost var table: seq<Subscriber>  // what the rows hold
    ghost var pool: set<array<Topic>> // the topics arrays of the rows

    // The arrays hold the table, and no two rows share their topics.
    ghost predicate Laid()
      reads this`subscribers, this`subCount, this`table, this`pool, subscribers, pool
    {
      && |table| == subCount <= subscribers.Length
      && (forall i :: 0 <= i < subCount ==> subscribers[i].topics in pool)
      && (forall i :: 0 <= i < subCount ==> IsRow(subscribers[i], table[i]))
      && (forall i, j :: 0 <= i < j < subCount ==> subscribers[i].topics != subscribers[j].topics)
    }

    ghost predicate ProperTable()
      reads this`subscribers, this`subCount, this`table, this`pool, subscribers, pool
    {
      Laid() && Proper(table)
    }

    ghost predicate ProperPublishers()
      reads this`publishers, this`pubCount, publishers
    {
      pubCount <= publishers.Length && Distinct(publishers[..pubCount])
    }

    ghost predicate Valid()
      reads this, subscribers, publishers, pool
    {
      ProperTable() && ProperPublishers()
    }

    constructor ()
      ensures Valid() && Relation(table) == {} && pubCount == 0
      ensures fresh(publishers) && fresh(subscribers) && fresh(pool)
    {
      publishers, pubCount := new int[0], 0;
      subscribers, subCount, table, pool := new Entry[0], 0, [], {};
    }

    method FindSubscriber(pid: int) returns (idx: int)
      requires Laid()
      ensures -1 <= idx < subCount
      ensures idx >= 0 ==> subscribers[idx].pid == pid
      ensures idx == -1 ==> forall i :: 0 <= i < subCount ==> subscribers[i].pid != pid
    {
      var i := 0;
      while i < subCount
        invariant 0 <= i <= subCount
        invariant forall k :: 0 <= k < i ==> subscribers[k].pid != pid
      {
        if subscribers[i].pid == pid { return i; }
        i := i + 1;
      }
      idx := -1;
    }

    method FindTopic(idx: nat, topic: Topic) returns (k: nat)
      requires Laid() && idx < subCount
      ensures var topics := table[idx].topics;
              && k <= |topics| == subscribers[idx].count
              && topic !in topics[..k] && (k < |topics| ==> topics[k] == topic)
    {
      k := 0;
      while k < subscribers[idx].count
        invariant k <= subscribers[idx].count && topic !in subscribers[idx].topics[..k]
      {
        if subscribers[idx].topics[k] == topic { return; }
        k := k + 1;
      }
    }

    // realloc of the table for a row without topics.
    method AddRow(pid: int)
      requires Laid()
      modifies this`subscribers, this`subCount, this`table, this`pool
      ensures Laid() && fresh(subscribers) && fresh(pool - old(pool)) && old(pool) <= pool
      ensures table == old(table) + [Subscriber(pid, [])]
    {
      var rows, n := subscribers, subCount;
      var none := new Topic[0];
      var e := Entry(pid, none, 0);
      var grown := new Entry[n + 1](i requires 0 <= i <= n <= rows.Length reads rows => if i < n then rows[i] else e);
      subscribers, subCount, pool := grown, n + 1, pool + {none};
      table := table + [Subscriber(pid, [])];
    }

    // realloc of the topics of one row, and the new topic behind them.
    method AddTopic(idx: nat, topic: Topic)
      requires Laid() && idx < subCount
      modifies this`table, this`pool, subscribers
      ensures Laid() && fresh(pool - old(pool)) && old(pool) <= pool
      ensures table == WithTopic(old(table), idx, topic)
    {
      var e := subscribers[idx];
      var grown := new Topic[e.count + 1](i requires 0 <= i <= e.count <= e.topics.Length reads e.topics =>
                                            if i < e.count then e.topics[i] else []);
      grown[e.count] := topic;
      subscribers[idx] := Entry(e.pid, grown, e.count + 1);
      pool := pool + {grown};
      assert grown[..e.count + 1] == e.topics[..e.count] + [topic];
      table := WithTopic(table, idx, topic);
    }

    method AddSubscription(pid: int, topic: Topic)
      requires ProperTable()
      modifies this`subscribers, this`subCount, this`table, this`pool, subscribers
      ensures ProperTable() && fresh(pool - old(pool)) && (subscribers == old(subscribers) || fresh(subscribers))
      ensures Relation(table) == Relation(old(table)) + {(pid, topic)}
    {
      ghost var before := table;
      var idx := FindSubscriber(pid);
      if idx == -1 {
        idx := subCount;
        AddRow(pid);
      }
      ghost var grown := table;
      var k := FindTopic(idx, topic);
      if k < subscribers[idx].count {
        RelationRow(before, idx, topic);
        return;
      }
      AddTopic(idx, topic);
      PairAdded(before, grown, table, idx, pid, topic);
    }

    // The topics of one row behind `k` move to the front.
    method RemoveTopic(idx: nat, k: nat)
      requires Laid() && idx < subCount && k < subscribers[idx].count
      modifies this`table, subscribers, subscribers[idx].topics
      ensures Laid()
      ensures k < |old(table)[idx].topics| && table == WithoutTopic(old(table), idx, k)
    {
      var e := subscribers[idx];
      ShiftDown(e.topics, k, e.count);
      assert e.topics[..e.count - 1] == table[idx].topics[..k] + table[idx].topics[k + 1..];
      subscribers[idx] := e.(count := e.count - 1);
      table := WithoutTopic(table, idx, k);
    }

    // The rows behind `idx` move to the front.
    method RemoveRow(idx: nat)
      requires Laid() && idx < subCount
      modifies this`table, this`subCount, subscribers
      ensures Laid() && table == old(table)[..idx] + old(table)[idx + 1..]
    {
      ghost var es := subscribers[..subCount];
      ShiftDown(subscribers, idx, subCount);
      subCount := subCount - 1;
      table := table[..idx] + table[idx + 1..];
      forall i | 0 <= i < subCount
        ensures subscribers[i] == es[Behind(idx, i)] && subscribers[i].topics in pool && IsRow(subscribers[i], table[i])
      {
        assert subscribers[i] == subscribers[..subCount][i];
      }
      forall i, j | 0 <= i < j < subCount ensures subscribers[i].topics != subscribers[j].topics {
        assert es[Behind(idx, i)].topics != es[Behind(idx, j)].topics;
      }
    }

    method RemoveSubscription(pid: int, topic: Topic)
      requires ProperTable()
      modifies this`table, this`subCount, subscribers, pool
      ensures ProperTable() && Relation(table) == Relation(old(table)) - {(pid, topic)}
    {
      ghost var before := table;
      var idx := FindSubscriber(pid);
      if idx == -1 { return; }
      var k := FindTopic(idx, topic);
      if k < subscribers[idx].count {
        RemoveTopic(idx, k);
      }
      ghost var shrunk := table;
      if subscribers[idx].count == 0 {
        RemoveRow(idx);
      }
      PairRemoved(before, shrunk, table, idx, k, topic);
    }

    // One attempt to send to every subscriber of the topic.
    method ForwardMessage(text: Bytes, topic: Topic) returns (out: seq<Delivery>)
      requires ProperTable()
      ensures DeliveredOnce(out, Relation(table), topic, Cut(text))
    {
      out := [];
      ghost var rows: seq<nat> := [];
      var i := 0;
      while i < subCount
        invariant 0 <= i <= subCount && |rows| == |out|
        invariant forall m :: 0 <= m < |rows| ==> rows[m] < i && out[m] == Delivery(table[rows[m]].pid, Cut(text))
        invariant forall m, n :: 0 <= m < n < |rows| ==> rows[m] < rows[n]
        invariant forall m :: 0 <= m < i ==> (topic in table[m].topics <==> m in rows)
      {
        var k := FindTopic(i, topic);
        if k < subscribers[i].count {
          out := out + [Delivery(subscribers[i].pid, Cut(text))];
          rows := rows + [i];
        }
        i := i + 1;
      }
      RowsDeliver(table, rows, out, topic, Cut(text));
    }

    method AddPublisher(pid: int)
      requires ProperPublishers()
      modifies this`publishers, this`pubCount
      ensures ProperPublishers() && (publishers == old(publishers) || fresh(publishers))
      ensures publishers[..pubCount]
              == if pid in old(publishers[..pubCount]) then old(publishers[..pubCount]) else old(publishers[..pubCount]) + [pid]
    {
      var i := 0;
      while i < pubCount
        invariant 0 <= i <= pubCount && pid !in publishers[..i]
      {
        if publishers[i] == pid { return; }
        i := i + 1;
      }
      var pids, n := publishers, pubCount;
      publishers := new int[n + 1](i requires 0 <= i <= n <= pids.Length reads pids => if i < n then pids[i] else pid);
      pubCount := n + 1;
      assert publishers[..n + 1] == pids[..n] + [pid];
    }

    method ProcessMessage(c: Command, text: Bytes) returns (out: seq<Delivery>)
      requires Valid()
      modifies this, subscribers, pool
      ensures Valid() && Relation(table) == Apply(Relation(old(table)), c)
      ensures fresh(pool - old(pool)) && (subscribers == old(subscribers) || fresh(subscribers))
      ensures c.Send? ==> DeliveredOnce(out, Relation(table), c.topic, Cut(text))
      ensures !c.Send? ==> out == [] && publishers == old(publishers) && pubCount == old(pubCount)
    {
      out := [];
      match c
      case Subscribe(pid, topic) => AddSubscription(pid, topic);
      case Unsubscribe(pid, topic) => RemoveSubscription(pid, topic);
      case Send(pid, topic) =>
        AddPublisher(pid);
        out := ForwardMessage(text, topic);
      case Unknown =>
    }
  }

  // Tables that hold the same pairs but for one.
  lemma SameBut(subs: seq<Subscriber>, subs': seq<Subscriber>, pid: int, topic: Topic, added: bool)
    requires Holds(subs', pid, topic) == added
    requires forall p, t :: (p, t) != (pid, topic) ==> (Holds(subs', p, t) <==> Holds(subs, p, t))
    ensures Relation(subs') == if added then Relation(subs) + {(pid, topic)} else Relation(subs) - {(pid, topic)}
  {
  }

  // One more topic in a row.
  lemma TopicAdded(subs: seq<Subscriber>, k: nat, topic: Topic)
    requires Proper(subs) && k < |subs| && topic !in subs[k].topics
    ensures var subs' := subs[k := Subscriber(subs[k].pid, subs[k].topics + [topic])];
            Proper(subs') && Relation(subs') == Relation(subs) + {(subs[k].pid, topic)}
  {
    var subs' := subs[k := Subscriber(subs[k].pid, subs[k].topics + [topic])];
    assert subs'[k].pid == subs[k].pid && topic in subs'[k].topics;
    forall p, t | (p, t) != (subs[k].pid, topic) ensures Holds(subs', p, t) <==> Holds(subs, p, t) {
      if Holds(subs', p, t) {
        var i :| 0 <= i < |subs'| && subs'[i].pid == p && t in subs'[i].topics;
        assert subs[i].pid == p && t in subs[i].topics;
      }
      if Holds(subs, p, t) {
        var i :| 0 <= i < |subs| && subs[i].pid == p && t in subs[i].topics;
        assert subs'[i].pid == p && t in subs'[i].topics;
      }
    }
    SameBut(subs, subs', subs[k].pid, topic, true);
  }

  // A new row.
  lemma RowAdded(subs: seq<Subscriber>, pid: int, topic: Topic)
    requires Proper(subs) && forall i :: 0 <= i < |subs| ==> subs[i].pid != pid
    ensures var subs' := subs + [Subscriber(pid, [topic])];
            Proper(subs') && Relation(subs') == Relation(subs) + {(pid, topic)}
  {
    var subs' := subs + [Subscriber(pid, [topic])];
    assert subs'[|subs|].pid == pid && topic in subs'[|subs|].topics;
    forall p, t | (p, t) != (pid, topic) ensures Holds(subs', p, t) <==> Holds(subs, p, t) {
      if Holds(subs, p, t) {
        var i :| 0 <= i < |subs| && subs[i].pid == p && t in subs[i].topics;
        assert subs'[i].pid == p && t in subs'[i].topics;
      }
    }
    SameBut(subs, subs', pid, topic, true);
  }

  // One topic less in a row that keeps others.
  lemma TopicRemoved(subs: seq<Subscriber>, k: nat, j: nat)
    requires Proper(subs) && k < |subs| && j < |subs[k].topics| && |subs[k].topics| > 1
    ensures var subs' := subs[k := Subscriber(subs[k].pid, subs[k].topics[..j] + subs[k].topics[j + 1..])];
            Proper(subs') && Relation(subs') == Relation(subs) - {(subs[k].pid, subs[k].topics[j])}
  {
    var topics, topics' := subs[k].topics, subs[k].topics[..j] + subs[k].topics[j + 1..];
    var subs' := subs[k := Subscriber(subs[k].pid, topics')];
    assert forall i :: 0 <= i < |topics'| ==> topics'[i] == topics[if i < j then i else i + 1];
    assert forall i :: 0 <= i < |topics| && i != j ==> topics[i] == topics'[if i < j then i else i - 1];
    forall p, t | (p, t) != (subs[k].pid, topics[j]) ensures Holds(subs', p, t) <==> Holds(subs, p, t) {
      if Holds(subs', p, t) {
        var i :| 0 <= i < |subs'| && subs'[i].pid == p && t in subs'[i].topics;
        assert subs[i].pid == p && t in subs[i].topics;
      }
      if Holds(subs, p, t) {
        var i :| 0 <= i < |subs| && subs[i].pid == p && t in subs[i].topics;
        assert subs'[i].pid == p && t in subs'[i].topics;
      }
    }
    assert !Holds(subs', subs[k].pid, topics[j]);
    SameBut(subs, subs', subs[k].pid, topics[j], false);
  }

  // The row of a single topic disappears with it.
  lemma RowRemoved(subs: seq<Subscriber>, k: nat)
    requires Proper(subs) && k < |subs| && |subs[k].topics| == 1
    ensures var subs' := subs[..k] + subs[k + 1..];
            Proper(subs') && Relation(subs') == Relation(subs) - {(subs[k].pid, subs[k].topics[0])}
  {
    var subs' := subs[..k] + subs[k + 1..];
    assert forall i :: 0 <= i < |subs'| ==> subs'[i] == subs[if i < k then i else i + 1];
    forall p, t | (p, t) != (subs[k].pid, subs[k].topics[0]) ensures Holds(subs', p, t) <==> Holds(subs, p, t) {
      if Holds(subs, p, t) {
        var i :| 0 <= i < |subs| && subs[i].pid == p && t in subs[i].topics;
        assert subs'[if i < k then i else i - 1] == subs[i];
      }
    }
    SameBut(subs, subs', subs[k].pid, subs[k].topics[0], false);
  }

  function WithTopic(table: seq<Subscriber>, k: nat, topic: Topic): seq<Subscriber>
    requires k < |table|
  {
    table[k := Subscriber(table[k].pid, table[k].topics + [topic])]
  }

  // Row `k` is the one the topic goes into, an old one or a new one at the end.
  ghost predicate Enters(subs: seq<Subscriber>, table: seq<Subscriber>, k: nat, pid: int, topic: Topic) {
    && k < |table| && table[k].pid == pid && topic !in table[k].topics
    && (|| table == subs
        || (table == subs + [Subscriber(pid, [])] && k == |subs| && forall i :: 0 <= i < |subs| ==> subs[i].pid != pid))
  }

  // What adding does: a row for the process if it has none, and the topic in it.
  lemma PairAdded(subs: seq<Subscriber>, table: seq<Subscriber>, subs': seq<Subscriber>, k: nat, pid: int, topic: Topic)
    requires Proper(subs) && Enters(subs, table, k, pid, topic) && subs' == WithTopic(table, k, topic)
    ensures Proper(subs') && Relation(subs') == Relation(subs) + {(pid, topic)}
  {
    if k < |subs| {
      TopicAdded(subs, k, topic);
    } else {
      RowAdded(subs, pid, topic);
      assert [] + [topic] == [topic];
      assert table[k := Subscriber(pid, [topic])] == subs + [Subscriber(pid, [topic])];
    }
  }

  function WithoutTopic(table: seq<Subscriber>, k: nat, j: nat): seq<Subscriber>
    requires k < |table| && j < |table[k].topics|
  {
    table[k := Subscriber(table[k].pid, table[k].topics[..j] + table[k].topics[j + 1..])]
  }

  // What removing does: the topic, if there, and the row when it was the last.
  lemma PairRemoved(subs: seq<Subscriber>, table: seq<Subscriber>, subs': seq<Subscriber>, k: nat, j: nat, topic: Topic)
    requires Proper(subs) && k < |subs| && j <= |subs[k].topics|
    requires topic !in subs[k].topics[..j] && (j < |subs[k].topics| ==> subs[k].topics[j] == topic)
    requires table == if j < |subs[k].topics| then WithoutTopic(subs, k, j) else subs
    requires subs' == if table[k].topics == [] then table[..k] + table[k + 1..] else table
    ensures Proper(subs') && Relation(subs') == Relation(subs) - {(subs[k].pid, topic)}
  {
    if j == |subs[k].topics| {
      RelationRow(subs, k, topic);
    } else if |subs[k].topics| == 1 {
      RowRemoved(subs, k);
      assert subs' == subs[..k] + subs[k + 1..];
    } else {
      TopicRemoved(subs, k, j);
    }
  }

  lemma RowsDeliver(subs: seq<Subscriber>, rows: seq<nat>, out: seq<Delivery>, topic: Topic, text: Bytes)
    requires Proper(subs) && |rows| == |out|
    requires forall m :: 0 <= m < |rows| ==> rows[m] < |subs| && out[m] == Delivery(subs[rows[m]].pid, text)
    requires forall m, n :: 0 <= m < n < |rows| ==> rows[m] < rows[n]
    requires forall m :: 0 <= m < |subs| ==> (topic in subs[m].topics <==> m in rows)
    ensures DeliveredOnce(out, Relation(subs), topic, text)
  {
  }
}
