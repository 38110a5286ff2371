// The chat relay as it runs: an array of clients, each with a buffer of
// unconsumed bytes, and broadcasts to all the others.

module RelayServer {
  import opened Base
  import opened RelayStream

  const BUFFER_SIZE := 4096

  // What survives between two reads.
  datatype Session = Session(control: Auto, left: Bytes)

  function Settle(a: Auto): Session {
    match a.mode
    case Line(text) => Session(a.(mode := Line([])), text)
    case Stuck(pending) => Session(a.(mode := Stuck([])), pending)
    case File(_, _) => Session(a, [])
  }

  function Receive(env: Env, s: Session, chunk: Bytes): Session {
    Settle(Run(env, s.control, s.left + chunk))
  }

  function Feed(env: Env, s: Session, chunks: seq<Bytes>): Session {
    if chunks == [] then s else Receive(env, Feed(env, s, chunks[..|chunks| - 1]), chunks[|chunks| - 1])
  }

  ghost predicate NoNewline(a: Auto) { a.mode.Line? ==> NEWLINE !in a.mode.text }

  lemma {:induction false} RunNoNewline(env: Env, a: Auto, s: Bytes)
    requires NoNewline(a)
    ensures NoNewline(Run(env, a, s))
    decreases |s|
  {
    if s != [] { RunNoNewline(env, StepByte(env, a, s[0]), s[1..]); }
  }

  lemma SettleBack(env: Env, a: Auto)
    requires NoNewline(a)
    ensures Run(env, Settle(a).control, Settle(a).left) == a
  {
    match a.mode
    case Line(text) =>
      RunPartialLine(env, Settle(a).control, text);
      assert [] + text == text;
    case Stuck(pending) =>
      RunStuck(env, Settle(a).control, pending);
      assert [] + pending == pending;
    case File(_, _) =>
  }

  // After any reads the server is where the automaton is after the whole stream:
  // what the others receive does not depend on how the stream was cut.
  lemma {:induction false} FeedIsRun(env: Env, chunks: seq<Bytes>)
    ensures Feed(env, Settle(START), chunks) == Settle(Run(env, START, Flatten(chunks)))
  {
    if chunks != [] {
      var front, last := chunks[..|chunks| - 1], chunks[|chunks| - 1];
      var a := Run(env, START, Flatten(front));
      FeedIsRun(env, front);
      RunNoNewline(env, START, Flatten(front));
      SettleBack(env, a);
      RunConcat(env, Settle(a).control, Settle(a).left, last);
      RunConcat(env, START, Flatten(front), last);
    }
  }

  // A chat line as the others receive it, whatever reads it arrived in.
  lemma ChatInAnyReads(env: Env, chunks: seq<Bytes>, name: Bytes, text: Bytes)
    requires IsWord(name) && |name| <= 31 && IsWord(text)
    requires Flatten(chunks) == Ascii("NICK ") + name + Ascii("\n") + (Ascii("MSG ") + text + Ascii("\n"))
    ensures Feed(env, Settle(START), chunks)
            == Session(Auto(Line([]), name, Ascii("MSG ") + name + Ascii(" ") + text + Ascii("\n")), [])
  {
    assert Ascii("MSG ") + text + Ascii("\n") + [] == Ascii("MSG ") + text + Ascii("\n");
    ChatLine(env, [], [], name, text, []);
    FeedIsRun(env, chunks);
  }

  class Client {
    var fd: int
    var nick: Bytes
    var state: int
    var fileSize: nat
    var fileReceived: nat
    var buffer: array<Byte>
    var bufLen: nat
    ghost var relayed: Bytes   // what the server has broadcast for this client

    constructor (fd: int)
      ensures Valid() && fresh(buffer) && buffer.Length == 4096 && this.fd == fd && Snapshot() == Settle(START)
    {
      this.fd, nick, state, fileSize, fileReceived := fd, [], 0, 0, 0;
      buffer, bufLen, relayed := new Byte[BUFFER_SIZE], 0, [];
    }

    ghost predicate Valid()
      reads this
    {
      && buffer.Length == BUFFER_SIZE && bufLen <= BUFFER_SIZE && (state == 0 || state == 1)
      && (state == 1 ==> fileReceived < fileSize || fileReceived == fileSize == 0)
    }

    ghost function Control(): Auto
      reads this
    {
      Auto(if state == 0 then Line([]) else if fileSize == 0 then Stuck([]) else File(fileSize, fileReceived), nick, relayed)
    }

    ghost function Snapshot(): Session
      reads this, buffer
      requires Valid()
    {
      Session(Control(), buffer[..bufLen])
    }

    // memmove of the unconsumed bytes to the front of the buffer.
    method Consume(n: nat)
      requires Valid() && n <= bufLen
      modifies this`bufLen, buffer
      ensures Valid() && bufLen == old(bufLen) - n && buffer[..bufLen] == old(buffer[n..bufLen])
    {
      var rest := bufLen - n;
      forall i | 0 <= i < rest { buffer[i] := buffer[n + i]; }
      bufLen := rest;
      assert forall i :: 0 <= i < rest ==> buffer[i] == old(buffer[n + i]);
    }

    // memchr for the end of a line.
    method FindNewline() returns (k: nat)
      requires Valid()
      ensures k <= bufLen && NEWLINE !in buffer[..k] && (k < bufLen ==> buffer[k] == NEWLINE)
    {
      k := 0;
      while k < bufLen && buffer[k] != NEWLINE
        invariant k <= bufLen && NEWLINE !in buffer[..k]
      {
        k := k + 1;
      }
    }
  }

  // The descriptors of the client slots and the bytes sent on each of them. `patience`
  // says how many sends to a slot succeed before one fails.
  class Server {
    const env: Env
    const fds: array<int>
    const outbox: array<Bytes>
    var patience: seq<nat>

    constructor (env: Env, fds: array<int>, outbox: array<Bytes>, patience: seq<nat>)
      ensures this.env == env && this.fds == fds && this.outbox == outbox && this.patience == patience
    {
      this.env, this.fds, this.outbox, this.patience := env, fds, outbox, patience;
    }

    ghost predicate Valid()
      reads this
    {
      fds.Length == outbox.Length == |patience|
    }

    // Since `before`, when the descriptors were `live`, every live client but the
    // sender has received `delta`, or has been removed after a part of it.
    ghost predicate Delivered(before: seq<Bytes>, live: seq<int>, senderFd: int, delta: Bytes)
      reads this, fds, outbox
    {
      && Valid() && |before| == |live| == outbox.Length
      && (forall i :: 0 <= i < outbox.Length ==> SlotServed(before[i], live[i], outbox[i], fds[i], senderFd, delta))
    }

    method BroadcastMessage(msg: Bytes, senderFd: int)
      requires Valid()
      modifies outbox, fds, this`patience
      ensures Delivered(old(outbox[..]), old(fds[..]), senderFd, msg)
      ensures forall k :: 0 <= k < outbox.Length && 0 < old(patience[k]) ==> fds[k] == old(fds[k])
    {
      var i := 0;
      while i < outbox.Length
        invariant 0 <= i <= outbox.Length && Valid()
        invariant forall k :: i <= k < outbox.Length ==>
                    outbox[k] == old(outbox[k]) && fds[k] == old(fds[k]) && patience[k] == old(patience[k])
        invariant forall k :: 0 <= k < i ==> SlotServed(old(outbox[k]), old(fds[k]), outbox[k], fds[k], senderFd, msg)
        invariant forall k :: 0 <= k < i && 0 < old(patience[k]) ==> fds[k] == old(fds[k])
      {
        if fds[i] != -1 && fds[i] != senderFd {
          if patience[i] == 0 {
            fds[i] := -1;
          } else {
            patience := patience[i := patience[i] - 1];
            outbox[i] := outbox[i] + msg;
          }
        }
        i := i + 1;
      }
    }

    // A broadcast on behalf of `cl`.
    method Relay(cl: Client, msg: Bytes, ghost before: seq<Bytes>, ghost live: seq<int>, ghost delta: Bytes)
      requires Delivered(before, live, cl.fd, delta)
      modifies outbox, fds, this`patience, cl`relayed
      ensures Delivered(before, live, cl.fd, delta + msg) && cl.relayed == old(cl.relayed) + msg
    {
      ghost var middle, midFds := outbox[..], fds[..];
      BroadcastMessage(msg, cl.fd);
      cl.relayed := cl.relayed + msg;
      forall i | 0 <= i < outbox.Length
        ensures SlotServed(before[i], live[i], outbox[i], fds[i], cl.fd, delta + msg)
      {
        ServedTwice(before[i], live[i], middle[i], midFds[i], outbox[i], fds[i], cl.fd, delta, msg);
      }
    }

    method HandleLine(cl: Client, line: Bytes, ghost before: seq<Bytes>, ghost live: seq<int>, ghost delta: Bytes)
      returns (ghost delta': Bytes)
      requires cl.Valid() && Delivered(before, live, cl.fd, delta) && cl.state == 0
      modifies outbox, fds, this`patience, cl`relayed, cl`nick, cl`state, cl`fileSize, cl`fileReceived
      ensures cl.Valid() && Delivered(before, live, cl.fd, delta + delta')
      ensures cl.relayed == old(cl.relayed) + delta' && cl.Control() == Command(env, old(cl.Control()), line)
    {
      delta' := [];
      assert delta + [] == delta;
      var cmd := CString(line);
      if NICK <= cmd {
        cl.nick := cmd[5..][..Min(|cmd| - 5, MAX_NICK - 1)];
      } else if MSG <= cmd {
        delta' := MessageLine(cl.nick, cmd[4..]);
        Relay(cl, MessageLine(cl.nick, cmd[4..]), before, live, delta);
      } else if FILE <= cmd {
        match env.parseFile(cmd[5..])
        case None =>
        case Some(spec) =>
          cl.fileSize, cl.fileReceived, cl.state := spec.size, 0, 1;
          delta' := env.fileLine(cl.nick, spec);
          Relay(cl, env.fileLine(cl.nick, spec), before, live, delta);
      }
    }

    method ProcessLine(cl: Client, k: nat, ghost goal: Auto, ghost before: seq<Bytes>, ghost live: seq<int>, ghost delta: Bytes)
      returns (ghost delta': Bytes)
      requires cl.Valid() && Delivered(before, live, cl.fd, delta) && cl.state == 0
      requires k < cl.bufLen && cl.buffer[k] == NEWLINE && NEWLINE !in cl.buffer[..k]
      requires Run(env, cl.Control(), cl.buffer[..cl.bufLen]) == goal
      modifies outbox, fds, this`patience, cl`relayed, cl`nick, cl`state, cl`fileSize, cl`fileReceived, cl`bufLen, cl.buffer
      ensures cl.Valid() && Delivered(before, live, cl.fd, delta + delta') && cl.bufLen < old(cl.bufLen)
      ensures cl.relayed == old(cl.relayed) + delta' && Run(env, cl.Control(), cl.buffer[..cl.bufLen]) == goal
    {
      ghost var bytes := cl.buffer[..cl.bufLen];
      var line := cl.buffer[..k];
      assert line == bytes[..k];
      RunLine(env, cl.Control(), bytes, k);
      delta' := HandleLine(cl, line, before, live, delta);
      assert cl.buffer[k + 1..cl.bufLen] == bytes[k + 1..];
      cl.Consume(k + 1);
    }

    method ProcessFile(cl: Client, n: nat, ghost goal: Auto, ghost before: seq<Bytes>, ghost live: seq<int>, ghost delta: Bytes)
      returns (ghost delta': Bytes)
      requires cl.Valid() && Delivered(before, live, cl.fd, delta) && cl.state == 1
      requires 1 <= n <= cl.bufLen && cl.fileReceived + n <= cl.fileSize
      requires Run(env, cl.Control(), cl.buffer[..cl.bufLen]) == goal
      modifies outbox, fds, this`patience, cl`relayed, cl`state, cl`fileSize, cl`fileReceived, cl`bufLen, cl.buffer
      ensures cl.Valid() && Delivered(before, live, cl.fd, delta + delta') && cl.bufLen < old(cl.bufLen)
      ensures cl.relayed == old(cl.relayed) + delta' && Run(env, cl.Control(), cl.buffer[..cl.bufLen]) == goal
    {
      ghost var bytes := cl.buffer[..cl.bufLen];
      delta' := cl.buffer[..n];
      assert bytes == delta' + bytes[n..] && delta' == bytes[..n];
      RunConcat(env, cl.Control(), delta', bytes[n..]);
      RunFile(env, cl.Control(), delta');
      Relay(cl, cl.buffer[..n], before, live, delta);
      cl.fileReceived := cl.fileReceived + n;
      if cl.fileReceived == cl.fileSize {
        cl.state, cl.fileSize, cl.fileReceived := 0, 0, 0;
      }
      assert cl.buffer[n..cl.bufLen] == bytes[n..];
      cl.Consume(n);
    }

    // The loop over the buffer.
    method ProcessBuffer(cl: Client) returns (ghost delta: Bytes)
      requires Valid() && cl.Valid()
      modifies outbox, fds, this`patience, cl`relayed, cl`nick, cl`state, cl`fileSize, cl`fileReceived, cl`bufLen, cl.buffer
      ensures cl.Valid() && cl.Snapshot() == Settle(Run(env, old(cl.Control()), old(cl.buffer[..cl.bufLen])))
      ensures cl.relayed == old(cl.relayed) + delta && Delivered(old(outbox[..]), old(fds[..]), cl.fd, delta)
    {
      delta := [];
      ghost var goal := Run(env, cl.Control(), cl.buffer[..cl.bufLen]);
      while cl.bufLen > 0
        invariant cl.Valid() && Run(env, cl.Control(), cl.buffer[..cl.bufLen]) == goal
        invariant cl.relayed == old(cl.relayed) + delta && Delivered(old(outbox[..]), old(fds[..]), cl.fd, delta)
        decreases cl.bufLen
      {
        ghost var delta';
        if cl.state == 0 {
          var k := cl.FindNewline();
          if k == cl.bufLen {
            RunPartialLine(env, cl.Control(), cl.buffer[..cl.bufLen]);
            assert [] + cl.buffer[..cl.bufLen] == cl.buffer[..cl.bufLen];
            return;
          }
          delta' := ProcessLine(cl, k, goal, old(outbox[..]), old(fds[..]), delta);
        } else {
          var toRead := cl.fileSize - cl.fileReceived;
          if toRead > cl.bufLen { toRead := cl.bufLen; }
          if toRead == 0 {
            RunStuck(env, cl.Control(), cl.buffer[..cl.bufLen]);
            assert [] + cl.buffer[..cl.bufLen] == cl.buffer[..cl.bufLen];
            return;
          }
          delta' := ProcessFile(cl, toRead, goal, old(outbox[..]), old(fds[..]), delta);
        }
        assert old(cl.relayed) + delta + delta' == old(cl.relayed) + (delta + delta');
        delta := delta + delta';
      }
      assert cl.buffer[..cl.bufLen] == [];
    }

    // One read from the client; an empty one is its end.
    method ProcessClient(cl: Client, chunk: Bytes) returns (ghost delta: Bytes)
      requires Valid() && cl.Valid() && cl.fd != -1 && cl.bufLen + |chunk| <= BUFFER_SIZE
      modifies outbox, fds, this`patience, cl, cl.buffer
      ensures cl.Valid() && cl.buffer == old(cl.buffer)
      ensures chunk == [] ==> cl.fd == -1 && outbox[..] == old(outbox[..]) && fds[..] == old(fds[..])
      ensures chunk != [] ==>
                && cl.fd == old(cl.fd) && cl.Snapshot() == Receive(env, old(cl.Snapshot()), chunk)
                && cl.relayed == old(cl.relayed) + delta && Delivered(old(outbox[..]), old(fds[..]), cl.fd, delta)
    {
      delta := [];
      if |chunk| == 0 {
        cl.fd, cl.nick, cl.state, cl.fileSize, cl.fileReceived, cl.bufLen := -1, [], 0, 0, 0, 0;
        return;
      }
      ghost var left := cl.buffer[..cl.bufLen];
      forall i | 0 <= i < |chunk| { cl.buffer[cl.bufLen + i] := chunk[i]; }
      cl.bufLen := cl.bufLen + |chunk|;
      assert cl.buffer[..cl.bufLen] == left + chunk;
      delta := ProcessBuffer(cl);
    }

    // Everything one client sends in its life: each other live client receives
    // what the automaton sends for the whole stream.
    method Serve(cl: Client, chunks: seq<Bytes>)
      requires Valid() && cl.Valid() && cl.fd != -1 && cl.Snapshot() == Settle(START)
      requires Realizable(env, chunks)
      modifies outbox, fds, this`patience, cl, cl.buffer
      ensures Delivered(old(outbox[..]), old(fds[..]), cl.fd, Run(env, START, Flatten(chunks)).sent)
    {
      var i := 0;
      while i < |chunks|
        invariant 0 <= i <= |chunks| && cl.Valid() && cl.fd == old(cl.fd) && cl.buffer == old(cl.buffer)
        invariant cl.Snapshot() == Feed(env, Settle(START), chunks[..i])
        invariant Delivered(old(outbox[..]), old(fds[..]), cl.fd, cl.relayed)
      {
        ghost var middle, midFds, done := outbox[..], fds[..], cl.relayed;
        assert chunks[..i + 1][..i] == chunks[..i];
        ghost var delta := ProcessClient(cl, chunks[i]);
        DeliveredTwice(old(outbox[..]), old(fds[..]), middle, midFds, cl.fd, done, delta);
        i := i + 1;
      }
      assert chunks[..i] == chunks;
      FeedIsRun(env, chunks);
    }

    lemma DeliveredTwice(before: seq<Bytes>, live: seq<int>, middle: seq<Bytes>, midFds: seq<int>, senderFd: int, delta: Bytes, delta': Bytes)
      requires Delivered(middle, midFds, senderFd, delta') && |before| == |live| == |middle|
      requires forall i :: 0 <= i < |middle| ==> SlotServed(before[i], live[i], middle[i], midFds[i], senderFd, delta)
      ensures Delivered(before, live, senderFd, delta + delta')
    {
      forall i | 0 <= i < outbox.Length
        ensures SlotServed(before[i], live[i], outbox[i], fds[i], senderFd, delta + delta')
      {
        ServedTwice(before[i], live[i], middle[i], midFds[i], outbox[i], fds[i], senderFd, delta, delta');
      }
    }
  }

  // One slot while `delta` was broadcast: it got all of it, nothing was meant for it,
  // or it was removed after a part.
  ghost predicate SlotServed(before: Bytes, live: int, after: Bytes, fd: int, senderFd: int, delta: Bytes) {
    if live == -1 || live == senderFd then fd == live && after == before
    else if fd == live then after == before + delta
    else fd == -1 && before <= after <= before + delta
  }

  lemma ServedTwice(before: Bytes, live: int, middle: Bytes, midFd: int, after: Bytes, fd: int, senderFd: int, delta: Bytes, delta': Bytes)
    requires SlotServed(before, live, middle, midFd, senderFd, delta) && SlotServed(middle, midFd, after, fd, senderFd, delta')
    ensures SlotServed(before, live, after, fd, senderFd, delta + delta')
  {
    assert before + delta + delta' == before + (delta + delta');
  }

  // Every read returns something, and no more than the buffer has room for.
  ghost predicate Realizable(env: Env, chunks: seq<Bytes>) {
    forall i :: 0 <= i < |chunks| ==>
      chunks[i] != [] && |Feed(env, Settle(START), chunks[..i]).left| + |chunks[i]| <= BUFFER_SIZE
  }
}
