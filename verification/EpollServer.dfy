// The command server's per-client parser, as it runs: a buffer of leftover
// bytes, a state, and a loop over whatever the last read delivered.

module EpollServer {
  import opened Base
  import opened CommandStream

  datatype ClientState = STATE_IDLE | STATE_RECV_FILE_SIZE | STATE_RECV_FILE_DATA

  // What survives between two reads: the automaton outside a line, and the
  // bytes not yet consumed.
  datatype Session = Session(control: Auto, left: Bytes)

  const FRESH := Session(START, [])

  // Between two reads the server forgets the line it is in and keeps its bytes.
  // After `exit` the commands before it stay in the buffer as well.
  function Settle(a: Auto, left: Bytes): Session {
    match a.mode
    case Exited => Session(Auto(Idle([]), a.trace), left)
    case Idle(line) => Session(Auto(Idle([]), a.trace), line)
    case _ => Session(a, [])
  }

  // What one pass over the buffer makes of it.
  function Process(env: Env, s: Session): Session {
    Settle(Run(env, s.control, s.left), s.left)
  }

  class Client {
    const env: Env
    var connected: bool
    var state: ClientState
    var filename: Bytes
    var fileSize: Bytes
    var receivedBytes: nat
    var buffer: array<Byte>
    var bufferLen: nat
    var trace: seq<Event>

    ghost predicate Valid()
      reads this
    {
      && buffer.Length == BUFFER_SIZE && bufferLen < BUFFER_SIZE && |fileSize| == 8
      && (state.STATE_RECV_FILE_SIZE? ==> receivedBytes < 8)
    }

    ghost function Control(): Auto
      reads this
      requires Valid()
    {
      match state
      case STATE_IDLE => Auto(Idle([]), trace)
      case STATE_RECV_FILE_SIZE => Auto(Size(filename, fileSize[..receivedBytes]), trace)
      case STATE_RECV_FILE_DATA => Auto(Data(FromSigned(fileSize), receivedBytes), trace)
    }

    ghost function Snapshot(): Session
      reads this, buffer
      requires Valid()
    {
      Session(Control(), buffer[..bufferLen])
    }

    constructor (env: Env)
      ensures Valid() && fresh(buffer) && connected && this.env == env && Snapshot() == FRESH
    {
      this.env := env;
      connected, state, filename, fileSize, receivedBytes := true, STATE_IDLE, [], Zeros(8), 0;
      buffer, bufferLen, trace := new Byte[BUFFER_SIZE], 0, [];
    }

    method SendResponse(text: Bytes)
      modifies this`trace
      ensures trace == old(trace) + [Response(text)]
    {
      trace := trace + [Response(text)];
    }

    method StartFileReceive(name: Bytes)
      modifies this`filename, this`state, this`receivedBytes, this`fileSize
      ensures filename == name && state == STATE_RECV_FILE_SIZE && receivedBytes == 0 && |fileSize| == 8
    {
      filename, state, receivedBytes, fileSize := name, STATE_RECV_FILE_SIZE, 0, Zeros(8);
    }

    // memmove of the unconsumed bytes to the front of the buffer.
    method KeepRest(ptr: nat, remaining: nat)
      requires Valid() && ptr + remaining == bufferLen
      modifies this`bufferLen, buffer
      ensures Valid() && bufferLen == remaining && buffer[..remaining] == old(buffer[ptr..ptr + remaining])
    {
      forall i | 0 <= i < remaining { buffer[i] := buffer[ptr + i]; }
      bufferLen := remaining;
      assert forall i :: 0 <= i < remaining ==> buffer[i] == old(buffer[ptr + i]);
    }

    // A complete command line; the result tells whether it was `exit`.
    method HandleLine(line: Bytes) returns (quit: bool)
      requires Valid() && state.STATE_IDLE?
      modifies this`filename, this`state, this`receivedBytes, this`fileSize, this`trace
      ensures Valid()
      ensures quit <==> Command(env, line, old(trace)).mode.Exited?
      ensures quit ==> state.STATE_IDLE? && trace == old(trace)
      ensures !quit ==> Control() == Command(env, line, old(trace))
    {
      quit := false;
      var text := CString(line);
      if SENDFILE <= text {
        StartFileReceive(env.fileName(text));
      } else if text == EXIT {
        state := STATE_IDLE;
        quit := true;
      } else {
        SendResponse(env.respond(text));
      }
    }

    // The size is known: create the file.
    method OpenOutput()
      requires Valid() && state.STATE_RECV_FILE_SIZE?
      modifies this`state, this`receivedBytes, this`trace
      ensures Valid() && Control() == SizeKnown(env, filename, fileSize, old(trace))
    {
      receivedBytes := 0;
      var fullpath := FullPath(filename);
      if !env.canOpen(fullpath) {
        SendResponse(ERR);
        state := STATE_IDLE;
      } else {
        trace := trace + [Open(fullpath)];
        state := STATE_RECV_FILE_DATA;
      }
    }

    method FinishFile()
      requires Valid()
      modifies this`state, this`trace
      ensures Valid() && Control() == Auto(Idle([]), old(trace) + [Close, Response(OK)])
    {
      trace := trace + [Close];
      SendResponse(OK);
      state := STATE_IDLE;
      assert old(trace) + [Close] + [Response(OK)] == old(trace) + [Close, Response(OK)];
    }

    // Where the loop stands: the unconsumed bytes still lead to `goal`.
    ghost predicate At(goal: Auto, ptr: nat, remaining: nat)
      reads this, buffer
    {
      && Valid() && ptr + remaining == bufferLen
      && Run(env, Control(), buffer[ptr..ptr + remaining]) == goal
    }

    method FindNewline(ptr: nat, remaining: nat) returns (lineIndex: nat)
      requires Valid() && ptr + remaining == bufferLen
      ensures lineIndex <= remaining && NEWLINE !in buffer[ptr..ptr + lineIndex]
      ensures lineIndex < remaining ==> buffer[ptr + lineIndex] == NEWLINE
    {
      lineIndex := 0;
      while lineIndex < remaining && buffer[ptr + lineIndex] != NEWLINE
        invariant lineIndex <= remaining
        invariant NEWLINE !in buffer[ptr..ptr + lineIndex]
      {
        lineIndex := lineIndex + 1;
      }
    }

    // Read up to the newline; without one, keep the rest and stop.
    method ProcessIdle(ptr: nat, remaining: nat, ghost goal: Auto) returns (ptr': nat, remaining': nat, stop: bool)
      requires At(goal, ptr, remaining) && state.STATE_IDLE? && remaining > 0
      modifies this`state, this`filename, this`fileSize, this`receivedBytes, this`bufferLen, this`trace, buffer
      ensures stop ==> Valid() && Snapshot() == Settle(goal, old(buffer[..bufferLen]))
      ensures !stop ==> At(goal, ptr', remaining') && remaining' < remaining
      ensures !stop ==> bufferLen == old(bufferLen) && buffer[..] == old(buffer[..])
    {
      var lineIndex := FindNewline(ptr, remaining);
      if lineIndex < remaining {
        ptr', remaining', stop := TakeLine(ptr, remaining, lineIndex, goal);
      } else {
        ptr', remaining', stop := ptr, remaining, true;
        RunPartialLine(env, [], trace, buffer[ptr..ptr + remaining]);
        assert [] + buffer[ptr..ptr + remaining] == buffer[ptr..ptr + remaining];
        KeepRest(ptr, remaining);
      }
    }

    method TakeLine(ptr: nat, remaining: nat, lineIndex: nat, ghost goal: Auto)
      returns (ptr': nat, remaining': nat, stop: bool)
      requires At(goal, ptr, remaining) && state.STATE_IDLE? && lineIndex < remaining
      requires buffer[ptr + lineIndex] == NEWLINE && NEWLINE !in buffer[ptr..ptr + lineIndex]
      modifies this`state, this`filename, this`fileSize, this`receivedBytes, this`trace
      ensures stop ==> Valid() && Snapshot() == Settle(goal, old(buffer[..bufferLen]))
      ensures !stop ==> At(goal, ptr', remaining') && remaining' < remaining
    {
      ghost var rest := buffer[ptr..ptr + remaining];
      var line := buffer[ptr..ptr + lineIndex];
      assert line == rest[..lineIndex];
      RunLine(env, trace, rest, lineIndex);
      remaining' := remaining - (lineIndex + 1);
      ptr' := ptr + lineIndex + 1;
      assert buffer[ptr'..ptr' + remaining'] == rest[lineIndex + 1..];
      stop := HandleLine(line);
      if stop {
        RunExited(env, Auto(Exited, trace), rest[lineIndex + 1..]);
      }
    }

    // Collect the eight bytes of the size, which may arrive piecewise.
    method ProcessSize(ptr: nat, remaining: nat, ghost goal: Auto) returns (ptr': nat, remaining': nat, stop: bool)
      requires At(goal, ptr, remaining) && state.STATE_RECV_FILE_SIZE? && remaining > 0
      modifies this`state, this`fileSize, this`receivedBytes, this`bufferLen, this`trace
      ensures stop ==> Valid() && Snapshot() == Settle(goal, old(buffer[..bufferLen]))
      ensures !stop ==> At(goal, ptr', remaining') && remaining' < remaining && bufferLen == old(bufferLen)
    {
      ptr', remaining', stop := ptr, remaining, false;
      if remaining >= 8 - receivedBytes {
        ptr', remaining' := TakeSize(ptr, remaining, goal);
      } else {
        RunPartialSize(env, filename, fileSize[..receivedBytes], trace, buffer[ptr..ptr + remaining]);
        var got := fileSize[..receivedBytes] + buffer[ptr..ptr + remaining];
        fileSize := got + fileSize[receivedBytes + remaining..];
        receivedBytes := receivedBytes + remaining;
        assert fileSize[..receivedBytes] == got;
        bufferLen := 0;
        stop := true;
      }
    }

    method TakeSize(ptr: nat, remaining: nat, ghost goal: Auto) returns (ptr': nat, remaining': nat)
      requires At(goal, ptr, remaining) && state.STATE_RECV_FILE_SIZE? && remaining >= 8 - receivedBytes
      modifies this`state, this`fileSize, this`receivedBytes, this`trace
      ensures At(goal, ptr', remaining') && remaining' < remaining
    {
      ghost var rest := buffer[ptr..ptr + remaining];
      var need := 8 - receivedBytes;
      RunSize(env, filename, fileSize[..receivedBytes], trace, rest);
      fileSize := fileSize[..receivedBytes] + buffer[ptr..ptr + need];
      assert rest[..need] == buffer[ptr..ptr + need];
      remaining' := remaining - need;
      ptr' := ptr + need;
      assert buffer[ptr'..ptr' + remaining'] == rest[need..];
      OpenOutput();
    }

    // Write file bytes. A file that is complete already consumes none.
    method ProcessData(ptr: nat, remaining: nat, ghost goal: Auto) returns (ptr': nat, remaining': nat)
      requires At(goal, ptr, remaining) && state.STATE_RECV_FILE_DATA? && remaining > 0
      modifies this`state, this`receivedBytes, this`trace
      ensures At(goal, ptr', remaining') && remaining' <= remaining
      ensures remaining' == remaining ==> state.STATE_IDLE?
    {
      ghost var rest := buffer[ptr..ptr + remaining];
      ptr', remaining' := ptr, remaining;
      var size := FromSigned(fileSize);
      var need := size - receivedBytes;
      if need <= 0 {
        RunAfterComplete(env, size, receivedBytes, trace, rest);
        FinishFile();
        return;
      }
      var toWrite := if remaining < need then remaining else need;
      var chunk := buffer[ptr..ptr + toWrite];
      assert rest == chunk + rest[toWrite..] && chunk == rest[..toWrite];
      RunConcat(env, Control(), chunk, rest[toWrite..]);
      RunData(env, size, receivedBytes, trace, chunk);
      trace := trace + FileBytes(chunk);
      receivedBytes := receivedBytes + toWrite;
      remaining' := remaining - toWrite;
      ptr' := ptr + toWrite;
      assert buffer[ptr'..ptr' + remaining'] == rest[toWrite..];
      if receivedBytes >= size {
        FinishFile();
      }
    }

    method ProcessClient()
      requires Valid()
      modifies this`state, this`filename, this`fileSize, this`receivedBytes, this`bufferLen, this`trace, buffer
      ensures Valid() && Snapshot() == Process(env, old(Snapshot()))
    {
      ghost var goal := Run(env, Control(), buffer[..bufferLen]);
      var ptr: nat, remaining: nat, stop := 0, bufferLen, false;
      assert buffer[0..bufferLen] == buffer[..bufferLen];
      while remaining > 0
        invariant At(goal, ptr, remaining) && bufferLen == old(bufferLen) && buffer[..] == old(buffer[..])
        decreases remaining, if state.STATE_RECV_FILE_DATA? then 1 else 0
      {
        assert buffer[..bufferLen] == buffer[..][..bufferLen];
        if state.STATE_IDLE? {
          ptr, remaining, stop := ProcessIdle(ptr, remaining, goal);
          if stop { return; }
        } else if state.STATE_RECV_FILE_SIZE? {
          ptr, remaining, stop := ProcessSize(ptr, remaining, goal);
          if stop { return; }
        } else {
          ptr, remaining := ProcessData(ptr, remaining, goal);
        }
      }
      assert buffer[ptr..ptr + remaining] == [];
      KeepRest(ptr, remaining);
    }

    // The event loop's recv: it appends at most what fits before the final NUL.
    // A count of 0 closes the connection.
    method Recv(chunk: Bytes)
      requires Valid() && connected && bufferLen + |chunk| < BUFFER_SIZE
      modifies this, buffer
      ensures Valid() && buffer == old(buffer)
      ensures chunk == [] ==> !connected && Snapshot() == old(Snapshot())
      ensures chunk != [] ==> connected && Snapshot() == Receive(env, old(Snapshot()), chunk)
    {
      if |chunk| == 0 {
        connected := false;
        return;
      }
      ghost var left := buffer[..bufferLen];
      forall i | 0 <= i < |chunk| { buffer[bufferLen + i] := chunk[i]; }
      bufferLen := bufferLen + |chunk|;
      assert buffer[..bufferLen] == left + chunk;
      ProcessClient();
    }
  }

  function Receive(env: Env, s: Session, chunk: Bytes): Session {
    Process(env, Session(s.control, s.left + chunk))
  }

  // Any number of reads.
  function Feed(env: Env, s: Session, chunks: seq<Bytes>): Session {
    if chunks == [] then s else Receive(env, Feed(env, s, chunks[..|chunks| - 1]), chunks[|chunks| - 1])
  }

  // Every read returns something, and no more than the buffer has room for.
  ghost predicate Realizable(env: Env, s: Session, chunks: seq<Bytes>) {
    forall i :: 0 <= i < |chunks| ==>
      chunks[i] != [] && |Feed(env, s, chunks[..i]).left| + |chunks[i]| < BUFFER_SIZE
  }

  // A whole connection.
  method Serve(c: Client, chunks: seq<Bytes>)
    requires c.Valid() && c.connected && Realizable(c.env, c.Snapshot(), chunks)
    modifies c, c.buffer
    ensures c.Valid() && c.Snapshot() == Feed(c.env, old(c.Snapshot()), chunks)
  {
    var i := 0;
    while i < |chunks|
      invariant 0 <= i <= |chunks| && c.Valid() && c.connected && c.buffer == old(c.buffer)
      invariant c.Snapshot() == Feed(c.env, old(c.Snapshot()), chunks[..i])
    {
      assert chunks[..i + 1][..i] == chunks[..i];
      c.Recv(chunks[i]);
      i := i + 1;
    }
    assert chunks[..i] == chunks;
  }

  lemma RunAfterComplete(env: Env, size: int, received: nat, trace: seq<Event>, s: Bytes)
    requires received >= size && s != []
    ensures Run(env, Auto(Data(size, received), trace), s) == Run(env, Auto(Idle([]), trace + [Close, Response(OK)]), s)
  {
  }
}
