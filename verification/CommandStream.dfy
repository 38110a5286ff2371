// The byte-at-a-time reference automaton of the command server: what a client's
// byte stream means, however it is cut into reads.

module CommandStream {
  import opened Base

  const BUFFER_SIZE := 1024
  const SENDFILE: Bytes := [115, 101, 110, 100, 102, 105, 108, 101]
  const EXIT: Bytes := [101, 120, 105, 116]
  const RECEIVED: Bytes := [114, 101, 99, 101, 105, 118, 101, 100, 95]
  const OK: Bytes := [79, 75]
  const ERR: Bytes := [69, 82, 82]

  // What the model does not compute: the reply to a line, the file name in it,
  // and whether a path can be created.
  datatype Env = Env(respond: Bytes -> Bytes, fileName: Bytes -> Bytes, canOpen: Bytes -> bool)

  datatype Event = Response(text: Bytes) | Open(path: Bytes) | FileByte(b: Byte) | Close

  datatype Mode =
    | Idle(line: Bytes)
    | Size(name: Bytes, got: Bytes)
    | Data(size: int, received: nat)
    | Exited

  datatype Auto = Auto(mode: Mode, trace: seq<Event>)

  const START := Auto(Idle([]), [])

  // The signed 64-bit value of eight bytes in memory.
  function FromSigned(s: Bytes): int {
    var v := FromLittleEndian(s);
    if v >= Radix(8) / 2 then v - Radix(8) else v
  }

  // snprintf cuts the path to 255 characters.
  function FullPath(name: Bytes): Bytes {
    var path := RECEIVED + name;
    if |path| > 255 then path[..255] else path
  }

  // A complete line, without its newline.
  function Command(env: Env, line: Bytes, trace: seq<Event>): Auto {
    var text := CString(line);
    if SENDFILE <= text then Auto(Size(env.fileName(text), []), trace)
    else if text == EXIT then Auto(Exited, trace)
    else Auto(Idle([]), trace + [Response(env.respond(text))])
  }

  function IdleByte(env: Env, line: Bytes, trace: seq<Event>, b: Byte): Auto {
    if b == NEWLINE then Command(env, line, trace) else Auto(Idle(line + [b]), trace)
  }

  // The eight bytes of the size are complete.
  function SizeKnown(env: Env, name: Bytes, size: Bytes, trace: seq<Event>): Auto {
    if env.canOpen(FullPath(name)) then Auto(Data(FromSigned(size), 0), trace + [Open(FullPath(name))])
    else Auto(Idle([]), trace + [Response(ERR)])
  }

  // A file that is already complete ends when the next byte arrives, and that
  // byte belongs to the next line.
  function StepByte(env: Env, a: Auto, b: Byte): Auto {
    match a.mode
    case Idle(line) => IdleByte(env, line, a.trace, b)
    case Size(name, got) =>
      if |got| + 1 < 8 then Auto(Size(name, got + [b]), a.trace) else SizeKnown(env, name, got + [b], a.trace)
    case Data(size, received) =>
      if received >= size then IdleByte(env, [], a.trace + [Close, Response(OK)], b)
      else if received + 1 < size then Auto(Data(size, received + 1), a.trace + [FileByte(b)])
      else Auto(Idle([]), a.trace + [FileByte(b), Close, Response(OK)])
    case Exited => a
  }

  function Run(env: Env, a: Auto, s: Bytes): Auto
    decreases |s|
  {
    if s == [] then a else Run(env, StepByte(env, a, s[0]), s[1..])
  }

  lemma {:induction false} RunConcat(env: Env, a: Auto, s: Bytes, t: Bytes)
    ensures Run(env, a, s + t) == Run(env, Run(env, a, s), t)
    decreases |s|
  {
    if s == [] {
      assert s + t == t;
    } else {
      assert (s + t)[1..] == s[1..] + t;
      RunConcat(env, StepByte(env, a, s[0]), s[1..], t);
    }
  }

  lemma {:induction false} RunExited(env: Env, a: Auto, s: Bytes)
    requires a.mode.Exited?
    ensures Run(env, a, s) == a
    decreases |s|
  {
    if s != [] { RunExited(env, a, s[1..]); }
  }

  // Bytes without a newline only lengthen the line.
  lemma {:induction false} RunPartialLine(env: Env, line: Bytes, trace: seq<Event>, s: Bytes)
    requires NEWLINE !in s
    ensures Run(env, Auto(Idle(line), trace), s) == Auto(Idle(line + s), trace)
    decreases |s|
  {
    if s == [] {
      assert line + s == line;
    } else {
      RunPartialLine(env, line + [s[0]], trace, s[1..]);
      assert line + [s[0]] + s[1..] == line + s;
    }
  }

  lemma RunLine(env: Env, trace: seq<Event>, s: Bytes, k: nat)
    requires k < |s| && s[k] == NEWLINE && NEWLINE !in s[..k]
    ensures Run(env, Auto(Idle([]), trace), s) == Run(env, Command(env, s[..k], trace), s[k + 1..])
  {
    RunPartialLine(env, [], trace, s[..k]);
    assert s == s[..k] + s[k..];
    RunConcat(env, Auto(Idle([]), trace), s[..k], s[k..]);
    assert [] + s[..k] == s[..k] && s[k..][1..] == s[k + 1..];
  }

  lemma {:induction false} RunPartialSize(env: Env, name: Bytes, got: Bytes, trace: seq<Event>, s: Bytes)
    requires |got| + |s| < 8
    ensures Run(env, Auto(Size(name, got), trace), s) == Auto(Size(name, got + s), trace)
    decreases |s|
  {
    if s == [] {
      assert got + s == got;
    } else {
      RunPartialSize(env, name, got + [s[0]], trace, s[1..]);
      assert got + [s[0]] + s[1..] == got + s;
    }
  }

  lemma RunSize(env: Env, name: Bytes, got: Bytes, trace: seq<Event>, s: Bytes)
    requires |got| < 8 <= |got| + |s|
    ensures var need := 8 - |got|;
            Run(env, Auto(Size(name, got), trace), s) == Run(env, SizeKnown(env, name, got + s[..need], trace), s[need..])
  {
    var k := 7 - |got|;
    RunPartialSize(env, name, got, trace, s[..k]);
    assert s == s[..k] + s[k..];
    RunConcat(env, Auto(Size(name, got), trace), s[..k], s[k..]);
    assert got + s[..k] + [s[k]] == got + s[..k + 1] && s[k..][1..] == s[k + 1..];
  }

  function FileBytes(s: Bytes): (r: seq<Event>)
    ensures |r| == |s|
  {
    seq(|s|, i requires 0 <= i < |s| => FileByte(s[i]))
  }

  // After the bytes of `s`, all of which belong to the file.
  function AfterData(size: int, received: nat, trace: seq<Event>, s: Bytes): Auto {
    if received + |s| < size then Auto(Data(size, received + |s|), trace + FileBytes(s))
    else Auto(Idle([]), trace + FileBytes(s) + [Close, Response(OK)])
  }

  lemma {:induction false} RunData(env: Env, size: int, received: nat, trace: seq<Event>, s: Bytes)
    requires received + |s| <= size && s != []
    ensures Run(env, Auto(Data(size, received), trace), s) == AfterData(size, received, trace, s)
    decreases |s|
  {
    assert FileBytes(s) == [FileByte(s[0])] + FileBytes(s[1..]);
    if |s| == 1 {
      assert trace + FileBytes(s) + [Close, Response(OK)] == trace + [FileByte(s[0]), Close, Response(OK)];
    } else {
      RunData(env, size, received + 1, trace + [FileByte(s[0])], s[1..]);
      assert trace + [FileByte(s[0])] + FileBytes(s[1..]) == trace + FileBytes(s);
    }
  }
}
