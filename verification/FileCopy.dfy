// The two-process file copier: a parent sends files to a child over a data
// pipe, one message per READY code that the child sends back over a second
// pipe. Every system call of either process is one step.

module FileCopy {
  import opened Base

  const BLOCK_SIZE := 4096
  const PATH_MAX := 4096
  const HEADER_SIZE := 16 + PATH_MAX
  const KIND_FILE := 1
  const KIND_END := 2
  const READY_CODE: Bytes := [0x44, 0x41, 0x45, 0x52]
  const COPY_SUFFIX: Bytes := [46, 99, 111, 112, 121]

  type Path = Bytes

  function CopyName(name: Path): Path { name + COPY_SUFFIX }

  // The texts and codes of the program.
  lemma Literals(name: Path)
    ensures CopyName(name) == name + Ascii(".copy")
    ensures FromLittleEndian(READY_CODE) == 0x52454144 && |READY_CODE| == 4
    ensures KIND_FILE == 1 && KIND_END == 2
  {
    assert Ascii(".copy") == COPY_SUFFIX;
    assert FromLittleEndian(READY_CODE[3..]) == 0x52;
    assert FromLittleEndian(READY_CODE[2..]) == 0x5245;
    assert FromLittleEndian(READY_CODE[1..]) == 0x524541;
  }

  // ---------------------------------------------------------------- messages

  datatype Message = Message(kind: nat, fileSize: nat, fileName: Bytes)

  ghost predicate ValidMessage(m: Message) {
    && m.kind < Radix(4)
    && m.fileSize < Radix(8)
    && |m.fileName| < PATH_MAX
    && 0 !in m.fileName
  }

  // The struct in memory: kind, four bytes of padding, size, zero-filled name.
  function Encode(m: Message): (r: Bytes)
    ensures |m.fileName| < PATH_MAX ==> |r| == HEADER_SIZE
  {
    ToLittleEndian(m.kind, 4) + Zeros(4) + ToLittleEndian(m.fileSize, 8)
    + m.fileName + Zeros(if |m.fileName| < PATH_MAX then PATH_MAX - |m.fileName| else 0)
  }

  // The receiver overwrites the last byte of the name with NUL.
  function Decode(b: Bytes): Message
    requires |b| == HEADER_SIZE
  {
    Message(FromLittleEndian(b[..4]), FromLittleEndian(b[8..16]), CString(b[16..HEADER_SIZE - 1]))
  }

  lemma DecodeEncode(m: Message)
    requires ValidMessage(m)
    ensures Decode(Encode(m)) == m
  {
    var b := Encode(m);
    LittleEndianRoundTrip(m.kind, 4);
    LittleEndianRoundTrip(m.fileSize, 8);
    assert b[..4] == ToLittleEndian(m.kind, 4);
    assert b[8..16] == ToLittleEndian(m.fileSize, 8);
    var pad := Zeros(PATH_MAX - |m.fileName| - 1);
    assert b[16..HEADER_SIZE - 1] == m.fileName + pad;
    CStringOfPadded(m.fileName, pad);
  }

  // Where the fields of a message are on the wire.
  lemma EncodeLayout(m: Message)
    requires ValidMessage(m)
    ensures var b, n := Encode(m), |m.fileName|;
            && |b| == 4112 && FromLittleEndian(b[..4]) == m.kind && FromLittleEndian(b[8..16]) == m.fileSize
            && b[16..16 + n] == m.fileName && (forall i :: 4 <= i < 8 || 16 + n <= i < 4112 ==> b[i] == 0)
  {
    LittleEndianRoundTrip(m.kind, 4);
    LittleEndianRoundTrip(m.fileSize, 8);
    assert Encode(m)[..4] == ToLittleEndian(m.kind, 4);
    assert Encode(m)[8..16] == ToLittleEndian(m.fileSize, 8);
  }

  // What one message means: a file with its contents, or the end.
  datatype Item = FileItem(name: Path, body: Bytes) | EndItem

  ghost predicate ValidItem(it: Item) {
    it.FileItem? ==> |it.name| < PATH_MAX && 0 !in it.name && |it.body| < Radix(8)
  }

  function HeaderOf(it: Item): Message {
    match it
    case FileItem(name, body) => Message(KIND_FILE, |body|, name)
    case EndItem => Message(KIND_END, 0, [])
  }

  // The bytes a message occupies on the data pipe.
  function Frame(it: Item): Bytes {
    Encode(HeaderOf(it)) + (if it.FileItem? then it.body else [])
  }

  lemma HeaderRoundTrip(it: Item)
    requires ValidItem(it)
    ensures Decode(Encode(HeaderOf(it))) == HeaderOf(it)
  {
    assert Radix(4) > 2 by {
      assert Radix(0) == 1 && Radix(1) == 256 && Radix(2) == 256 * 256 && Radix(3) == 256 * 256 * 256;
    }
    DecodeEncode(HeaderOf(it));
  }

  function Stream(items: seq<Item>): Bytes {
    if items == [] then [] else Stream(items[..|items| - 1]) + Frame(items[|items| - 1])
  }

  // ---------------------------------------------------------- the two processes

  // `files` is the command line, `source` the file system before the run.
  datatype World = World(files: seq<Path>, source: map<Path, Bytes>, dataCapacity: nat, readyCapacity: nat)

  ghost predicate ValidWorld(w: World) {
    && w.dataCapacity >= 1 && w.readyCapacity >= 1
    && (forall name <- w.files :: 0 !in name)
    && (forall name <- w.files :: CopyName(name) !in w.files)
    && (forall name <- w.source :: |w.source[name]| < Radix(8))
  }

  // Await is wait_ready, Send is write_all on the data pipe. When `index` has
  // passed the last file they handle the END message instead of a file.
  datatype ParentPhase =
    | Opening
    | Await(got: Bytes)
    | Send(out: Bytes)
    | ReadSource
    | WaitChild
    | Exited(success: bool)

  // What the parent has done so far; no step looks at it. `frame` is the last
  // message begun and `sent` how many of its bytes are in the pipe.
  datatype ParentLog = ParentLog(begun: seq<Item>, frame: Bytes, sent: nat, written: Bytes, skipped: set<Path>)

  // `index` is the loop variable of main, `offset` the position in the open
  // file, `remaining` the announced bytes not yet read from it.
  datatype Parent = Parent(phase: ParentPhase, index: nat, offset: nat, remaining: nat,
                           fatal: bool, fileError: bool, log: ParentLog)

  datatype ChildPhase =
    | SendReady(out: Bytes)
    | RecvHeader(got: Bytes)
    | Create
    | RecvBody(got: Bytes)
    | WriteCopy(out: Bytes)
    | CloseCopy
    | Done(code: nat)

  // Messages received in full, body bytes received of the current one, files
  // whose copy was reported as failed.
  datatype ChildLog = ChildLog(parsed: seq<Item>, body: Bytes, failed: set<Path>)

  // `remaining` counts the body bytes not yet received; `isOpen` is `out_fd >= 0`.
  datatype Child = Child(phase: ChildPhase, name: Path, remaining: nat, isOpen: bool, hadError: bool, log: ChildLog)

  // `faulted`: some system call failed or some file was unsuitable.
  datatype State = State(fs: map<Path, Bytes>, parent: Parent, child: Child, data: Bytes, ready: Bytes, faulted: bool)

  // How a system call returns: -1, or a count (0 is end of file).
  datatype Outcome = Fault | Count(n: nat)

  function LoopTest(w: World, index: nat): ParentPhase {
    if index < |w.files| then Opening else Await([])
  }

  function Init(w: World): State {
    State(w.source,
          Parent(LoopTest(w, 0), 0, 0, 0, false, false, ParentLog([], [], 0, [], {})),
          Child(SendReady(READY_CODE), [], 0, false, false, ChildLog([], [], {})),
          [], [], false)
  }

  predicate Final(s: State) { s.parent.phase.Exited? && s.child.phase.Done? }

  // The parent has closed its pipe ends.
  predicate ParentClosed(p: Parent) { p.phase.WaitChild? || p.phase.Exited? }

  predicate ChildClosed(c: Child) { c.phase.Done? }

  // A pipe read blocks on an empty pipe with a live writer, a write on a full
  // pipe with a live reader, waitpid on a live child.
  predicate ParentBlocked(w: World, s: State) {
    match s.parent.phase
    case Await(_) => s.ready == [] && !ChildClosed(s.child)
    case Send(_) => |s.data| >= w.dataCapacity && !ChildClosed(s.child)
    case WaitChild => !ChildClosed(s.child)
    case _ => false
  }

  predicate ChildBlocked(w: World, s: State) {
    match s.child.phase
    case SendReady(_) => |s.ready| >= w.readyCapacity && !ParentClosed(s.parent)
    case RecvHeader(_) => s.data == [] && !ParentClosed(s.parent)
    case RecvBody(_) => s.data == [] && !ParentClosed(s.parent)
    case _ => false
  }

  // A read of at most `want` bytes can return `n` of those in the pipe.
  predicate CanRead(pipe: Bytes, want: int, n: nat) { 1 <= n <= want && n <= |pipe| }

  predicate CanWrite(pipe: Bytes, capacity: nat, out: Bytes, n: nat) { 1 <= n <= |out| && |pipe| + n <= capacity }

  // ---------------------------------------------------------------- the parent

  // The `rc < 0` path of main: stop sending and wait for the child.
  function Abort(s: State): State {
    s.(parent := s.parent.(phase := WaitChild, fatal := true), faulted := true)
  }

  // The file is finished: go on with the next one.
  function Advance(w: World, p: Parent): Parent {
    p.(phase := LoopTest(w, p.index + 1), index := p.index + 1)
  }

  function SkipFile(w: World, p: Parent, name: Path): Parent {
    Advance(w, p.(fileError := true, log := p.log.(skipped := p.log.skipped + {name})))
  }

  // One system call of the parent; None when it cannot return that way.
  function ParentStep(w: World, s: State, o: Outcome): Option<State> {
    if ParentBlocked(w, s) then None else
    match s.parent.phase
    case Opening => StepOpening(w, s, o)
    case Await(got) => StepAwait(w, s, o, got)
    case Send(out) => StepSend(w, s, o, out)
    case ReadSource => StepReadSource(w, s, o)
    case WaitChild => StepWaitChild(s, o)
    case Exited(_) => None
  }

  // open, fstat and the tests on the file, up to the length of its name.
  function StepOpening(w: World, s: State, o: Outcome): Option<State> {
    if s.parent.index >= |w.files| then None else
    var name := w.files[s.parent.index];
    if o.Fault? || name !in s.fs || |name| >= PATH_MAX then
      Some(s.(parent := SkipFile(w, s.parent, name), faulted := true))
    else
      Some(s.(parent := s.parent.(phase := Await([]), offset := 0, remaining := |s.fs[name]|)))
  }

  // One read of wait_ready; a complete code lets the next message begin.
  function StepAwait(w: World, s: State, o: Outcome, got: Bytes): Option<State> {
    if o.Fault? then Some(Abort(s))
    else if o.n == 0 then (if s.ready == [] && ChildClosed(s.child) then Some(Abort(s)) else None)
    else if !CanRead(s.ready, 4 - |got|, o.n) then None
    else
      var got' := got + s.ready[..o.n];
      var s' := s.(ready := s.ready[o.n..]);
      if |got'| < 4 then Some(s'.(parent := s.parent.(phase := Await(got'))))
      else if got' != READY_CODE then Some(Abort(s'))
      else Some(s'.(parent := Begin(s.parent, NextItem(w, s), NextHeader(w, s.parent))))
  }

  // The message header as the parent fills it in.
  function NextHeader(w: World, p: Parent): Message {
    if p.index < |w.files| then Message(KIND_FILE, p.remaining, w.files[p.index]) else Message(KIND_END, 0, [])
  }

  function NextItem(w: World, s: State): Item {
    if s.parent.index >= |w.files| then EndItem else
    var name := w.files[s.parent.index];
    FileItem(name, if name in s.fs then s.fs[name] else [])
  }

  function Begin(p: Parent, it: Item, header: Message): Parent {
    p.(phase := Send(Encode(header)), log := p.log.(begun := p.log.begun + [it], frame := Frame(it), sent := 0))
  }

  // One write of write_all on the data pipe.
  function StepSend(w: World, s: State, o: Outcome, out: Bytes): Option<State> {
    if o.Fault? then Some(Abort(s))
    else if ChildClosed(s.child) || !CanWrite(s.data, w.dataCapacity, out, o.n) then None
    else Some(s.(data := s.data + out[..o.n], parent := AfterSend(w, Sent(s.parent, out[..o.n]), out[o.n..])))
  }

  function Sent(p: Parent, bytes: Bytes): Parent {
    p.(log := p.log.(sent := p.log.sent + |bytes|, written := p.log.written + bytes))
  }

  // The rest of write_all, then the `while (remaining > 0)` test.
  function AfterSend(w: World, p: Parent, rest: Bytes): Parent {
    if rest != [] then p.(phase := Send(rest))
    else if p.index >= |w.files| then p.(phase := WaitChild)
    else if p.remaining > 0 then p.(phase := ReadSource)
    else Advance(w, p)
  }

  // One read of the source file; end of file here is an error.
  function StepReadSource(w: World, s: State, o: Outcome): Option<State> {
    if s.parent.index >= |w.files| then None else
    var name := w.files[s.parent.index];
    if o.Fault? || name !in s.fs || s.parent.offset >= |s.fs[name]| then Some(Abort(s))
    else
      var left := s.fs[name][s.parent.offset..];
      if !CanRead(left, Min(BLOCK_SIZE, s.parent.remaining), o.n) then None
      else Some(s.(parent := s.parent.(phase := Send(left[..o.n]), offset := s.parent.offset + o.n,
                                       remaining := s.parent.remaining - o.n)))
  }

  // waitpid and the exit status.
  function StepWaitChild(s: State, o: Outcome): Option<State> {
    if !s.child.phase.Done? then None else
    var fatal := s.parent.fatal || o.Fault? || s.child.phase.code != 0;
    Some(s.(parent := s.parent.(fatal := fatal, phase := Exited(!fatal && !s.parent.fileError)),
            faulted := s.faulted || o.Fault?))
  }

  // ----------------------------------------------------------------- the child

  // One system call of the child.
  function ChildStep(w: World, s: State, o: Outcome): Option<State> {
    if ChildBlocked(w, s) then None else
    match s.child.phase
    case SendReady(out) => StepSendReady(w, s, o, out)
    case RecvHeader(got) => StepRecvHeader(s, o, got)
    case Create => StepCreate(s, o)
    case RecvBody(got) => StepRecvBody(s, o, got)
    case WriteCopy(out) => StepWriteCopy(s, o, out)
    case CloseCopy => StepCloseCopy(s, o)
    case Done(_) => None
  }

  function Quit(s: State): State { s.(child := s.child.(phase := Done(1)), faulted := true) }

  function StepSendReady(w: World, s: State, o: Outcome, out: Bytes): Option<State> {
    if o.Fault? then Some(Quit(s))
    else if ParentClosed(s.parent) || !CanWrite(s.ready, w.readyCapacity, out, o.n) then None
    else
      var rest := out[o.n..];
      Some(s.(ready := s.ready + out[..o.n],
              child := s.child.(phase := if rest != [] then SendReady(rest) else RecvHeader([]))))
  }

  function StepRecvHeader(s: State, o: Outcome, got: Bytes): Option<State> {
    if o.Fault? then Some(Quit(s))
    else if o.n == 0 then (if s.data == [] && ParentClosed(s.parent) then Some(Quit(s)) else None)
    else if !CanRead(s.data, HEADER_SIZE - |got|, o.n) then None
    else
      var got' := got + s.data[..o.n];
      var s' := s.(data := s.data[o.n..]);
      if |got'| < HEADER_SIZE then Some(s'.(child := s.child.(phase := RecvHeader(got'))))
      else
        var m := Decode(got');
        if m.kind != KIND_END && m.kind != KIND_FILE then Some(Quit(s'))
        else Some(s'.(child := Dispatch(s.child, m)))
  }

  // The tests on the message type.
  function Dispatch(c: Child, m: Message): Child {
    if m.kind == KIND_END then
      c.(phase := Done(if c.hadError then 1 else 0), log := c.log.(parsed := c.log.parsed + [EndItem]))
    else
      c.(phase := Create, name := m.fileName, remaining := m.fileSize, isOpen := false, log := c.log.(body := []))
  }

  function Failed(c: Child): Child {
    c.(hadError := true, isOpen := false, log := c.log.(failed := c.log.failed + {c.name}))
  }

  // The child's `while (remaining > 0)` test.
  function NextBlock(c: Child): Child {
    if c.remaining > 0 then c.(phase := RecvBody([]))
    else if c.isOpen then c.(phase := CloseCopy)
    else FinishFile(c)
  }

  function FinishFile(c: Child): Child {
    c.(phase := SendReady(READY_CODE), isOpen := false,
       log := c.log.(parsed := c.log.parsed + [FileItem(c.name, c.log.body)]))
  }

  // open with O_CREAT and O_TRUNC. A decoded name has fewer than PATH_MAX bytes, so
  // the buffer has room for the copy's name.
  function StepCreate(s: State, o: Outcome): Option<State> {
    if o.Fault? then Some(s.(child := NextBlock(Failed(s.child)), faulted := true))
    else Some(s.(fs := s.fs[CopyName(s.child.name) := []], child := NextBlock(s.child.(isOpen := true))))
  }

  function StepRecvBody(s: State, o: Outcome, got: Bytes): Option<State> {
    var want := Min(BLOCK_SIZE, s.child.remaining);
    if o.Fault? then Some(Quit(s))
    else if o.n == 0 then (if s.data == [] && ParentClosed(s.parent) then Some(Quit(s)) else None)
    else if !CanRead(s.data, want - |got|, o.n) then None
    else Some(s.(data := s.data[o.n..], child := AfterRecv(s.child, got + s.data[..o.n])))
  }

  // A complete block goes to the copy, or nowhere when the copy is not open.
  function AfterRecv(c: Child, got: Bytes): Child {
    if |got| < Min(BLOCK_SIZE, c.remaining) then c.(phase := RecvBody(got))
    else
      var c' := c.(log := c.log.(body := c.log.body + got));
      if c.isOpen then c'.(phase := WriteCopy(got)) else AfterWrite(c')
  }

  // One write of write_all on the copy; a failure stops the writing only.
  function StepWriteCopy(s: State, o: Outcome, out: Bytes): Option<State> {
    var copy := CopyName(s.child.name);
    if o.Fault? then Some(s.(child := AfterWrite(Failed(s.child)), faulted := true))
    else if copy !in s.fs || !(1 <= o.n <= |out|) then None
    else
      var s' := s.(fs := s.fs[copy := s.fs[copy] + out[..o.n]]);
      if o.n < |out| then Some(s'.(child := s.child.(phase := WriteCopy(out[o.n..]))))
      else Some(s'.(child := AfterWrite(s.child)))
  }

  function AfterWrite(c: Child): Child {
    NextBlock(c.(remaining := c.remaining - Min(BLOCK_SIZE, c.remaining)))
  }

  function StepCloseCopy(s: State, o: Outcome): Option<State> {
    if o.Fault? then Some(s.(child := FinishFile(Failed(s.child)), faulted := true))
    else Some(s.(child := FinishFile(s.child)))
  }

  // ------------------------------------------------------------------ schedules

  datatype Action = ByParent(o: Outcome) | ByChild(o: Outcome)

  function Step(w: World, s: State, a: Action): Option<State> {
    match a
    case ByParent(o) => ParentStep(w, s, o)
    case ByChild(o) => ChildStep(w, s, o)
  }

  // The state after a schedule: any interleaving, any pattern of short transfers.
  function Run(w: World, actions: seq<Action>): Option<State> {
    if actions == [] then Some(Init(w)) else
    match Run(w, actions[..|actions| - 1])
    case None => None
    case Some(s) => Step(w, s, actions[|actions| - 1])
  }
}
