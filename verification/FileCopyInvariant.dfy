// What every step of the two processes keeps.

module FileCopyInvariant {
  import opened Base
  import opened FileCopy

  function Last<T>(s: seq<T>): T
    requires s != []
  {
    s[|s| - 1]
  }

  ghost predicate Suitable(w: World, name: Path) { name in w.source && |name| < PATH_MAX }

  ghost predicate InFile(w: World, p: Parent) {
    && p.index < |w.files|
    && Suitable(w, w.files[p.index])
    && p.offset + p.remaining == |w.source[w.files[p.index]]|
  }

  // The last message begun is the one the parent is sending.
  ghost predicate Sending(w: World, p: Parent) {
    && p.log.begun != []
    && p.log.frame == Frame(Last(p.log.begun))
    && (if p.index < |w.files| then InFile(w, p) && Last(p.log.begun) == FileItem(w.files[p.index], w.source[w.files[p.index]])
        else Last(p.log.begun) == EndItem)
  }

  ghost predicate InvPhase(w: World, p: Parent) {
    && p.index <= |w.files|
    && p.log.sent <= |p.log.frame|
    && match p.phase
       case Opening => p.index < |w.files| && !p.fatal && p.log.sent == |p.log.frame|
       case Await(got) =>
         && |got| < 4 && !p.fatal && p.log.sent == |p.log.frame|
         && (p.index < |w.files| ==> InFile(w, p) && p.offset == 0)
       case Send(out) =>
         && out != [] && !p.fatal && Sending(w, p)
         && p.log.sent + |out| == HEADER_SIZE + (if p.index < |w.files| then p.offset else 0)
         && out == p.log.frame[p.log.sent..p.log.sent + |out|]
       case ReadSource =>
         p.index < |w.files| && p.remaining > 0 && !p.fatal && Sending(w, p) && p.log.sent == HEADER_SIZE + p.offset
       case WaitChild => !p.fatal ==> EndSent(w, p)
       case Exited(success) => success == (!p.fatal && !p.fileError) && (!p.fatal ==> EndSent(w, p))
  }

  ghost predicate EndSent(w: World, p: Parent) {
    p.index == |w.files| && p.log.begun != [] && Last(p.log.begun) == EndItem && p.log.sent == |p.log.frame|
  }

  ghost predicate Covered(w: World, log: ParentLog, name: Path) {
    name in log.skipped || (name in w.source && FileItem(name, w.source[name]) in log.begun)
  }

  // Every file before `index` was skipped or sent.
  ghost predicate InvCovered(w: World, p: Parent) {
    && p.index <= |w.files|
    && (forall i :: 0 <= i < p.index ==> Covered(w, p.log, w.files[i]))
    && (p.fileError <==> p.log.skipped != {})
  }

  // The data pipe's history is whole messages and the sent part of the last.
  ghost predicate InvWritten(log: ParentLog) {
    && (log.begun == [] ==> log.written == [] && log.frame == [])
    && (log.begun != [] ==>
          && log.frame == Frame(Last(log.begun)) && log.sent <= |log.frame|
          && log.written == Stream(log.begun[..|log.begun| - 1]) + log.frame[..log.sent])
  }

  ghost predicate EndIsLast(begun: seq<Item>) { forall i :: 0 <= i < |begun| - 1 ==> begun[i].FileItem? }

  ghost predicate InvParent(w: World, p: Parent) {
    && InvPhase(w, p)
    && EndIsLast(p.log.begun)
    && InvCovered(w, p)
    && InvWritten(p.log)
    && (EndItem in p.log.begun ==> p.index == |w.files| && (p.phase.Send? || ParentClosed(p)))
  }

  // Messages carry the source files as they were before the run.
  ghost predicate InvItem(w: World, it: Item) {
    ValidItem(it) && (it.FileItem? ==> it.name in w.files && it.name in w.source && it.body == w.source[it.name])
  }

  ghost predicate InvItems(w: World, begun: seq<Item>) { forall it <- begun :: InvItem(w, it) }

  ghost predicate InvSources(w: World, fs: map<Path, Bytes>) {
    forall name <- w.files :: (name in fs <==> name in w.source) && (name in fs ==> fs[name] == w.source[name])
  }

  // How many bytes of the message `it` the child has consumed.
  function Consumed(c: Child): nat {
    match c.phase
    case RecvHeader(got) => |got|
    case Create => HEADER_SIZE
    case RecvBody(got) => HEADER_SIZE + |c.log.body| + |got|
    case WriteCopy(_) => HEADER_SIZE + |c.log.body|
    case CloseCopy => HEADER_SIZE + |c.log.body|
    case _ => 0
  }

  // The child has taken message `it`, whose bytes are `frame`, apart correctly so far.
  ghost predicate InBody(c: Child, it: Item, frame: Bytes) {
    && it.FileItem? && c.name == it.name
    && HEADER_SIZE + |c.log.body| <= |frame|
    && c.log.body == frame[HEADER_SIZE..HEADER_SIZE + |c.log.body|]
  }

  ghost predicate Processing(c: Child, it: Item, frame: Bytes) {
    match c.phase
    case RecvHeader(got) => |got| < HEADER_SIZE && |got| <= |frame| && got == frame[..|got|]
    case Create => InBody(c, it, frame) && c.log.body == [] && HEADER_SIZE + c.remaining == |frame|
    case RecvBody(got) =>
      && InBody(c, it, frame) && HEADER_SIZE + |c.log.body| + c.remaining == |frame|
      && |got| < Min(BLOCK_SIZE, c.remaining)
      && got == frame[HEADER_SIZE + |c.log.body|..HEADER_SIZE + |c.log.body| + |got|]
    case WriteCopy(out) =>
      && InBody(c, it, frame) && c.isOpen && out != [] && c.remaining > 0
      && HEADER_SIZE + |c.log.body| + c.remaining == |frame| + Min(BLOCK_SIZE, c.remaining)
    case CloseCopy => InBody(c, it, frame) && c.isOpen && c.remaining == 0 && HEADER_SIZE + |c.log.body| == |frame|
    case Done(_) => true
    case SendReady(_) => false
  }

  function ParentGot(p: Parent): Bytes { if p.phase.Await? then p.phase.got else [] }

  function ReadyOut(c: Child): Bytes { if c.phase.SendReady? then c.phase.out else [] }

  // Between two messages: the data pipe is empty and one READY is under way.
  ghost predicate InvQuiet(p: Parent, c: Child, data: Bytes, ready: Bytes) {
    && data == [] && p.log.sent == |p.log.frame|
    && !p.phase.Send? && !p.phase.ReadSource?
    && (match c.phase
        case SendReady(out) => out != []
        case RecvHeader(got) => got == []
        case Done(_) => true
        case _ => false)
    && (ParentClosed(p) ==> p.fatal || ChildClosed(c))
    && (!ParentClosed(p) ==>
          if ChildClosed(c) then ParentGot(p) + ready <= READY_CODE
          else ParentGot(p) + ready + ReadyOut(c) == READY_CODE)
  }

  // During message `it`: the data pipe holds what is sent and not yet consumed.
  ghost predicate InvBusy(p: Parent, c: Child, data: Bytes, ready: Bytes) {
    && ready == [] && ParentGot(p) == []
    && p.log.begun != []
    && Processing(c, Last(p.log.begun), p.log.frame)
    && (!ChildClosed(c) ==>
          Consumed(c) <= p.log.sent <= |p.log.frame| && data == p.log.frame[Consumed(c)..p.log.sent])
  }

  ghost predicate InvPipes(p: Parent, c: Child, data: Bytes, ready: Bytes) {
    && c.log.parsed <= p.log.begun
    && |p.log.begun| <= |c.log.parsed| + 1
    && (if c.log.parsed == p.log.begun then InvQuiet(p, c, data, ready) else InvBusy(p, c, data, ready))
    && (EndItem in c.log.parsed ==> ChildClosed(c))
    && (c.phase.Done? && c.phase.code == 0 ==> EndItem in c.log.parsed && !c.hadError)
  }

  // The copy of `name` may be incomplete because the child is, or died, writing it.
  ghost predicate Rewriting(c: Child, name: Path) {
    && c.name == name
    && (match c.phase
        case RecvBody(_) => true
        case WriteCopy(_) => true
        case CloseCopy => true
        case Done(_) => EndItem !in c.log.parsed
        case _ => false)
  }

  ghost predicate Copied(fs: map<Path, Bytes>, it: Item)
    requires it.FileItem?
  {
    CopyName(it.name) in fs && fs[CopyName(it.name)] == it.body
  }

  ghost predicate InvOpenCopy(c: Child, fs: map<Path, Bytes>) {
    match c.phase
    case RecvBody(_) =>
      if c.isOpen then CopyName(c.name) in fs && fs[CopyName(c.name)] == c.log.body else c.name in c.log.failed
    case WriteCopy(out) => CopyName(c.name) in fs && fs[CopyName(c.name)] + out == c.log.body
    case CloseCopy => CopyName(c.name) in fs && fs[CopyName(c.name)] == c.log.body
    case _ => true
  }

  ghost predicate InvCopies(c: Child, fs: map<Path, Bytes>) {
    && InvOpenCopy(c, fs)
    && (c.hadError <==> c.log.failed != {})
    && (forall it <- c.log.parsed :: it.FileItem? ==>
          it.name in c.log.failed || Rewriting(c, it.name) || Copied(fs, it))
  }

  ghost predicate InvFault(s: State) {
    && (s.faulted <==> s.parent.fatal || s.parent.fileError || s.child.hadError
                       || (s.child.phase.Done? && s.child.phase.code != 0))
    && (s.parent.phase.Exited? ==> s.child.phase.Done? && (!s.parent.fatal ==> s.child.phase.code == 0))
  }

  ghost predicate Inv(w: World, s: State) {
    && InvParent(w, s.parent) && InvItems(w, s.parent.log.begun) && InvSources(w, s.fs)
    && InvPipes(s.parent, s.child, s.data, s.ready) && InvCopies(s.child, s.fs) && InvFault(s)
  }

  lemma InitInv(w: World)
    requires ValidWorld(w)
    ensures Inv(w, Init(w))
  {
  }

  // ---------------------------------------------------------------- the parent

  lemma SkipKeepsParent(w: World, p: Parent, name: Path)
    requires InvParent(w, p) && p.phase.Opening? && name == w.files[p.index]
    ensures InvParent(w, SkipFile(w, p, name))
  {
  }

  // Between messages the pipes do not depend on what the parent does next.
  lemma IdlePipes(p: Parent, p': Parent, c: Child, data: Bytes, ready: Bytes)
    requires InvPipes(p, c, data, ready) && p.phase.Opening?
    requires p'.phase == Opening || p'.phase == Await([])
    requires p'.log.begun == p.log.begun && p'.log.frame == p.log.frame && p'.log.sent == p.log.sent
    ensures InvPipes(p', c, data, ready)
  {
  }

  lemma SkipKeeps(w: World, s: State, name: Path)
    requires Inv(w, s) && s.parent.phase.Opening? && name == w.files[s.parent.index]
    ensures Inv(w, s.(parent := SkipFile(w, s.parent, name), faulted := true))
  {
    var p := SkipFile(w, s.parent, name);
    SkipKeepsParent(w, s.parent, name);
    IdlePipes(s.parent, p, s.child, s.data, s.ready);
    assert InvFault(s.(parent := p, faulted := true));
  }

  lemma OpenedParent(w: World, p: Parent, size: nat)
    requires InvParent(w, p) && p.phase.Opening?
    requires Suitable(w, w.files[p.index]) && size == |w.source[w.files[p.index]]|
    ensures InvParent(w, p.(phase := Await([]), offset := 0, remaining := size))
  {
  }

  lemma OpeningKeeps(w: World, s: State, o: Outcome)
    requires ValidWorld(w) && Inv(w, s) && s.parent.phase.Opening?
    requires StepOpening(w, s, o).Some?
    ensures Inv(w, StepOpening(w, s, o).value)
  {
    var name := w.files[s.parent.index];
    if o.Fault? || name !in s.fs || |name| >= PATH_MAX {
      SkipKeeps(w, s, name);
    } else {
      var p := s.parent.(phase := Await([]), offset := 0, remaining := |s.fs[name]|);
      OpenedParent(w, s.parent, |s.fs[name]|);
      IdlePipes(s.parent, p, s.child, s.data, s.ready);
      SameFaults(s, s.(parent := p));
    }
  }

  lemma AbortKeeps(w: World, s: State)
    requires Inv(w, s) && !ParentClosed(s.parent)
    ensures Inv(w, Abort(s))
  {
  }

  // A complete code is the READY code, and nothing is left behind it.
  lemma ReadyIsComplete(p: Parent, c: Child, data: Bytes, ready: Bytes, n: nat)
    requires InvPipes(p, c, data, ready) && p.phase.Await?
    requires CanRead(ready, 4 - |ParentGot(p)|, n) && |ParentGot(p)| + n == 4
    ensures ParentGot(p) + ready[..n] == READY_CODE && ready[n..] == []
    ensures c.log.parsed == p.log.begun && data == []
    ensures ChildClosed(c) || c.phase == RecvHeader([])
  {
  }

  // The code arrives piecewise.
  lemma TakeReady(p: Parent, c: Child, data: Bytes, ready: Bytes, n: nat)
    requires InvPipes(p, c, data, ready) && p.phase.Await? && n <= |ready|
    requires 1 <= n
    ensures InvPipes(p.(phase := Await(ParentGot(p) + ready[..n])), c, data, ready[n..])
  {
    var got := ParentGot(p);
    assert (got + ready[..n]) + ready[n..] == got + ready;
    assert (got + ready[..n]) + ready[n..] + ReadyOut(c) == got + ready + ReadyOut(c);
  }

  // What the parent sends next is what its log says.
  lemma NextIsFrame(w: World, s: State)
    requires InvPhase(w, s.parent) && InvSources(w, s.fs) && s.parent.phase.Await?
    ensures NextHeader(w, s.parent) == HeaderOf(NextItem(w, s))
    ensures NextItem(w, s) == if s.parent.index < |w.files|
                              then FileItem(w.files[s.parent.index], w.source[w.files[s.parent.index]]) else EndItem
  {
  }

  lemma BeginWritten(p: Parent, it: Item)
    requires InvWritten(p.log) && p.log.sent == |p.log.frame|
    ensures InvWritten(Begin(p, it, HeaderOf(it)).log)
  {
  }

  lemma BeginPhase(w: World, p: Parent, it: Item)
    requires InvPhase(w, p) && p.phase.Await?
    requires it == if p.index < |w.files| then FileItem(w.files[p.index], w.source[w.files[p.index]]) else EndItem
    ensures InvPhase(w, Begin(p, it, HeaderOf(it)))
  {
  }

  lemma BeginEndIsLast(begun: seq<Item>, it: Item)
    requires EndItem !in begun
    ensures EndIsLast(begun + [it])
  {
  }

  lemma BeginCovered(w: World, p: Parent, it: Item)
    requires InvCovered(w, p)
    ensures InvCovered(w, Begin(p, it, HeaderOf(it)))
  {
  }

  lemma BeginPipes(p: Parent, c: Child, ready: Bytes, it: Item)
    requires InvPipes(p, c, [], ready) && c.log.parsed == p.log.begun
    requires ChildClosed(c) || c.phase == RecvHeader([])
    ensures InvPipes(Begin(p, it, HeaderOf(it)), c, [], [])
  {
  }

  lemma AwaitKeeps(w: World, s: State, o: Outcome)
    requires ValidWorld(w) && Inv(w, s) && s.parent.phase.Await?
    requires StepAwait(w, s, o, ParentGot(s.parent)).Some?
    ensures Inv(w, StepAwait(w, s, o, ParentGot(s.parent)).value)
  {
    var got := ParentGot(s.parent);
    if o.Fault? || o.n == 0 {
      AbortKeeps(w, s);
    } else if |got| + o.n < 4 {
      TakeReady(s.parent, s.child, s.data, s.ready, o.n);
      assert InvCovered(w, s.parent.(phase := Await(got + s.ready[..o.n])));
    } else {
      BeginKeeps(w, s, o);
    }
  }

  lemma BeginKeeps(w: World, s: State, o: Outcome)
    requires ValidWorld(w) && Inv(w, s) && s.parent.phase.Await? && o.Count?
    requires CanRead(s.ready, 4 - |ParentGot(s.parent)|, o.n) && |ParentGot(s.parent)| + o.n == 4
    requires StepAwait(w, s, o, ParentGot(s.parent)).Some?
    ensures Inv(w, StepAwait(w, s, o, ParentGot(s.parent)).value)
  {
    var it := NextItem(w, s);
    ReadyIsComplete(s.parent, s.child, s.data, s.ready, o.n);
    NextIsFrame(w, s);
    BeginWritten(s.parent, it);
    BeginPhase(w, s.parent, it);
    BeginCovered(w, s.parent, it);
    BeginEndIsLast(s.parent.log.begun, it);
    BeginPipes(s.parent, s.child, s.ready, it);
  }

  // Cutting a window `s[a..b]` of a buffer after `n` bytes.
  lemma Window<T>(s: seq<T>, a: nat, b: nat, n: nat)
    requires a + n <= b <= |s|
    ensures s[a..b][..n] == s[a..a + n] && s[a..b][n..] == s[a + n..b]
    ensures s[..a + n] == s[..a] + s[a..a + n]
  {
  }

  // The part of the invariant that belongs to the bytes put so far.
  ghost predicate Put(w: World, p: Parent) {
    && p.index <= |w.files| && !p.fatal && Sending(w, p) && p.log.sent <= |p.log.frame|
    && p.log.sent == HEADER_SIZE + (if p.index < |w.files| then p.offset else 0)
  }

  lemma PutAll(w: World, p: Parent)
    requires Put(w, p)
    ensures InvPhase(w, AfterSend(w, p, []))
  {
  }

  lemma PutSome(w: World, p: Parent, rest: Bytes)
    requires p.index <= |w.files| && !p.fatal && Sending(w, p) && rest != [] && p.log.sent + |rest| <= |p.log.frame|
    requires p.log.sent + |rest| == HEADER_SIZE + (if p.index < |w.files| then p.offset else 0)
    requires rest == p.log.frame[p.log.sent..p.log.sent + |rest|]
    ensures InvPhase(w, AfterSend(w, p, rest))
  {
  }

  lemma SentShape(w: World, p: Parent, bytes: Bytes)
    requires p.index <= |w.files| && Sending(w, p)
    ensures var p' := Sent(p, bytes);
            && Sending(w, p') && p'.index == p.index && p'.offset == p.offset && p'.fatal == p.fatal
            && p'.log.frame == p.log.frame && p'.log.sent == p.log.sent + |bytes|
  {
  }

  lemma SendKeepsPhase(w: World, p: Parent, n: nat)
    requires InvPhase(w, p) && p.phase.Send? && 1 <= n <= |p.phase.out|
    ensures InvPhase(w, AfterSend(w, Sent(p, p.phase.out[..n]), p.phase.out[n..]))
  {
    var out, p' := p.phase.out, Sent(p, p.phase.out[..n]);
    SentShape(w, p, out[..n]);
    if n == |out| {
      assert out[n..] == [];
      PutAll(w, p');
    } else {
      Window(p.log.frame, p.log.sent, p.log.sent + |out|, n);
      PutSome(w, p', out[n..]);
    }
  }

  lemma SendKeepsWritten(w: World, p: Parent, n: nat)
    requires InvPhase(w, p) && InvWritten(p.log) && p.phase.Send? && 1 <= n <= |p.phase.out|
    ensures InvWritten(Sent(p, p.phase.out[..n]).log)
  {
    var frame, sent := p.log.frame, p.log.sent;
    Window(frame, sent, sent + |p.phase.out|, n);
    Associative(Stream(p.log.begun[..|p.log.begun| - 1]), frame[..sent], frame[sent..sent + n]);
  }

  lemma Associative<T>(a: seq<T>, b: seq<T>, c: seq<T>)
    ensures (a + b) + c == a + (b + c)
  {
  }

  lemma SendKeepsCovered(w: World, p: Parent, n: nat)
    requires InvPhase(w, p) && InvCovered(w, p) && p.phase.Send? && 1 <= n <= |p.phase.out|
    ensures InvCovered(w, AfterSend(w, Sent(p, p.phase.out[..n]), p.phase.out[n..]))
  {
  }

  // AfterSend moves the control, not the log.
  lemma AfterSendShape(w: World, p: Parent, rest: Bytes)
    ensures var p' := AfterSend(w, p, rest);
            p'.log == p.log && p'.fatal == p.fatal && p'.fileError == p.fileError && ParentGot(p') == []
            && !p'.phase.Exited?
  {
  }

  lemma PutKeepsPipes(p: Parent, p': Parent, c: Child, data: Bytes, ready: Bytes, n: nat)
    requires InvPipes(p, c, data, ready) && p.phase.Send? && p.log.sent + n <= |p.log.frame|
    requires p'.log == p.log.(sent := p.log.sent + n, written := p'.log.written) && ParentGot(p') == []
    requires !ChildClosed(c)
    ensures InvPipes(p', c, data + p.log.frame[p.log.sent..p.log.sent + n], ready)
  {
  }

  lemma SendKeepsPipes(w: World, p: Parent, c: Child, data: Bytes, ready: Bytes, n: nat)
    requires InvPhase(w, p) && InvPipes(p, c, data, ready)
    requires p.phase.Send? && 1 <= n <= |p.phase.out| && !ChildClosed(c)
    ensures InvPipes(AfterSend(w, Sent(p, p.phase.out[..n]), p.phase.out[n..]), c, data + p.phase.out[..n], ready)
  {
    var p1 := Sent(p, p.phase.out[..n]);
    AfterSendShape(w, p1, p.phase.out[n..]);
    Window(p.log.frame, p.log.sent, p.log.sent + |p.phase.out|, n);
    PutKeepsPipes(p, AfterSend(w, p1, p.phase.out[n..]), c, data, ready, n);
  }

  lemma SendKeeps(w: World, s: State, o: Outcome)
    requires ValidWorld(w) && Inv(w, s) && s.parent.phase.Send?
    requires StepSend(w, s, o, s.parent.phase.out).Some?
    ensures Inv(w, StepSend(w, s, o, s.parent.phase.out).value)
  {
    if o.Fault? {
      AbortKeeps(w, s);
    } else {
      var s' := StepSend(w, s, o, s.parent.phase.out).value;
      SendKeepsParent(w, s.parent, o.n);
      SendKeepsPipes(w, s.parent, s.child, s.data, s.ready, o.n);
      AfterSendShape(w, Sent(s.parent, s.parent.phase.out[..o.n]), s.parent.phase.out[o.n..]);
      SameFaults(s, s');
    }
  }

  lemma SameFaults(s: State, s': State)
    requires InvFault(s) && s'.faulted == s.faulted && s'.child == s.child && !s'.parent.phase.Exited?
    requires s'.parent.fatal == s.parent.fatal && s'.parent.fileError == s.parent.fileError
    ensures InvFault(s')
  {
  }

  lemma SendKeepsParent(w: World, p: Parent, n: nat)
    requires InvParent(w, p) && p.phase.Send? && 1 <= n <= |p.phase.out|
    ensures InvParent(w, AfterSend(w, Sent(p, p.phase.out[..n]), p.phase.out[n..]))
  {
    SendKeepsPhase(w, p, n);
    SendKeepsWritten(w, p, n);
    SendKeepsCovered(w, p, n);
    SendKeepsEnd(w, p, n);
  }

  lemma SendKeepsEnd(w: World, p: Parent, n: nat)
    requires InvPhase(w, p) && p.phase.Send? && 1 <= n <= |p.phase.out|
    requires EndItem in p.log.begun ==> p.index == |w.files|
    ensures var p' := AfterSend(w, Sent(p, p.phase.out[..n]), p.phase.out[n..]);
            EndItem in p'.log.begun ==> p'.index == |w.files| && (p'.phase.Send? || ParentClosed(p'))
  {
  }

  // The bytes read from the file are the next bytes of the message.
  lemma ReadIsNext(w: World, p: Parent, n: nat)
    requires InvPhase(w, p) && p.phase.ReadSource? && n <= p.remaining
    ensures w.source[w.files[p.index]][p.offset..][..n] == p.log.frame[p.log.sent..p.log.sent + n]
  {
  }

  lemma ReadSourceKeeps(w: World, s: State, o: Outcome)
    requires ValidWorld(w) && Inv(w, s) && s.parent.phase.ReadSource?
    requires StepReadSource(w, s, o).Some?
    ensures Inv(w, StepReadSource(w, s, o).value)
  {
    var s' := StepReadSource(w, s, o).value;
    if s' == Abort(s) {
      AbortKeeps(w, s);
    } else {
      ReadIsNext(w, s.parent, o.n);
      assert InvCovered(w, s'.parent);
    }
  }

  lemma WaitChildKeeps(w: World, s: State, o: Outcome)
    requires ValidWorld(w) && Inv(w, s) && s.parent.phase.WaitChild?
    requires StepWaitChild(s, o).Some?
    ensures Inv(w, StepWaitChild(s, o).value)
  {
    assert InvCovered(w, StepWaitChild(s, o).value.parent);
  }

  lemma ParentKeeps(w: World, s: State, o: Outcome)
    requires ValidWorld(w) && Inv(w, s) && ParentStep(w, s, o).Some?
    ensures Inv(w, ParentStep(w, s, o).value)
  {
    match s.parent.phase
    case Opening => OpeningKeeps(w, s, o);
    case Await(_) => AwaitKeeps(w, s, o);
    case Send(_) => SendKeeps(w, s, o);
    case ReadSource => ReadSourceKeeps(w, s, o);
    case WaitChild => WaitChildKeeps(w, s, o);
    case Exited(_) =>
  }

  // ----------------------------------------------------------------- the child

  lemma QuitKeeps(w: World, s: State)
    requires Inv(w, s) && !ChildClosed(s.child) && !s.parent.phase.Exited?
    ensures Inv(w, Quit(s))
  {
  }

  // A step of the child that neither fails nor ends it.
  lemma ChildFaults(s: State, s': State)
    requires InvFault(s) && s'.parent == s.parent && !ChildClosed(s.child) && !ChildClosed(s'.child)
    requires (s'.faulted && s'.child.hadError) || (s'.faulted == s.faulted && s'.child.hadError == s.child.hadError)
    ensures InvFault(s')
  {
  }

  lemma SendReadyKeeps(w: World, s: State, o: Outcome)
    requires ValidWorld(w) && Inv(w, s) && s.child.phase.SendReady?
    requires StepSendReady(w, s, o, s.child.phase.out).Some?
    ensures Inv(w, StepSendReady(w, s, o, s.child.phase.out).value)
  {
    if o.Fault? {
      if s.parent.phase.Exited? { assert false; }
      QuitKeeps(w, s);
    } else {
      var s', out := StepSendReady(w, s, o, s.child.phase.out).value, s.child.phase.out;
      SendReadyPipes(s.parent, s.child, s'.child, s.data, s.ready, o.n);
      SameStatusCopies(s.child, s'.child, s.fs);
    }
  }

  lemma SendReadyPipes(p: Parent, c: Child, c': Child, data: Bytes, ready: Bytes, n: nat)
    requires InvPipes(p, c, data, ready) && c.phase.SendReady? && 1 <= n <= |c.phase.out|
    requires c' == c.(phase := if c.phase.out[n..] != [] then SendReady(c.phase.out[n..]) else RecvHeader([]))
    requires !ParentClosed(p)
    ensures InvPipes(p, c', data, ready + c.phase.out[..n])
  {
  }

  // Outside the body of a file the copies do not depend on the child's phase.
  lemma SameStatusCopies(c: Child, c': Child, fs: map<Path, Bytes>)
    requires InvCopies(c, fs) && c'.log == c.log && c'.hadError == c.hadError
    requires c.phase.SendReady? || c.phase.RecvHeader?
    requires c'.phase.SendReady? || c'.phase.RecvHeader? || c'.phase.Done? || c'.phase.Create?
    ensures InvCopies(c', fs)
  {
  }

  lemma PrefixNext<T>(done: seq<T>, all: seq<T>)
    requires done <= all && |all| == |done| + 1
    ensures done + [Last(all)] == all
  {
  }

  // The header arrives piecewise.
  lemma HeaderGrows(p: Parent, c: Child, data: Bytes, ready: Bytes, n: nat)
    requires InvPipes(p, c, data, ready) && c.phase.RecvHeader? && 1 <= n <= |data|
    ensures c.log.parsed != p.log.begun && |c.phase.got| + n <= p.log.sent <= |p.log.frame|
    ensures c.phase.got + data[..n] == p.log.frame[..|c.phase.got| + n]
    ensures data[n..] == p.log.frame[|c.phase.got| + n..p.log.sent]
  {
  }

  lemma PartialHeaderPipes(p: Parent, c: Child, data: Bytes, ready: Bytes, n: nat)
    requires InvPipes(p, c, data, ready) && c.phase.RecvHeader? && 1 <= n <= |data|
    requires |c.phase.got| + n < HEADER_SIZE
    ensures InvPipes(p, c.(phase := RecvHeader(c.phase.got + data[..n])), data[n..], ready)
  {
  }

  // A complete header is read back as the parent wrote it.
  lemma HeaderIsDecoded(w: World, p: Parent, c: Child, data: Bytes, ready: Bytes, n: nat)
    requires InvPipes(p, c, data, ready) && InvWritten(p.log) && InvItems(w, p.log.begun)
    requires c.phase.RecvHeader? && 1 <= n <= |data| && |c.phase.got| + n == HEADER_SIZE
    ensures p.log.begun != []
    ensures |c.phase.got + data[..n]| == HEADER_SIZE
    ensures Decode(c.phase.got + data[..n]) == HeaderOf(Last(p.log.begun))
  {
    var it := Last(p.log.begun);
    HeaderGrows(p, c, data, ready, n);
    assert InvItem(w, it);
    HeaderRoundTrip(it);
    assert p.log.frame[..HEADER_SIZE] == Encode(HeaderOf(it));
  }

  lemma FrameSize(it: Item)
    requires ValidItem(it)
    ensures |Frame(it)| == HEADER_SIZE + (if it.FileItem? then |it.body| else 0)
    ensures it.FileItem? ==> Frame(it)[HEADER_SIZE..] == it.body
  {
  }

  lemma CreatePipes(w: World, p: Parent, c: Child, data: Bytes, ready: Bytes, n: nat)
    requires InvPipes(p, c, data, ready) && InvWritten(p.log) && InvItems(w, p.log.begun)
    requires c.phase.RecvHeader? && 1 <= n <= |data| && |c.phase.got| + n == HEADER_SIZE
    requires p.log.begun != [] && Last(p.log.begun).FileItem?
    ensures InvPipes(p, Dispatch(c, HeaderOf(Last(p.log.begun))), data[n..], ready)
  {
    HeaderGrows(p, c, data, ready, n);
    assert InvItem(w, Last(p.log.begun));
    FrameSize(Last(p.log.begun));
  }

  lemma EndPipes(w: World, p: Parent, c: Child, data: Bytes, ready: Bytes, n: nat)
    requires InvPipes(p, c, data, ready) && InvParent(w, p)
    requires c.phase.RecvHeader? && 1 <= n <= |data| && |c.phase.got| + n == HEADER_SIZE
    requires p.log.begun != [] && Last(p.log.begun).EndItem?
    ensures InvPipes(p, Dispatch(c, HeaderOf(EndItem)), data[n..], ready)
  {
    HeaderGrows(p, c, data, ready, n);
    FrameSize(EndItem);
    PrefixNext(c.log.parsed, p.log.begun);
    assert EndItem in p.log.begun;
  }

  lemma DispatchCopies(c: Child, m: Message, fs: map<Path, Bytes>)
    requires InvCopies(c, fs) && c.phase.RecvHeader?
    ensures InvCopies(Dispatch(c, m), fs)
  {
  }

  lemma RecvHeaderKeeps(w: World, s: State, o: Outcome)
    requires ValidWorld(w) && Inv(w, s) && s.child.phase.RecvHeader?
    requires StepRecvHeader(s, o, s.child.phase.got).Some?
    ensures Inv(w, StepRecvHeader(s, o, s.child.phase.got).value)
  {
    var s', got := StepRecvHeader(s, o, s.child.phase.got).value, s.child.phase.got;
    if o.Fault? || o.n == 0 {
      QuitKeeps(w, s);
    } else if |got| + o.n < HEADER_SIZE {
      PartialHeaderPipes(s.parent, s.child, s.data, s.ready, o.n);
      SameStatusCopies(s.child, s'.child, s.fs);
    } else {
      CompleteHeaderKeeps(w, s, o);
    }
  }

  lemma CompleteHeaderKeeps(w: World, s: State, o: Outcome)
    requires ValidWorld(w) && Inv(w, s) && s.child.phase.RecvHeader?
    requires o.Count? && 1 <= o.n <= |s.data| && |s.child.phase.got| + o.n == HEADER_SIZE
    requires StepRecvHeader(s, o, s.child.phase.got).Some?
    ensures Inv(w, StepRecvHeader(s, o, s.child.phase.got).value)
  {
    HeaderIsDecoded(w, s.parent, s.child, s.data, s.ready, o.n);
    var m := HeaderOf(Last(s.parent.log.begun));
    var s' := s.(data := s.data[o.n..], child := Dispatch(s.child, m));
    assert StepRecvHeader(s, o, s.child.phase.got) == Some(s');
    DispatchCopies(s.child, m, s.fs);
    if m.kind == KIND_END {
      EndPipes(w, s.parent, s.child, s.data, s.ready, o.n);
    } else {
      CreatePipes(w, s.parent, s.child, s.data, s.ready, o.n);
    }
  }

  // ---- the body of a file

  // At the child's `while (remaining > 0)` test.
  ghost predicate AtTest(p: Parent, c: Child, data: Bytes, ready: Bytes) {
    && c.log.parsed <= p.log.begun && |p.log.begun| == |c.log.parsed| + 1 && EndItem !in c.log.parsed
    && ready == [] && ParentGot(p) == []
    && InBody(c, Last(p.log.begun), p.log.frame)
    && HEADER_SIZE + |c.log.body| + c.remaining == |p.log.frame|
    && HEADER_SIZE + |c.log.body| <= p.log.sent <= |p.log.frame|
    && data == p.log.frame[HEADER_SIZE + |c.log.body|..p.log.sent]
  }

  ghost predicate CopiesAtTest(c: Child, fs: map<Path, Bytes>) {
    && (if c.isOpen then CopyName(c.name) in fs && fs[CopyName(c.name)] == c.log.body else c.name in c.log.failed)
    && (c.hadError <==> c.log.failed != {})
    && (forall it <- c.log.parsed :: it.FileItem? ==>
          it.name in c.log.failed || it.name == c.name || Copied(fs, it))
  }

  // The message taken apart is the message sent.
  lemma BodyIsWhole(it: Item, c: Child, frame: Bytes)
    requires ValidItem(it) && frame == Frame(it) && InBody(c, it, frame) && HEADER_SIZE + |c.log.body| == |frame|
    ensures it == FileItem(c.name, c.log.body)
  {
  }

  lemma FinishPipes(w: World, p: Parent, c: Child, data: Bytes, ready: Bytes)
    requires InvParent(w, p) && InvItems(w, p.log.begun) && AtTest(p, c, data, ready) && c.remaining == 0
    ensures InvPipes(p, FinishFile(c), data, ready)
  {
    var it := Last(p.log.begun);
    assert InvItem(w, it);
    BodyIsWhole(it, c, p.log.frame);
    PrefixNext(c.log.parsed, p.log.begun);
    assert ReadyOut(FinishFile(c)) == READY_CODE;
  }

  lemma NextBlockPipes(w: World, p: Parent, c: Child, data: Bytes, ready: Bytes)
    requires InvParent(w, p) && InvItems(w, p.log.begun) && AtTest(p, c, data, ready)
    ensures InvPipes(p, NextBlock(c), data, ready)
  {
    if c.remaining == 0 && !c.isOpen {
      FinishPipes(w, p, c, data, ready);
    }
  }

  lemma NextBlockCopies(c: Child, fs: map<Path, Bytes>)
    requires CopiesAtTest(c, fs)
    ensures InvCopies(NextBlock(c), fs)
  {
  }

  lemma NextBlockShape(c: Child)
    ensures !ChildClosed(NextBlock(c)) && NextBlock(c).hadError == c.hadError
  {
  }

  lemma CopyNameInjective(a: Path, b: Path)
    requires CopyName(a) == CopyName(b)
    ensures a == b
  {
    assert a == CopyName(a)[..|CopyName(a)| - |COPY_SUFFIX|];
    assert b == CopyName(b)[..|CopyName(b)| - |COPY_SUFFIX|];
  }

  // Writing the copy of one file leaves the copies of the others alone.
  lemma WriteElsewhere(c: Child, fs: map<Path, Bytes>, content: Bytes)
    requires forall it <- c.log.parsed :: it.FileItem? ==>
               it.name in c.log.failed || it.name == c.name || Copied(fs, it)
    ensures forall it <- c.log.parsed :: it.FileItem? ==>
               it.name in c.log.failed || it.name == c.name || Copied(fs[CopyName(c.name) := content], it)
  {
    forall it <- c.log.parsed | it.FileItem?
      ensures it.name in c.log.failed || it.name == c.name || Copied(fs[CopyName(c.name) := content], it)
    {
      if CopyName(it.name) == CopyName(c.name) { CopyNameInjective(it.name, c.name); }
    }
  }

  // A copy is never one of the listed files.
  lemma SourcesSurvive(w: World, fs: map<Path, Bytes>, name: Path, content: Bytes)
    requires ValidWorld(w) && InvSources(w, fs) && name in w.files
    ensures InvSources(w, fs[CopyName(name) := content])
  {
  }

  // The name the child works on is a listed one.
  lemma CurrentIsListed(w: World, p: Parent, c: Child)
    requires InvItems(w, p.log.begun) && p.log.begun != [] && InBody(c, Last(p.log.begun), p.log.frame)
    ensures c.name in w.files
  {
    assert InvItem(w, Last(p.log.begun));
  }

  lemma PhaseIsBusy(p: Parent, c: Child, data: Bytes, ready: Bytes)
    requires InvPipes(p, c, data, ready)
    requires c.phase.Create? || c.phase.RecvBody? || c.phase.WriteCopy? || c.phase.CloseCopy?
    ensures InvBusy(p, c, data, ready) && c.log.parsed != p.log.begun && |p.log.begun| == |c.log.parsed| + 1
    ensures EndItem !in c.log.parsed && InBody(c, Last(p.log.begun), p.log.frame)
  {
  }

  // What both halves need to go on after the loop test.
  lemma TestKeeps(w: World, s: State, s': State, c: Child)
    requires ValidWorld(w) && Inv(w, s) && !ChildClosed(s.child)
    requires s' == s.(fs := s'.fs, data := s'.data, child := NextBlock(c), faulted := s'.faulted)
    requires InvSources(w, s'.fs)
    requires AtTest(s.parent, c, s'.data, s.ready) && CopiesAtTest(c, s'.fs)
    requires (s'.faulted && c.hadError) || (s'.faulted == s.faulted && c.hadError == s.child.hadError)
    ensures Inv(w, s')
  {
    NextBlockPipes(w, s.parent, c, s'.data, s.ready);
    NextBlockCopies(c, s'.fs);
    NextBlockShape(c);
    ChildFaults(s, s');
  }

  lemma NotRewriting(c: Child, fs: map<Path, Bytes>)
    requires InvCopies(c, fs)
    ensures forall it <- c.log.parsed :: it.FileItem? ==>
              it.name in c.log.failed || it.name == c.name || Copied(fs, it)
  {
  }

  lemma CreateKeeps(w: World, s: State, o: Outcome)
    requires ValidWorld(w) && Inv(w, s) && s.child.phase.Create?
    ensures Inv(w, StepCreate(s, o).value)
  {
    var c := s.child;
    PhaseIsBusy(s.parent, c, s.data, s.ready);
    NotRewriting(c, s.fs);
    if o.Fault? {
      TestKeeps(w, s, StepCreate(s, o).value, Failed(c));
    } else {
      CurrentIsListed(w, s.parent, c);
      SourcesSurvive(w, s.fs, c.name, []);
      WriteElsewhere(c, s.fs, []);
      TestKeeps(w, s, StepCreate(s, o).value, c.(isOpen := true));
    }
  }

  lemma BlockGrows(p: Parent, c: Child, data: Bytes, ready: Bytes, n: nat)
    requires InvPipes(p, c, data, ready) && c.phase.RecvBody? && 1 <= n <= |data|
    ensures var start := HEADER_SIZE + |c.log.body|;
            && start + |c.phase.got| + n <= p.log.sent <= |p.log.frame|
            && c.phase.got + data[..n] == p.log.frame[start..start + |c.phase.got| + n]
            && data[n..] == p.log.frame[start + |c.phase.got| + n..p.log.sent]
  {
  }

  lemma PartialBlockKeeps(w: World, s: State, o: Outcome)
    requires ValidWorld(w) && Inv(w, s) && s.child.phase.RecvBody? && o.Count? && 1 <= o.n <= |s.data|
    requires |s.child.phase.got| + o.n < Min(BLOCK_SIZE, s.child.remaining)
    ensures Inv(w, s.(data := s.data[o.n..], child := s.child.(phase := RecvBody(s.child.phase.got + s.data[..o.n]))))
  {
    var c := s.child;
    var c' := c.(phase := RecvBody(c.phase.got + s.data[..o.n]));
    PartialBlockPipes(s.parent, c, s.data, s.ready, o.n);
    SameBodyCopies(c, c', s.fs);
    ChildFaults(s, s.(data := s.data[o.n..], child := c'));
  }

  lemma PartialBlockPipes(p: Parent, c: Child, data: Bytes, ready: Bytes, n: nat)
    requires InvPipes(p, c, data, ready) && c.phase.RecvBody? && 1 <= n <= |data|
    requires |c.phase.got| + n < Min(BLOCK_SIZE, c.remaining)
    ensures InvPipes(p, c.(phase := RecvBody(c.phase.got + data[..n])), data[n..], ready)
  {
    BlockGrows(p, c, data, ready, n);
  }

  lemma SameBodyCopies(c: Child, c': Child, fs: map<Path, Bytes>)
    requires InvCopies(c, fs) && c.phase.RecvBody? && c'.phase.RecvBody? && c' == c.(phase := c'.phase)
    ensures InvCopies(c', fs)
  {
  }

  lemma FullBlockBody(p: Parent, c: Child, data: Bytes, ready: Bytes, n: nat)
    requires InvPipes(p, c, data, ready) && c.phase.RecvBody? && 1 <= n <= |data|
    requires |c.phase.got| + n == Min(BLOCK_SIZE, c.remaining)
    ensures var c' := c.(log := c.log.(body := c.log.body + (c.phase.got + data[..n])));
            InBody(c', Last(p.log.begun), p.log.frame)
  {
  }

  lemma RecvBodyKeeps(w: World, s: State, o: Outcome)
    requires ValidWorld(w) && Inv(w, s) && s.child.phase.RecvBody?
    requires StepRecvBody(s, o, s.child.phase.got).Some?
    ensures Inv(w, StepRecvBody(s, o, s.child.phase.got).value)
  {
    if o.Fault? || o.n == 0 {
      QuitKeeps(w, s);
    } else if |s.child.phase.got| + o.n < Min(BLOCK_SIZE, s.child.remaining) {
      PartialBlockKeeps(w, s, o);
    } else if s.child.isOpen {
      FullBlockOpen(w, s, o);
    } else {
      FullBlockClosed(w, s, o);
    }
  }

  lemma FullBlockPipes(p: Parent, c: Child, data: Bytes, ready: Bytes, n: nat)
    requires InvPipes(p, c, data, ready) && c.phase.RecvBody? && 1 <= n <= |data| && c.isOpen
    requires |c.phase.got| + n == Min(BLOCK_SIZE, c.remaining)
    ensures InvPipes(p, AfterRecv(c, c.phase.got + data[..n]), data[n..], ready)
  {
  }

  lemma FullBlockOpen(w: World, s: State, o: Outcome)
    requires ValidWorld(w) && Inv(w, s) && s.child.phase.RecvBody? && o.Count? && 1 <= o.n <= |s.data|
    requires |s.child.phase.got| + o.n == Min(BLOCK_SIZE, s.child.remaining) && s.child.isOpen
    ensures Inv(w, s.(data := s.data[o.n..], child := AfterRecv(s.child, s.child.phase.got + s.data[..o.n])))
  {
    var c := s.child;
    var c' := AfterRecv(c, c.phase.got + s.data[..o.n]);
    FullBlockPipes(s.parent, c, s.data, s.ready, o.n);
    NotRewriting(c, s.fs);
    assert InvCopies(c', s.fs);
    ChildFaults(s, s.(data := s.data[o.n..], child := c'));
  }

  lemma FullBlockClosed(w: World, s: State, o: Outcome)
    requires ValidWorld(w) && Inv(w, s) && s.child.phase.RecvBody? && o.Count? && 1 <= o.n <= |s.data|
    requires |s.child.phase.got| + o.n == Min(BLOCK_SIZE, s.child.remaining) && !s.child.isOpen
    ensures Inv(w, s.(data := s.data[o.n..], child := AfterRecv(s.child, s.child.phase.got + s.data[..o.n])))
  {
    var c := s.child;
    var got := c.phase.got + s.data[..o.n];
    PhaseIsBusy(s.parent, c, s.data, s.ready);
    BlockGrows(s.parent, c, s.data, s.ready, o.n);
    FullBlockBody(s.parent, c, s.data, s.ready, o.n);
    NotRewriting(c, s.fs);
    var c1 := c.(log := c.log.(body := c.log.body + got), remaining := c.remaining - |got|);
    TestKeeps(w, s, s.(data := s.data[o.n..], child := NextBlock(c1)), c1);
  }

  lemma WriteCopyKeeps(w: World, s: State, o: Outcome)
    requires ValidWorld(w) && Inv(w, s) && s.child.phase.WriteCopy?
    requires StepWriteCopy(s, o, s.child.phase.out).Some?
    ensures Inv(w, StepWriteCopy(s, o, s.child.phase.out).value)
  {
    PhaseIsBusy(s.parent, s.child, s.data, s.ready);
    if o.Fault? {
      WriteFaultKeeps(w, s);
    } else {
      CurrentIsListed(w, s.parent, s.child);
      WriteOkKeeps(w, s, o);
    }
  }

  lemma WriteFaultKeeps(w: World, s: State)
    requires ValidWorld(w) && Inv(w, s) && s.child.phase.WriteCopy?
    ensures Inv(w, s.(child := AfterWrite(Failed(s.child)), faulted := true))
  {
    var c := s.child;
    var left := c.remaining - Min(BLOCK_SIZE, c.remaining);
    NotRewriting(c, s.fs);
    WriteTest(s.parent, c, s.data, s.ready);
    TestKeeps(w, s, s.(child := AfterWrite(Failed(c)), faulted := true), Failed(c).(remaining := left));
  }

  // After the block has been dealt with, written or not.
  lemma WriteTest(p: Parent, c: Child, data: Bytes, ready: Bytes)
    requires InvPipes(p, c, data, ready) && c.phase.WriteCopy?
    ensures var c' := c.(remaining := c.remaining - Min(BLOCK_SIZE, c.remaining));
            AtTest(p, c', data, ready) && AtTest(p, Failed(c'), data, ready)
  {
  }

  lemma WriteOkKeeps(w: World, s: State, o: Outcome)
    requires ValidWorld(w) && Inv(w, s) && s.child.phase.WriteCopy? && s.child.name in w.files && o.Count?
    requires StepWriteCopy(s, o, s.child.phase.out).Some?
    ensures Inv(w, StepWriteCopy(s, o, s.child.phase.out).value)
  {
    var c, out := s.child, s.child.phase.out;
    var content := s.fs[CopyName(c.name)] + out[..o.n];
    Window(out, 0, |out|, o.n);
    Associative(s.fs[CopyName(c.name)], out[..o.n], out[o.n..]);
    NotRewriting(c, s.fs);
    SourcesSurvive(w, s.fs, c.name, content);
    WriteElsewhere(c, s.fs, content);
    if o.n < |out| {
      assert out == out[..o.n] + out[o.n..];
      PartialWriteKeeps(w, s, content, out[o.n..]);
    } else {
      assert out[..o.n] == out;
      LastWriteKeeps(w, s, content);
    }
  }

  lemma LastWriteKeeps(w: World, s: State, content: Bytes)
    requires ValidWorld(w) && Inv(w, s) && s.child.phase.WriteCopy? && content == s.child.log.body
    requires InvSources(w, s.fs[CopyName(s.child.name) := content])
    requires forall it <- s.child.log.parsed :: it.FileItem? ==>
               it.name in s.child.log.failed || it.name == s.child.name || Copied(s.fs[CopyName(s.child.name) := content], it)
    ensures Inv(w, s.(fs := s.fs[CopyName(s.child.name) := content], child := AfterWrite(s.child)))
  {
    var c := s.child;
    WriteTest(s.parent, c, s.data, s.ready);
    TestKeeps(w, s, s.(fs := s.fs[CopyName(c.name) := content], child := AfterWrite(c)),
              c.(remaining := c.remaining - Min(BLOCK_SIZE, c.remaining)));
  }

  lemma PartialWritePipes(p: Parent, c: Child, rest: Bytes, data: Bytes, ready: Bytes)
    requires InvPipes(p, c, data, ready) && c.phase.WriteCopy? && rest != []
    ensures InvPipes(p, c.(phase := WriteCopy(rest)), data, ready)
  {
  }

  lemma PartialWriteCopies(c: Child, fs: map<Path, Bytes>, rest: Bytes)
    requires CopyName(c.name) in fs && fs[CopyName(c.name)] + rest == c.log.body
    requires c.hadError <==> c.log.failed != {}
    requires forall it <- c.log.parsed :: it.FileItem? ==>
               it.name in c.log.failed || it.name == c.name || Copied(fs, it)
    ensures InvCopies(c.(phase := WriteCopy(rest)), fs)
  {
  }

  lemma PartialWriteKeeps(w: World, s: State, content: Bytes, rest: Bytes)
    requires Inv(w, s) && s.child.phase.WriteCopy? && rest != [] && content + rest == s.child.log.body
    requires InvSources(w, s.fs[CopyName(s.child.name) := content])
    requires forall it <- s.child.log.parsed :: it.FileItem? ==>
               it.name in s.child.log.failed || it.name == s.child.name || Copied(s.fs[CopyName(s.child.name) := content], it)
    ensures Inv(w, s.(fs := s.fs[CopyName(s.child.name) := content], child := s.child.(phase := WriteCopy(rest))))
  {
    var fs' := s.fs[CopyName(s.child.name) := content];
    PartialWritePipes(s.parent, s.child, rest, s.data, s.ready);
    PartialWriteCopies(s.child, fs', rest);
    ChildFaults(s, s.(fs := fs', child := s.child.(phase := WriteCopy(rest))));
  }

  lemma CloseCopyKeeps(w: World, s: State, o: Outcome)
    requires ValidWorld(w) && Inv(w, s) && s.child.phase.CloseCopy?
    ensures Inv(w, StepCloseCopy(s, o).value)
  {
    var c := s.child;
    PhaseIsBusy(s.parent, c, s.data, s.ready);
    NotRewriting(c, s.fs);
    assert AtTest(s.parent, c, s.data, s.ready) && AtTest(s.parent, Failed(c), s.data, s.ready);
    if o.Fault? {
      TestKeeps(w, s, StepCloseCopy(s, o).value, Failed(c));
    } else {
      FinishPipes(w, s.parent, c, s.data, s.ready);
      FinishCopies(w, s.parent, c, s.fs, s.data, s.ready);
      ChildFaults(s, StepCloseCopy(s, o).value);
    }
  }

  // A completed copy: every message received so far for this name had the same body.
  lemma FinishCopies(w: World, p: Parent, c: Child, fs: map<Path, Bytes>, data: Bytes, ready: Bytes)
    requires InvItems(w, p.log.begun) && CopiesAtTest(c, fs) && c.isOpen
    requires InvPipes(p, FinishFile(c), data, ready)
    ensures InvCopies(FinishFile(c), fs)
  {
    var c' := FinishFile(c);
    var last := FileItem(c.name, c.log.body);
    assert last in c'.log.parsed && last in p.log.begun;
    forall it <- c'.log.parsed | it.FileItem?
      ensures it.name in c'.log.failed || Rewriting(c', it.name) || Copied(fs, it)
    {
      assert it in p.log.begun && InvItem(w, it) && InvItem(w, last);
    }
  }

  lemma ChildKeeps(w: World, s: State, o: Outcome)
    requires ValidWorld(w) && Inv(w, s) && ChildStep(w, s, o).Some?
    ensures Inv(w, ChildStep(w, s, o).value)
  {
    match s.child.phase
    case SendReady(_) => SendReadyKeeps(w, s, o);
    case RecvHeader(_) => RecvHeaderKeeps(w, s, o);
    case Create => CreateKeeps(w, s, o);
    case RecvBody(_) => RecvBodyKeeps(w, s, o);
    case WriteCopy(_) => WriteCopyKeeps(w, s, o);
    case CloseCopy => CloseCopyKeeps(w, s, o);
    case Done(_) =>
  }

  lemma {:induction false} RunInv(w: World, actions: seq<Action>)
    requires ValidWorld(w) && Run(w, actions).Some?
    ensures Inv(w, Run(w, actions).value)
  {
    if actions == [] {
      InitInv(w);
    } else {
      RunInv(w, actions[..|actions| - 1]);
      var s := Run(w, actions[..|actions| - 1]).value;
      match actions[|actions| - 1]
      case ByParent(o) => ParentKeeps(w, s, o);
      case ByChild(o) => ChildKeeps(w, s, o);
    }
  }
}
