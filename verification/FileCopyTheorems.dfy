// What holds of every run of the file copier: correctness of the copies,
// framing of the data pipe, freedom from deadlock, and termination.

module FileCopyTheorems {
  import opened Base
  import opened FileCopy
  import opened FileCopyInvariant

  // The file is there as before the run, and so is an exact copy of it.
  ghost predicate IsCopied(w: World, fs: map<Path, Bytes>, name: Path) {
    var copy := name + Ascii(".copy");
    name in w.source && copy in fs && fs[copy] == w.source[name] && name in fs && fs[name] == w.source[name]
  }

  // A successful exit means that every listed file has an exact copy.
  lemma SuccessMeansCopied(w: World, actions: seq<Action>)
    requires ValidWorld(w) && Run(w, actions).Some?
    ensures Run(w, actions).value.parent.phase == Exited(true) ==>
              forall name <- w.files :: IsCopied(w, Run(w, actions).value.fs, name)
  {
    RunInv(w, actions);
    var s := Run(w, actions).value;
    if s.parent.phase == Exited(true) {
      forall name <- w.files ensures IsCopied(w, s.fs, name) { FileIsCopied(w, s, name); }
    }
  }

  lemma FileIsCopied(w: World, s: State, name: Path)
    requires Inv(w, s) && s.parent.phase == Exited(true) && name in w.files
    ensures IsCopied(w, s.fs, name)
  {
    Literals(name);
    EndIsParsed(w, s);
    Accounted(w, s, name);
  }

  // An exit without a fatal error means that the child has received everything.
  lemma EndIsParsed(w: World, s: State)
    requires Inv(w, s) && s.parent.phase.Exited? && !s.parent.fatal
    ensures EndItem in s.child.log.parsed && s.child.log.parsed == s.parent.log.begun
    ensures s.child.phase == Done(0)
  {
  }

  // Once the child has received END, a file is skipped, failed, or copied exactly.
  lemma Accounted(w: World, s: State, name: Path)
    requires Inv(w, s) && EndItem in s.child.log.parsed && name in w.files
    ensures name in s.parent.log.skipped || name in s.child.log.failed
            || (name in w.source && CopyName(name) in s.fs && s.fs[CopyName(name)] == w.source[name])
  {
  }

  // END is the last message.
  lemma AllParsed(w: World, s: State)
    requires Inv(w, s) && EndItem in s.child.log.parsed
    ensures s.child.log.parsed == s.parent.log.begun
  {
  }

  // The exit status tells exactly whether anything went wrong.
  lemma SuccessIffNoFault(w: World, actions: seq<Action>)
    requires ValidWorld(w) && Run(w, actions).Some? && Final(Run(w, actions).value)
    ensures Run(w, actions).value.parent.phase == Exited(!Run(w, actions).value.faulted)
  {
    RunInv(w, actions);
  }

  // Every file can be opened and has a short enough name, and no system call fails.
  ghost predicate Clean(w: World, actions: seq<Action>) {
    && (forall name <- w.files :: Suitable(w, name))
    && (forall a <- actions :: a.o.Count?)
  }

  lemma CleanOpening(w: World, s: State, o: Outcome)
    requires Inv(w, s) && !s.faulted && o.Count? && s.parent.phase.Opening?
    requires forall name <- w.files :: Suitable(w, name)
    requires StepOpening(w, s, o).Some?
    ensures !StepOpening(w, s, o).value.faulted
  {
    assert Suitable(w, w.files[s.parent.index]);
  }

  lemma CleanAwait(w: World, s: State, o: Outcome)
    requires Inv(w, s) && !s.faulted && o.Count? && s.parent.phase.Await?
    requires StepAwait(w, s, o, s.parent.phase.got).Some?
    ensures !StepAwait(w, s, o, s.parent.phase.got).value.faulted
  {
    if o.n > 0 && |s.parent.phase.got| + o.n == 4 {
      ReadyIsComplete(s.parent, s.child, s.data, s.ready, o.n);
    }
  }

  lemma CleanReadSource(w: World, s: State, o: Outcome)
    requires Inv(w, s) && !s.faulted && o.Count? && s.parent.phase.ReadSource?
    requires StepReadSource(w, s, o).Some?
    ensures !StepReadSource(w, s, o).value.faulted
  {
  }

  lemma CleanParentStep(w: World, s: State, o: Outcome)
    requires ValidWorld(w) && Inv(w, s) && !s.faulted && o.Count?
    requires forall name <- w.files :: Suitable(w, name)
    requires ParentStep(w, s, o).Some?
    ensures !ParentStep(w, s, o).value.faulted
  {
    match s.parent.phase
    case Opening => CleanOpening(w, s, o);
    case Await(_) => CleanAwait(w, s, o);
    case ReadSource => CleanReadSource(w, s, o);
    case _ =>
  }

  lemma CleanChildStep(w: World, s: State, o: Outcome)
    requires ValidWorld(w) && Inv(w, s) && !s.faulted && o.Count?
    requires ChildStep(w, s, o).Some?
    ensures !ChildStep(w, s, o).value.faulted
  {
    match s.child.phase
    case RecvHeader(got) =>
      if o.n == 0 {
        NoEarlyEnd(w, s);
      } else if |got| + o.n == HEADER_SIZE {
        HeaderIsDecoded(w, s.parent, s.child, s.data, s.ready, o.n);
      }
    case RecvBody(got) =>
      if o.n == 0 {
        NoEarlyEnd(w, s);
      }
    case _ =>
  }

  // A reading child sees end of file only after the parent has given up.
  lemma NoEarlyEnd(w: World, s: State)
    requires Inv(w, s) && (s.child.phase.RecvHeader? || s.child.phase.RecvBody?)
    requires s.data == [] && ParentClosed(s.parent)
    ensures s.parent.fatal
  {
    if !s.parent.fatal {
      FrameSize(EndItem);
    }
  }

  lemma {:induction false} CleanRun(w: World, actions: seq<Action>)
    requires ValidWorld(w) && Clean(w, actions) && Run(w, actions).Some?
    ensures !Run(w, actions).value.faulted
  {
    if actions != [] {
      var front := actions[..|actions| - 1];
      CleanRun(w, front);
      RunInv(w, front);
      var s := Run(w, front).value;
      match actions[|actions| - 1]
      case ByParent(o) => CleanParentStep(w, s, o);
      case ByChild(o) => CleanChildStep(w, s, o);
    }
  }

  // --------------------------------------------------------------- handshake

  // Codes sent minus codes consumed, counted in bytes: never more than one.
  lemma OneReadyOutstanding(w: World, actions: seq<Action>)
    requires ValidWorld(w) && Run(w, actions).Some?
    requires !ParentClosed(Run(w, actions).value.parent) && !ChildClosed(Run(w, actions).value.child)
    ensures var s := Run(w, actions).value;
            && |s.parent.log.begun| <= |s.child.log.parsed| + 1
            && |ParentGot(s.parent)| + |s.ready| + |ReadyOut(s.child)|
               == 4 * (|s.child.log.parsed| + 1 - |s.parent.log.begun|)
  {
    RunInv(w, actions);
  }

  // ----------------------------------------------------------------- framing

  // How a byte stream ends for its reader: with END, in the middle of a message, or
  // with a message of an unknown type.
  datatype Verdict = Complete | Truncated | Unknown

  // The messages a stream holds, up to and including END, and what is behind them.
  // `cut` is the file whose body the end of the stream cuts off.
  datatype Reading = Reading(items: seq<Item>, verdict: Verdict, cut: Option<Path>, rest: Bytes)

  function ReadStream(b: Bytes): Reading
    decreases |b|
  {
    if |b| < HEADER_SIZE then Reading([], Truncated, None, []) else
    var m, rest := Decode(b[..HEADER_SIZE]), b[HEADER_SIZE..];
    if m.kind == KIND_END then Reading([EndItem], Complete, None, rest)
    else if m.kind != KIND_FILE then Reading([], Unknown, None, rest)
    else if |rest| < m.fileSize then Reading([], Truncated, Some(m.fileName), [])
    else Behind([FileItem(m.fileName, rest[..m.fileSize])], ReadStream(rest[m.fileSize..]))
  }

  function Behind(items: seq<Item>, r: Reading): Reading { r.(items := items + r.items) }

  function ParseStream(b: Bytes): Option<seq<Item>> {
    var r := ReadStream(b);
    if r.verdict.Complete? then Some(r.items) else None
  }

  lemma {:induction false} StreamCons(it: Item, items: seq<Item>)
    ensures Stream([it] + items) == Frame(it) + Stream(items)
  {
    if items == [] {
      assert Stream([it]) == Stream([]) + Frame(it);
    } else {
      var n := |items| - 1;
      StreamCons(it, items[..n]);
      assert ([it] + items)[..n + 1] == [it] + items[..n];
      Associative(Frame(it), Stream(items[..n]), Frame(items[n]));
    }
  }

  // The reader takes one message off the stream.
  lemma ParseFirst(it: Item, tail: Bytes)
    requires ValidItem(it)
    ensures ReadStream(Frame(it) + tail)
            == if it.EndItem? then Reading([EndItem], Complete, None, tail) else Behind([it], ReadStream(tail))
  {
    var b := Frame(it) + tail;
    HeaderRoundTrip(it);
    FrameSize(it);
    assert b[..HEADER_SIZE] == Encode(HeaderOf(it));
    if it.FileItem? {
      Associative(Encode(HeaderOf(it)), it.body, tail);
      assert b == Encode(HeaderOf(it)) + (it.body + tail);
      assert b[HEADER_SIZE..] == it.body + tail;
      assert (it.body + tail)[..|it.body|] == it.body && (it.body + tail)[|it.body|..] == tail;
    } else {
      assert b[HEADER_SIZE..] == tail;
    }
  }

  // A stream of messages has one reading only.
  lemma {:induction false} ParseIsUnique(items: seq<Item>)
    requires items != [] && Last(items) == EndItem && EndIsLast(items)
    requires forall it <- items :: ValidItem(it)
    ensures ParseStream(Stream(items)) == Some(items)
  {
    var it, rest := items[0], items[1..];
    assert items == [it] + rest;
    StreamCons(it, rest);
    ParseFirst(it, Stream(rest));
    if rest == [] {
      assert items == [EndItem];
    } else {
      assert it == items[0] && it.FileItem?;
      ParseIsUnique(rest);
    }
  }

  lemma WrittenFrames(log: ParentLog)
    requires InvWritten(log) && log.begun != []
    ensures Stream(log.begun[..|log.begun| - 1]) <= log.written <= Stream(log.begun)
  {
    var n := |log.begun| - 1;
    assert log.frame == log.frame[..log.sent] + log.frame[log.sent..];
    Associative(Stream(log.begun[..n]), log.frame[..log.sent], log.frame[log.sent..]);
  }

  // What the child has received is all but the last message, or all of them.
  lemma ReceivedIsWritten(p: Parent, c: Child, data: Bytes, ready: Bytes)
    requires InvPipes(p, c, data, ready) && InvWritten(p.log) && p.log.begun != []
    ensures Stream(c.log.parsed) <= p.log.written
  {
    WrittenFrames(p.log);
    if c.log.parsed == p.log.begun {
      AllWritten(p.log);
    } else {
      assert c.log.parsed == p.log.begun[..|p.log.begun| - 1];
    }
  }

  // Whatever fails on the child's side, the bytes on the pipe are every message
  // before the last one, whole, and the part of the last one sent. The child has
  // received a prefix of the messages, each written in full.
  lemma FramingSurvives(w: World, actions: seq<Action>)
    requires ValidWorld(w) && Run(w, actions).Some?
    ensures var s := Run(w, actions).value;
            && s.parent.log.written <= Stream(s.parent.log.begun)
            && (s.parent.log.begun != [] ==> Stream(s.parent.log.begun[..|s.parent.log.begun| - 1]) <= s.parent.log.written)
            && s.child.log.parsed <= s.parent.log.begun
            && Stream(s.child.log.parsed) <= s.parent.log.written
            && (forall it <- s.parent.log.begun :: it.FileItem? ==> it.name in w.source && it.body == w.source[it.name])
  {
    RunInv(w, actions);
    var s := Run(w, actions).value;
    var log := s.parent.log;
    forall it <- log.begun | it.FileItem? ensures it.name in w.source && it.body == w.source[it.name] {
      assert InvItem(w, it);
    }
    if log.begun != [] {
      WrittenFrames(log);
      ReceivedIsWritten(s.parent, s.child, s.data, s.ready);
    }
  }

  lemma AllWritten(log: ParentLog)
    requires InvWritten(log) && log.begun != [] && log.sent == |log.frame|
    ensures log.written == Stream(log.begun)
  {
  }

  lemma EndComesLast(begun: seq<Item>)
    requires EndIsLast(begun) && EndItem in begun
    ensures begun != [] && Last(begun) == EndItem
  {
  }

  lemma EndIsWritten(p: Parent, c: Child, data: Bytes, ready: Bytes)
    requires InvPipes(p, c, data, ready) && c.log.parsed == p.log.begun
    ensures p.log.sent == |p.log.frame|
  {
  }

  // The child's piecewise reception is the reference parse of the pipe's history.
  lemma ChildParsesHistory(w: World, actions: seq<Action>)
    requires ValidWorld(w) && Run(w, actions).Some?
    requires EndItem in Run(w, actions).value.child.log.parsed
    ensures var s := Run(w, actions).value;
            ParseStream(s.parent.log.written) == Some(s.child.log.parsed)
  {
    RunInv(w, actions);
    var s := Run(w, actions).value;
    var log := s.parent.log;
    AllParsed(w, s);
    EndIsWritten(s.parent, s.child, s.data, s.ready);
    EndComesLast(log.begun);
    AllWritten(log);
    forall it <- log.begun ensures ValidItem(it) { assert InvItem(w, it); }
    ParseIsUnique(log.begun);
  }
}
