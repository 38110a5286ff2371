// The file copier never deadlocks and every run of it ends.

module FileCopyLiveness {
  import opened Base
  import opened FileCopy
  import opened FileCopyInvariant
  import opened FileCopyTheorems

  // The outcome is not a failure, unless the other end of the pipe is closed.
  ghost predicate Natural(s: State, a: Action) {
    a.o.Fault? ==> ParentClosed(s.parent) || ChildClosed(s.child)
  }

  lemma ParentReads(w: World, s: State, o: Outcome)
    requires InvPhase(w, s.parent) && InvSources(w, s.fs) && s.parent.phase.ReadSource?
    requires o.Fault? || 1 <= o.n <= Min(BLOCK_SIZE, s.parent.remaining)
    ensures StepReadSource(w, s, o).Some?
  {
  }

  lemma ChildWrites(c: Child, fs: map<Path, Bytes>, out: Bytes)
    requires InvCopies(c, fs) && c.phase == WriteCopy(out)
    ensures CopyName(c.name) in fs
  {
  }

  lemma ChildIsBusy(s: State)
    requires InvPipes(s.parent, s.child, s.data, s.ready)
    ensures match s.child.phase
            case SendReady(out) => out != []
            case RecvHeader(got) => |got| < HEADER_SIZE
            case RecvBody(got) => |got| < Min(BLOCK_SIZE, s.child.remaining)
            case WriteCopy(out) => out != []
            case _ => true
  {
  }

  // Any call that is not blocked can fail, and can transfer any number of bytes that
  // its block, what is left to transfer and the pipe allow.
  lemma ParentCanReturn(w: World, s: State, o: Outcome)
    requires InvPhase(w, s.parent) && InvSources(w, s.fs) && !ParentBlocked(w, s)
    requires match s.parent.phase
             case Await(got) => o.Fault? || 1 <= o.n <= Min(4 - |got|, |s.ready|)
             case Send(out) => o.Fault? || (!ChildClosed(s.child) && 1 <= o.n <= |out| && |s.data| + o.n <= w.dataCapacity)
             case ReadSource => o.Fault? || 1 <= o.n <= Min(4096, s.parent.remaining)
             case Exited(_) => false
             case _ => true
    ensures ParentStep(w, s, o).Some?
  {
    if s.parent.phase.ReadSource? { ParentReads(w, s, o); }
  }

  lemma ChildCanReturn(w: World, s: State, o: Outcome)
    requires InvPipes(s.parent, s.child, s.data, s.ready) && InvCopies(s.child, s.fs) && !ChildBlocked(w, s)
    requires match s.child.phase
             case SendReady(out) => o.Fault? || (!ParentClosed(s.parent) && 1 <= o.n <= |out| && |s.ready| + o.n <= w.readyCapacity)
             case RecvHeader(got) => o.Fault? || 1 <= o.n <= Min(4112 - |got|, |s.data|)
             case RecvBody(got) => o.Fault? || 1 <= o.n <= Min(Min(4096, s.child.remaining) - |got|, |s.data|)
             case WriteCopy(out) => o.Fault? || 1 <= o.n <= |out|
             case Done(_) => false
             case _ => true
    ensures ChildStep(w, s, o).Some?
  {
    if s.child.phase.WriteCopy? { ChildWrites(s.child, s.fs, s.child.phase.out); }
    ChildIsBusy(s);
  }

  // A process that is neither blocked nor finished can return from its call.
  lemma ParentCanMove(w: World, s: State) returns (a: Action)
    requires ValidWorld(w) && InvPhase(w, s.parent) && InvSources(w, s.fs)
    requires !ParentBlocked(w, s) && !s.parent.phase.Exited?
    ensures Step(w, s, a).Some? && Natural(s, a)
    ensures a.o.Fault? ==> s.parent.phase.Send? && ChildClosed(s.child)
  {
    a := ByParent(Count(1));
    match s.parent.phase
    case Await(_) => if s.ready == [] { a := ByParent(Count(0)); }
    case Send(_) => if ChildClosed(s.child) { a := ByParent(Fault); }
    case ReadSource => ParentReads(w, s, Count(1));
    case _ =>
  }

  lemma ChildCanMove(w: World, s: State) returns (a: Action)
    requires ValidWorld(w) && InvPipes(s.parent, s.child, s.data, s.ready) && InvCopies(s.child, s.fs)
    requires !ChildBlocked(w, s) && !s.child.phase.Done?
    ensures Step(w, s, a).Some? && Natural(s, a)
    ensures a.o.Fault? ==> s.child.phase.SendReady? && ParentClosed(s.parent)
  {
    a := ByChild(Count(1));
    ChildIsBusy(s);
    match s.child.phase
    case SendReady(_) => if ParentClosed(s.parent) { a := ByChild(Fault); }
    case RecvHeader(_) => if s.data == [] { a := ByChild(Count(0)); }
    case RecvBody(_) => if s.data == [] { a := ByChild(Count(0)); }
    case WriteCopy(out) => ChildWrites(s.child, s.fs, out);
    case _ =>
  }

  // The two processes never wait for each other.
  lemma NotBothBlocked(w: World, s: State)
    requires ValidWorld(w) && Inv(w, s)
    ensures !(ParentBlocked(w, s) && ChildBlocked(w, s))
    ensures ParentBlocked(w, s) ==> !ChildClosed(s.child)
    ensures ChildBlocked(w, s) ==> !s.parent.phase.Exited?
  {
  }

  lemma DeadlockFree(w: World, actions: seq<Action>)
    requires ValidWorld(w) && Run(w, actions).Some? && !Final(Run(w, actions).value)
    ensures exists a :: Step(w, Run(w, actions).value, a).Some? && Natural(Run(w, actions).value, a)
  {
    RunInv(w, actions);
    var s := Run(w, actions).value;
    NotBothBlocked(w, s);
    if !ParentBlocked(w, s) && !s.parent.phase.Exited? {
      var a := ParentCanMove(w, s);
    } else {
      var a := ChildCanMove(w, s);
    }
  }

  // ------------------------------------------------------------- termination

  // The cost of a byte waiting in the data pipe. It pays for the calls of the
  // child that the byte can lead to.
  const BYTE_COST := 25

  const HEADER_COST := (BYTE_COST + 1) * HEADER_SIZE

  function SourceSize(w: World, name: Path): nat { if name in w.source then |w.source[name]| else 0 }

  // The cost of sending the files from `index` on, and END.
  function SendingCost(w: World, index: nat): (r: nat)
    requires index <= |w.files|
    ensures r >= 10 + HEADER_COST
    decreases |w.files| - index
  {
    if index == |w.files| then 10 + HEADER_COST
    else 10 + HEADER_COST + (BYTE_COST + 2) * SourceSize(w, w.files[index]) + SendingCost(w, index + 1)
  }

  // The cost after the current file.
  function LaterCost(w: World, p: Parent): nat
    requires p.index <= |w.files|
  {
    if p.index < |w.files| then SendingCost(w, p.index + 1) else 0
  }

  function ParentCost(w: World, p: Parent): nat
    requires p.index <= |w.files|
  {
    match p.phase
    case Opening => SendingCost(w, p.index)
    case Await(got) =>
      HEADER_COST + (if p.index < |w.files| then (BYTE_COST + 2) * p.remaining else 0)
      + (if |got| < 4 then 8 - |got| else 4) + LaterCost(w, p)
    case Send(out) =>
      (BYTE_COST + 1) * |out| + (if p.index < |w.files| then (BYTE_COST + 2) * p.remaining else 0) + 3 + LaterCost(w, p)
    case ReadSource => (BYTE_COST + 2) * p.remaining + 3 + LaterCost(w, p)
    case WaitChild => 1
    case Exited(_) => 0
  }

  function ChildCost(c: Child): nat {
    match c.phase
    case SendReady(out) => 1 + |out|
    case RecvHeader(_) => 1
    case Create => 21
    case RecvBody(got) => 11 + 2 * |got|
    case WriteCopy(out) => 12 + |out|
    case CloseCopy => 9
    case Done(_) => 0
  }

  function Cost(w: World, s: State): nat
    requires s.parent.index <= |w.files|
  {
    ParentCost(w, s.parent) + BYTE_COST * |s.data| + ChildCost(s.child)
  }

  // The part of the invariant that the costs depend on.
  ghost predicate Sized(w: World, p: Parent) {
    && p.index <= |w.files|
    && (p.phase.Await? && p.index < |w.files| ==> |w.files[p.index]| < PATH_MAX)
    && (p.phase.Await? ==> |p.phase.got| < 4)
  }

  lemma InvIsSized(w: World, p: Parent)
    requires InvPhase(w, p)
    ensures Sized(w, p)
  {
  }

  lemma OpeningCostDrops(w: World, s: State, o: Outcome)
    requires Sized(w, s.parent) && InvSources(w, s.fs) && s.parent.phase.Opening?
    requires StepOpening(w, s, o).Some?
    ensures var p' := StepOpening(w, s, o).value.parent;
            p'.index <= |w.files| && ParentCost(w, p') < ParentCost(w, s.parent)
  {
  }

  // Beginning a message turns the cost of waiting into that of sending.
  lemma BeginCost(w: World, p: Parent, it: Item)
    requires Sized(w, p) && p.phase.Await?
    ensures ParentCost(w, Begin(p, it, NextHeader(w, p))) < ParentCost(w, p)
  {
    assert |Encode(NextHeader(w, p))| == HEADER_SIZE;
  }

  lemma AwaitCostDrops(w: World, s: State, o: Outcome)
    requires Sized(w, s.parent) && s.parent.phase.Await?
    requires StepAwait(w, s, o, s.parent.phase.got).Some?
    ensures var p' := StepAwait(w, s, o, s.parent.phase.got).value.parent;
            p'.index <= |w.files| && ParentCost(w, p') < ParentCost(w, s.parent)
  {
    var p, p' := s.parent, StepAwait(w, s, o, s.parent.phase.got).value.parent;
    BeginCost(w, p, NextItem(w, s));
    if p'.phase.Await? {
      assert p' == p.(phase := p'.phase) && |p.phase.got| < |p'.phase.got| < 4;
    }
  }

  lemma AfterSendCost(w: World, p: Parent, rest: Bytes)
    requires p.index <= |w.files|
    ensures var p' := AfterSend(w, p, rest);
            p'.index <= |w.files| && ParentCost(w, p') <= ParentCost(w, p.(phase := Send(rest)))
  {
  }

  lemma SendCostDrops(w: World, s: State, o: Outcome)
    requires Sized(w, s.parent) && s.parent.phase.Send?
    requires StepSend(w, s, o, s.parent.phase.out).Some?
    ensures var s' := StepSend(w, s, o, s.parent.phase.out).value;
            && s'.parent.index <= |w.files|
            && ParentCost(w, s'.parent) + BYTE_COST * |s'.data| < ParentCost(w, s.parent) + BYTE_COST * |s.data|
  {
    if o.Count? {
      var out := s.parent.phase.out;
      var p := Sent(s.parent, out[..o.n]);
      AfterSendCost(w, p, out[o.n..]);
      SendCost(w, s.parent, p, out, o.n);
    }
  }

  // Each byte put into the pipe costs one less there.
  lemma SendCost(w: World, p: Parent, p': Parent, out: Bytes, n: nat)
    requires p.index <= |w.files| && p.phase == Send(out) && 1 <= n <= |out|
    requires p'.index == p.index && p'.remaining == p.remaining
    ensures ParentCost(w, p'.(phase := Send(out[n..]))) + BYTE_COST * n < ParentCost(w, p)
  {
  }

  lemma ReadSourceCostDrops(w: World, s: State, o: Outcome)
    requires Sized(w, s.parent) && s.parent.phase.ReadSource?
    requires StepReadSource(w, s, o).Some?
    ensures var p' := StepReadSource(w, s, o).value.parent;
            p'.index <= |w.files| && ParentCost(w, p') < ParentCost(w, s.parent)
  {
  }

  lemma ParentCostDrops(w: World, s: State, o: Outcome)
    requires Sized(w, s.parent) && InvSources(w, s.fs) && ParentStep(w, s, o).Some?
    ensures var s' := ParentStep(w, s, o).value;
            s'.parent.index <= |w.files| && Cost(w, s') < Cost(w, s)
  {
    match s.parent.phase
    case Opening => OpeningCostDrops(w, s, o);
    case Await(_) => AwaitCostDrops(w, s, o);
    case Send(_) => SendCostDrops(w, s, o);
    case ReadSource => ReadSourceCostDrops(w, s, o);
    case _ =>
  }

  lemma RecvCostDrops(c: Child, data: Bytes, n: nat)
    requires c.phase.RecvBody? && 1 <= n <= |data|
    ensures ChildCost(AfterRecv(c, c.phase.got + data[..n])) + BYTE_COST * |data[n..]| < ChildCost(c) + BYTE_COST * |data|
  {
  }

  lemma WriteCostDrops(s: State, o: Outcome)
    requires s.child.phase.WriteCopy? && StepWriteCopy(s, o, s.child.phase.out).Some?
    ensures ChildCost(StepWriteCopy(s, o, s.child.phase.out).value.child) < ChildCost(s.child)
  {
  }

  lemma CreateCostDrops(s: State, o: Outcome)
    requires s.child.phase.Create?
    ensures ChildCost(StepCreate(s, o).value.child) < ChildCost(s.child)
  {
  }

  lemma HeaderCostDrops(s: State, o: Outcome)
    requires s.child.phase.RecvHeader? && StepRecvHeader(s, o, s.child.phase.got).Some?
    ensures var s' := StepRecvHeader(s, o, s.child.phase.got).value;
            s'.parent == s.parent && ChildCost(s'.child) + BYTE_COST * |s'.data| < ChildCost(s.child) + BYTE_COST * |s.data|
  {
  }

  lemma ChildCostDrops(w: World, s: State, o: Outcome)
    requires ChildStep(w, s, o).Some?
    ensures var s' := ChildStep(w, s, o).value;
            && s'.parent == s.parent
            && ChildCost(s'.child) + BYTE_COST * |s'.data| < ChildCost(s.child) + BYTE_COST * |s.data|
  {
    match s.child.phase
    case RecvHeader(_) => HeaderCostDrops(s, o);
    case Create => CreateCostDrops(s, o);
    case RecvBody(_) => if o.Count? && o.n > 0 { RecvCostDrops(s.child, s.data, o.n); }
    case WriteCopy(_) => WriteCostDrops(s, o);
    case _ =>
  }

  // Every run is finite: its length is bounded by the sizes of the files.
  lemma {:induction false} RunsAreBounded(w: World, actions: seq<Action>)
    requires ValidWorld(w) && Run(w, actions).Some?
    ensures Run(w, actions).value.parent.index <= |w.files|
    ensures |actions| + Cost(w, Run(w, actions).value) <= Cost(w, Init(w))
  {
    RunInv(w, actions);
    if actions != [] {
      var front := actions[..|actions| - 1];
      RunsAreBounded(w, front);
      RunInv(w, front);
      var s := Run(w, front).value;
      match actions[|actions| - 1]
      case ByParent(o) => InvIsSized(w, s.parent); ParentCostDrops(w, s, o);
      case ByChild(o) => ChildCostDrops(w, s, o);
    }
  }

  // A run that cannot go on is over. If in addition nothing failed and every file
  // is suitable, it ended with success and with all the copies made.
  lemma MaximalRunsSucceed(w: World, actions: seq<Action>)
    requires ValidWorld(w) && Run(w, actions).Some?
    requires forall a :: Step(w, Run(w, actions).value, a).None?
    ensures Final(Run(w, actions).value)
    ensures Clean(w, actions) ==>
              var s := Run(w, actions).value;
              && s.parent.phase == Exited(true)
              && (forall name <- w.files :: IsCopied(w, s.fs, name))
  {
    if !Final(Run(w, actions).value) {
      DeadlockFree(w, actions);
    }
    if Clean(w, actions) {
      CleanRun(w, actions);
      SuccessIffNoFault(w, actions);
      SuccessMeansCopied(w, actions);
    }
  }

  // As long as nothing has gone wrong, no process writes to a closed pipe.
  lemma PipesStayOpen(w: World, s: State)
    requires Inv(w, s) && !s.faulted
    ensures s.parent.phase.Send? ==> !ChildClosed(s.child)
    ensures s.child.phase.SendReady? ==> !ParentClosed(s.parent)
  {
    if s.parent.phase.Send? && ChildClosed(s.child) {
      AllParsed(w, s);
    }
  }

  lemma CleanMove(w: World, s: State) returns (a: Action)
    requires ValidWorld(w) && Inv(w, s) && !s.faulted && !Final(s)
    ensures Step(w, s, a).Some? && a.o.Count?
  {
    NotBothBlocked(w, s);
    PipesStayOpen(w, s);
    if !ParentBlocked(w, s) && !s.parent.phase.Exited? {
      a := ParentCanMove(w, s);
    } else {
      a := ChildCanMove(w, s);
    }
  }

  lemma RunSnoc(w: World, actions: seq<Action>, a: Action)
    requires Run(w, actions).Some?
    ensures Run(w, actions + [a]) == Step(w, Run(w, actions).value, a)
  {
    assert (actions + [a])[..|actions|] == actions;
  }

  // Any beginning without a failure can be completed to a successful run.
  lemma {:induction false} SuccessIsReachable(w: World, actions: seq<Action>) returns (all: seq<Action>)
    requires ValidWorld(w) && Clean(w, actions) && Run(w, actions).Some?
    ensures actions <= all && Clean(w, all) && Run(w, all).Some?
    ensures Run(w, all).value.parent.phase == Exited(true)
    decreases Cost(w, Init(w)) - |actions|
  {
    RunInv(w, actions);
    CleanRun(w, actions);
    var s := Run(w, actions).value;
    if Final(s) {
      SuccessIffNoFault(w, actions);
      all := actions;
    } else {
      var a := CleanMove(w, s);
      RunSnoc(w, actions, a);
      RunsAreBounded(w, actions + [a]);
      all := SuccessIsReachable(w, actions + [a]);
    }
  }
}
