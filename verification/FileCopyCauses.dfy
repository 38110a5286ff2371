// Why a file has no copy, told from the calls of a run alone, and that nothing else
// happens to any file.

module FileCopyCauses {
  import opened Base
  import opened FileCopy
  import opened FileCopyInvariant
  import opened FileCopyTheorems

  // Call `k` is a failing open, or one of the tests behind it, on file `i`.
  ghost predicate FailsOpen(w: World, actions: seq<Action>, k: nat, i: nat)
    requires k < |actions|
  {
    && actions[k] == ByParent(Fault) && Run(w, actions[..k]).Some?
    && Run(w, actions[..k]).value.parent.phase.Opening? && Run(w, actions[..k]).value.parent.index == i
  }

  ghost predicate OpenFailed(w: World, actions: seq<Action>, i: nat) {
    exists k :: 0 <= k < |actions| && FailsOpen(w, actions, k, i)
  }

  // File `i` has no message: it is missing, its name is too long, or it could not be opened.
  ghost predicate SkippedAt(w: World, actions: seq<Action>, i: nat)
    requires i < |w.files|
  {
    !Suitable(w, w.files[i]) || OpenFailed(w, actions, i)
  }

  // Call `k` is a failing call on the copy of `name`.
  ghost predicate FailsCopy(w: World, actions: seq<Action>, k: nat, name: Path)
    requires k < |actions|
  {
    && actions[k] == ByChild(Fault) && Run(w, actions[..k]).Some?
    && var c := Run(w, actions[..k]).value.child;
       (c.phase.Create? || c.phase.WriteCopy? || c.phase.CloseCopy?) && c.name == name
  }

  ghost predicate CopyFailed(w: World, actions: seq<Action>, name: Path) {
    exists k :: 0 <= k < |actions| && FailsCopy(w, actions, k, name)
  }

  // ---------------------------------------------------------------- one more call

  lemma OpenFailedSnoc(w: World, actions: seq<Action>, a: Action, i: nat)
    requires Run(w, actions).Some?
    ensures OpenFailed(w, actions + [a], i) <==>
            OpenFailed(w, actions, i)
            || (a == ByParent(Fault) && Run(w, actions).value.parent.phase.Opening? && Run(w, actions).value.parent.index == i)
  {
    var n := |actions|;
    assert forall k :: 0 <= k <= n ==> (actions + [a])[..k] == actions[..k];
    assert actions[..n] == actions;
    if OpenFailed(w, actions + [a], i) {
      var k :| 0 <= k < n + 1 && FailsOpen(w, actions + [a], k, i);
      if k < n { assert FailsOpen(w, actions, k, i); }
    }
    if OpenFailed(w, actions, i) {
      var k :| 0 <= k < n && FailsOpen(w, actions, k, i);
      assert FailsOpen(w, actions + [a], k, i);
    }
    if a == ByParent(Fault) && Run(w, actions).value.parent.phase.Opening? && Run(w, actions).value.parent.index == i {
      assert FailsOpen(w, actions + [a], n, i);
    }
  }

  lemma CopyFailedSnoc(w: World, actions: seq<Action>, a: Action, name: Path)
    requires Run(w, actions).Some?
    ensures var c := Run(w, actions).value.child;
            CopyFailed(w, actions + [a], name) <==>
              CopyFailed(w, actions, name)
              || (a == ByChild(Fault) && (c.phase.Create? || c.phase.WriteCopy? || c.phase.CloseCopy?) && c.name == name)
  {
    var n := |actions|;
    var c := Run(w, actions).value.child;
    assert forall k :: 0 <= k <= n ==> (actions + [a])[..k] == actions[..k];
    assert actions[..n] == actions;
    if CopyFailed(w, actions + [a], name) {
      var k :| 0 <= k < n + 1 && FailsCopy(w, actions + [a], k, name);
      if k < n { assert FailsCopy(w, actions, k, name); }
    }
    if CopyFailed(w, actions, name) {
      var k :| 0 <= k < n && FailsCopy(w, actions, k, name);
      assert FailsCopy(w, actions + [a], k, name);
    }
    if a == ByChild(Fault) && (c.phase.Create? || c.phase.WriteCopy? || c.phase.CloseCopy?) && c.name == name {
      assert FailsCopy(w, actions + [a], n, name);
    }
  }

  lemma RunStep(w: World, front: seq<Action>, a: Action)
    requires Run(w, front + [a]).Some?
    ensures Run(w, front).Some? && Run(w, front + [a]) == Step(w, Run(w, front).value, a)
  {
    assert (front + [a])[..|front|] == front;
  }

  // ------------------------------------------------------------------ the child

  lemma ChildFails(w: World, s: State, o: Outcome)
    requires ChildStep(w, s, o).Some?
    ensures var c, c' := s.child, ChildStep(w, s, o).value.child;
            c'.log.failed == if o.Fault? && (c.phase.Create? || c.phase.WriteCopy? || c.phase.CloseCopy?)
                             then c.log.failed + {c.name} else c.log.failed
  {
  }

  lemma ReportedStep(w: World, s: State, a: Action)
    requires Step(w, s, a).Some?
    ensures var c := s.child;
            Step(w, s, a).value.child.log.failed
            == if a == ByChild(Fault) && (c.phase.Create? || c.phase.WriteCopy? || c.phase.CloseCopy?)
               then c.log.failed + {c.name} else c.log.failed
  {
    if a.ByChild? { ChildFails(w, s, a.o); } else { ChildStays(w, s, a.o); }
  }

  lemma ChildStays(w: World, s: State, o: Outcome)
    requires ParentStep(w, s, o).Some?
    ensures ParentStep(w, s, o).value.child == s.child
  {
  }

  // A copy is reported as failed if and only if a call on it failed.
  lemma {:induction false} FailedMeansFault(w: World, actions: seq<Action>, name: Path)
    requires Run(w, actions).Some?
    ensures name in Run(w, actions).value.child.log.failed <==> CopyFailed(w, actions, name)
  {
    if actions != [] {
      var front, a := actions[..|actions| - 1], actions[|actions| - 1];
      assert actions == front + [a];
      RunStep(w, front, a);
      FailedMeansFault(w, front, name);
      CopyFailedSnoc(w, front, a, name);
      ReportedStep(w, Run(w, front).value, a);
    }
  }

  // ------------------------------------------------------------------ the parent

  // The message for file `i`, END behind the last one.
  function ItemAt(w: World, i: nat): Item {
    if i >= |w.files| then EndItem
    else FileItem(w.files[i], if w.files[i] in w.source then w.source[w.files[i]] else [])
  }

  // `sent` are the messages for the files before the current one.
  ghost predicate InTurn(w: World, p: Parent, sent: seq<Item>) {
    match p.phase
    case Opening => p.log.begun == sent
    case Await(_) => p.log.begun == sent
    case Send(_) => p.log.begun == sent + [ItemAt(w, p.index)]
    case ReadSource => p.log.begun == sent + [ItemAt(w, p.index)]
    case _ => p.log.begun == sent || p.log.begun == sent + [ItemAt(w, p.index)]
  }

  // The file was skipped in this step.
  predicate Skips(p: Parent, p': Parent) { p.phase.Opening? && p'.index != p.index }

  ghost predicate Turned(w: World, p: Parent, p': Parent, sent: seq<Item>) {
    && (if p'.index == p.index then InTurn(w, p', sent)
        else p'.index == p.index + 1 && p.index < |w.files|
             && InTurn(w, p', if Skips(p, p') then sent else sent + [ItemAt(w, p.index)]))
    && p'.log.skipped == (if Skips(p, p') then p.log.skipped + {w.files[p.index]} else p.log.skipped)
    && (p'.index != p.index && !p.phase.Opening? ==> p.phase.Send? && Suitable(w, w.files[p.index]))
  }

  lemma OpeningTurns(w: World, s: State, o: Outcome, sent: seq<Item>)
    requires InvPhase(w, s.parent) && InvSources(w, s.fs) && s.parent.phase.Opening? && InTurn(w, s.parent, sent)
    requires StepOpening(w, s, o).Some?
    ensures var p' := StepOpening(w, s, o).value.parent;
            Turned(w, s.parent, p', sent) && (p'.index != s.parent.index <==> o.Fault? || !Suitable(w, w.files[s.parent.index]))
  {
  }

  lemma AwaitTurns(w: World, s: State, o: Outcome, sent: seq<Item>)
    requires InvPhase(w, s.parent) && InvSources(w, s.fs) && s.parent.phase.Await? && InTurn(w, s.parent, sent)
    requires StepAwait(w, s, o, s.parent.phase.got).Some?
    ensures Turned(w, s.parent, StepAwait(w, s, o, s.parent.phase.got).value.parent, sent)
  {
    NextIsFrame(w, s);
  }

  // The log after a write, and where the control goes.
  lemma AfterSendTurns(w: World, p: Parent, p1: Parent, rest: Bytes, sent: seq<Item>)
    requires InvPhase(w, p) && p.phase.Send? && InTurn(w, p, sent)
    requires p1.index == p.index && p1.remaining == p.remaining && p1.log.begun == p.log.begun && p1.log.skipped == p.log.skipped
    ensures Turned(w, p, AfterSend(w, p1, rest), sent)
  {
  }

  lemma SendTurns(w: World, s: State, o: Outcome, sent: seq<Item>)
    requires InvPhase(w, s.parent) && s.parent.phase.Send? && InTurn(w, s.parent, sent)
    requires StepSend(w, s, o, s.parent.phase.out).Some?
    ensures Turned(w, s.parent, StepSend(w, s, o, s.parent.phase.out).value.parent, sent)
  {
    if o.Count? {
      AfterSendTurns(w, s.parent, Sent(s.parent, s.parent.phase.out[..o.n]), s.parent.phase.out[o.n..], sent);
    }
  }

  lemma ParentTurns(w: World, s: State, o: Outcome, sent: seq<Item>)
    requires InvPhase(w, s.parent) && InvSources(w, s.fs) && InTurn(w, s.parent, sent) && ParentStep(w, s, o).Some?
    ensures Turned(w, s.parent, ParentStep(w, s, o).value.parent, sent)
    ensures s.parent.phase.Opening? ==>
              (ParentStep(w, s, o).value.parent.index != s.parent.index <==> o.Fault? || !Suitable(w, w.files[s.parent.index]))
  {
    match s.parent.phase
    case Opening => OpeningTurns(w, s, o, sent);
    case Await(_) => AwaitTurns(w, s, o, sent);
    case Send(_) => SendTurns(w, s, o, sent);
    case _ =>
  }

  // The messages for the first `n` files: one for each that was not skipped, in order.
  ghost function SentFiles(w: World, actions: seq<Action>, n: nat): seq<Item>
    requires n <= |w.files|
  {
    if n == 0 then []
    else SentFiles(w, actions, n - 1) + (if SkippedAt(w, actions, n - 1) then [] else [ItemAt(w, n - 1)])
  }

  // `skipped` are the names of the first `n` files that were skipped.
  ghost predicate SkippedAre(w: World, actions: seq<Action>, n: nat, skipped: set<Path>)
    requires n <= |w.files|
  {
    forall name :: name in skipped <==> exists i :: 0 <= i < n && w.files[i] == name && SkippedAt(w, actions, i)
  }

  // The log of the parent, explained by the calls of the run.
  ghost predicate Explained(w: World, actions: seq<Action>, p: Parent) {
    && p.index <= |w.files|
    && (forall i: nat :: OpenFailed(w, actions, i) ==> i < p.index)
    && InTurn(w, p, SentFiles(w, actions, p.index))
    && SkippedAre(w, actions, p.index, p.log.skipped)
  }

  ghost predicate SameOpens(w: World, actions: seq<Action>, actions': seq<Action>, n: nat) {
    forall i :: 0 <= i < n ==> (OpenFailed(w, actions', i) <==> OpenFailed(w, actions, i))
  }

  lemma {:induction false} SameSent(w: World, actions: seq<Action>, actions': seq<Action>, n: nat)
    requires n <= |w.files| && SameOpens(w, actions, actions', n)
    ensures SentFiles(w, actions', n) == SentFiles(w, actions, n)
  {
    if n > 0 { SameSent(w, actions, actions', n - 1); }
  }

  lemma SameSkipped(w: World, actions: seq<Action>, actions': seq<Action>, n: nat, skipped: set<Path>)
    requires n <= |w.files| && SameOpens(w, actions, actions', n) && SkippedAre(w, actions, n, skipped)
    ensures SkippedAre(w, actions', n, skipped)
  {
    assert forall i :: 0 <= i < n ==> (SkippedAt(w, actions', i) <==> SkippedAt(w, actions, i));
  }

  lemma OneMoreSkipped(w: World, actions: seq<Action>, n: nat, skipped: set<Path>)
    requires n < |w.files| && SkippedAre(w, actions, n, skipped)
    ensures SkippedAre(w, actions, n + 1, if SkippedAt(w, actions, n) then skipped + {w.files[n]} else skipped)
  {
    var skipped' := if SkippedAt(w, actions, n) then skipped + {w.files[n]} else skipped;
    forall name
      ensures name in skipped' <==> exists i :: 0 <= i < n + 1 && w.files[i] == name && SkippedAt(w, actions, i)
    {
      if exists i :: 0 <= i < n + 1 && w.files[i] == name && SkippedAt(w, actions, i) {
        var i :| 0 <= i < n + 1 && w.files[i] == name && SkippedAt(w, actions, i);
        assert i < n || i == n;
      }
    }
  }

  // One more failed open on the current file, or none.
  ghost predicate OneOpen(w: World, actions: seq<Action>, actions': seq<Action>, n: nat, failed: bool) {
    forall i: nat :: OpenFailed(w, actions', i) <==> OpenFailed(w, actions, i) || (failed && i == n)
  }

  lemma TurnExplains(w: World, actions: seq<Action>, actions': seq<Action>, p: Parent, p': Parent, failed: bool)
    requires Explained(w, actions, p) && OneOpen(w, actions, actions', p.index, failed)
    requires Turned(w, p, p', SentFiles(w, actions, p.index)) && (failed ==> Skips(p, p'))
    requires Skips(p, p') ==> failed || !Suitable(w, w.files[p.index])
    ensures Explained(w, actions', p')
  {
    var sent := SentFiles(w, actions, p.index);
    assert SameOpens(w, actions, actions', p.index);
    assert SentFiles(w, actions', p.index) == sent by { SameSent(w, actions, actions', p.index); }
    assert SkippedAre(w, actions', p.index, p.log.skipped) by { SameSkipped(w, actions, actions', p.index, p.log.skipped); }
    assert forall i: nat :: OpenFailed(w, actions', i) ==> i < p'.index;
    if p'.index != p.index {
      assert SkippedAt(w, actions', p.index) <==> Skips(p, p') by { TurnedPage(w, actions, actions', p, p', failed); }
      assert SkippedAre(w, actions', p'.index, p'.log.skipped) by { OneMoreSkipped(w, actions', p.index, p.log.skipped); }
      SentNext(w, actions', p.index);
    }
  }

  lemma TurnedPage(w: World, actions: seq<Action>, actions': seq<Action>, p: Parent, p': Parent, failed: bool)
    requires p.index < |w.files| && OneOpen(w, actions, actions', p.index, failed) && !OpenFailed(w, actions, p.index)
    requires (failed ==> Skips(p, p')) && (Skips(p, p') ==> failed || !Suitable(w, w.files[p.index]))
    requires !Skips(p, p') ==> Suitable(w, w.files[p.index])
    ensures SkippedAt(w, actions', p.index) <==> Skips(p, p')
  {
  }

  lemma SentNext(w: World, actions: seq<Action>, n: nat)
    requires n < |w.files|
    ensures SentFiles(w, actions, n + 1)
            == if SkippedAt(w, actions, n) then SentFiles(w, actions, n) else SentFiles(w, actions, n) + [ItemAt(w, n)]
  {
    assert SentFiles(w, actions, n) + [] == SentFiles(w, actions, n);
  }

  // A call of the parent: what it adds to the failed opens, by the move of the index.
  lemma ExplainParent(w: World, actions: seq<Action>, o: Outcome, s: State)
    requires Run(w, actions) == Some(s) && InvPhase(w, s.parent) && InvSources(w, s.fs)
    requires ParentStep(w, s, o).Some? && Explained(w, actions, s.parent)
    ensures Explained(w, actions + [ByParent(o)], ParentStep(w, s, o).value.parent)
  {
    var p, actions' := s.parent, actions + [ByParent(o)];
    var failed := o.Fault? && p.phase.Opening?;
    ParentTurns(w, s, o, SentFiles(w, actions, p.index));
    assert OneOpen(w, actions, actions', p.index, failed) by {
      forall i: nat ensures OpenFailed(w, actions', i) <==> OpenFailed(w, actions, i) || (failed && i == p.index) {
        OpenFailedSnoc(w, actions, ByParent(o), i);
      }
    }
    TurnExplains(w, actions, actions', p, ParentStep(w, s, o).value.parent, failed);
  }

  lemma ExplainChild(w: World, actions: seq<Action>, o: Outcome, s: State)
    requires Run(w, actions) == Some(s) && Explained(w, actions, s.parent)
    ensures Explained(w, actions + [ByChild(o)], s.parent)
  {
    var actions' := actions + [ByChild(o)];
    forall i: nat ensures OpenFailed(w, actions', i) <==> OpenFailed(w, actions, i) {
      OpenFailedSnoc(w, actions, ByChild(o), i);
    }
    SameSent(w, actions, actions', s.parent.index);
    SameSkipped(w, actions, actions', s.parent.index, s.parent.log.skipped);
  }

  lemma ParentStays(w: World, s: State, o: Outcome)
    requires ChildStep(w, s, o).Some?
    ensures ChildStep(w, s, o).value.parent == s.parent
  {
  }

  lemma {:induction false} RunExplained(w: World, actions: seq<Action>)
    requires ValidWorld(w) && Run(w, actions).Some?
    ensures Explained(w, actions, Run(w, actions).value.parent)
  {
    if actions == [] {
      assert InTurn(w, Init(w).parent, []);
    } else {
      var front, a := actions[..|actions| - 1], actions[|actions| - 1];
      assert actions == front + [a];
      RunStep(w, front, a);
      RunExplained(w, front);
      RunInv(w, front);
      var s := Run(w, front).value;
      match a
      case ByParent(o) => ExplainParent(w, front, o, s);
      case ByChild(o) => ExplainChild(w, front, o, s); ParentStays(w, s, o);
    }
  }

  // ---------------------------------------------------------------- main results

  // A file is skipped if and only if it is unsuitable or opening it failed, and a
  // copy is reported as failed if and only if a call on it failed; the two error
  // flags tell exactly whether there was any.
  lemma LogsHaveCauses(w: World, actions: seq<Action>, name: Path)
    requires ValidWorld(w) && Run(w, actions).Some?
    ensures var s := Run(w, actions).value;
            && s.parent.index <= |w.files|
            && (name in s.parent.log.skipped <==>
                  exists i :: 0 <= i < s.parent.index && w.files[i] == name && SkippedAt(w, actions, i))
            && (name in s.child.log.failed <==> CopyFailed(w, actions, name))
            && (s.parent.fileError <==> exists i :: 0 <= i < s.parent.index && SkippedAt(w, actions, i))
            && (s.child.hadError <==> exists n :: CopyFailed(w, actions, n))
  {
    RunExplained(w, actions);
    RunInv(w, actions);
    var s := Run(w, actions).value;
    FailedMeansFault(w, actions, name);
    if s.child.hadError {
      var n :| n in s.child.log.failed;
      FailedMeansFault(w, actions, n);
    }
    if n :| CopyFailed(w, actions, n) {
      FailedMeansFault(w, actions, n);
    }
    SkippedOrNot(w, actions, s.parent.index, s.parent.log.skipped);
  }

  lemma SkippedOrNot(w: World, actions: seq<Action>, n: nat, skipped: set<Path>)
    requires n <= |w.files| && SkippedAre(w, actions, n, skipped)
    ensures skipped != {} <==> exists i :: 0 <= i < n && SkippedAt(w, actions, i)
  {
    if skipped != {} {
      var name :| name in skipped;
    }
    if i :| 0 <= i < n && SkippedAt(w, actions, i) {
      assert w.files[i] in skipped;
    }
  }

  // The messages are those of the files not skipped, in the order of the command
  // line, and END behind them; at most the message of the current file is on its way.
  lemma MessagesInOrder(w: World, actions: seq<Action>)
    requires ValidWorld(w) && Run(w, actions).Some?
    ensures var p := Run(w, actions).value.parent;
            && p.index <= |w.files|
            && var sent := SentFiles(w, actions, p.index);
               p.log.begun == sent || p.log.begun == sent + [ItemAt(w, p.index)]
  {
    RunExplained(w, actions);
  }

  // A failed file harms no other. Once the child has received END, every file that
  // was suitable and opened, and on whose copy no call failed, has an exact copy.
  lemma FailuresStayLocal(w: World, actions: seq<Action>, i: nat)
    requires ValidWorld(w) && Run(w, actions).Some? && i < |w.files|
    requires EndItem in Run(w, actions).value.child.log.parsed
    requires !SkippedAt(w, actions, i) && !CopyFailed(w, actions, w.files[i])
    ensures var fs, name := Run(w, actions).value.fs, w.files[i];
            var copy := name + Ascii(".copy"); copy in fs && fs[copy] == w.source[name]
  {
    Literals(w.files[i]);
    RunInv(w, actions);
    RunExplained(w, actions);
    var s := Run(w, actions).value;
    FailedMeansFault(w, actions, w.files[i]);
    AllParsed(w, s);
    SentHolds(w, actions, s.parent.index, i);
    AllFilesSeen(w, s);
    assert ItemAt(w, i) in s.child.log.parsed;
    ParsedIsCopied(w, s, ItemAt(w, i));
  }

  lemma {:induction false} SentHolds(w: World, actions: seq<Action>, n: nat, i: nat)
    requires n <= |w.files| && i < |w.files| && !SkippedAt(w, actions, i)
    ensures i < n ==> ItemAt(w, i) in SentFiles(w, actions, n)
  {
    if i < n - 1 { SentHolds(w, actions, n - 1, i); }
  }

  lemma AllFilesSeen(w: World, s: State)
    requires Inv(w, s) && EndItem in s.child.log.parsed
    ensures s.parent.index == |w.files|
  {
  }

  lemma ParsedIsCopied(w: World, s: State, it: Item)
    requires Inv(w, s) && EndItem in s.child.log.parsed && it in s.child.log.parsed && it.FileItem?
    requires it.name !in s.child.log.failed
    ensures Copied(s.fs, it)
  {
  }

  lemma FaultSticks(w: World, s: State, a: Action)
    requires Step(w, s, a).Some? && (s.faulted || a.o.Fault?)
    ensures Step(w, s, a).value.faulted
  {
  }

  lemma {:induction false} FaultsAreKept(w: World, actions: seq<Action>, a: Action)
    requires Run(w, actions).Some? && a in actions && a.o.Fault?
    ensures Run(w, actions).value.faulted
  {
    var front, last := actions[..|actions| - 1], actions[|actions| - 1];
    assert actions == front + [last];
    RunStep(w, front, last);
    if a in front { FaultsAreKept(w, front, a); }
    FaultSticks(w, Run(w, front).value, last);
  }

  // The exit status of a finished run is success if and only if every listed file is
  // there with a short enough name and no call failed.
  lemma SuccessIffClean(w: World, actions: seq<Action>)
    requires ValidWorld(w) && Run(w, actions).Some?
    ensures Final(Run(w, actions).value) ==>
              (Run(w, actions).value.parent.phase == Exited(true) <==> Clean(w, actions))
  {
    if Final(Run(w, actions).value) {
      SuccessIffNoFault(w, actions);
      if Clean(w, actions) { CleanRun(w, actions); }
      if Run(w, actions).value.parent.phase == Exited(true) { SuccessIsClean(w, actions); }
    }
  }

  lemma SuccessIsClean(w: World, actions: seq<Action>)
    requires ValidWorld(w) && Run(w, actions).Some? && Run(w, actions).value.parent.phase == Exited(true)
    requires !Run(w, actions).value.faulted
    ensures Clean(w, actions)
  {
    var s := Run(w, actions).value;
    forall a <- actions ensures a.o.Count? { if a.o.Fault? { FaultsAreKept(w, actions, a); } }
    RunInv(w, actions);
    SuccessSeesAll(w, s);
    forall name <- w.files ensures Suitable(w, name) {
      LogsHaveCauses(w, actions, name);
      var i :| 0 <= i < |w.files| && w.files[i] == name;
      assert !SkippedAt(w, actions, i);
    }
  }

  lemma SuccessSeesAll(w: World, s: State)
    requires Inv(w, s) && s.parent.phase == Exited(true)
    ensures s.parent.index == |w.files| && !s.parent.fileError
  {
  }

  // Nothing but the copies of listed files differs from the file system before.
  ghost predicate OnlyCopies(w: World, fs: map<Path, Bytes>) {
    forall path :: (forall name <- w.files :: path != name + Ascii(".copy")) ==>
      (path in fs <==> path in w.source) && (path in fs ==> fs[path] == w.source[path])
  }

  lemma StepWrites(w: World, s: State, a: Action)
    requires Inv(w, s) && Step(w, s, a).Some?
    ensures var fs' := Step(w, s, a).value.fs;
            var copy := CopyName(s.child.name);
            fs' == s.fs || (s.child.name in w.files && copy in fs' && fs' == s.fs[copy := fs'[copy]])
  {
    if a.ByChild? && a.o.Count? && (s.child.phase.Create? || s.child.phase.WriteCopy?) {
      PhaseIsBusy(s.parent, s.child, s.data, s.ready);
      CurrentIsListed(w, s.parent, s.child);
      ChildWritesCopy(w, s, a.o);
    } else {
      OthersWriteNothing(w, s, a);
    }
  }

  lemma ChildWritesCopy(w: World, s: State, o: Outcome)
    requires ChildStep(w, s, o).Some? && o.Count? && (s.child.phase.Create? || s.child.phase.WriteCopy?)
    ensures var fs', copy := ChildStep(w, s, o).value.fs, CopyName(s.child.name);
            copy in fs' && fs' == s.fs[copy := fs'[copy]]
  {
  }

  lemma OthersWriteNothing(w: World, s: State, a: Action)
    requires Step(w, s, a).Some?
    requires !(a.ByChild? && a.o.Count? && (s.child.phase.Create? || s.child.phase.WriteCopy?))
    ensures Step(w, s, a).value.fs == s.fs
  {
  }

  lemma {:induction false} NothingElseChanges(w: World, actions: seq<Action>)
    requires ValidWorld(w) && Run(w, actions).Some?
    ensures OnlyCopies(w, Run(w, actions).value.fs)
  {
    if actions != [] {
      var front, a := actions[..|actions| - 1], actions[|actions| - 1];
      assert actions == front + [a];
      RunStep(w, front, a);
      NothingElseChanges(w, front);
      RunInv(w, front);
      var s := Run(w, front).value;
      StepWrites(w, s, a);
      Literals(s.child.name);
    }
  }

  // A copy, failed or not, is never removed, and holds the beginning of its file from
  // the moment it is created.
  ghost predicate CopiesBegin(w: World, fs: map<Path, Bytes>) {
    && (forall path <- w.source :: path in fs)
    && (forall name <- w.files :: var copy := name + Ascii(".copy");
          copy in fs ==> (copy in w.source && fs[copy] == w.source[copy]) || (name in w.source && fs[copy] <= w.source[name]))
  }

  // What the child has received of the current file is the beginning of the file.
  lemma ReceivedIsPrefix(w: World, p: Parent, c: Child)
    requires InvWritten(p.log) && InvItems(w, p.log.begun) && p.log.begun != [] && InBody(c, Last(p.log.begun), p.log.frame)
    ensures c.name in w.files && c.name in w.source && c.log.body <= w.source[c.name]
  {
    var it := Last(p.log.begun);
    assert InvItem(w, it);
    FrameSize(it);
    assert p.log.frame[HEADER_SIZE..][..|c.log.body|] == p.log.frame[HEADER_SIZE..HEADER_SIZE + |c.log.body|];
  }

  lemma WriteBegins(w: World, s: State, o: Outcome)
    requires Inv(w, s) && o.Count? && (s.child.phase.Create? || s.child.phase.WriteCopy?) && ChildStep(w, s, o).Some?
    ensures var fs', name := ChildStep(w, s, o).value.fs, s.child.name;
            name in w.files && name in w.source && CopyName(name) in fs' && fs'[CopyName(name)] <= w.source[name]
  {
    PhaseIsBusy(s.parent, s.child, s.data, s.ready);
    ReceivedIsPrefix(w, s.parent, s.child);
    if s.child.phase.WriteCopy? {
      OpenCopyBegins(s.child, s.fs, s.child.phase.out, o.n);
    }
  }

  lemma OpenCopyBegins(c: Child, fs: map<Path, Bytes>, out: Bytes, n: nat)
    requires InvCopies(c, fs) && c.phase == WriteCopy(out) && n <= |out|
    ensures CopyName(c.name) in fs && fs[CopyName(c.name)] + out[..n] <= c.log.body
  {
    Associative(fs[CopyName(c.name)], out[..n], out[n..]);
    assert out == out[..n] + out[n..];
  }

  lemma SetCopyBegins(w: World, fs: map<Path, Bytes>, name: Path, content: Bytes)
    requires CopiesBegin(w, fs) && name in w.files && name in w.source && content <= w.source[name]
    ensures CopiesBegin(w, fs[CopyName(name) := content])
  {
    var fs' := fs[CopyName(name) := content];
    forall other <- w.files
      ensures var copy := other + Ascii(".copy");
              copy in fs' ==> (copy in w.source && fs'[copy] == w.source[copy]) || (other in w.source && fs'[copy] <= w.source[other])
    {
      Literals(other);
      if CopyName(other) == CopyName(name) { CopyNameInjective(other, name); }
    }
  }

  lemma {:induction false} CopiesAreBeginnings(w: World, actions: seq<Action>)
    requires ValidWorld(w) && Run(w, actions).Some?
    ensures CopiesBegin(w, Run(w, actions).value.fs)
  {
    if actions != [] {
      var front, a := actions[..|actions| - 1], actions[|actions| - 1];
      assert actions == front + [a];
      RunStep(w, front, a);
      CopiesAreBeginnings(w, front);
      RunInv(w, front);
      var s := Run(w, front).value;
      if a.ByChild? && a.o.Count? && (s.child.phase.Create? || s.child.phase.WriteCopy?) {
        WriteBegins(w, s, a.o);
        ChildWritesCopy(w, s, a.o);
        SetCopyBegins(w, s.fs, s.child.name, Run(w, actions).value.fs[CopyName(s.child.name)]);
      } else {
        OthersWriteNothing(w, s, a);
      }
    }
  }
}
