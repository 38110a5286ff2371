// How a client's bytes are cut into reads does not matter, and exactly when an
// `exit` line breaks this.

module EpollFragmentation {
  import opened Base
  import opened CommandStream
  import opened EpollServer

  ghost predicate NoNewline(a: Auto) { a.mode.Idle? ==> NEWLINE !in a.mode.line }

  lemma {:induction false} RunNoNewline(env: Env, a: Auto, s: Bytes)
    requires NoNewline(a)
    ensures NoNewline(Run(env, a, s))
    decreases |s|
  {
    if s != [] { RunNoNewline(env, StepByte(env, a, s[0]), s[1..]); }
  }

  // Settling loses nothing: running over the kept bytes leads back.
  lemma SettleBack(env: Env, a: Auto, left: Bytes)
    requires NoNewline(a) && !a.mode.Exited?
    ensures var s := Settle(a, left); Run(env, s.control, s.left) == a
  {
    if a.mode.Idle? {
      RunPartialLine(env, [], a.trace, a.mode.line);
      assert [] + a.mode.line == a.mode.line;
    }
  }

  lemma ReceiveRuns(env: Env, a: Auto, left: Bytes, chunk: Bytes)
    requires NoNewline(a) && !a.mode.Exited?
    ensures var s := Settle(a, left);
            Receive(env, s, chunk) == Settle(Run(env, a, chunk), s.left + chunk)
  {
    var s := Settle(a, left);
    SettleBack(env, a, left);
    RunConcat(env, s.control, s.left, chunk);
  }

  lemma ExitIsFinal(env: Env, a: Auto, s: Bytes, t: Bytes)
    requires Run(env, a, s).mode.Exited?
    ensures Run(env, a, s + t) == Run(env, a, s)
  {
    RunConcat(env, a, s, t);
    RunExited(env, Run(env, a, s), t);
  }

  // Without `exit` the server is, after any reads, where the automaton is.
  lemma {:induction false} FeedIsRun(env: Env, chunks: seq<Bytes>)
    requires !Run(env, START, Flatten(chunks)).mode.Exited?
    ensures Feed(env, FRESH, chunks) == Settle(Run(env, START, Flatten(chunks)), [])
  {
    if chunks != [] {
      var front, last := chunks[..|chunks| - 1], chunks[|chunks| - 1];
      var a := Run(env, START, Flatten(front));
      if a.mode.Exited? { ExitIsFinal(env, START, Flatten(front), last); }
      FeedIsRun(env, front);
      RunNoNewline(env, START, Flatten(front));
      ReceiveRuns(env, a, [], last);
      RunConcat(env, START, Flatten(front), last);
    }
  }

  // Two ways of cutting the same stream leave the same state, the same replies
  // and the same files behind.
  lemma FragmentationIndependent(env: Env, chunks: seq<Bytes>, chunks': seq<Bytes>)
    requires Flatten(chunks) == Flatten(chunks')
    requires !Run(env, START, Flatten(chunks)).mode.Exited?
    ensures Feed(env, FRESH, chunks) == Feed(env, FRESH, chunks')
    ensures Feed(env, FRESH, chunks).control.trace == Run(env, START, Flatten(chunks)).trace
  {
    FeedIsRun(env, chunks);
    FeedIsRun(env, chunks');
  }

  // ------------------------------------------------------------------- exit

  // A longer past does not change what is to come.
  lemma {:induction false} TraceShift(env: Env, m: Mode, past: seq<Event>, trace: seq<Event>, s: Bytes)
    ensures var a := Run(env, Auto(m, trace), s);
            Run(env, Auto(m, past + trace), s) == Auto(a.mode, past + a.trace)
    decreases |s|
  {
    if s != [] {
      var a := StepByte(env, Auto(m, trace), s[0]);
      StepShift(env, m, past, trace, s[0]);
      TraceShift(env, a.mode, past, a.trace, s[1..]);
    }
  }

  lemma StepShift(env: Env, m: Mode, past: seq<Event>, trace: seq<Event>, b: Byte)
    ensures var a := StepByte(env, Auto(m, trace), b);
            StepByte(env, Auto(m, past + trace), b) == Auto(a.mode, past + a.trace)
  {
  }

  lemma {:induction false} TraceGrows(env: Env, a: Auto, s: Bytes)
    ensures |a.trace| <= |Run(env, a, s).trace|
    decreases |s|
  {
    if s != [] { TraceGrows(env, StepByte(env, a, s[0]), s[1..]); }
  }

  // A file transfer leaves a trace before the next command can be read.
  lemma {:induction false} SizeLeavesTrace(env: Env, a: Auto, s: Bytes)
    requires a.mode.Size?
    ensures Run(env, a, s).mode.Size? || Run(env, a, s).trace != []
    decreases |s|
  {
    if s != [] {
      var a' := StepByte(env, a, s[0]);
      if a'.mode.Size? { SizeLeavesTrace(env, a', s[1..]); } else { TraceGrows(env, a', s[1..]); }
    }
  }

  // An automaton without a trace is still in its first line, or that line was special.
  lemma {:induction false} SilentStart(env: Env, s: Bytes)
    ensures var a := Run(env, START, s);
            a.trace == [] ==> a.mode == Idle(s) || a.mode.Size? || a.mode.Exited?
    decreases |s|
  {
    if s != [] {
      var front := s[..|s| - 1];
      assert s == front + [s[|s| - 1]];
      SilentStart(env, front);
      RunConcat(env, START, front, [s[|s| - 1]]);
      var a := Run(env, START, front);
      assert Run(env, a, [s[|s| - 1]]) == StepByte(env, a, s[|s| - 1]);
    }
  }

  // If the automaton exits silently, everything before was one unfinished line.
  lemma SilentExit(env: Env, s: Bytes, t: Bytes)
    requires Run(env, START, s + t).mode.Exited? && Run(env, START, s + t).trace == []
    requires !Run(env, START, s).mode.Exited?
    ensures Run(env, START, s) == Auto(Idle(s), [])
  {
    var a := Run(env, START, s);
    RunConcat(env, START, s, t);
    TraceGrows(env, a, t);
    SilentStart(env, s);
    if a.mode.Size? { SizeLeavesTrace(env, a, t); }
  }

  // No exit line, or nothing after it, or nothing observable before it.
  ghost predicate Harmless(env: Env, w: Bytes) {
    forall k :: 0 <= k < |w| && Run(env, START, w[..k]).mode.Exited? ==> Run(env, START, w[..k]).trace == []
  }

  // All that a pass can leave behind when exits are harmless.
  lemma {:induction false} FeedHarmless(env: Env, chunks: seq<Bytes>)
    requires Harmless(env, Flatten(chunks)) && (forall c <- chunks :: c != [])
    ensures var w := Flatten(chunks);
            var a, s := Run(env, START, w), Feed(env, FRESH, chunks);
            && s.control.trace == a.trace
            && (a.mode.Exited? && a.trace == [] ==> s == Session(START, w))
  {
    if chunks == [] { return; }
    var front, last := chunks[..|chunks| - 1], chunks[|chunks| - 1];
    var v, w := Flatten(front), Flatten(chunks);
    var a := Run(env, START, v);
    RunConcat(env, START, v, last);
    if a.mode.Exited? {
      assert last in chunks;
      HarmlessPrefix(env, v, last);
      forall c <- front ensures c != [] { assert c in chunks; }
      FeedHarmless(env, front);
      ExitIsFinal(env, START, v, last);
    } else {
      FeedIsRun(env, front);
      RunNoNewline(env, START, v);
      ReceiveRuns(env, a, [], last);
      if Run(env, START, w).mode.Exited? && Run(env, START, w).trace == [] { SilentExit(env, v, last); }
    }
  }

  lemma HarmlessPrefix(env: Env, v: Bytes, last: Bytes)
    requires Harmless(env, v + last) && last != []
    ensures Harmless(env, v)
    ensures Run(env, START, v).mode.Exited? ==> Run(env, START, v).trace == []
  {
    var w := v + last;
    assert w[..|v|] == v;
    forall k | 0 <= k < |v| && Run(env, START, v[..k]).mode.Exited? ensures Run(env, START, v[..k]).trace == [] {
      assert v[..k] == w[..k];
    }
  }

  // Two reads, the first of which ends with the exit line: the commands before
  // `exit` are still in the buffer and run a second time.
  lemma ExitReplays(env: Env, w: Bytes, k: nat)
    requires 0 < k < |w| && Run(env, START, w[..k]).mode.Exited?
    ensures var trace := Run(env, START, w).trace;
            Feed(env, FRESH, [w[..k], w[k..]]).control.trace == trace + trace
    ensures Flatten([w[..k], w[k..]]) == w
  {
    var v := w[..k];
    var trace := Run(env, START, v).trace;
    assert w == v + w[k..];
    ExitIsFinal(env, START, v, w[k..]);
    OneRead(env, v);
    assert [v, w[k..]][..1] == [v];
    assert Feed(env, FRESH, [v]) == Session(Auto(Idle([]), trace), v);
    TraceShift(env, Idle([]), trace, [], w);
    assert trace + [] == trace;
  }

  lemma OneRead(env: Env, v: Bytes)
    ensures Feed(env, FRESH, [v]) == Settle(Run(env, START, v), v) && Flatten([v]) == v
  {
    var chunks: seq<Bytes> := [v];
    assert chunks[..0] == [];
    assert [] + v == v;
  }

  ghost predicate Cuts(chunks: seq<Bytes>, w: Bytes) { Flatten(chunks) == w && forall c <- chunks :: c != [] }

  ghost predicate AlwaysAgrees(env: Env, w: Bytes) {
    forall chunks :: Cuts(chunks, w) && Realizable(env, FRESH, chunks) ==>
      Feed(env, FRESH, chunks).control.trace == Run(env, START, w).trace
  }

  // For every stream that fits the buffer: all ways of cutting it have the
  // automaton's effect if and only if its exit lines are harmless.
  lemma ExactlyWhenHarmless(env: Env, w: Bytes)
    requires |w| < BUFFER_SIZE
    ensures AlwaysAgrees(env, w) <==> Harmless(env, w)
  {
    if Harmless(env, w) {
      forall chunks | Cuts(chunks, w) && Realizable(env, FRESH, chunks)
        ensures Feed(env, FRESH, chunks).control.trace == Run(env, START, w).trace
      {
        FeedHarmless(env, chunks);
      }
    } else {
      var k :| 0 <= k < |w| && Run(env, START, w[..k]).mode.Exited? && Run(env, START, w[..k]).trace != [];
      var chunks := [w[..k], w[k..]];
      ExitReplays(env, w, k);
      TwoReadsFit(env, w, k);
      assert w == w[..k] + w[k..];
      TraceGrows(env, Run(env, START, w[..k]), w[k..]);
      RunConcat(env, START, w[..k], w[k..]);
      assert Cuts(chunks, w);
    }
  }

  lemma TwoReadsFit(env: Env, w: Bytes, k: nat)
    requires 0 < k < |w| < BUFFER_SIZE
    ensures Realizable(env, FRESH, [w[..k], w[k..]])
  {
    var chunks := [w[..k], w[k..]];
    OneRead(env, w[..k]);
    assert chunks[..0] == [] && chunks[..1] == [w[..k]];
    LineFits(env, START, w[..k]);
  }

  // A kept line is no longer than what was read.
  lemma {:induction false} LineFits(env: Env, a: Auto, s: Bytes)
    ensures var a' := Run(env, a, s);
            a'.mode.Idle? ==> |a'.mode.line| <= (if a.mode.Idle? then |a.mode.line| else 0) + |s|
    decreases |s|
  {
    if s != [] { LineFits(env, StepByte(env, a, s[0]), s[1..]); }
  }
}
