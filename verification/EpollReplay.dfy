// Exactly which streams the command server may get wrong, however long they are:
// those in which an `exit` line shares the buffer with something that has an effect
// when it is read again.

module EpollReplay {
  import opened Base
  import opened CommandStream
  import opened EpollServer
  import opened EpollFragmentation

  function At(env: Env, w: Bytes, n: nat): Auto
    requires n <= |w|
  {
    Run(env, START, w[..n])
  }

  // The bytes in the buffer after `i` bytes of the stream.
  function Kept(env: Env, w: Bytes, i: nat): Bytes
    requires i <= |w|
  {
    Settle(At(env, w, i), []).left
  }

  // What is in the buffer after a read from byte `i` to byte `n`.
  function Window(env: Env, w: Bytes, i: nat, n: nat): Bytes
    requires i <= n <= |w|
  {
    Kept(env, w, i) + w[i..n]
  }

  // The first exit line ends with byte `k - 1`.
  predicate ExitEnds(env: Env, w: Bytes, k: nat)
    requires k <= |w|
  {
    k > 0 && !At(env, w, k - 1).mode.Exited? && At(env, w, k).mode.Exited?
  }

  // Up to byte `i` there is room for one more byte at any time.
  ghost predicate LinesFit(env: Env, w: Bytes, i: nat)
    requires i <= |w|
  {
    forall m {:trigger Kept(env, w, m)} :: 0 <= m < i ==> |Kept(env, w, m)| + 1 < BUFFER_SIZE
  }

  // One read goes from byte `i` to the end of the exit line, leaves room for one byte
  // more, and what it leaves in the buffer has an effect when it is read again
  // together with the rest of the stream.
  ghost predicate ReplayAt(env: Env, w: Bytes, i: nat, k: nat) {
    && i < k < |w| && ExitEnds(env, w, k) && LinesFit(env, w, i)
    && |Window(env, w, i, k)| + 1 < BUFFER_SIZE
    && Run(env, START, Window(env, w, i, |w|)).trace != []
  }

  ghost predicate Replays(env: Env, w: Bytes) { exists i, k :: ReplayAt(env, w, i, k) }

  // At any time, after any reads that fit, the server has done what the automaton does.
  ghost predicate AgreesThroughout(env: Env, w: Bytes) {
    forall n, chunks {:trigger Cuts(chunks, w[..n])} ::
      0 <= n <= |w| && Cuts(chunks, w[..n]) && Realizable(env, FRESH, chunks) ==>
        Feed(env, FRESH, chunks).control.trace == At(env, w, n).trace
  }

  // ------------------------------------------------------------------ silence

  // A fresh connection has had no effect only if its whole stream has none.
  lemma {:induction false} SilentFeed(env: Env, chunks: seq<Bytes>)
    requires Feed(env, FRESH, chunks).control.trace == []
    ensures Run(env, START, Flatten(chunks)).trace == []
  {
    if chunks != [] {
      var front, last := chunks[..|chunks| - 1], chunks[|chunks| - 1];
      var s, a := Feed(env, FRESH, front), Run(env, START, Flatten(front));
      TraceGrows(env, s.control, s.left + last);
      SilentFeed(env, front);
      if a.mode.Exited? {
        ExitIsFinal(env, START, Flatten(front), last);
      } else {
        FeedIsRun(env, front);
        RunNoNewline(env, START, Flatten(front));
        ReceiveRuns(env, a, [], last);
        RunConcat(env, START, Flatten(front), last);
      }
    }
  }

  lemma SilentPrefix(env: Env, v: Bytes, n: nat)
    requires n <= |v| && Run(env, START, v).trace == []
    ensures Run(env, START, v[..n]).trace == []
  {
    assert v == v[..n] + v[n..];
    RunConcat(env, START, v[..n], v[n..]);
    TraceGrows(env, Run(env, START, v[..n]), v[n..]);
  }

  lemma FeedSilent(env: Env, chunks: seq<Bytes>)
    requires Run(env, START, Flatten(chunks)).trace == [] && forall c <- chunks :: c != []
    ensures Feed(env, FRESH, chunks).control.trace == []
  {
    var v := Flatten(chunks);
    forall k | 0 <= k < |v| && Run(env, START, v[..k]).mode.Exited? ensures Run(env, START, v[..k]).trace == [] {
      SilentPrefix(env, v, k);
    }
    FeedHarmless(env, chunks);
  }

  // ----------------------------------------------------------- after the exit line

  function Shift(past: seq<Event>, s: Session): Session {
    Session(Auto(s.control.mode, past + s.control.trace), s.left)
  }

  lemma ReceiveShift(env: Env, past: seq<Event>, s: Session, chunk: Bytes)
    ensures Receive(env, Shift(past, s), chunk) == Shift(past, Receive(env, s, chunk))
  {
    TraceShift(env, s.control.mode, past, s.control.trace, s.left + chunk);
  }

  // A session outside a line goes on like a fresh one that got its bytes first.
  lemma {:induction false} GoesOnFresh(env: Env, past: seq<Event>, left: Bytes, chunks: seq<Bytes>)
    requires chunks != []
    ensures Feed(env, Session(Auto(Idle([]), past), left), chunks)
            == Shift(past, Feed(env, FRESH, [left + chunks[0]] + chunks[1..]))
  {
    var s := Session(Auto(Idle([]), past), left);
    var chunks' := [left + chunks[0]] + chunks[1..];
    var n := |chunks| - 1;
    if n == 0 {
      assert chunks[..0] == [] && chunks'[..0] == [] && [] + chunks'[0] == left + chunks[0];
      assert past + [] == past;
      ReceiveShift(env, past, Session(START, left), chunks[0]);
      assert Receive(env, FRESH, chunks'[0]) == Receive(env, Session(START, left), chunks[0]);
    } else {
      assert chunks'[..n] == [left + chunks[..n][0]] + chunks[..n][1..];
      GoesOnFresh(env, past, left, chunks[..n]);
      ReceiveShift(env, past, Feed(env, FRESH, chunks'[..n]), chunks[n]);
    }
  }

  lemma {:induction false} FeedConcat(env: Env, s: Session, a: seq<Bytes>, b: seq<Bytes>)
    ensures Feed(env, s, a + b) == Feed(env, Feed(env, s, a), b)
  {
    if b == [] {
      assert a + b == a;
    } else {
      var n := |b| - 1;
      assert (a + b)[..|a| + n] == a + b[..n];
      FeedConcat(env, s, a, b[..n]);
    }
  }

  lemma {:induction false} FlattenConcat(a: seq<Bytes>, b: seq<Bytes>)
    ensures Flatten(a + b) == Flatten(a) + Flatten(b)
  {
    if b == [] {
      assert a + b == a;
    } else {
      var n := |b| - 1;
      assert (a + b)[..|a| + n] == a + b[..n];
      FlattenConcat(a, b[..n]);
    }
  }

  lemma {:induction false} FlattenFirst(left: Bytes, chunks: seq<Bytes>)
    requires chunks != []
    ensures Flatten([left + chunks[0]] + chunks[1..]) == left + Flatten(chunks)
  {
    var chunks', n := [left + chunks[0]] + chunks[1..], |chunks| - 1;
    if n == 0 {
      FlattenOne(chunks[0]);
      FlattenOne(left + chunks[0]);
      assert chunks == [chunks[0]] && chunks' == [left + chunks[0]];
    } else {
      assert chunks'[..n] == [left + chunks[..n][0]] + chunks[..n][1..];
      FlattenFirst(left, chunks[..n]);
      assert left + Flatten(chunks[..n]) + chunks[n] == left + (Flatten(chunks[..n]) + chunks[n]);
    }
  }

  lemma FlattenOne(c: Bytes)
    ensures Flatten([c]) == c
  {
    assert [c][..0] == [];
    assert [] + c == c;
  }

  // The session after the read that contains the exit line, and after more reads.
  lemma AfterExit(env: Env, front: seq<Bytes>, c: Bytes, rest: seq<Bytes>)
    requires !Run(env, START, Flatten(front)).mode.Exited? && Run(env, START, Flatten(front) + c).mode.Exited?
    ensures var past := Run(env, START, Flatten(front) + c).trace;
            var x := Settle(Run(env, START, Flatten(front)), []).left + c;
            && Feed(env, FRESH, front + [c]) == Session(Auto(Idle([]), past), x)
            && (rest != [] ==> Feed(env, FRESH, front + [c] + rest) == Shift(past, Feed(env, FRESH, [x + rest[0]] + rest[1..])))
  {
    var a := Run(env, START, Flatten(front));
    FeedIsRun(env, front);
    RunNoNewline(env, START, Flatten(front));
    ReceiveRuns(env, a, [], c);
    RunConcat(env, START, Flatten(front), c);
    assert (front + [c])[..|front|] == front;
    FeedConcat(env, FRESH, front + [c], rest);
    var past, x := Run(env, START, Flatten(front) + c).trace, Settle(a, []).left + c;
    if rest != [] { GoesOnFresh(env, past, x, rest); }
  }

  // ------------------------------------------------- from a wrong effect to a replay

  lemma {:induction false} FirstExit(env: Env, w: Bytes, n: nat) returns (k: nat)
    requires n <= |w| && At(env, w, n).mode.Exited?
    ensures k <= n && ExitEnds(env, w, k)
  {
    if At(env, w, n - 1).mode.Exited? {
      k := FirstExit(env, w, n - 1);
    } else {
      k := n;
    }
  }

  // The read that delivers byte `k - 1`.
  lemma {:induction false} SplitAt(chunks: seq<Bytes>, k: nat) returns (p: nat)
    requires 0 < k <= |Flatten(chunks)|
    ensures p < |chunks| && |Flatten(chunks[..p])| < k <= |Flatten(chunks[..p])| + |chunks[p]|
  {
    var n := |chunks| - 1;
    if |Flatten(chunks[..n])| < k {
      p := n;
    } else {
      p := SplitAt(chunks[..n], k);
      assert chunks[..n][..p] == chunks[..p];
    }
  }

  lemma FlattenPrefix(chunks: seq<Bytes>, p: nat)
    requires p <= |chunks|
    ensures Flatten(chunks[..p]) <= Flatten(chunks)
  {
    assert chunks == chunks[..p] + chunks[p..];
    FlattenConcat(chunks[..p], chunks[p..]);
  }

  lemma NotYetExited(env: Env, w: Bytes, i: nat, k: nat)
    requires i < k <= |w| && ExitEnds(env, w, k)
    ensures !At(env, w, i).mode.Exited?
  {
    assert w[..k - 1] == w[..i] + w[i..k - 1];
    if At(env, w, i).mode.Exited? { ExitIsFinal(env, START, w[..i], w[i..k - 1]); }
  }

  // Reads that fit leave room for every line on the way.
  lemma ReadsFit(env: Env, w: Bytes, chunks: seq<Bytes>)
    requires Flatten(chunks) <= w && Realizable(env, FRESH, chunks)
    requires !At(env, w, |Flatten(chunks)|).mode.Exited?
    ensures LinesFit(env, w, |Flatten(chunks)|)
  {
    var n := |Flatten(chunks)|;
    forall m {:trigger Kept(env, w, m)} | 0 <= m < n ensures |Kept(env, w, m)| + 1 < BUFFER_SIZE {
      var p := SplitAt(chunks, m + 1);
      var front := chunks[..p];
      var i := |Flatten(front)|;
      FlattenPrefix(chunks, p);
      assert w[..i] == Flatten(front) && w[..n] == w[..i] + w[i..n] && w[..m] == w[..i] + w[i..m];
      if At(env, w, i).mode.Exited? { ExitIsFinal(env, START, w[..i], w[i..n]); }
      FeedIsRun(env, front);
      assert |Feed(env, FRESH, front).left| + |chunks[p]| < BUFFER_SIZE;
      KeptGrows(env, w, i, m);
    }
  }

  lemma KeptGrows(env: Env, w: Bytes, i: nat, m: nat)
    requires i <= m <= |w| && !At(env, w, i).mode.Exited?
    ensures |Kept(env, w, m)| <= |Kept(env, w, i)| + (m - i)
  {
    assert w[..m] == w[..i] + w[i..m];
    RunConcat(env, START, w[..i], w[i..m]);
    LineFits(env, At(env, w, i), w[i..m]);
  }

  lemma ExitedFrom(env: Env, w: Bytes, k: nat, j: nat)
    requires k <= j <= |w| && At(env, w, k).mode.Exited?
    ensures At(env, w, j) == At(env, w, k)
  {
    assert w[..j] == w[..k] + w[k..j];
    ExitIsFinal(env, START, w[..k], w[k..j]);
  }

  // The bytes left behind have an effect, and go on having it.
  lemma LoudRest(env: Env, x: Bytes, rest: seq<Bytes>, tail: Bytes)
    requires forall c <- rest :: c != []
    requires rest != [] && Feed(env, FRESH, [x + rest[0]] + rest[1..]).control.trace != []
    ensures Run(env, START, x + Flatten(rest) + tail).trace != []
  {
    var v := x + Flatten(rest);
    FlattenFirst(x, rest);
    assert rest[0] in rest && forall c <- rest[1..] :: c in rest;
    if Run(env, START, v).trace == [] { FeedSilent(env, [x + rest[0]] + rest[1..]); }
    assert (v + tail)[..|v|] == v;
    if Run(env, START, v + tail).trace == [] { SilentPrefix(env, v + tail, |v|); }
  }

  // The first `n` bytes, cut into what came before the read with the exit line, that
  // read, which takes bytes `i` to `j`, and the reads after it.
  ghost predicate CutAt(env: Env, w: Bytes, n: nat, front: seq<Bytes>, c: Bytes, rest: seq<Bytes>, i: nat, j: nat, k: nat) {
    && i < k <= j <= n <= |w| && ExitEnds(env, w, k)
    && Flatten(front) == w[..i] && c == w[i..j] && Flatten(rest) == w[j..n] && (forall d <- rest :: d != [])
  }

  lemma MakeCut(env: Env, w: Bytes, n: nat, chunks: seq<Bytes>, p: nat, k: nat) returns (i: nat, j: nat)
    requires n <= |w| && Cuts(chunks, w[..n]) && k <= n && ExitEnds(env, w, k) && p < |chunks|
    requires |Flatten(chunks[..p])| < k <= |Flatten(chunks[..p])| + |chunks[p]|
    ensures CutAt(env, w, n, chunks[..p], chunks[p], chunks[p + 1..], i, j, k)
  {
    var front, c, rest := chunks[..p], chunks[p], chunks[p + 1..];
    i := |Flatten(front)|;
    j := i + |c|;
    assert chunks == front + ([c] + rest) && [c] + rest == chunks[p..];
    FlattenConcat(front, [c] + rest);
    FlattenConcat([c], rest);
    FlattenOne(c);
    assert forall d <- rest :: d in chunks;
    Pieces(w[..n], Flatten(front), c, Flatten(rest));
    assert w[..n][..i] == w[..i] && w[..n][i..j] == w[i..j] && w[..n][j..] == w[j..n];
  }

  lemma Pieces(v: Bytes, a: Bytes, b: Bytes, c: Bytes)
    requires v == a + (b + c)
    ensures v[..|a|] == a && v[|a|..|a| + |b|] == b && v[|a| + |b|..] == c
  {
  }

  lemma WrongAt(env: Env, w: Bytes, n: nat, front: seq<Bytes>, c: Bytes, rest: seq<Bytes>, i: nat, j: nat, k: nat)
    requires CutAt(env, w, n, front, c, rest, i, j, k)
    requires Feed(env, FRESH, front + [c] + rest).control.trace != At(env, w, n).trace
    ensures rest != [] && Run(env, START, Window(env, w, i, |w|)).trace != []
    ensures Feed(env, FRESH, front + [c]).left == Window(env, w, i, j)
  {
    NotYetExited(env, w, i, k);
    ExitedFrom(env, w, k, j);
    ExitedFrom(env, w, k, n);
    assert w[..i] + c == w[..j];
    AfterExit(env, front, c, rest);
    assert rest == [] ==> front + [c] + rest == front + [c];
    LoudRest(env, Window(env, w, i, j), rest, w[n..]);
    WindowPieces(Kept(env, w, i), w, i, j, n);
  }

  lemma WindowPieces(kept: Bytes, w: Bytes, i: nat, j: nat, n: nat)
    requires i <= j <= n <= |w|
    ensures kept + w[i..j] + w[j..n] + w[n..] == kept + w[i..|w|]
  {
    assert w[i..n] == w[i..j] + w[j..n];
    assert w[i..|w|] == w[i..n] + w[n..];
  }

  lemma WrongFits(env: Env, w: Bytes, n: nat, front: seq<Bytes>, c: Bytes, rest: seq<Bytes>, i: nat, j: nat, k: nat)
    requires CutAt(env, w, n, front, c, rest, i, j, k) && rest != [] && Realizable(env, FRESH, front + [c] + rest)
    requires Feed(env, FRESH, front + [c]).left == Window(env, w, i, j)
    ensures LinesFit(env, w, i) && |Window(env, w, i, k)| + 1 < BUFFER_SIZE && k < |w|
  {
    var chunks, p := front + [c] + rest, |front|;
    NotYetExited(env, w, i, k);
    FrontFits(env, front, chunks);
    ReadsFit(env, w, front);
    assert chunks[..p + 1] == front + [c] && chunks[p + 1] == rest[0];
    assert |Feed(env, FRESH, chunks[..p + 1]).left| + |chunks[p + 1]| < BUFFER_SIZE;
    assert rest[0] in rest;
    if rest[0] != [] && j == n { SplitEmpty(rest); }
  }

  lemma FrontFits(env: Env, front: seq<Bytes>, chunks: seq<Bytes>)
    requires front <= chunks && Realizable(env, FRESH, chunks)
    ensures Realizable(env, FRESH, front)
  {
    assert forall q :: 0 <= q < |front| ==> chunks[..q] == front[..q] && chunks[q] == front[q];
  }

  lemma {:induction false} SplitEmpty(chunks: seq<Bytes>)
    requires Flatten(chunks) == []
    ensures forall c <- chunks :: c == []
  {
    if chunks != [] {
      SplitEmpty(chunks[..|chunks| - 1]);
      assert chunks == chunks[..|chunks| - 1] + [chunks[|chunks| - 1]];
    }
  }

  lemma CutWhereWrong(env: Env, w: Bytes, n: nat, chunks: seq<Bytes>)
    returns (front: seq<Bytes>, c: Bytes, rest: seq<Bytes>, i: nat, j: nat, k: nat)
    requires n <= |w| && Cuts(chunks, w[..n]) && Feed(env, FRESH, chunks).control.trace != At(env, w, n).trace
    ensures chunks == front + [c] + rest && CutAt(env, w, n, front, c, rest, i, j, k)
  {
    WrongHasExited(env, w, n, chunks);
    k := FirstExit(env, w, n);
    var p := SplitAt(chunks, k);
    i, j := MakeCut(env, w, n, chunks, p, k);
    front, c, rest := chunks[..p], chunks[p], chunks[p + 1..];
  }

  lemma WrongHasExited(env: Env, w: Bytes, n: nat, chunks: seq<Bytes>)
    requires n <= |w| && Flatten(chunks) == w[..n] && Feed(env, FRESH, chunks).control.trace != At(env, w, n).trace
    ensures At(env, w, n).mode.Exited?
  {
    if !At(env, w, n).mode.Exited? { FeedIsRun(env, chunks); }
  }

  // A wrong effect comes from a replay.
  lemma WrongNeedsReplay(env: Env, w: Bytes, n: nat, chunks: seq<Bytes>)
    requires n <= |w| && Cuts(chunks, w[..n]) && Realizable(env, FRESH, chunks)
    requires Feed(env, FRESH, chunks).control.trace != At(env, w, n).trace
    ensures Replays(env, w)
  {
    var front, c, rest, i, j, k := CutWhereWrong(env, w, n, chunks);
    WrongAt(env, w, n, front, c, rest, i, j, k);
    WrongFits(env, w, n, front, c, rest, i, j, k);
    assert ReplayAt(env, w, i, k);
  }

  // ------------------------------------------------- from a replay to a wrong effect

  // Reads of one byte each.
  function Singles(s: Bytes): seq<Bytes> { seq(|s|, i requires 0 <= i < |s| => [s[i]]) }

  lemma {:induction false} SinglesFlatten(s: Bytes)
    ensures Flatten(Singles(s)) == s
  {
    if s != [] {
      var n := |s| - 1;
      SinglesFlatten(s[..n]);
      assert Singles(s)[..n] == Singles(s[..n]);
    }
  }

  // The shortest continuation that has an effect.
  lemma {:induction false} FirstLoud(env: Env, x: Bytes, tail: Bytes) returns (n: nat)
    requires tail != [] && Run(env, START, x + tail).trace != []
    ensures 0 < n <= |tail| && Run(env, START, x + tail[..n]).trace != []
    ensures forall m :: 0 < m < n ==> Run(env, START, x + tail[..m]).trace == []
  {
    var l := |tail| - 1;
    if l > 0 && Run(env, START, x + tail[..l]).trace != [] {
      n := FirstLoud(env, x, tail[..l]);
      assert forall m :: 0 <= m <= n ==> tail[..l][..m] == tail[..m];
    } else {
      n := |tail|;
      assert tail[..n] == tail;
      forall m | 0 < m < n ensures Run(env, START, x + tail[..m]).trace == [] {
        assert (x + tail[..l])[..|x| + m] == x + tail[..m];
        SilentPrefix(env, x + tail[..l], |x| + m);
      }
    }
  }

  // An exit line ends in a newline.
  lemma ExitIsNewline(env: Env, w: Bytes, k: nat)
    requires k <= |w| && ExitEnds(env, w, k)
    ensures w[k - 1] == NEWLINE
  {
    var a := At(env, w, k - 1);
    assert w[..k] == w[..k - 1] + [w[k - 1]];
    RunConcat(env, START, w[..k - 1], [w[k - 1]]);
    assert Run(env, a, [w[k - 1]]) == StepByte(env, a, w[k - 1]);
  }

  // While the bytes left behind stay silent without a second exit, they are the
  // beginning of a file transfer and nothing is kept.
  lemma SilentKeepsNothing(env: Env, chunks: seq<Bytes>)
    requires var v := Flatten(chunks);
             NEWLINE in v && Run(env, START, v).trace == [] && !Run(env, START, v).mode.Exited?
    ensures Feed(env, FRESH, chunks).left == []
  {
    var v := Flatten(chunks);
    FeedIsRun(env, chunks);
    SilentStart(env, v);
    RunNoNewline(env, START, v);
    NothingBack(env, v);
  }

  // An automaton in the middle of file data has left a trace.
  lemma {:induction false} NothingBack(env: Env, s: Bytes)
    requires Run(env, START, s).trace == []
    ensures !Run(env, START, s).mode.Data?
  {
    SilentStart(env, s);
  }

  // The reads: single bytes, one with the exit line, single bytes.
  function Cut(u: Bytes, e: Bytes, t: Bytes): seq<Bytes> { Singles(u) + [e] + Singles(t) }

  lemma CutFlatten(u: Bytes, e: Bytes, t: Bytes)
    ensures Flatten(Cut(u, e, t)) == u + e + t
  {
    SinglesFlatten(u);
    SinglesFlatten(t);
    FlattenConcat(Singles(u), [e]);
    FlattenConcat(Singles(u) + [e], Singles(t));
    FlattenOne(e);
  }

  // What the server has kept and done after the reads.
  lemma CutFeed(env: Env, u: Bytes, e: Bytes, t: Bytes)
    requires !Run(env, START, u).mode.Exited? && Run(env, START, u + e).mode.Exited?
    ensures var x := Settle(Run(env, START, u), []).left + e;
            var past, s := Run(env, START, u + e).trace, Feed(env, FRESH, Cut(u, e, t));
            if t == [] then s.left == x
            else s == Shift(past, Feed(env, FRESH, [x + Singles(t)[0]] + Singles(t)[1..]))
                 && Flatten([x + Singles(t)[0]] + Singles(t)[1..]) == x + t
  {
    var x := Settle(Run(env, START, u), []).left + e;
    SinglesFlatten(u);
    SinglesFlatten(t);
    AfterExit(env, Singles(u), e, Singles(t));
    if t == [] {
      assert Cut(u, e, t) == Singles(u) + [e];
    } else {
      FlattenFirst(x, Singles(t));
    }
  }

  lemma CutEarly(u: Bytes, e: Bytes, t: Bytes, q: nat)
    requires q <= |u|
    ensures Cut(u, e, t)[..q] == Singles(u[..q]) && Cut(u, e, t)[q] == if q < |u| then [u[q]] else e
  {
  }

  lemma CutLate(u: Bytes, e: Bytes, t: Bytes, m: nat)
    requires m < |t|
    ensures Cut(u, e, t)[..|u| + 1 + m] == Cut(u, e, t[..m]) && Cut(u, e, t)[|u| + 1 + m] == [t[m]]
  {
    assert Singles(t)[..m] == Singles(t[..m]);
  }

  // After the read with the exit line the reads of `t` end with the first that has an
  // effect.
  ghost predicate Loud(env: Env, x: Bytes, t: Bytes) {
    && (forall m :: 0 < m < |t| ==> Run(env, START, x + t[..m]).trace == [])
    && Run(env, START, x + t).trace != []
  }

  // Each of the reads fits: those before the exit line since the lines fit, the one
  // with it by assumption, those after it since nothing more is kept.
  lemma CutFits(env: Env, u: Bytes, e: Bytes, t: Bytes)
    requires !Run(env, START, u).mode.Exited? && Run(env, START, u + e).mode.Exited?
    requires LinesFit(env, u, |u|) && e != [] && e[|e| - 1] == NEWLINE
    requires var x := Settle(Run(env, START, u), []).left + e; |x| + 1 < BUFFER_SIZE && Loud(env, x, t)
    ensures Realizable(env, FRESH, Cut(u, e, t))
  {
    var chunks := Cut(u, e, t);
    forall q | 0 <= q < |chunks| ensures chunks[q] != [] && |Feed(env, FRESH, chunks[..q]).left| + |chunks[q]| < BUFFER_SIZE {
      if q <= |u| {
        CutEarly(u, e, t, q);
        EarlyFits(env, u, q);
        assert u[..|u|] == u;
        assert q < |u| ==> |Kept(env, u, q)| + 1 < BUFFER_SIZE;
      } else {
        CutLate(u, e, t, q - |u| - 1);
        LateReadFits(env, u, e, t, q - |u| - 1);
      }
    }
  }

  lemma LateReadFits(env: Env, u: Bytes, e: Bytes, t: Bytes, m: nat)
    requires !Run(env, START, u).mode.Exited? && Run(env, START, u + e).mode.Exited?
    requires m < |t| && e != [] && e[|e| - 1] == NEWLINE
    requires var x := Settle(Run(env, START, u), []).left + e; |x| + 1 < BUFFER_SIZE && Loud(env, x, t)
    ensures |Feed(env, FRESH, Cut(u, e, t[..m])).left| + 1 < BUFFER_SIZE
  {
    var x := Settle(Run(env, START, u), []).left + e;
    CutFeed(env, u, e, t[..m]);
    if m > 0 {
      assert x[|x| - 1] == NEWLINE;
      LateFits(env, x, t, m);
    }
  }

  lemma EarlyFits(env: Env, u: Bytes, q: nat)
    requires q <= |u| && !Run(env, START, u).mode.Exited?
    ensures Feed(env, FRESH, Singles(u[..q])).left == Kept(env, u, q)
  {
    SinglesFlatten(u[..q]);
    assert u == u[..q] + u[q..];
    if Run(env, START, u[..q]).mode.Exited? { ExitIsFinal(env, START, u[..q], u[q..]); }
    FeedIsRun(env, Singles(u[..q]));
  }

  lemma LateFits(env: Env, x: Bytes, t: Bytes, m: nat)
    requires 0 < m < |t| && NEWLINE in x && Run(env, START, x + t[..m]).trace == [] && Run(env, START, x + t).trace != []
    ensures Feed(env, FRESH, [x + Singles(t[..m])[0]] + Singles(t[..m])[1..]).left == []
  {
    var chunks := [x + Singles(t[..m])[0]] + Singles(t[..m])[1..];
    SinglesFlatten(t[..m]);
    FlattenFirst(x, Singles(t[..m]));
    assert x + t == (x + t[..m]) + t[m..];
    if Run(env, START, x + t[..m]).mode.Exited? { ExitIsFinal(env, START, x + t[..m], t[m..]); }
    SilentKeepsNothing(env, chunks);
  }

  lemma ReplayIsWrong(env: Env, w: Bytes, i: nat, k: nat)
    requires ReplayAt(env, w, i, k)
    ensures !AgreesThroughout(env, w)
  {
    var u, e, x := w[..i], w[i..k], Window(env, w, i, k);
    assert x + w[k..] == Window(env, w, i, |w|) by { WindowPieces(Kept(env, w, i), w, i, k, |w|); }
    var l := FirstLoud(env, x, w[k..]);
    var n := k + l;
    var t := w[k..n];
    assert w[k..][..l] == t && forall m :: 0 < m < l ==> w[k..][..m] == t[..m];
    assert u + e == w[..k] && u + e + t == w[..n];
    NotYetExited(env, w, i, k);
    ExitIsNewline(env, w, k);
    PrefixFits(env, w, i);
    CutFits(env, u, e, t);
    CutFlatten(u, e, t);
    CutFeed(env, u, e, t);
    ExitedFrom(env, w, k, n);
    LoudCut(env, x, t);
    assert Cuts(Cut(u, e, t), w[..n]);
  }

  lemma PrefixFits(env: Env, w: Bytes, i: nat)
    requires i <= |w| && LinesFit(env, w, i)
    ensures LinesFit(env, w[..i], i)
  {
    forall m {:trigger Kept(env, w[..i], m)} | 0 <= m < i ensures |Kept(env, w[..i], m)| + 1 < BUFFER_SIZE {
      assert w[..i][..m] == w[..m];
      assert Kept(env, w[..i], m) == Kept(env, w, m);
    }
  }

  lemma LoudCut(env: Env, x: Bytes, t: Bytes)
    requires t != [] && Run(env, START, x + t).trace != []
    requires Flatten([x + Singles(t)[0]] + Singles(t)[1..]) == x + t
    ensures Feed(env, FRESH, [x + Singles(t)[0]] + Singles(t)[1..]).control.trace != []
  {
    var chunks := [x + Singles(t)[0]] + Singles(t)[1..];
    if Feed(env, FRESH, chunks).control.trace == [] { SilentFeed(env, chunks); }
  }

  // For every stream: whatever reads it arrives in, the server has at any time done
  // what the automaton does, if and only if no exit line can be replayed.
  lemma AgreesUnlessReplayed(env: Env, w: Bytes)
    ensures AgreesThroughout(env, w) <==> !Replays(env, w)
  {
    if Replays(env, w) {
      var i, k :| ReplayAt(env, w, i, k);
      ReplayIsWrong(env, w, i, k);
    } else {
      forall n, chunks {:trigger Cuts(chunks, w[..n])}
        | 0 <= n <= |w| && Cuts(chunks, w[..n]) && Realizable(env, FRESH, chunks)
        ensures Feed(env, FRESH, chunks).control.trace == At(env, w, n).trace
      {
        if Feed(env, FRESH, chunks).control.trace != At(env, w, n).trace { WrongNeedsReplay(env, w, n, chunks); }
      }
    }
  }
}
