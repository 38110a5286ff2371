// The byte-at-a-time reference automaton of the chat relay: what one sender's
// byte stream makes the server send to every other client.

module RelayStream {
  import opened Base

  const NICK: Bytes := [78, 73, 67, 75, 32]
  const MSG: Bytes := [77, 83, 71, 32]
  const FILE: Bytes := [70, 73, 76, 69, 32]
  const SPACE: Bytes := [32]
  const MAX_NICK := 32

  datatype FileSpec = FileSpec(name: Bytes, size: nat)

  // What the model does not compute: sscanf of "name size" and the printed
  // FILE line.
  datatype Env = Env(parseFile: Bytes -> Option<FileSpec>, fileLine: (Bytes, FileSpec) -> Bytes)

  // Stuck is what a FILE line announcing zero bytes leads to: nothing is
  // consumed any more.
  datatype Mode = Line(text: Bytes) | File(size: nat, received: nat) | Stuck(pending: Bytes)

  // `sent` is everything broadcast so far.
  datatype Auto = Auto(mode: Mode, nick: Bytes, sent: Bytes)

  const START := Auto(Line([]), [], [])

  function MessageLine(nick: Bytes, text: Bytes): Bytes { MSG + nick + SPACE + text + [NEWLINE] }

  function FileMode(size: nat): Mode { if size == 0 then Stuck([]) else File(size, 0) }

  // A complete line, without its newline.
  function Command(env: Env, a: Auto, line: Bytes): Auto {
    var cmd := CString(line);
    if NICK <= cmd then a.(mode := Line([]), nick := cmd[5..][..Min(|cmd| - 5, MAX_NICK - 1)])
    else if MSG <= cmd then a.(mode := Line([]), sent := a.sent + MessageLine(a.nick, cmd[4..]))
    else if FILE <= cmd then
      match env.parseFile(cmd[5..])
      case Some(spec) => a.(mode := FileMode(spec.size), sent := a.sent + env.fileLine(a.nick, spec))
      case None => a.(mode := Line([]))
    else a.(mode := Line([]))
  }

  function StepByte(env: Env, a: Auto, b: Byte): Auto {
    match a.mode
    case Line(text) => if b == NEWLINE then Command(env, a, text) else a.(mode := Line(text + [b]))
    case File(size, received) =>
      a.(mode := if received + 1 >= size then Line([]) else File(size, received + 1), sent := a.sent + [b])
    case Stuck(pending) => a.(mode := Stuck(pending + [b]))
  }

  function Run(env: Env, a: Auto, s: Bytes): Auto
    decreases |s|
  {
    if s == [] then a else Run(env, StepByte(env, a, s[0]), s[1..])
  }

  lemma {:induction false} RunConcat(env: Env, a: Auto, s: Bytes, t: Bytes)
    ensures Run(env, a, s + t) == Run(env, Run(env, a, s), t)
    decreases |s|
  {
    if s == [] {
      assert s + t == t;
    } else {
      assert (s + t)[1..] == s[1..] + t;
      RunConcat(env, StepByte(env, a, s[0]), s[1..], t);
    }
  }

  lemma {:induction false} RunPartialLine(env: Env, a: Auto, s: Bytes)
    requires a.mode.Line? && NEWLINE !in s
    ensures Run(env, a, s) == a.(mode := Line(a.mode.text + s))
    decreases |s|
  {
    if s == [] {
      assert a.mode.text + s == a.mode.text;
    } else {
      RunPartialLine(env, a.(mode := Line(a.mode.text + [s[0]])), s[1..]);
      assert a.mode.text + [s[0]] + s[1..] == a.mode.text + s;
    }
  }

  lemma {:induction false} RunStuck(env: Env, a: Auto, s: Bytes)
    requires a.mode.Stuck?
    ensures Run(env, a, s) == a.(mode := Stuck(a.mode.pending + s))
    decreases |s|
  {
    if s == [] {
      assert a.mode.pending + s == a.mode.pending;
    } else {
      RunStuck(env, a.(mode := Stuck(a.mode.pending + [s[0]])), s[1..]);
      assert a.mode.pending + [s[0]] + s[1..] == a.mode.pending + s;
    }
  }

  lemma RunLine(env: Env, a: Auto, s: Bytes, k: nat)
    requires a.mode == Line([]) && k < |s| && s[k] == NEWLINE && NEWLINE !in s[..k]
    ensures Run(env, a, s) == Run(env, Command(env, a, s[..k]), s[k + 1..])
  {
    RunPartialLine(env, a, s[..k]);
    assert s == s[..k] + s[k..];
    RunConcat(env, a, s[..k], s[k..]);
    assert [] + s[..k] == s[..k] && s[k..][1..] == s[k + 1..];
    assert Command(env, a.(mode := Line(s[..k])), s[..k]) == Command(env, a, s[..k]);
  }

  lemma {:induction false} RunFile(env: Env, a: Auto, s: Bytes)
    requires a.mode.File? && s != [] && a.mode.received + |s| <= a.mode.size
    ensures Run(env, a, s)
            == a.(mode := if a.mode.received + |s| == a.mode.size then Line([]) else File(a.mode.size, a.mode.received + |s|),
                  sent := a.sent + s)
    decreases |s|
  {
    if |s| == 1 {
      assert a.sent + s == a.sent + [s[0]];
    } else {
      RunFile(env, StepByte(env, a, s[0]), s[1..]);
      assert a.sent + [s[0]] + s[1..] == a.sent + s;
    }
  }

  // A file is relayed whole and in order, behind its header; only then does the
  // server look for lines again.
  lemma FileIsRelayed(env: Env, nick: Bytes, sent: Bytes, line: Bytes, body: Bytes, rest: Bytes)
    requires NEWLINE !in line && FILE <= CString(line)
    requires env.parseFile(CString(line)[5..]).Some?
    requires |body| == env.parseFile(CString(line)[5..]).value.size > 0
    ensures var header := env.fileLine(nick, env.parseFile(CString(line)[5..]).value);
            Run(env, Auto(Line([]), nick, sent), line + [NEWLINE] + body + rest)
            == Run(env, Auto(Line([]), nick, sent + header + body), rest)
  {
    var a := Auto(Line([]), nick, sent);
    var s := line + [NEWLINE] + body + rest;
    assert s[..|line|] == line && s[|line| + 1..] == body + rest;
    RunLine(env, a, s, |line|);
    assert !(NICK <= CString(line)) && !(MSG <= CString(line)) by {
      assert CString(line)[0] == FILE[0] && NICK[0] != FILE[0] && MSG[0] != FILE[0];
    }
    RunConcat(env, Command(env, a, line), body, rest);
    RunFile(env, Command(env, a, line), body);
  }

  // A FILE line that announces no bytes silences the sender for good.
  lemma EmptyFileSilences(env: Env, nick: Bytes, sent: Bytes, line: Bytes, rest: Bytes)
    requires NEWLINE !in line && FILE <= CString(line)
    requires env.parseFile(CString(line)[5..]).Some? && env.parseFile(CString(line)[5..]).value.size == 0
    ensures var header := env.fileLine(nick, env.parseFile(CString(line)[5..]).value);
            Run(env, Auto(Line([]), nick, sent), line + [NEWLINE] + rest).sent == sent + header
  {
    var a := Auto(Line([]), nick, sent);
    var s := line + [NEWLINE] + rest;
    assert s[..|line|] == line && s[|line| + 1..] == rest;
    RunLine(env, a, s, |line|);
    assert !(NICK <= CString(line)) && !(MSG <= CString(line)) by {
      assert CString(line)[0] == FILE[0] && NICK[0] != FILE[0] && MSG[0] != FILE[0];
    }
    RunStuck(env, Command(env, a, line), rest);
  }

  // Once the announced bytes of a FILE line are through, the server parses lines
  // again, with the header and the body relayed, if and only if there were any.
  lemma ParsingResumes(env: Env, nick: Bytes, sent: Bytes, line: Bytes, body: Bytes)
    requires NEWLINE !in line && FILE <= CString(line)
    requires env.parseFile(CString(line)[5..]).Some?
    requires |body| == env.parseFile(CString(line)[5..]).value.size
    ensures var spec := env.parseFile(CString(line)[5..]).value;
            var relayed := sent + env.fileLine(nick, spec) + body;
            (forall rest :: Run(env, Auto(Line([]), nick, sent), line + [NEWLINE] + body + rest)
                            == Run(env, Auto(Line([]), nick, relayed), rest))
            <==> spec.size > 0
  {
    var spec := env.parseFile(CString(line)[5..]).value;
    var a, relayed := Auto(Line([]), nick, sent), sent + env.fileLine(nick, spec) + body;
    if spec.size > 0 {
      forall rest ensures Run(env, a, line + [NEWLINE] + body + rest) == Run(env, Auto(Line([]), nick, relayed), rest) {
        FileIsRelayed(env, nick, sent, line, body, rest);
      }
    } else {
      var probe := MSG + [NEWLINE];
      assert line + [NEWLINE] + body + probe == line + [NEWLINE] + probe;
      EmptyFileSilences(env, nick, sent, line, probe);
      assert relayed == sent + env.fileLine(nick, spec);
      assert probe[..4] == MSG && probe[4] == NEWLINE && probe[5..] == [];
      RunLine(env, Auto(Line([]), nick, relayed), probe, 4);
      CStringOfPadded(MSG, []);
      assert MSG + [] == MSG;
      assert |Run(env, Auto(Line([]), nick, relayed), probe).sent| > |relayed|;
    }
  }

  // ------------------------------------------------------- what each line does

  lemma Literals()
    ensures NICK == Ascii("NICK ") && MSG == Ascii("MSG ") && FILE == Ascii("FILE ")
    ensures SPACE == Ascii(" ") && [NEWLINE] == Ascii("\n")
  {
  }

  lemma LineFirst(env: Env, nick: Bytes, sent: Bytes, line: Bytes, rest: Bytes)
    requires NEWLINE !in line
    ensures var a := Auto(Line([]), nick, sent);
            Run(env, a, line + [NEWLINE] + rest) == Run(env, Command(env, a, line), rest)
  {
    var s := line + [NEWLINE] + rest;
    assert s[..|line|] == line && s[|line| + 1..] == rest;
    RunLine(env, Auto(Line([]), nick, sent), s, |line|);
  }

  predicate IsWord(s: Bytes) { NEWLINE !in s && 0 !in s }

  lemma Whole(s: Bytes)
    requires 0 !in s
    ensures CString(s) == s
  {
    CStringOfPadded(s, []);
    assert s + [] == s;
  }

  // A NICK line names the sender, by at most 31 bytes, and sends nothing.
  lemma NickNames(env: Env, nick: Bytes, sent: Bytes, name: Bytes, rest: Bytes)
    requires IsWord(name)
    ensures Run(env, Auto(Line([]), nick, sent), Ascii("NICK ") + name + Ascii("\n") + rest)
            == Run(env, Auto(Line([]), name[..Min(|name|, 31)], sent), rest)
  {
    Literals();
    var line := NICK + name;
    Whole(line);
    LineFirst(env, nick, sent, line, rest);
    assert line[..5] == NICK && line[5..] == name;
  }

  // A MSG line is sent on with the sender's name in front of the text.
  lemma MessageIsRelayed(env: Env, nick: Bytes, sent: Bytes, text: Bytes, rest: Bytes)
    requires IsWord(text)
    ensures Run(env, Auto(Line([]), nick, sent), Ascii("MSG ") + text + Ascii("\n") + rest)
            == Run(env, Auto(Line([]), nick, sent + (Ascii("MSG ") + nick + Ascii(" ") + text + Ascii("\n"))), rest)
  {
    Literals();
    var line := MSG + text;
    Whole(line);
    LineFirst(env, nick, sent, line, rest);
    assert line[..4] == MSG && line[4..] == text;
    assert !(NICK <= line) by { assert line[0] == MSG[0] && NICK[0] != MSG[0]; }
  }

  // Whoever takes a name and writes a text is heard as this name with this text.
  lemma ChatLine(env: Env, nick: Bytes, sent: Bytes, name: Bytes, text: Bytes, rest: Bytes)
    requires IsWord(name) && |name| <= 31 && IsWord(text)
    ensures Run(env, Auto(Line([]), nick, sent),
                Ascii("NICK ") + name + Ascii("\n") + (Ascii("MSG ") + text + Ascii("\n") + rest))
            == Run(env, Auto(Line([]), name, sent + (Ascii("MSG ") + name + Ascii(" ") + text + Ascii("\n"))), rest)
  {
    NickNames(env, nick, sent, name, Ascii("MSG ") + text + Ascii("\n") + rest);
    assert name[..|name|] == name;
    MessageIsRelayed(env, name, sent, text, rest);
  }

  // Any other line, and a FILE line without a name and a size, does nothing.
  lemma OtherLinesAreSilent(env: Env, nick: Bytes, sent: Bytes, line: Bytes, rest: Bytes)
    requires NEWLINE !in line
    requires var cmd := CString(line);
             && !(Ascii("NICK ") <= cmd) && !(Ascii("MSG ") <= cmd)
             && (Ascii("FILE ") <= cmd ==> env.parseFile(cmd[5..]).None?)
    ensures Run(env, Auto(Line([]), nick, sent), line + [NEWLINE] + rest) == Run(env, Auto(Line([]), nick, sent), rest)
  {
    Literals();
    LineFirst(env, nick, sent, line, rest);
  }
}
