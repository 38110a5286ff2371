// What a client's commands do, told on its byte stream: each kind of line, and an
// upload as a whole.

module CommandLaws {
  import opened Base
  import opened CommandStream
  import opened EpollServer
  import opened EpollFragmentation

  lemma Literals()
    ensures SENDFILE == Ascii("sendfile") && EXIT == Ascii("exit") && RECEIVED == Ascii("received_")
    ensures OK == Ascii("OK") && ERR == Ascii("ERR") && [NEWLINE] == Ascii("\n") && BUFFER_SIZE == 1024
  {
  }

  // Eight bytes are a signed number in two's complement, least significant byte first.
  lemma SignedValue(s: Bytes)
    requires |s| == 8
    ensures FromSigned(s) == FromLittleEndian(s) - (if s[7] >= 128 then 0x1_0000_0000_0000_0000 else 0)
    ensures FromSigned(s) < 0 <==> s[7] >= 128
  {
    assert s == s[..7] + [s[7]];
    LittleEndianParts(s[..7], [s[7]]);
    LittleEndianParts([s[7]], []);
    Powers();
    LittleEndianBound(s[..7]);
  }

  lemma Powers()
    ensures Radix(7) == 0x100_0000_0000_0000 && Radix(8) == 0x1_0000_0000_0000_0000
  {
    assert Radix(2) == 256 * Radix(1) && Radix(4) == 256 * Radix(3) && Radix(6) == 256 * Radix(5);
  }

  lemma {:induction false} LittleEndianBound(s: Bytes)
    ensures FromLittleEndian(s) < Radix(|s|)
  {
    if s != [] { LittleEndianBound(s[1..]); }
  }

  // The path of the file that a sendfile line names, at most 255 bytes of it.
  function UploadPath(env: Env, line: Bytes): Bytes {
    var path := Ascii("received_") + env.fileName(CString(line));
    path[..Min(|path|, 255)]
  }

  predicate IsUpload(line: Bytes) { NEWLINE !in line && Ascii("sendfile") <= CString(line) }

  lemma LineFirst(env: Env, trace: seq<Event>, line: Bytes, rest: Bytes)
    requires NEWLINE !in line
    ensures Run(env, Auto(Idle([]), trace), line + [NEWLINE] + rest) == Run(env, Command(env, line, trace), rest)
  {
    var s := line + [NEWLINE] + rest;
    assert s[..|line|] == line && s[|line| + 1..] == rest;
    RunLine(env, trace, s, |line|);
  }

  // A line of any other kind is answered once, with the answer for that line.
  lemma AnsweredOnce(env: Env, trace: seq<Event>, line: Bytes, rest: Bytes)
    requires NEWLINE !in line && !(Ascii("sendfile") <= CString(line)) && CString(line) != Ascii("exit")
    ensures Run(env, Auto(Idle([]), trace), line + [NEWLINE] + rest)
            == Run(env, Auto(Idle([]), trace + [Response(env.respond(CString(line)))]), rest)
  {
    Literals();
    LineFirst(env, trace, line, rest);
  }

  // Nothing is answered behind an exit line.
  lemma ExitEndsAnswers(env: Env, trace: seq<Event>, line: Bytes, rest: Bytes)
    requires NEWLINE !in line && CString(line) == Ascii("exit")
    ensures Run(env, Auto(Idle([]), trace), line + [NEWLINE] + rest) == Auto(Exited, trace)
  {
    Literals();
    LineFirst(env, trace, line, rest);
    assert CString(line)[0] == Ascii("exit")[0] != SENDFILE[0];
    RunExited(env, Auto(Exited, trace), rest);
  }

  // Up to the size of the file.
  lemma SizeFirst(env: Env, trace: seq<Event>, line: Bytes, size: Bytes, rest: Bytes)
    requires IsUpload(line) && |size| == 8
    ensures Run(env, Auto(Idle([]), trace), line + [NEWLINE] + size + rest)
            == Run(env, SizeKnown(env, env.fileName(CString(line)), size, trace), rest)
    ensures FullPath(env.fileName(CString(line))) == UploadPath(env, line)
  {
    Literals();
    assert line + [NEWLINE] + size + rest == line + [NEWLINE] + (size + rest);
    LineFirst(env, trace, line, size + rest);
    assert (size + rest)[..8] == size && (size + rest)[8..] == rest && [] + size == size;
    RunSize(env, env.fileName(CString(line)), [], trace, size + rest);
  }

  // A file of any size is written byte by byte, closed and acknowledged, and the next
  // byte begins a new command.
  lemma Upload(env: Env, trace: seq<Event>, line: Bytes, body: Bytes, rest: Bytes)
    requires IsUpload(line) && env.canOpen(UploadPath(env, line)) && 0 < |body| < 0x8000_0000_0000_0000
    ensures Run(env, Auto(Idle([]), trace), line + [NEWLINE] + ToLittleEndian(|body|, 8) + body + rest)
            == Run(env, Auto(Idle([]), trace + [Open(UploadPath(env, line))] + FileBytes(body) + [Close, Response(Ascii("OK"))]), rest)
  {
    Literals();
    Powers();
    var size, begun := ToLittleEndian(|body|, 8), trace + [Open(UploadPath(env, line))];
    LittleEndianRoundTrip(|body|, 8);
    assert line + [NEWLINE] + size + body + rest == line + [NEWLINE] + size + (body + rest);
    SizeFirst(env, trace, line, size, body + rest);
    RunConcat(env, Auto(Data(|body|, 0), begun), body, rest);
    RunData(env, |body|, 0, begun, body);
  }

  // A size of zero or less makes an empty file, acknowledged when the next byte comes.
  lemma EmptyUpload(env: Env, trace: seq<Event>, line: Bytes, size: Bytes, rest: Bytes)
    requires IsUpload(line) && env.canOpen(UploadPath(env, line)) && |size| == 8 && FromSigned(size) <= 0
    ensures Run(env, Auto(Idle([]), trace), line + [NEWLINE] + size + rest)
            == if rest == [] then Auto(Data(FromSigned(size), 0), trace + [Open(UploadPath(env, line))])
               else Run(env, Auto(Idle([]), trace + [Open(UploadPath(env, line)), Close, Response(Ascii("OK"))]), rest)
  {
    Literals();
    SizeFirst(env, trace, line, size, rest);
    if rest != [] {
      var begun := trace + [Open(UploadPath(env, line))];
      RunAfterComplete(env, FromSigned(size), 0, begun, rest);
      assert begun + [Close, Response(OK)] == trace + [Open(UploadPath(env, line)), Close, Response(OK)];
    }
  }

  // A file that cannot be created is refused once, whatever its size; what follows is
  // read as commands.
  lemma RefusedUpload(env: Env, trace: seq<Event>, line: Bytes, size: Bytes, rest: Bytes)
    requires IsUpload(line) && !env.canOpen(UploadPath(env, line)) && |size| == 8
    ensures Run(env, Auto(Idle([]), trace), line + [NEWLINE] + size + rest)
            == Run(env, Auto(Idle([]), trace + [Response(Ascii("ERR"))]), rest)
  {
    Literals();
    SizeFirst(env, trace, line, size, rest);
  }

  // The server's part in an upload, whatever reads it arrives in.
  lemma UploadInAnyReads(env: Env, chunks: seq<Bytes>, line: Bytes, body: Bytes)
    requires IsUpload(line) && env.canOpen(UploadPath(env, line)) && 0 < |body| < 0x8000_0000_0000_0000
    requires Flatten(chunks) == line + [NEWLINE] + ToLittleEndian(|body|, 8) + body
    ensures Feed(env, FRESH, chunks)
            == Session(Auto(Idle([]), [Open(UploadPath(env, line))] + FileBytes(body) + [Close, Response(Ascii("OK"))]), [])
  {
    Upload(env, [], line, body, []);
    assert Flatten(chunks) + [] == Flatten(chunks);
    assert [] + [Open(UploadPath(env, line))] == [Open(UploadPath(env, line))];
    FeedIsRun(env, chunks);
  }
}
