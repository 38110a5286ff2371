// The loops of the file copier as they run: short transfers, interrupted calls
// and failures at any point, on descriptors that answer as a script says.

module FileCopyLoops {
  import opened Base
  import opened FileCopy
  import opened FileCopyInvariant
  import opened FileCopyTheorems

  // How the next call returns. A script that has run out answers with an error.
  datatype Reply = Interrupted | Error | UpTo(n: nat)

  // A descriptor open for writing.
  class Sink {
    var bytes: Bytes
    var replies: seq<Reply>
    var failed: bool

    constructor (replies: seq<Reply>)
      ensures bytes == [] && !failed
    {
      bytes, this.replies, failed := [], replies, false;
    }

    method Write(p: Bytes) returns (n: int, interrupted: bool)
      modifies this
      ensures n == -1 || (0 <= n <= |p| && bytes == old(bytes) + p[..n])
      ensures n == -1 ==> bytes == old(bytes)
      ensures failed == (old(failed) || (n == -1 && !interrupted))
      ensures (n == -1 && !interrupted) || |replies| < |old(replies)|
    {
      n, interrupted := -1, false;
      if replies == [] { failed := true; return; }
      var reply := replies[0];
      replies := replies[1..];
      match reply
      case Interrupted => interrupted := true;
      case Error => failed := true;
      case UpTo(k) =>
        n := Min(k, |p|);
        bytes := bytes + p[..n];
    }
  }

  // write_all: everything and in order, or an error after a part.
  method WriteAll(fd: Sink, buffer: Bytes) returns (rc: int)
    requires !fd.failed
    modifies fd
    ensures rc == (if fd.failed then -1 else 0)
    ensures !fd.failed ==> fd.bytes == old(fd.bytes) + buffer
    ensures fd.failed ==> old(fd.bytes) <= fd.bytes < old(fd.bytes) + buffer
  {
    var p := 0;
    while p < |buffer|
      invariant 0 <= p <= |buffer| && !fd.failed && fd.bytes == old(fd.bytes) + buffer[..p]
      decreases |buffer| - p, |fd.replies|
    {
      var n, interrupted := fd.Write(buffer[p..]);
      if n < 0 {
        if interrupted { continue; }
        return -1;
      }
      assert buffer[..p] + buffer[p..][..n] == buffer[..p + n];
      p := p + n;
    }
    assert buffer[..p] == buffer;
    rc := 0;
  }

  // A descriptor open for reading; `left` is what comes before the end of file.
  class Source {
    var left: Bytes
    var replies: seq<Reply>
    var failed: bool

    constructor (left: Bytes, replies: seq<Reply>)
      ensures this.left == left && !failed
    {
      this.left, this.replies, failed := left, replies, false;
    }

    method Read(want: nat) returns (n: int, interrupted: bool, chunk: Bytes)
      requires want > 0
      modifies this
      ensures n == -1 ==> left == old(left)
      ensures n != -1 ==> n == |chunk| <= want && old(left) == chunk + left && (n == 0 <==> old(left) == [])
      ensures n >= -1 && failed == (old(failed) || (n == -1 && !interrupted))
      ensures (n == -1 && !interrupted) || |replies| < |old(replies)|
    {
      n, interrupted, chunk := -1, false, [];
      if replies == [] { failed := true; return; }
      var reply := replies[0];
      replies := replies[1..];
      match reply
      case Interrupted => interrupted := true;
      case Error => failed := true;
      case UpTo(k) =>
        n := Min(if k == 0 then 1 else k, Min(want, |left|));
        chunk, left := left[..n], left[n..];
    }
  }

  // read_exact: the next `count` bytes, or an error or an early end.
  method ReadExact(fd: Source, count: nat) returns (rc: int, buffer: Bytes)
    requires !fd.failed
    modifies fd
    ensures rc == 0 || rc == -1
    ensures rc == 0 ==> !fd.failed && |buffer| == count && old(fd.left) == buffer + fd.left
    ensures rc == -1 ==> fd.failed || |old(fd.left)| < count
  {
    buffer := [];
    while |buffer| < count
      invariant |buffer| <= count && !fd.failed && old(fd.left) == buffer + fd.left
      decreases count - |buffer|, |fd.replies|
    {
      var n, interrupted, chunk := fd.Read(count - |buffer|);
      if n < 0 {
        if interrupted { continue; }
        return -1, buffer;
      }
      if n == 0 { return -1, buffer; }
      buffer := buffer + chunk;
    }
    rc := 0;
  }

  method WaitReady(fd: Source) returns (rc: int)
    requires !fd.failed
    modifies fd
    ensures rc == 0 || rc == -1
    ensures rc == 0 ==> !fd.failed && old(fd.left) == READY_CODE + fd.left
    ensures rc == -1 ==> fd.failed || !(READY_CODE <= old(fd.left))
  {
    var code;
    rc, code := ReadExact(fd, 4);
    if rc < 0 { return; }
    if code != READY_CODE { rc := -1; }
  }

  // parent_send_file for a file of which fstat has told `size`: nothing for an
  // unsuitable file, one whole message after one READY, or an error inside it. The
  // file may be shorter or longer by the time it is read.
  method ParentSendFile(data: Sink, ready: Source, name: Path, file: Source?, regular: bool, size: int) returns (rc: int)
    requires !data.failed && !ready.failed && file != ready
    requires file != null ==> !file.failed
    modifies data, ready, file
    ensures rc == 1 <==> file == null || !regular || size < 0 || |name| >= PATH_MAX
    ensures rc == 1 ==> data.bytes == old(data.bytes) && ready.left == old(ready.left)
    ensures rc == 0 ==>
              && file != null && size <= |old(file.left)| && !data.failed && !ready.failed
              && data.bytes == old(data.bytes) + Frame(FileItem(name, old(file.left)[..size]))
              && old(ready.left) == READY_CODE + ready.left
    ensures rc == -1 ==>
              data.failed || ready.failed || !(READY_CODE <= old(ready.left)) || file.failed || |old(file.left)| < size
    ensures rc == -1 ==>
              old(data.bytes) <= data.bytes
              <= old(data.bytes) + Encode(Message(KIND_FILE, size, name)) + old(file.left)[..Min(size, |old(file.left)|)]
    ensures rc == 1 ==> !data.failed && !ready.failed
    ensures -1 <= rc <= 1
  {
    if file == null || !regular || size < 0 || |name| >= PATH_MAX { return 1; }
    rc := WaitReady(ready);
    if rc < 0 { return; }
    rc := WriteAll(data, Encode(Message(KIND_FILE, size, name)));
    if rc < 0 { return; }
    rc := SendBody(data, file, size);
    if rc == 0 {
      Associative(old(data.bytes), Encode(Message(KIND_FILE, size, name)), old(file.left)[..size]);
    }
  }

  // The loop over the file.
  method SendBody(data: Sink, file: Source, size: nat) returns (rc: int)
    requires !data.failed && !file.failed
    modifies data, file
    ensures rc == 0 || rc == -1
    ensures rc == 0 ==>
              && !data.failed && !file.failed && size <= |old(file.left)|
              && data.bytes == old(data.bytes) + old(file.left)[..size] && file.left == old(file.left)[size..]
    ensures rc == -1 ==> data.failed || file.failed || |old(file.left)| < size
    ensures rc == -1 ==>
              old(data.bytes) <= data.bytes <= old(data.bytes) + old(file.left)[..Min(size, |old(file.left)|)]
  {
    var remaining := size;
    ghost var all, sent := file.left, 0;
    while remaining > 0
      invariant sent + remaining == size && sent <= |all| && remaining >= 0 && !data.failed && !file.failed
      invariant data.bytes == old(data.bytes) + all[..sent] && file.left == all[sent..]
      decreases remaining, |file.replies|
    {
      var n, interrupted, chunk := file.Read(if remaining > BLOCK_SIZE then BLOCK_SIZE else remaining);
      if n < 0 {
        if interrupted { continue; }
        return -1;
      }
      if n == 0 { return -1; }
      assert all[sent..] == chunk + file.left && chunk == all[sent..sent + n];
      Associative(old(data.bytes), all[..sent], chunk);
      assert all[..sent + n] == all[..sent] + chunk;
      rc := WriteAll(data, chunk);
      if rc < 0 {
        assert data.bytes <= old(data.bytes) + all[..sent + n];
        PrefixOfLonger(old(data.bytes), data.bytes, all, sent + n, Min(size, |all|));
        return;
      }
      sent := sent + n;
      remaining := remaining - n;
    }
    assert sent == size;
    rc := 0;
  }

  lemma PrefixOfLonger(before: Bytes, bytes: Bytes, all: Bytes, n: nat, m: nat)
    requires n <= m <= |all| && bytes <= before + all[..n]
    ensures bytes <= before + all[..m]
  {
    assert all[..m] == all[..n] + all[n..m];
    Associative(before, all[..n], all[n..m]);
  }

  // A file of the command line: what open and fstat say of it, and its bytes.
  datatype Listed = Listed(name: Path, file: Source?, regular: bool, size: int)

  // What the tests in front of the message let pass.
  predicate Sendable(f: Listed) { f.file != null && f.regular && f.size >= 0 && |f.name| < PATH_MAX }

  // READY codes for `n` messages.
  function Codes(n: nat): Bytes { if n == 0 then [] else Codes(n - 1) + READY_CODE }

  // The message for a file with these bytes; none for a file that is skipped.
  function MessageFor(f: Listed, bytes: Bytes): seq<Item> {
    if Sendable(f) && f.size <= |bytes| then [FileItem(f.name, bytes[..f.size])] else []
  }

  // The messages for the first `n` files.
  function Messages(files: seq<Listed>, bytes: seq<Bytes>, n: nat): seq<Item>
    requires n <= |files| == |bytes|
  {
    if n == 0 then [] else Messages(files, bytes, n - 1) + MessageFor(files[n - 1], bytes[n - 1])
  }

  // The parent has sent `items` and consumed one READY for each.
  ghost predicate Exchanged(before: Bytes, sent: Bytes, codes: Bytes, left: Bytes, items: seq<Item>) {
    sent == before + Stream(items) && codes == Codes(|items|) + left
  }

  lemma OneMoreExchange(before: Bytes, sent: Bytes, codes: Bytes, left: Bytes, left': Bytes, items: seq<Item>, it: Item)
    requires Exchanged(before, sent, codes, left, items) && left == READY_CODE + left'
    ensures Exchanged(before, sent + Frame(it), codes, left', items + [it])
  {
    assert (items + [it])[..|items|] == items;
    Associative(before, Stream(items), Frame(it));
    Associative(Codes(|items|), READY_CODE, left');
  }

  // One round of the loop of main, for a file that holds `bytes`.
  method SendOne(data: Sink, ready: Source, f: Listed, ghost bytes: Bytes, ghost before: Bytes, ghost codes: Bytes, ghost items: seq<Item>)
    returns (rc: int)
    requires !data.failed && !ready.failed && f.file != ready
    requires f.file != null ==> f.file.left == bytes && !f.file.failed
    requires Exchanged(before, data.bytes, codes, ready.left, items)
    modifies data, ready, f.file
    ensures rc >= 0 ==>
              && !data.failed && !ready.failed && (rc > 0 <==> !Sendable(f)) && (Sendable(f) ==> f.size <= |bytes|)
              && Exchanged(before, data.bytes, codes, ready.left, items + MessageFor(f, bytes))
    ensures rc < 0 ==>
              || data.failed || ready.failed || !(READY_CODE <= old(ready.left))
              || (Sendable(f) && (f.file.failed || f.size > |bytes|))
  {
    rc := ParentSendFile(data, ready, f.name, f.file, f.regular, f.size);
    if rc == 0 {
      OneMoreExchange(before, old(data.bytes), codes, old(ready.left), ready.left, items, FileItem(f.name, bytes[..f.size]));
    } else if rc > 0 {
      assert items + [] == items;
    }
  }

  // The open files are different ones, all in `pool`.
  ghost predicate Apart(files: seq<Listed>, pool: set<Source>) {
    && (forall j :: 0 <= j < |files| && files[j].file != null ==> files[j].file in pool)
    && (forall j, k :: 0 <= j < k < |files| && files[j].file != null ==> files[j].file != files[k].file)
  }

  // The files from the `i`-th on are as they were before the run.
  ghost predicate Unread(files: seq<Listed>, bytes: seq<Bytes>, pool: set<Source>, i: nat)
    reads pool
    requires Apart(files, pool) && |bytes| == |files|
  {
    forall j :: i <= j < |files| && files[j].file != null ==> files[j].file.left == bytes[j] && !files[j].file.failed
  }

  // What main has found out about the first `i` files.
  predicate Found(files: seq<Listed>, bytes: seq<Bytes>, i: nat, fileError: bool)
    requires i <= |files| == |bytes|
  {
    && (fileError <==> exists j :: 0 <= j < i && !Sendable(files[j]))
    && (forall j :: 0 <= j < i && Sendable(files[j]) ==> files[j].size <= |bytes[j]|)
  }

  ghost predicate Short(files: seq<Listed>, bytes: seq<Bytes>)
    requires |files| == |bytes|
  {
    exists j :: 0 <= j < |files| && Sendable(files[j]) && files[j].size > |bytes[j]|
  }

  // As long as codes are missing the next one is there.
  lemma CodesPresent(n: nat, m: nat, left: Bytes)
    requires n < m && Codes(m) <= Codes(n) + left
    ensures READY_CODE <= left
  {
    var all := Codes(n) + left;
    CodesBegin(n, m);
    assert all[..|Codes(n)| + 4] == Codes(n) + READY_CODE;
    assert all[|Codes(n)|..] == left;
    assert all[|Codes(n)|..|Codes(n)| + 4] == READY_CODE;
  }

  lemma {:induction false} CodesBegin(n: nat, m: nat)
    requires n < m
    ensures Codes(n) + READY_CODE <= Codes(m)
  {
    if n + 1 < m { CodesBegin(n, m - 1); }
  }

  lemma {:induction false} FewerMessages(files: seq<Listed>, bytes: seq<Bytes>, n: nat, m: nat)
    requires n <= m <= |files| == |bytes|
    ensures |Messages(files, bytes, n)| <= |Messages(files, bytes, m)|
  {
    if n < m { FewerMessages(files, bytes, n, m - 1); }
  }

  // Why the parent gives up: a failed call, a missing or wrong code, or a file that
  // became shorter.
  ghost predicate GivesUp(data: Sink, ready: Source, codes: Bytes, files: seq<Listed>, bytes: seq<Bytes>, pool: set<Source>)
    reads data, ready, pool
    requires |files| == |bytes|
  {
    || data.failed || ready.failed || (exists file <- pool :: file.failed) || Short(files, bytes)
    || !(Codes(|Messages(files, bytes, |files|)| + 1) <= codes)
  }

  // One round of the loop on file `i`: on to the next one, or the parent gives up.
  method SendNext(data: Sink, ready: Source, files: seq<Listed>, i: nat,
                  ghost bytes: seq<Bytes>, ghost pool: set<Source>, ghost before: Bytes, ghost codes: Bytes)
    returns (rc: int)
    requires !data.failed && !ready.failed && ready !in pool
    requires i < |files| == |bytes| && Apart(files, pool) && Unread(files, bytes, pool, i)
    requires Exchanged(before, data.bytes, codes, ready.left, Messages(files, bytes, i))
    modifies data, ready, pool
    ensures rc >= 0 ==>
              && !data.failed && !ready.failed && Unread(files, bytes, pool, i + 1)
              && Exchanged(before, data.bytes, codes, ready.left, Messages(files, bytes, i + 1))
              && (rc > 0 <==> !Sendable(files[i])) && (Sendable(files[i]) ==> files[i].size <= |bytes[i]|)
    ensures rc < 0 ==> GivesUp(data, ready, codes, files, bytes, pool)
  {
    rc := SendOne(data, ready, files[i], bytes[i], before, codes, Messages(files, bytes, i));
    if rc < 0 { StopsAt(data, ready, codes, old(ready.left), files, bytes, pool, i); }
  }

  // The loop of main over its files.
  method SendFiles(data: Sink, ready: Source, files: seq<Listed>, ghost bytes: seq<Bytes>, ghost pool: set<Source>)
    returns (fatal: bool, fileError: bool)
    requires !data.failed && !ready.failed && ready !in pool
    requires |bytes| == |files| && Apart(files, pool) && Unread(files, bytes, pool, 0)
    modifies data, ready, pool
    ensures !fatal ==>
              && !data.failed && !ready.failed
              && Exchanged(old(data.bytes), data.bytes, old(ready.left), ready.left, Messages(files, bytes, |files|))
              && Found(files, bytes, |files|, fileError)
    ensures fatal ==> GivesUp(data, ready, old(ready.left), files, bytes, pool)
  {
    fatal, fileError := false, false;
    ghost var before, codes := data.bytes, ready.left;
    NothingExchanged(before, codes, files, bytes);
    var i := 0;
    while i < |files|
      invariant 0 <= i <= |files| && !data.failed && !ready.failed && Unread(files, bytes, pool, i)
      invariant Exchanged(before, data.bytes, codes, ready.left, Messages(files, bytes, i))
      invariant Found(files, bytes, i, fileError)
    {
      var rc := SendNext(data, ready, files, i, bytes, pool, before, codes);
      if rc < 0 { return true, fileError; }
      FoundOne(files, bytes, i, fileError);
      if rc > 0 { fileError := true; }
      i := i + 1;
    }
  }

  lemma NothingExchanged(before: Bytes, codes: Bytes, files: seq<Listed>, bytes: seq<Bytes>)
    requires |files| == |bytes|
    ensures Exchanged(before, before, codes, codes, Messages(files, bytes, 0)) && Found(files, bytes, 0, false)
  {
  }

  lemma FoundOne(files: seq<Listed>, bytes: seq<Bytes>, i: nat, fileError: bool)
    requires i < |files| == |bytes| && Found(files, bytes, i, fileError)
    requires Sendable(files[i]) ==> files[i].size <= |bytes[i]|
    ensures Found(files, bytes, i + 1, fileError || !Sendable(files[i]))
  {
  }

  lemma StopsAt(data: Sink, ready: Source, codes: Bytes, left: Bytes, files: seq<Listed>, bytes: seq<Bytes>, pool: set<Source>, i: nat)
    requires i < |files| == |bytes| && codes == Codes(|Messages(files, bytes, i)|) + left
    requires files[i].file != null ==> files[i].file in pool
    requires || data.failed || ready.failed || !(READY_CODE <= left)
             || (Sendable(files[i]) && (files[i].file.failed || files[i].size > |bytes[i]|))
    ensures GivesUp(data, ready, codes, files, bytes, pool)
  {
    FewerMessages(files, bytes, i, |files|);
    CodeWasDue(codes, left, |Messages(files, bytes, i)|, |Messages(files, bytes, |files|)| + 1);
  }

  lemma CodeWasDue(codes: Bytes, left: Bytes, n: nat, m: nat)
    requires n < m && codes == Codes(n) + left
    ensures Codes(m) <= codes ==> READY_CODE <= left
  {
    if Codes(m) <= codes { CodesPresent(n, m, left); }
  }

  // The loop, END, and the two errors that main reports.
  method SendAll(data: Sink, ready: Source, files: seq<Listed>, ghost bytes: seq<Bytes>, ghost pool: set<Source>)
    returns (fatal: bool, fileError: bool)
    requires !data.failed && !ready.failed && ready !in pool
    requires |bytes| == |files| && Apart(files, pool) && Unread(files, bytes, pool, 0)
    modifies data, ready, pool
    ensures !fatal ==>
              && Exchanged(old(data.bytes), data.bytes, old(ready.left), ready.left, Messages(files, bytes, |files|) + [EndItem])
              && Found(files, bytes, |files|, fileError)
    ensures fatal ==> GivesUp(data, ready, old(ready.left), files, bytes, pool)
  {
    fatal, fileError := SendFiles(data, ready, files, bytes, pool);
    if fatal { return; }
    ghost var left, n := ready.left, |Messages(files, bytes, |files|)|;
    var rc := SendEnd(data, ready, old(data.bytes), old(ready.left), Messages(files, bytes, |files|));
    CodeWasDue(old(ready.left), left, n, n + 1);
    fatal := rc < 0;
  }

  // The last READY and END.
  method SendEnd(data: Sink, ready: Source, ghost before: Bytes, ghost codes: Bytes, ghost items: seq<Item>) returns (rc: int)
    requires !data.failed && !ready.failed && Exchanged(before, data.bytes, codes, ready.left, items)
    modifies data, ready
    ensures rc >= 0 ==> Exchanged(before, data.bytes, codes, ready.left, items + [EndItem])
    ensures rc < 0 ==> data.failed || ready.failed || !(READY_CODE <= old(ready.left))
  {
    rc := WaitReady(ready);
    if rc < 0 { return; }
    rc := WriteAll(data, Encode(HeaderOf(EndItem)));
    if rc < 0 { return; }
    assert data.bytes == old(data.bytes) + Frame(EndItem);
    OneMoreExchange(before, old(data.bytes), codes, old(ready.left), ready.left, items, EndItem);
  }

  // ------------------------------------------------------------------- the child

  // The file system, with its own script; `faults` counts the operations that failed.
  class Disk {
    var files: map<Path, Bytes>
    var replies: seq<Reply>
    ghost var faults: nat

    constructor (files: map<Path, Bytes>, replies: seq<Reply>)
      ensures this.files == files && faults == 0
    {
      this.files, this.replies, faults := files, replies, 0;
    }

    // How the next call returns: -1, or what it can do at most.
    method Next() returns (n: int, interrupted: bool)
      modifies this`replies
      ensures n >= -1
      ensures (n == -1 && !interrupted) || |replies| < |old(replies)|
    {
      n, interrupted := -1, false;
      if replies == [] { return; }
      var reply := replies[0];
      replies := replies[1..];
      match reply
      case Interrupted => interrupted := true;
      case Error =>
      case UpTo(k) => n := k;
    }

    // open with O_CREAT and O_TRUNC. An interrupted open, or close, is an error.
    method Create(path: Path) returns (ok: bool)
      modifies this
      ensures files == if ok then old(files)[path := []] else old(files)
      ensures faults == old(faults) + (if ok then 0 else 1)
    {
      var n, interrupted := Next();
      ok := n >= 0;
      if ok { files := files[path := []]; } else { faults := faults + 1; }
    }

    method Close() returns (ok: bool)
      modifies this`replies, this`faults
      ensures faults == old(faults) + (if ok then 0 else 1)
    {
      var n, interrupted := Next();
      ok := n >= 0;
      if !ok { faults := faults + 1; }
    }

    // write_all on an open file.
    method Append(path: Path, buffer: Bytes) returns (ok: bool)
      requires path in files
      modifies this
      ensures path in files && files == old(files)[path := files[path]]
      ensures faults == old(faults) + (if ok then 0 else 1)
      ensures ok ==> files[path] == old(files[path]) + buffer
    {
      var p := 0;
      while p < |buffer|
        invariant 0 <= p <= |buffer| && path in files && files == old(files)[path := files[path]]
        invariant files[path] == old(files[path]) + buffer[..p] && faults == old(faults)
        decreases |buffer| - p, |replies|
      {
        var k, interrupted := Next();
        if k < 0 {
          if interrupted { continue; }
          faults := faults + 1;
          return false;
        }
        var n := Min(k, |buffer| - p);
        assert buffer[..p] + buffer[p..p + n] == buffer[..p + n];
        files := files[path := files[path] + buffer[p..p + n]];
        p := p + n;
      }
      assert buffer[..p] == buffer;
      ok := true;
    }
  }

  // Nothing but the copy of `name` has changed.
  ghost predicate OnlyCopyOf(files: map<Path, Bytes>, files': map<Path, Bytes>, name: Path) {
    forall p :: p != CopyName(name) ==> (p in files' <==> p in files) && (p in files' ==> files'[p] == files[p])
  }

  // The body of one file: all of it is received whatever happens to the copy, as far
  // as the stream goes.
  method ReceiveBody(data: Source, disk: Disk, name: Path, size: nat) returns (rc: int, fileError: bool)
    requires !data.failed
    modifies data, disk
    ensures rc == 0 || rc == -1
    ensures rc == -1 <==> data.failed || |old(data.left)| < size
    ensures rc == 0 ==> data.left == old(data.left)[size..]
    ensures rc == 0 && !fileError ==>
              CopyName(name) in disk.files && disk.files[CopyName(name)] == old(data.left)[..size]
    ensures rc == 0 ==> (fileError <==> disk.faults > old(disk.faults))
    ensures disk.faults >= old(disk.faults) && OnlyCopyOf(old(disk.files), disk.files, name)
  {
    var copy := CopyName(name);
    ghost var all, done := data.left, 0;
    var isOpen := disk.Create(copy);
    fileError := !isOpen;
    var remaining: nat := size;
    while remaining > 0
      invariant !data.failed && done + remaining == size && done <= |all| && data.left == all[done..]
      invariant isOpen ==> copy in disk.files && disk.files[copy] == all[..done]
      invariant fileError == !isOpen && old(disk.faults) <= disk.faults
      invariant fileError <==> disk.faults > old(disk.faults)
      invariant OnlyCopyOf(old(disk.files), disk.files, name)
    {
      var chunk := if remaining > BLOCK_SIZE then BLOCK_SIZE else remaining;
      var buffer;
      rc, buffer := ReadExact(data, chunk);
      if rc < 0 { return; }
      assert all[done..] == buffer + data.left && buffer == all[done..done + chunk];
      assert all[..done + chunk] == all[..done] + buffer;
      assert data.left == all[done..][chunk..] == all[done + chunk..];
      if isOpen {
        isOpen := disk.Append(copy, buffer);
        fileError := !isOpen;
      }
      done := done + chunk;
      remaining := remaining - chunk;
    }
    assert done == size;
    if isOpen {
      var ok := disk.Close();
      fileError := !ok;
    }
    rc := 0;
  }

  // Message `j` is the last for its file.
  ghost predicate LastFor(items: seq<Item>, j: nat)
    requires j < |items|
  {
    items[j].FileItem? && forall k :: j < k < |items| && items[k].FileItem? ==> items[k].name != items[j].name
  }

  // Every file among the messages is copied as last sent, or failed.
  ghost predicate CopiesMade(files: map<Path, Bytes>, items: seq<Item>, failed: set<Path>) {
    forall j :: 0 <= j < |items| && LastFor(items, j) ==> items[j].name in failed || Copied(files, items[j])
  }

  lemma OneMoreCopy(files: map<Path, Bytes>, files': map<Path, Bytes>, items: seq<Item>, it: Item, failed: set<Path>, failed': set<Path>)
    requires it.FileItem? && CopiesMade(files, items, failed) && failed <= failed'
    requires it.name in failed' || Copied(files', it)
    requires OnlyCopyOf(files, files', it.name)
    ensures CopiesMade(files', items + [it], failed')
  {
    var items' := items + [it];
    forall j | 0 <= j < |items'| && LastFor(items', j) ensures items'[j].name in failed' || Copied(files', items'[j]) {
      if j < |items| {
        assert items'[|items|] == it && items'[j] == items[j];
        assert forall k :: j < k < |items| ==> items[k] == items'[k];
        assert LastFor(items, j);
        if CopyName(items[j].name) == CopyName(it.name) { CopyNameInjective(items[j].name, it.name); }
      }
    }
  }

  // A copy that was begun and cut off.
  lemma OneCopySpoiled(files: map<Path, Bytes>, files': map<Path, Bytes>, items: seq<Item>, name: Path, failed: set<Path>)
    requires CopiesMade(files, items, failed) && OnlyCopyOf(files, files', name)
    ensures CopiesMade(files', items, failed + {name})
  {
    forall j | 0 <= j < |items| && LastFor(items, j) ensures items[j].name in failed + {name} || Copied(files', items[j]) {
      if CopyName(items[j].name) == CopyName(name) { CopyNameInjective(items[j].name, name); }
    }
  }

  lemma EndAddsNothing(files: map<Path, Bytes>, items: seq<Item>, failed: set<Path>)
    requires CopiesMade(files, items, failed)
    ensures CopiesMade(files, items + [EndItem], failed)
  {
    var items' := items + [EndItem];
    forall j | 0 <= j < |items'| && LastFor(items', j) ensures items'[j].name in failed || Copied(files, items'[j]) {
      assert items'[j] == items[j];
      assert forall k :: j < k < |items| ==> items[k] == items'[k];
      assert LastFor(items, j);
    }
  }

  // The file whose copy a reading leaves incomplete.
  function CutOff(r: Reading): set<Path> { if r.cut.Some? then {r.cut.value} else {} }

  // One round of child_loop; `rc` < 0 means that the loop goes on. `r` is what the
  // stream holds for the child from here.
  method ChildRound(data: Source, ready: Sink, disk: Disk, hadError: bool)
    returns (rc: int, fileError: bool, ghost it: Item)
    requires !data.failed && !ready.failed
    modifies data, ready, disk
    ensures data.failed || ready.failed ==> rc == 1
    ensures !data.failed && !ready.failed ==>
              ready.bytes == old(ready.bytes) + READY_CODE && disk.faults >= old(disk.faults)
    ensures rc < 0 ==>
              && !data.failed && !ready.failed
              && it.FileItem? && ReadStream(old(data.left)) == Behind([it], ReadStream(data.left))
              && |data.left| < |old(data.left)|
              && OnlyCopyOf(old(disk.files), disk.files, it.name) && (fileError || Copied(disk.files, it))
              && (fileError <==> disk.faults > old(disk.faults))
    ensures rc >= 0 && !data.failed && !ready.failed ==>
              var r := ReadStream(old(data.left));
              if r.verdict.Complete? then
                && r.items == [EndItem] && rc == (if hadError then 1 else 0) && data.left == r.rest
                && disk.files == old(disk.files) && disk.faults == old(disk.faults)
              else
                && r.items == [] && rc == 1
                && (r.cut.None? ==> disk.files == old(disk.files))
                && (r.cut.Some? ==> OnlyCopyOf(old(disk.files), disk.files, r.cut.value))
  {
    fileError, it := false, EndItem;
    ghost var all := data.left;
    rc := WriteAll(ready, READY_CODE);
    if rc < 0 { rc := 1; return; }
    var buffer;
    rc, buffer := ReadExact(data, HEADER_SIZE);
    if rc < 0 { rc := 1; return; }
    assert buffer == all[..HEADER_SIZE] && data.left == all[HEADER_SIZE..];
    var m := Decode(buffer);
    if m.kind == KIND_END { return if hadError then 1 else 0, false, EndItem; }
    if m.kind != KIND_FILE { return 1, false, EndItem; }
    it := FileItem(m.fileName, if |data.left| < m.fileSize then [] else data.left[..m.fileSize]);
    rc, fileError := ReceiveBody(data, disk, m.fileName, m.fileSize);
    rc := if rc < 0 then 1 else -1;
  }

  // child_loop on any stream of bytes. It takes the messages off the stream and
  // answers each attempt to read one with READY. It returns 0 exactly when the stream
  // ends with END and no operation on a copy failed; every file received in full is
  // copied as last sent, unless one of its own operations failed or a later message
  // for it is cut off.
  method ChildLoop(data: Source, ready: Sink, disk: Disk) returns (rc: int, ghost failed: set<Path>)
    requires !data.failed && !ready.failed
    modifies data, ready, disk
    ensures rc == 0 || rc == 1
    ensures data.failed || ready.failed ==> rc == 1
    ensures !data.failed && !ready.failed ==>
              var r := ReadStream(old(data.left));
              && (rc == 0 <==> r.verdict.Complete? && disk.faults == old(disk.faults))
              && |failed| <= disk.faults - old(disk.faults)
              && ready.bytes == old(ready.bytes) + Codes(|r.items| + (if r.verdict.Complete? then 0 else 1))
              && CopiesMade(disk.files, r.items, failed + CutOff(r))
              && (r.verdict.Complete? ==> data.left == r.rest)
  {
    var hadError, fileError := false, false;
    failed := {};
    ghost var items: seq<Item> := [];
    while true
      invariant !data.failed && !ready.failed && Midway(old(data.left), data.left, old(ready.bytes), ready.bytes, items)
      invariant CopiesMade(disk.files, items, failed) && |failed| <= disk.faults - old(disk.faults)
      invariant hadError <==> disk.faults > old(disk.faults)
      decreases |data.left|
    {
      ghost var it, left, answers, files := EndItem, data.left, ready.bytes, disk.files;
      rc, fileError, it := ChildRound(data, ready, disk, hadError);
      if rc >= 0 {
        if !data.failed && !ready.failed {
          OneMoreCode(old(ready.bytes), |items|);
          Stopped(disk.files, files, ReadStream(left), items, failed);
        }
        return;
      }
      ghost var failed' := if fileError then failed + {it.name} else failed;
      OneMoreCopy(files, disk.files, items, it, failed, failed');
      OneMoreRound(old(data.left), left, data.left, old(ready.bytes), answers, items, it);
      failed, items := failed', items + [it];
      if fileError { hadError := true; }
    }
  }

  // The child has taken `items` off the stream and answered each with a READY.
  ghost predicate Midway(all: Bytes, left: Bytes, before: Bytes, answers: Bytes, items: seq<Item>) {
    ReadStream(all) == Behind(items, ReadStream(left)) && answers == before + Codes(|items|)
  }

  lemma OneMoreRound(all: Bytes, left: Bytes, left': Bytes, before: Bytes, answers: Bytes, items: seq<Item>, it: Item)
    requires Midway(all, left, before, answers, items) && ReadStream(left) == Behind([it], ReadStream(left'))
    ensures Midway(all, left', before, answers + READY_CODE, items + [it])
  {
    Associative(items, [it], ReadStream(left').items);
    OneMoreCode(before, |items|);
  }

  lemma OneMoreCode(before: Bytes, n: nat)
    ensures before + Codes(n) + READY_CODE == before + Codes(n + 1)
  {
  }

  // The loop has ended behind `items`.
  lemma Stopped(files': map<Path, Bytes>, files: map<Path, Bytes>, r: Reading, items: seq<Item>, failed: set<Path>)
    requires CopiesMade(files, items, failed)
    requires if r.verdict.Complete? then r.items == [EndItem] && r.cut.None? && files' == files
             else r.items == [] && (if r.cut.None? then files' == files else OnlyCopyOf(files, files', r.cut.value))
    ensures CopiesMade(files', Behind(items, r).items, failed + CutOff(r))
  {
    if r.verdict.Complete? {
      EndAddsNothing(files, items, failed);
    } else {
      assert items + [] == items;
      if r.cut.Some? { OneCopySpoiled(files, files', items, r.cut.value, failed); }
    }
    assert failed + {} == failed;
  }
}
