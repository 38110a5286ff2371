# Verification of the systems exercises

Dafny models of nine programs of the repository, with proofs of what each of them is
for. Every module models one program or one layer of it; nothing here replaces the C
code, and each proof is about the model.

- **File copier** (`FileCopy`, `FileCopyInvariant`, `FileCopyTheorems`,
  `FileCopyCauses`, `FileCopyLiveness`, `FileCopyLoops`): a parent and a child copy
  files over two byte pipes with READY, FILE and END messages. `FileCopy` is a step
  machine with one step per system call of either process; a schedule chooses the
  process, how many bytes the call transfers, and whether it fails. The proofs cover
  correctness of the copies, the causes of every missing one, framing, the handshake,
  freedom from deadlock and termination over all schedules. `FileCopyLoops` holds the C
  loops themselves, with interrupted calls, on descriptors that answer as a script says
  and on arbitrary input streams.
- **Command server** (`CommandStream`, `CommandLaws`, `EpollServer`,
  `EpollFragmentation`, `EpollReplay`): the per-client parser with its buffer of leftover
  bytes, refined against an automaton that reads one byte at a time, and what that
  automaton does with each kind of line and with an upload.
- **Chat relay** (`RelayStream`, `RelayServer`): the same question for what the other
  clients receive.
- **Shared block list** (`BlockList`, `BlockProtocol`): the bump allocator and linked
  list inside an array of ints, and the producer and consumers as a state machine with
  one step per critical section. `module1/task5/main_posix.c` runs the same algorithm
  under a POSIX semaphore.
- **AVL phone book** (`NameOrder`, `AvlTree`, `AvlDuplicates`, `AvlNullPointer`,
  `AvlHeap`): insertion on tree values, what equal names do to height, balance and
  pointers, and the pointer program as a refinement.
- **Echo server** (`Checksum`, `ClientTable`): the Internet checksum against RFC 1071
  and RFC 791, and the table that numbers messages.
- **Broker** (`PubSub`), **sorted phone book** (`Phonebook`), **priority queue**
  (`BucketQueue`): an array of rows with an array of topics each, edited in place, that
  behaves as a relation; a doubly linked list that behaves as an ordered sequence; 256
  linked lists that behave as one stable queue.

`Base` holds bytes, little-endian numbers and C strings. Pointer structures are classes
with a ghost list or shape of their nodes; the C loops are loops with invariants.

## Where the code does not do what one expects

- Command server, `module3/task15/server_epoll.c:104-107`: after `exit` the function returns without saving how
  far it came, so the commands before it run again at the next read.
  `EpollFragmentation.ExitReplays` gives two such reads,
  `EpollReplay.AgreesUnlessReplayed` the exact condition.
- Chat relay, `module1/task7/server.c:108-123`: a FILE line with size 0 is accepted and then blocks the
  parser of this sender for good (`RelayStream.EmptyFileSilences`). The client program
  does not send such a line; `RelayStream.ParsingResumes` says that this is the only case.
- AVL tree, `module2/4.3/main.c:93-111`: the comparisons are strict, so an equal name skips the
  rotation. `AvlDuplicates.BalancedUnlessUnlucky` says exactly when a balanced tree stays
  balanced. Once it is not, a later insertion may follow a null pointer:
  `AvlNullPointer.CrashesExactly` says exactly when.
- Priority queue, `module2/4.2/priority_queue.c:59-68`: with a negative bound and an empty queue the loop runs on
  below the first bucket; `DequeueAtLeast` covers all other calls.
- File copier, `module1/task1/filecopy.c:128-133`: a name read from the pipe has at most PATH_MAX - 1 bytes,
  so the branch for a destination path that is too long is never taken; the model has no
  step for it. A failing close of a source file is reported but not counted as an error
  (`module1/task1/filecopy.c:263-264`), as in the code.
- Phone book: a negative index selects the first contact (`module2/4.1/phonebook_new.c:119-128`).

## Assumptions

- File copier: source files do not change during the run, no listed file is another's
  `.copy` name, names contain no NUL, sizes fit 64 bits. A call on a pipe transfers any
  amount of at least one byte that fits; pipe capacities are any numbers of at least 1.
  Interrupted calls are repeated by the code and are steps of `FileCopyLoops` only.
- Command server: `sscanf`, `handle_arithmetic` and whether `fopen` succeeds are fixed
  functions of the line or the path; file names fit their buffer. A line with its newline
  fits in the 1023 usable bytes: a longer one fills the buffer, the next `recv` is asked
  for 0 bytes and the client is dropped.
- Chat relay: a send transfers everything or fails, relayed lines fit their buffer, and
  the parsing and printing of the FILE line are fixed functions.
- Block list: a critical section is one step, the region size is any number of words that
  holds the header and two more, and the header is written before any consumer looks.
- AVL tree: `AvlHeap.Book.Add` takes every contact but those that make the code follow a
  null pointer.
- Echo server: the host is little-endian; message numbers stay below 2^31.
- Broker: the result of `sscanf` is the command; running out of memory ends the program.
- Priority queue: priorities are 0 to 255, the range of the bucket array.

## Model

| member | source | states |
|---|---|---|
| `FileCopyTheorems.SuccessIffNoFault` | module1/task1/filecopy.c:438-485 | When both processes have ended, the exit status is success if and only if no system call failed and no file was skipped |
| `FileCopyTheorems.CleanRun` | module1/task1/filecopy.c:180-267 | With suitable files and no failing call no error branch is ever taken: no false READY, no early end of file, no unknown message type |
| `FileCopyTheorems.OneReadyOutstanding` | module1/task1/filecopy.c:98-110 | While both ends are open, the READY bytes sent and not yet consumed are exactly four times (messages received in full + 1 - messages begun): never more than one code outstanding, also across skipped files |
| `FileCopyTheorems.ParseIsUnique` | module1/task1/filecopy.c:107-166 | A stream of messages ending in END has exactly one reading: parsing it by length gives back the messages |
| `FileCopyTheorems.ChildParsesHistory` | module1/task1/filecopy.c:107-166 | When the child has received END, the messages it took apart piecewise are the reference parse of everything ever written to the pipe |
| `FileCopyLiveness.NotBothBlocked` | module1/task1/filecopy.c:98-110 | With pipes of any capacity of at least 1, parent and child are never both blocked; neither waits for a process that has closed its end |
| `FileCopyLiveness.DeadlockFree` | module1/task1/filecopy.c:438-475 | From every reachable state that is not final some process can return from its call without a failure, unless the other end is closed |
| `FileCopyLiveness.RunsAreBounded` | module1/task1/filecopy.c:33-69 | Every run is finite: its number of calls is bounded by a function of the file sizes |
| `FileCopyLiveness.MaximalRunsSucceed` | module1/task1/filecopy.c:438-485 | A run that cannot go on is final; if nothing failed and all files are suitable it ended with success and all copies exist |
| `FileCopyLiveness.SuccessIsReachable` | module1/task1/filecopy.c:438-485 | With suitable files every beginning of a run in which nothing failed can be completed, without a failure, to one that exits with success |
| `FileCopyLiveness.ParentCostDrops` | module1/task1/filecopy.c:213-260 | Each call of the parent pays for itself in the termination measure, bytes put in the pipe included |
| `FileCopyLiveness.ChildCostDrops` | module1/task1/filecopy.c:98-175 | Each call of the child lowers the measure; the bytes it takes from the pipe pay for the writes they lead to |
| `FileCopy.DecodeEncode` | module1/task1/filecopy.c:27-31 | A header survives the trip through memory: little-endian fields, padding, zero-filled name, forced final NUL |
| `FileCopy.HeaderRoundTrip` | module1/task1/filecopy.c:219-223 | What the parent fills in is what the child reads, for files and for END |
| `FileCopyInvariant.RunInv` | module1/task1/filecopy.c:93-475 | The invariant that ties both processes, both pipes and the file system together holds in every reachable state |
| `FileCopyInvariant.ParentKeeps` | module1/task1/filecopy.c:180-267 | Every call of the parent keeps the invariant |
| `FileCopyInvariant.ChildKeeps` | module1/task1/filecopy.c:93-177 | Every call of the child keeps the invariant |
| `FileCopyInvariant.OpeningKeeps` | module1/task1/filecopy.c:182-211 | Skipping a bad file or accepting a good one, before any READY is read, keeps the invariant |
| `FileCopyInvariant.ReadyIsComplete` | module1/task1/filecopy.c:79-91 | Four bytes read from the READY pipe are one READY code with nothing behind it, and the data pipe is then empty |
| `FileCopyInvariant.AwaitKeeps` | module1/task1/filecopy.c:213-217 | Piecewise reception of READY, its failure, and the start of the next message keep the invariant |
| `FileCopyInvariant.SendKeeps` | module1/task1/filecopy.c:225-229 | A short or failing write of a header or block keeps the invariant |
| `FileCopyInvariant.ReadIsNext` | module1/task1/filecopy.c:231-254 | The bytes read from the file are the next bytes of the message being sent |
| `FileCopyInvariant.WaitChildKeeps` | module1/task1/filecopy.c:465-475 | Collecting the exit status keeps the invariant |
| `FileCopyInvariant.HeaderIsDecoded` | module1/task1/filecopy.c:107-120 | A header that arrived in pieces decodes to the header of the message being sent |
| `FileCopyInvariant.CreateKeeps` | module1/task1/filecopy.c:122-141 | Creating the copy, or failing to, keeps the invariant; other copies are untouched |
| `FileCopyInvariant.RecvBodyKeeps` | module1/task1/filecopy.c:143-154 | Receiving a block piecewise keeps the invariant, with or without an open copy |
| `FileCopyInvariant.WriteCopyKeeps` | module1/task1/filecopy.c:156-166 | A short or failing write of the copy keeps the invariant; after a failure the body is still drained |
| `FileCopyInvariant.CloseCopyKeeps` | module1/task1/filecopy.c:168-176 | Closing the copy, or failing to, completes the message and keeps the invariant |
| `FileCopyInvariant.BodyIsWhole` | module1/task1/filecopy.c:143-166 | When all announced bytes are received the message taken apart is the message sent |
| `FileCopyLoops.WriteAll` | module1/task1/filecopy.c:33-48 | Either all bytes are written in order, or an error is reported after a proper prefix; interrupted calls are repeated |
| `FileCopyLoops.ReadExact` | module1/task1/filecopy.c:50-69 | Exactly `count` bytes are taken in order, or -1 is returned because a read failed or the input was too short |
| `FileCopyLoops.WaitReady` | module1/task1/filecopy.c:79-91 | Success consumes exactly one READY code; failure means an error or different bytes |
| `FileCopyLoops.Disk.Append` | module1/task1/filecopy.c:156-163 | `write_all` on the copy: all bytes appended, or a fault; no other file changes |
| `EpollServer.Client.ProcessClient` | module3/task15/server_epoll.c:78-178 | One pass over the buffer refines the byte-at-a-time automaton; the loop ends although line 156 consumes no byte |
| `EpollServer.Client.ProcessIdle` | module3/task15/server_epoll.c:85-121 | A complete line is executed as the automaton does; an incomplete one is kept at the front of the buffer |
| `EpollServer.Client.HandleLine` | module3/task15/server_epoll.c:97-112 | sendfile, exit and arithmetic lines have the effect of the automaton; exit leaves the trace and the state as they were |
| `EpollServer.Client.ProcessSize` | module3/task15/server_epoll.c:122-148 | The eight size bytes are collected over any number of reads |
| `EpollServer.Client.OpenOutput` | module3/task15/server_epoll.c:131-141 | A created file starts the transfer, a failed fopen answers ERR and returns to commands |
| `EpollServer.Client.ProcessData` | module3/task15/server_epoll.c:149-171 | File bytes are written up to the announced size; a file already complete consumes nothing and goes back to commands |
| `EpollServer.Client.Recv` | module3/task15/server_epoll.c:258-269 | A read is appended to the leftover bytes and processed; a count of 0 disconnects |
| `EpollServer.Serve` | module3/task15/server_epoll.c:210-271 | Any number of reads leaves the session that the reads determine as a function |
| `EpollFragmentation.FeedIsRun` | module3/task15/server_epoll.c:78-178 | Without an exit line the session after any reads is the automaton after the concatenated stream |
| `EpollFragmentation.FragmentationIndependent` | module3/task15/server_epoll.c:78-178 | Two ways of cutting the same stream without exit give the same state, replies and file bytes |
| `EpollFragmentation.ExitReplays` | module3/task15/server_epoll.c:104-107 | A stream cut right behind an exit line has its earlier effects twice: the return at line 107 leaves the processed commands in the buffer |
| `EpollFragmentation.FeedHarmless` | module3/task15/server_epoll.c:78-178 | For streams of any length: if every exit line that is followed by bytes is preceded by nothing observable, any cutting has the effect of the automaton |
| `CommandStream.RunConcat` | module3/task15/server_epoll.c:78-178 | The automaton over two reads is the automaton over their concatenation |
| `CommandStream.RunLine` | module3/task15/server_epoll.c:85-112 | Taking a line at a newline in one step is taking it byte by byte |
| `CommandStream.RunSize` | module3/task15/server_epoll.c:122-141 | Taking the missing size bytes at once is taking them one by one |
| `CommandStream.RunData` | module3/task15/server_epoll.c:149-171 | Writing a block of file bytes is writing them one by one, with the end of the file at the same byte |
| `RelayServer.FeedIsRun` | module1/task7/server.c:57-126 | For every stream and every cutting the session is the automaton after the concatenated stream |
| `RelayServer.Server.ProcessClient` | module1/task7/server.c:57-69 | A read is appended and processed; an empty read removes the client and sends nothing |
| `RelayServer.Server.ProcessLine` | module1/task7/server.c:72-107 | A line is executed and removed from the front of the buffer |
| `RelayServer.Server.HandleLine` | module1/task7/server.c:78-99 | NICK, MSG and FILE lines have the effect and the broadcast of the automaton; other lines have none |
| `RelayServer.Server.ProcessFile` | module1/task7/server.c:108-120 | At most the missing bytes are relayed and removed; the last one ends the transfer |
| `RelayStream.FileIsRelayed` | module1/task7/server.c:86-120 | Behind a FILE line exactly the announced number of bytes is relayed in order before line parsing resumes |
| `RelayStream.EmptyFileSilences` | module1/task7/server.c:108-123 | A FILE line announcing 0 bytes, which the code accepts, stops all further relaying for this sender |
| `RelayStream.RunFile` | module1/task7/server.c:108-120 | Relaying a block of file bytes is relaying them one by one |
| `RelayStream.RunLine` | module1/task7/server.c:72-107 | Taking a line at a newline in one step is taking it byte by byte |
| `BlockProtocol.NothingAfterShutdown` | module1/task4/task4.c:235-264 | After the first departure nothing is produced or claimed any more |
| `BlockProtocol.GenerationEnds` | module1/task4/task4.c:110-153 | A bounded number of producer sections sets producer_finished |
| `BlockProtocol.RunInv` | module1/task4/task4.c:110-264 | The claimed sets are a prefix of the blocks and the space bounds hold in every reachable state |
| `BlockList.ChainIsLayout` | module1/task4/task4.c:161-169 | The walk from first_block_offset visits exactly the written blocks at increasing offsets between header and free_offset and ends in 0; before the first block it visits only the zero-filled pair |
| `BlockList.RepAppend` | module1/task4/task4.c:127-143 | Writing and linking a block turns a layout of n blocks into one of n+1 |
| `BlockList.RepTake` | module1/task4/task4.c:242-242 | Zeroing the count of a block marks that block as taken and changes no other |
| `BlockList.Region.constructor` | module1/task4/task4.c:101-104 | A fresh region is an empty layout |
| `BlockList.Region.Produce` | module1/task4/task4.c:113-143 | The set is appended exactly when it fits; otherwise memory is unchanged |
| `BlockList.Region.Write` | module1/task4/task4.c:127-133 | The block is written at the free offset and nothing else changes |
| `BlockList.Region.Link` | module1/task4/task4.c:135-143 | The written block becomes the last of the list, from the previous block or from the header |
| `BlockList.Region.Walk` | module1/task4/task4.c:225-233 | The walk ends at the first block not taken, or at 0, without leaving the region |
| `BlockList.Region.AllDone` | module1/task4/task4.c:158-169 | The final check succeeds exactly when every block is taken |
| `BlockList.Region.Consume` | module1/task4/task4.c:223-244 | The first pending block is claimed with its original numbers, or nothing changes when there is none |
| `BlockList.Region.Claim` | module1/task4/task4.c:236-242 | The numbers are copied out before the count is zeroed |
| `BlockList.Region.Finish` | module1/task4/task4.c:151-153 | Setting the flag leaves the list alone |
| `BlockList.MinMax` | module1/task4/task4.c:246-250 | The reported values are members of the set and bound it |
| `AvlTree.InsertFresh` | module2/4.3/main.c:80-114 | Inserting a name the tree does not hold follows no null pointer, keeps order, exact heights and balance, raises the height by at most 1, and is insertion into the sorted sequence |
| `AvlTree.RebalanceLeft` | module2/4.3/main.c:89-105 | After an insertion on the left, comparing the new key with the child picks the rotation that restores the balance |
| `AvlTree.RebalanceRight` | module2/4.3/main.c:89-111 | The mirror case on the right |
| `AvlTree.SingleRight` | module2/4.3/main.c:48-59 | A single rotation repairs an outer overweight on the left and ends at the height before the insertion |
| `AvlTree.DoubleRight` | module2/4.3/main.c:101-105 | A double rotation repairs an inner overweight on the left |
| `AvlTree.SingleLeft` | module2/4.3/main.c:61-72 | A single rotation repairs an outer overweight on the right |
| `AvlTree.DoubleLeft` | module2/4.3/main.c:107-111 | A double rotation repairs an inner overweight on the right |
| `AvlTree.RebalanceInOrder` | module2/4.3/main.c:93-113 | No rotation changes the order of the contacts |
| `AvlTree.InsertInOrder` | module2/4.3/main.c:80-114 | On any ordered tree, duplicates included, insertion that follows no null pointer is insertion into the sorted sequence |
| `AvlTree.BookOfDistinct` | module2/4.3/main.c:151-174 | Any sequence of distinct contacts builds an AVL tree that holds exactly them |
| `AvlTree.HeightIsLogarithmic` | module2/4.3/main.c:80-114 | A balanced tree of height h holds at least fib(h+2)-1 contacts |
| `AvlTree.BookHeight` | module2/4.3/main.c:80-114 | So does every tree built by distinct insertions |
| `AvlTree.SearchIsCorrect` | module2/4.3/main.c:118-129 | Search by last name alone finds a match exactly when there is one, although the order is on both names |
| `AvlHeap.RotateRight` | module2/4.3/main.c:48-59 | The pointer rotation refines the rotation of the tree value; no node is lost or shared |
| `AvlHeap.RotateLeft` | module2/4.3/main.c:61-72 | The mirror rotation likewise |
| `AvlHeap.Rebalance` | module2/4.3/main.c:91-113 | The four cases on nodes refine those on the value |
| `AvlHeap.Insert` | module2/4.3/main.c:80-114 | The recursive insertion into nodes refines insertion into the value, adds only fresh nodes and keeps the structure a tree |
| `AvlHeap.Search` | module2/4.3/main.c:118-129 | The search over nodes finds what the search over the value finds |
| `AvlHeap.Book.Find` | module2/4.3/main.c:179-191 | A contact with the last name is found exactly when one was added |
| `NameOrder.CompareTransitive` | module2/4.3/main.c:39-44 | Comparing last then first names is a transitive order |
| `NameOrder.CompareSwap` | module2/4.3/main.c:39-44 | Exchanging the arguments changes the sign |
| `NameOrder.InsertSortedKeeps` | module2/4.3/main.c:80-87 | Insertion behind all equal names keeps a sequence sorted |
| `Checksum.ByteOrderIndependent` | module2/cross1/server.c:46-58 | RFC 1071 section 2 (B): for up to 131074 bytes, odd lengths included, the little-endian sum stored little-endian gives the two bytes of the big-endian definition |
| `Checksum.StoredChecksumVerifies` | module2/cross1/server.c:164-174 | Writing the checksum into its zeroed field at an even offset makes the checksum of the whole 0 |
| `Checksum.FoldIsComplement` | module2/cross1/server.c:55-57 | Two folds of any 32-bit sum give the exact one's-complement value |
| `Checksum.OnesComplementSwaps` | module2/cross1/server.c:46-57 | The big-endian one's-complement sum is the little-endian one with its bytes exchanged |
| `Checksum.SumFits` | module2/cross1/server.c:47-54 | Up to 131074 bytes the 32-bit sum cannot wrap |
| `Checksum.StoreAddsWord` | module2/cross1/server.c:174-174 | Storing a value into a zero field adds it to the sum |
| `Checksum.SumWords` | module2/cross1/server.c:47-54 | The loop computes the word sum modulo 2^32 for every length |
| `Checksum.Compute` | module2/cross1/server.c:46-58 | The whole function: RFC 1071 within the bound, and the folded wrapped sum beyond it |
| `ClientTable.Server.ProcessMessage` | module2/cross1/server.c:144-159 | After any packet history each reply carries the number of messages of that endpoint since its last CLOSE; CLOSE gets no reply; the table has one row for each endpoint with such messages and no other |
| `ClientTable.Server.CountMessage` | module2/cross1/server.c:149-155 | A first message adds a row with 1, a later one increments the row of its sender only |
| `ClientTable.Server.FindClient` | module2/cross1/server.c:71-79 | The entry of the endpoint is found exactly when there is one |
| `ClientTable.Server.AddClient` | module2/cross1/server.c:60-69 | A new entry with counter 1 goes in front of the unchanged list |
| `ClientTable.Server.RemoveClient` | module2/cross1/server.c:81-94 | The first entry of the endpoint is unlinked, wherever it stands, and the rest keeps its order |
| `ClientTable.RemoveRowAt` | module2/cross1/server.c:81-94 | Removal takes out exactly the first matching row |
| `ClientTable.CloseKeeps` | module2/cross1/server.c:144-147 | After CLOSE the table again counts messages since the last CLOSE of every endpoint |
| `ClientTable.CountedNext` | module2/cross1/server.c:154-154 | Incrementing one row matches one more message in the history |
| `ClientTable.CountedFirst` | module2/cross1/server.c:150-152 | A new row matches the first message since the last CLOSE |
| `PubSub.Broker.ProcessMessage` | module1/task2/broker_pubsub.c:143-167 | Each command acts on the relation of processes and topics as adding or removing one pair; a send reaches exactly the subscribers; the table stays without duplicate processes, duplicate topics or empty rows |
| `PubSub.Broker.ForwardMessage` | module1/task2/broker_pubsub.c:120-141 | One delivery of the cut text to each process subscribed to the topic, and none to others |
| `PubSub.Broker.FindSubscriber` | module1/task2/broker_pubsub.c:58-64 | The row of the process, or -1 when there is none |
| `PubSub.Broker.AddPublisher` | module1/task2/broker_pubsub.c:48-56 | The publisher is appended unless it is listed |
| `Phonebook.Book.Add` | module2/4.1/phonebook_new.c:65-95 | The list stays ordered and doubly linked, and gains exactly the new record at its place |
| `Phonebook.Book.GetByIndex` | module2/4.1/phonebook_new.c:119-128 | The node at the index, null past the end, the first one for a negative index |
| `Phonebook.Book.FindPlace` | module2/4.1/phonebook_new.c:83-85 | The walk stops at the insertion position of the sequence |
| `Phonebook.Book.LinkBehind` | module2/4.1/phonebook_new.c:87-92 | next and prev stay inverse when a node is linked in |
| `Phonebook.Book.Unlink` | module2/4.1/phonebook_new.c:174-180 | next and prev stay inverse when a node is taken out at either end or inside |
| `Phonebook.InsertRecordKeepsOrder` | module2/4.1/phonebook_new.c:65-95 | Insertion keeps the order, adds one record and drops none |
| `Phonebook.DeleteKeepsOrder` | module2/4.1/phonebook_new.c:160-185 | Deletion keeps the order and drops exactly one record |
| `BucketQueue.PriorityQueue.Enqueue` | module2/4.2/priority_queue.c:24-37 | The entry becomes the last of the one queue in order of arrival |
| `BucketQueue.PriorityQueue.DequeueHighest` | module2/4.2/priority_queue.c:39-48 | The oldest entry of the greatest priority; null exactly when the queue is empty |
| `BucketQueue.PriorityQueue.DequeueByPriority` | module2/4.2/priority_queue.c:50-57 | The oldest entry of the priority; null exactly when there is none |
| `BucketQueue.FirstInFirstOut` | module2/4.2/priority_queue.c:24-68 | Over any run what was put in is what was taken out plus what remains, and each priority leaves in order of arrival |
| `BucketQueue.FilterRemove` | module2/4.2/priority_queue.c:50-57 | Taking from one priority leaves the sequences of the others unchanged |
| `BucketQueue.RemoveConserves` | module2/4.2/priority_queue.c:50-57 | Exactly the returned entry disappears |
| `AvlDuplicates.BalancedUnlessUnlucky` | module2/4.3/main.c:80-113 | For every AVL tree, whatever it holds already, and every contact: insertion follows no null pointer and keeps order and heights, raises the height if and only if every node on the path is level or leans to a holder of the same contact, and keeps the balance if and only if no such leaning node is left unrepaired |
| `AvlDuplicates.InsertOutcome` | module2/4.3/main.c:80-113 | The same without any order of the contacts: height and balance of the result are foreseen from the balance of the tree and its holders of the contact |
| `AvlDuplicates.FreshIsNeverUnlucky` | module2/4.3/main.c:93-111 | A name the tree does not hold never spoils the balance |
| `AvlDuplicates.ThreeEqualNamesUnbalance` | module2/4.3/main.c:93-111 | The smallest example: a name entered three times leaves the tree out of balance |
| `AvlNullPointer.CrashesExactly` | module2/4.3/main.c:80-114 | For every ordered tree with exact heights, in balance or not: insertion follows a null pointer if and only if some node on the path has, on the other side, a child with a different contact, two higher than the new side, and without inner subtree; otherwise heights, order and the top of the result are as foreseen |
| `AvlNullPointer.BalancedPathIsSafe` | module2/4.3/main.c:93-111 | With no node on the path out of balance insertion never follows a null pointer and raises the height by at most 1, equal names included |
| `AvlNullPointer.BookUntilCrash` | module2/4.3/main.c:151-174 | Any names entered in any order: up to the first crash the book is ordered, has exact heights and holds exactly the names entered, and the next name crashes if and only if the condition holds |
| `AvlNullPointer.EqualNamesCrash` | module2/4.3/main.c:80-111 | Two such books: a name entered four times, or three times after a smaller one, and then a name smaller than all |
| `AvlHeap.Book.Add` | module2/4.3/main.c:165-174 | Any contact whose insertion follows no null pointer is entered in memory: order and heights are kept, and the balance exactly when the contact is not unlucky |
| `FileCopyTheorems.FramingSurvives` | module1/task1/filecopy.c:122-166 | At every moment the data pipe has received every message begun but the last in full, and a prefix of the last; the child has taken apart a prefix of the messages, all of them fully written; bodies are the source files |
| `FileCopyTheorems.ParseFirst` | module1/task1/filecopy.c:107-120 | One message is taken off a stream whatever follows it |
| `FileCopyLoops.ParentSendFile` | module1/task1/filecopy.c:180-267 | 1 exactly for an unsuitable file, with nothing sent or consumed; 0 after one READY and one whole message of the announced size; -1 after at most a prefix of it, because a call failed, READY was missing or the file became shorter |
| `FileCopyLoops.SendBody` | module1/task1/filecopy.c:231-261 | The loop over the file sends exactly the announced bytes, or stops inside them with an error, also when the file ends early |
| `FileCopyLoops.SendOne` | module1/task1/filecopy.c:440-448 | One round of the loop of main adds the message of a suitable file to what was sent, and its READY to what was consumed |
| `FileCopyLoops.SendAll` | module1/task1/filecopy.c:438-463 | Without a fatal error the messages of all suitable files and END are sent, one READY is consumed for each, and the file error is set exactly when a file was skipped; a fatal error has a cause |
| `FileCopyLoops.ReceiveBody` | module1/task1/filecopy.c:122-172 | All `size` bytes are consumed whatever happens to the copy; -1 exactly when a read fails or the stream ends first; without a file error the copy holds the bytes; a file error is reported exactly when an operation on the copy failed; no other file changes |
| `FileCopyLoops.ChildRound` | module1/task1/filecopy.c:98-176 | One round of the child on any stream: READY, then a file is taken off the stream and copied or reported, or END, an unknown type or the end of the stream stops the loop with the exit code |
| `FileCopyLoops.ChildLoop` | module1/task1/filecopy.c:93-177 | On any stream of bytes: one READY per message and attempt, exit code 0 exactly when the stream holds messages up to END and no operation on a copy failed; every file received in full is copied as last sent unless reported or cut off |
| `EpollFragmentation.ExactlyWhenHarmless` | module3/task15/server_epoll.c:104-107 | For streams that fit the buffer the condition becomes simpler: all realizable cuttings agree with the automaton if and only if every exit line followed by bytes is preceded by nothing observable |
| `EpollReplay.AgreesUnlessReplayed` | module3/task15/server_epoll.c:78-178 | For streams of any length: at any time, whatever reads the bytes arrive in, the server has done what the automaton does, if and only if no read can leave an exit line in the buffer behind bytes that have an effect when they are read again |
| `EpollReplay.AfterExit` | module3/task15/server_epoll.c:104-107 | After the read with the exit line the server goes on like a fresh connection that received everything left in the buffer first |
| `RelayServer.Server.Serve` | module1/task7/server.c:57-126 | Over a whole connection every other client that stays receives exactly what the automaton sends for the concatenated stream, a client removed after a failed send a prefix of it, the sender and empty slots nothing |
| `RelayServer.Server.ProcessBuffer` | module1/task7/server.c:71-125 | The loop over the buffer refines the automaton, and what it broadcasts reaches each other client |
| `RelayServer.Server.BroadcastMessage` | module1/task7/server.c:46-55 | The message is appended to the stream of every live client but the sender; a client on which the send fails is removed, and no other |
| `RelayStream.ParsingResumes` | module1/task7/server.c:86-123 | Behind a FILE line and its announced bytes the server parses lines again, with all of them relayed, if and only if there were any |
| `PubSub.Broker.AddSubscription` | module1/task2/broker_pubsub.c:66-90 | The relation held by the arrays gains exactly the pair |
| `PubSub.Broker.RemoveSubscription` | module1/task2/broker_pubsub.c:92-117 | The relation held by the arrays loses exactly the pair; a row without topics disappears |
| `PubSub.Broker.AddRow` | module1/task2/broker_pubsub.c:69-77 | The grown array of subscribers holds a row without topics behind the old rows |
| `PubSub.Broker.AddTopic` | module1/task2/broker_pubsub.c:83-89 | The grown array of one row holds the new topic behind the old ones; no other row changes |
| `PubSub.Broker.RemoveTopic` | module1/task2/broker_pubsub.c:97-107 | Shifting the topics of one row removes the topic at the index; no other row changes |
| `PubSub.Broker.RemoveRow` | module1/task2/broker_pubsub.c:108-116 | Shifting the rows removes the row at the index |
| `PubSub.ShiftDown` | module1/task2/broker_pubsub.c:101-103 | The shift loop, in place: the elements behind the index move one place to the front |
| `PubSub.PairAdded` | module1/task2/broker_pubsub.c:68-89 | On the table adding a row or a topic adds one pair to the relation and keeps it proper |
| `PubSub.PairRemoved` | module1/task2/broker_pubsub.c:94-116 | On the table removing a topic, and an emptied row, removes one pair from the relation and keeps it proper |
| `BucketQueue.PriorityQueue.DequeueAtLeast` | module2/4.2/priority_queue.c:59-68 | The oldest entry of the greatest priority not below the bound, negative bounds included; null exactly when there is none |
| `Phonebook.Book.Delete` | module2/4.1/phonebook_new.c:160-185 | The record at the index is removed, for a negative index the first one; an index past the end, or an empty list, removes nothing |
| `FileCopyTheorems.SuccessMeansCopied` | module1/task1/filecopy.c:93-485 | Over every interleaving and every pattern of short transfers and failures: if the parent exits with success, each listed file exists, is unchanged, and the file with `.copy` behind its name holds exactly the source bytes |
| `FileCopyLiveness.ParentCanReturn` | module1/task1/filecopy.c:33-69 | Any call of the parent that is not blocked can fail, and can transfer any number of bytes that its block, the file and the pipe allow |
| `FileCopyLiveness.ChildCanReturn` | module1/task1/filecopy.c:33-69 | The same for the child, so that the runs contain every pattern of short transfers and failures |
| `FileCopyCauses.SuccessIffClean` | module1/task1/filecopy.c:438-485 | The exit status of a finished run is success if and only if every listed file exists with a name shorter than PATH_MAX and no call of either process failed |
| `FileCopyCauses.FailuresStayLocal` | module1/task1/filecopy.c:122-211 | Once END is received, every file that exists with a short enough name, whose open did not fail, and on whose copy no call failed, has an exact copy, whatever happened to the others |
| `FileCopyCauses.LogsHaveCauses` | module1/task1/filecopy.c:180-211 | A file is skipped if and only if it is missing, its name is too long or its own open failed; a copy is reported if and only if creating, writing or closing it failed; each error flag is set exactly when there is such a file |
| `FileCopyCauses.MessagesInOrder` | module1/task1/filecopy.c:440-463 | The messages are those of the files not skipped, in the order of the command line, and END behind them |
| `FileCopyCauses.NothingElseChanges` | module1/task1/filecopy.c:122-166 | No file changes but those with the name of a listed file and `.copy` behind it |
| `FileCopyCauses.CopiesAreBeginnings` | module1/task1/filecopy.c:135-163 | No file is ever removed, and every copy, failed or not, holds a beginning of its source file |
| `FileCopy.EncodeLayout` | module1/task1/filecopy.c:27-31 | Type in bytes 0 to 3, size in bytes 8 to 15, name from byte 16 on, zeros in between and behind, 4112 bytes in all |
| `FileCopy.Literals` | module1/task1/filecopy.c:20-25 | The READY code, the message types and the suffix of the copies |
| `Base.LittleEndianParts` | module1/task1/filecopy.c:27-31 | A byte counts 256 times as much as the one before it |
| `CommandLaws.Upload` | module3/task15/server_epoll.c:98-171 | A sendfile line, the size in eight bytes least significant first and that many bytes create `received_` and the name, write exactly these bytes, close the file and answer OK; the next byte begins a new command |
| `CommandLaws.UploadInAnyReads` | module3/task15/server_epoll.c:78-178 | The same for the server, whatever reads the upload arrives in |
| `CommandLaws.EmptyUpload` | module3/task15/server_epoll.c:149-157 | A size of zero or less creates an empty file that is closed and acknowledged when the next byte arrives |
| `CommandLaws.RefusedUpload` | module3/task15/server_epoll.c:131-137 | When the file cannot be created ERR is answered once, and what follows the size is read as commands |
| `CommandLaws.AnsweredOnce` | module3/task15/server_epoll.c:108-112 | Any line but sendfile and exit is answered once, with the answer for the text of this line |
| `CommandLaws.ExitEndsAnswers` | module3/task15/server_epoll.c:104-107 | Nothing is answered behind an exit line |
| `CommandLaws.SignedValue` | module3/task15/server_epoll.c:122-127 | The eight bytes are a signed 64-bit number, least significant byte first |
| `CommandLaws.Literals` | module3/task15/server_epoll.c:98-155 | The words of the protocol, the prefix of received files and the size of the buffer |
| `RelayStream.ChatLine` | module1/task7/server.c:78-85 | A sender that takes a name and writes a text is relayed as MSG, this name, a space, this text and a newline |
| `RelayStream.NickNames` | module1/task7/server.c:78-80 | A NICK line sets the name to its first 31 bytes and sends nothing |
| `RelayStream.MessageIsRelayed` | module1/task7/server.c:81-85 | A MSG line is relayed with the current name in front of the text |
| `RelayStream.OtherLinesAreSilent` | module1/task7/server.c:78-99 | Any other line, and a FILE line without name and size, changes and sends nothing |
| `RelayStream.Literals` | module1/task7/server.c:78-86 | The words of the protocol |
| `RelayServer.ChatInAnyReads` | module1/task7/server.c:57-107 | What the others receive of a name and a text, whatever reads they arrive in |
| `NameOrder.FirstDifferenceDecides` | module2/4.3/main.c:39-44 | The first byte that differs decides, the smaller one coming first |
| `NameOrder.ShorterFirst` | module2/4.3/main.c:39-44 | A word comes before its continuations |
| `NameOrder.LastNamesDecide` | module2/4.3/main.c:39-44 | An earlier last name comes first whatever the first names are; between equal last names the first names decide in the same way |
| `Phonebook.PlaceAmongEquals` | module2/4.1/phonebook_new.c:75-92 | A new record stands behind all smaller names and in front of equal ones, except that it never takes the place of an equal first record |
| `BlockProtocol.ProducedIsDrawn` | module1/task4/task4.c:110-144 | The sets in the region are the sets drawn: all of them while the producer generates, afterwards exactly those before the first that did not fit |
| `BlockProtocol.ExactlyOnce` | module1/task4/task4.c:110-149 | In every schedule of any number of consumers each set is claimed at most once, in the order in which it was drawn and with the numbers drawn; what is not claimed is pending |
| `BlockProtocol.CleanShutdown` | module1/task4/task4.c:157-183 | A consumer ends, normally or because the semaphore is gone, or the producer tears down, only when every set ever produced is claimed; generation stops only with fewer than the 48 bytes of a largest set free |
| `BlockProtocol.ConsumerProgress` | module1/task4/task4.c:220-265 | At any time a section of a running consumer claims the next set drawn under its own name; with none left it ends once the flag is set, with an error if the semaphore is gone, and otherwise changes nothing |
| `BlockProtocol.ProducerProgress` | module1/task4/task4.c:151-183 | After generation the producer sets the flag and tears down in the first section that finds every set claimed |
| `BlockProtocol.ProducerSection` | module1/task4/task4.c:110-179 | The producer section on memory does the producer step of the run, with the set drawn |
| `BlockProtocol.ConsumerSection` | module1/task4/task4.c:223-264 | The consumer section on memory does the consumer step of the run, and reports the least and greatest of the numbers drawn for the next set |
| `PubSub.LastWordCounts` | module1/task2/broker_pubsub.c:143-167 | After any sequence of commands a process is subscribed to a topic if and only if it has subscribed and not unsubscribed since |
| `PubSub.CutKeeps` | module1/task2/broker_pubsub.c:123-124 | A text is delivered whole up to 1023 bytes and cut behind them |
| `ClientTable.NumberCounts` | module2/cross1/server.c:144-155 | The number of an endpoint is how many packets it sent behind its last CLOSE, or in all |
| `ClientTable.CloseIsCLOSE` | module2/cross1/server.c:144-144 | A packet is a CLOSE if and only if its text is CLOSE |
| `Checksum.ExampleOfTheStandard` | module2/cross1/server.c:46-58 | The definition gives the values of the example in section 3 of RFC 1071, and pads an odd byte with zero |
| `Checksum.BoundIsSharp` | module2/cross1/server.c:47-54 | One byte more than 131074 can make the 32-bit sum wrap |
| `BucketQueue.OldestLeaves` | module2/4.2/priority_queue.c:50-57 | The entry taken is the first of its priority in order of arrival, and the others close up |

## Left out

- ClientTable.Server.ProcessMessage: the parsing of the IP and UDP headers and the building of the reply packet are not modelled; the reply is its number.
- RelayServer.Server.HandleLine: a relayed line longer than the 4096-byte buffer is cut by `snprintf` and then sent with its full length, which reads past the buffer; the model relays the whole line.
- RelayServer.Server.Serve: the sender is an object beside the array of the other clients' descriptors, so the other fields of a removed client are not modelled.
- BucketQueue.PriorityQueue.DequeueHighest: runs the loop of `DequeueAtLeast` with bound 0, which is the same loop.
- FileCopyLoops.ChildLoop: that a scripted run of the loops is, call by call, a run of the step machine is not stated; both are proved against the same messages and streams.
- BlockProtocol.ConsumerProgress: follows the System V semaphore of `module1/task4/task4.c`; in `module1/task5/main_posix.c` an unlinked semaphore stays usable, and the consumer ends normally.
- File copier: creation of processes, pipes and FIFOs, signals, removal of FIFOs and messages on the terminal; the atomicity of small pipe writes is not used.
- Command server: the table of clients, edge-triggered wake-ups, and the second `fclose` when a client disconnects after a transfer.
- Chat relay: the `pollfds` table, and the receive loop of `module1/task7/client.c`.
- Block list: sleeps, creation and removal of the shared memory and the semaphore.
- Phone book: editing, which the program says does not re-sort, and the individual fields besides the names.
- `module3/cross1` and `module3/cross2` repeat `module2/cross1` and `module2/cross2`; one copy is modelled.
- `module3/task4/mysh.c`, `taxi.c`, the chats, calculators, mask and address checks, kernel modules, `module2/6.1`, `module2/6.2`, `module2/2.1` and `module3/task6` to `task11`: easier relatives of the modelled programs, finite domains, or programs without a clean invariant.
