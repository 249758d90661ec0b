# A Dafny model of a set of system-programming programs

The repository is a collection of C programs that each work through one piece of Unix system programming. Several of
them hide a small concurrent protocol or a real algorithm behind their system calls. This project models those and
proves what they do.

The concurrent programs (the shared-memory dictionary, the ring broadcast, the two-semaphore hand-off, the signal
ping-pong and the two sequence-number servers) are state machines. A `State` holds the kernel objects and the program
counter of every process, an `Action` is one atomic step of one process, `Enabled` says when the kernel lets it
happen and `Apply` what it does. A theorem about a protocol speaks about every `Reachable` state, that is, about
every interleaving of any number of processes (`Machines.dfy`). Beside each machine stands a class whose fields are
the shared objects and whose methods update them in place; their contracts tie each update to `Apply`, so the
theorems hold of what the methods do. Fields that only record history (tickets, sent and counted indices, the ranges
handed out) are marked as such where they are declared; no step of a program looks at them.

The sequential programs (tail, the sparse copy, the process tree, the dictionary search, the record converter, the
shell's parser, redirections and pipelines) are methods with the loops of the originals, proved against
specification functions; lemmas then say what those functions mean.

| file | models |
|---|---|
| `DictProtocol.dfy`, `DictSearch.dfy` | SP_HW12: clients and server of the shared-memory dictionary; its binary search |
| `CommandLine.dfy`, `Argv.dfy`, `Redirection.dfy`, `Pipeline.dfy`, `RunCommand.dfy` | SP_HW5/part2: the shell |
| `RingBroadcast.dfy` | SP_HW10: producer and consumers around a ring that is overwritten without waiting |
| `Handoff.dfy` | SP_HW9/54_1: a writer and a reader that take turns at one buffer |
| `PingPong.dfy` | SP_HW7/22-3: parent and child that bounce a signal |
| `FifoServer.dfy`, `QueueServer.dfy`, `SequenceAllocator.dfy` | SP_HW8: two sequence-number servers and what both implement |
| `ProcessTree.dfy` | SP_HW4: the process tree printed from a flat table |
| `Tail.dfy` | SP_HW2: the last lines of a file |
| `SparseCopy.dfy` | SP_HW1: a copy that leaves holes |
| `FixedRecords.dfy` | SP_HW5/part3: a text file turned into fixed records, and the search through them |
| `CLibrary.dfy`, `Arithmetic.dfy`, `Machines.dfy` | strings as C sees them, non-linear arithmetic, runs of a machine |

`dafny verify dfyconfig.toml` checks everything.

Where a program does less than its comments promise, the model keeps what the code does, and a theorem says exactly
when the promise is kept:

- lookup6.c releases the mutex before it reads the reply. Every client is always told the answer to its own word if
  and only if there is at most one client (`DictProtocol.RepliesOwnIffAlone`); what a client is told in general is in
  `DictProtocol.ReplyReadsOwnOrLater`.
- The ring rejects nothing if and only if it has a slot for every index (`RingBroadcast.NeverRejectsIff`).
- The hand-off delivers the whole input if and only if that has no NUL character; a line that begins with one makes
  the reader quit and the writer wait for ever (`Handoff.FinalTransfer`).
- `>` is honoured together with `<` if and only if it comes first, because the line is cut at the `<`
  (`RunCommand.EndsOfLaunchedLine`).
- A pipeline with an empty part runs only the parts before it, and loses one part more when the empty one is the
  last (`Pipeline.ExecutesPrefixOfSegments`).
- The sparse copy is complete if and only if the last chunk of the source is not all zero
  (`SparseCopy.CopyIsCompleteIff`).
- tail shows the last n lines, as a reader counts them, if and only if the file ends with a newline or has fewer
  than n complete lines (`Tail.LastLinesIff`).
- A range of sequence numbers that was handed out is lost if and only if its client left before reading it, with
  FIFOs (`FifoServer.GapsAreDepartures`), or if and only if its send failed or its client left, with the message
  queue (`QueueServer.GapsAreFailuresOrDepartures`).
- The client of the message queue does not check its increment. A check that lets some positive value through keeps
  the ranges of different clients disjoint if and only if it lets no negative value through
  (`QueueServer.AlwaysDisjointIff`).
- The comment above `convert` announces definitions of several lines. The program reads every block two lines at a
  time, so every article is kept whole if and only if every definition has exactly one line
  (`FixedRecords.ArticlesKeptIff`, and `FixedRecords.LookupsRightIff` for what a lookup tells).

## Model

| member | source | states |
|---|---|---|
| DictProtocol.ReachableInv | SP_HW/SP_HW12/lookup6.c:56-79 | an inductive invariant for any number of clients and every interleaving: at most one client between grab and release, the five positions of the exchange told apart by semaphore 1 and the server, the text answers the latest answered request, and what every client may rely on |
| DictProtocol.MutualExclusion | SP_HW/SP_HW12/lookup6.c:56-74 | semaphore 0 plus the number of clients between grab and release is always 1 |
| DictProtocol.SemaphoreOneTellsServer | SP_HW/SP_HW12/shm_server.c:82-108 | semaphore 1 is 0, 1 or 2; it is 1 exactly while the server works, 2 only while an unanswered request is waiting, and 0 only when everything is answered |
| DictProtocol.WordStable | SP_HW/SP_HW12/lookup6.c:59-74 | from writing its word until its release, no step of any process changes the word a client has put into the record |
| DictProtocol.AnswerIsOwnAfterAwait | SP_HW/SP_HW12/lookup6.c:68-74 | when a client has passed its await, the record holds the lookup answer for that client's own word |
| DictProtocol.ReplyReadsOwnOrLater | SP_HW/SP_HW12/lookup6.c:73-81 | compare and copy are two reads after the release; each sees the answer to the latest request answered at that time, the client's own or a later one, the copy never an earlier one than the compare |
| DictProtocol.UndisturbedReplyIsLocal | SP_HW/SP_HW12/lookup6.c:76-81 | when nothing else is answered before the two reads, the reply is that of a local lookup unless the definition is itself the text XXXX, in which case it is "not found" |
| DictProtocol.ExchangeAdvances | SP_HW/SP_HW12/lookup6.c:56-74 | while a client holds the mutex exactly one move of the holder or the server is possible, it brings the release one move nearer, and no other client delays it |
| DictProtocol.EightMovesToRelease | SP_HW/SP_HW12/lookup6.c:56-74 | in every run exactly eight moves of the client and the server, the release included, lie between a client's grab and its release, however many steps other clients take in between |
| DictProtocol.SomeoneCanMove | SP_HW/SP_HW12/lookup6.c:26-29 | no deadlock: while any client is inside lookup some process can take a step |
| DictProtocol.Exchange | SP_HW/SP_HW12/shm_server.c:89-107 | from any reachable state with semaphore 0 free there is a run in which a client that is idle or has its reply completes an exchange and the record holds its answer |
| DictProtocol.AsksWordAfterWord | SP_HW/SP_HW12/main.c:31-43 | for any list of words there is a run in which one client asks exactly these, in order, and then holds what the dictionary says of the last; as this holds of every beginning of the list too, it is answered again and again |
| DictProtocol.ForeignReplyReachable | SP_HW/SP_HW12/lookup6.c:73-79 | for every dictionary, any two clients, every defined word and every other word there is a run in which the first client is told "found" with the answer for the second word |
| DictProtocol.AloneRepliesOwn | SP_HW/SP_HW12/lookup6.c:56-81 | a client that has no competitor is always told the answer to its own word |
| DictProtocol.RepliesOwnIffAlone | SP_HW/SP_HW12/lookup6.c:73-81 | for a dictionary with two different answers, every reply in every run is the client's own if and only if there is at most one client |
| DictProtocol.SharedRecord.constructor | SP_HW/SP_HW12/shm_server.c:31 | the semaphores start at 1 and 0 |
| DictProtocol.SharedRecord.Perform | SP_HW/SP_HW12/shm_server.c:82-108 | each step of a client or of the server, done in place on record and semaphores, is the step of the state machine; the server's own search of its sorted file answers as the machine says |
| DictSearch.Lookup | SP_HW/SP_HW12/lookup5.c:61-82 | on a sorted table of at most 2^30 records the capped binary search, in 32-bit arithmetic, answers exactly as a linear scan would: the cap never hides a word that is present and the midpoint sum never overflows |
| DictSearch.ProbesBounded | SP_HW/SP_HW12/lookup5.c:64-76 | while two or more records are left in the range, fewer than thirty probes have been made |
| DictSearch.ProbeSide | SP_HW/SP_HW12/lookup5.c:67-73 | on a sorted table one comparison decides on which side of the probe the word lies |
| CLibrary.StrCmpByFirstDifference | SP_HW/SP_HW12/lookup5.c:22-24 | the comparison goes by the first character that differs, and a proper prefix comes first |
| Pipeline.PipePresent | SP_HW/SP_HW5/part2/pipe_present.c:14-36 | the result is 0 if and only if there is no bar, -1 when the first bar comes first or last, and the position of the first bar otherwise |
| Pipeline.PipeTakesLowest | SP_HW/SP_HW5/part2/pipe_command.c:77-80 | a pipe takes the lowest descriptors that are free, the read end first |
| Pipeline.PipeAndExec | SP_HW/SP_HW5/part2/pipe_command.c:16-129 | on every argv, which has to fit 20 words of fewer than 50 characters only if it has a bar to be split at, the recursion ends, reads and writes inside its vectors, and the processes that reach exec are those of the specification, with their vectors and descriptors |
| Pipeline.CopyLeft | SP_HW/SP_HW5/part2/pipe_command.c:51-59 | the left vector spells the words before the bar |
| Pipeline.CopyRight | SP_HW/SP_HW5/part2/pipe_command.c:61-72 | the right vector keeps its old indices while its NULL lands at the length of the rest, inside the allocation |
| Pipeline.JoinOfSegments | SP_HW/SP_HW5/part2/pipe_command.c:51-72 | joining the bar-separated parts with bars gives the line back |
| Pipeline.SegmentsOfJoin | SP_HW/SP_HW5/part2/pipe_command.c:51-72 | there is no other way to cut a line into bar-free parts |
| Pipeline.ExecutesPrefixOfSegments | SP_HW/SP_HW5/part2/pipe_command.c:22-32 | for every argv the commands that reach exec are a prefix of its bar-separated parts, in order, of exactly the stated length |
| Pipeline.ForksWiring | SP_HW/SP_HW5/part2/pipe_command.c:110-124 | after any number of forks the listening child reads the last pipe, writes the original output, has no write end and every earlier read end open |
| Pipeline.ParentWiring | SP_HW/SP_HW5/part2/pipe_command.c:100-105 | the talking parent keeps its input, writes to the pipe, keeps the original descriptor of the write end open as well, and has no end open that it had not before, apart from that write end |
| Pipeline.TableOfStage | SP_HW/SP_HW5/part2/pipe_command.c:77-125 | stage k execs with the descriptors left after k forks, redirected into its own pipe unless it is the last part |
| Pipeline.StageWiring | SP_HW/SP_HW5/part2/pipe_command.c:77-125 | for every stage of a line of any length: stdin is the pipe before it, stdout the pipe behind it, the outer ends are the original ones, the write end of a pipe is open in one stage only and its read end in exactly the later stages |
| Pipeline.WellFormedPipeline | SP_HW/SP_HW5/part2/pipe_command.c:77-125 | a line with no empty part runs every part, the commands joined with bars are the line, and the two outer ends are the original ones |
| Argv.OpenOnto | SP_HW/SP_HW5/part2/redirect_in.c:44-51 | open at the lowest free descriptor, dup2, close: only the target descriptor changes |
| Redirection.RedirectIn | SP_HW/SP_HW5/part2/redirect_in.c:19-57 | "not found", exit and success are told apart exactly; on success argv is cut at the first `<`, only that slot changes, and only descriptor 0 changes |
| Redirection.RedirectOut | SP_HW/SP_HW5/part2/redirect_out.c:19-61 | the same for the first `>` and descriptor 1; the slot of the file name becomes NULL too |
| RunCommand.RunChild | SP_HW/SP_HW5/part2/run_command.c:49-57 | input redirection, output redirection and pipeline, in this order and in place on one argv, launch what the specification says or exit |
| RunCommand.ExitsIff | SP_HW/SP_HW5/part2/run_command.c:51-56 | the child gives up before any exec if and only if the file behind the first `<`, or behind a first `>` that comes before it, is missing or cannot be opened |
| RunCommand.LineEndsAtFirstRedirection | SP_HW/SP_HW5/part2/run_command.c:51-56 | what is run is the part of the line before the earlier of the first `<` and the first `>` |
| RunCommand.EndsOfLaunchedLine | SP_HW/SP_HW5/part2/run_command.c:51-56 | for every launched line: the first stage reads the file behind the first `<` or the original input; the last process writes to the file behind the first `>` if and only if that comes before any `<`, to the original output otherwise, and into a pipe if a part of the line was rejected |
| CommandLine.TokensOfLayout | SP_HW/SP_HW5/part2/parse.c:30-76 | words laid out with any white space between and around them are the tokens of the line |
| CommandLine.TwoWords | SP_HW/SP_HW5/part2/parse.c:15 | one space, tab or newline between two words separates them |
| CommandLine.LineIsLayout | SP_HW/SP_HW5/part2/parse.c:30-76 | every line is such a layout of its tokens |
| CommandLine.Parse | SP_HW/SP_HW5/part2/parse.c:13-97 | of the line up to its first NUL: NULL and an untouched heap if there is no token; otherwise the heap gains exactly one NULL-terminated vector and one string for each token, in order, and nothing else changes |
| CommandLine.FreeArgv | SP_HW/SP_HW5/part2/parse.c:104-118 | every string of the vector and the vector itself are freed, each once, and nothing else |
| CommandLine.ParseThenFree | SP_HW/SP_HW5/part2/parse.c:13-118 | parsing any line and freeing the result leaves the heap as it was |
| RingBroadcast.ReachableInv | SP_HW/SP_HW10/producer.c:72-123 | the inductive invariant behind the following rows, for any ring, any amount of data and any number of consumers |
| RingBroadcast.WriteKeepsSlot | SP_HW/SP_HW10/producer.c:80 | overwriting slot i % rows keeps every slot holding the newest written index congruent to its number |
| RingBroadcast.EverySignalInOnePlace | SP_HW/SP_HW10/producer.c:86-105 | every index signalled to a consumer is pending, in its handler, counted, rejected or coalesced, in exactly one of these, and none is signalled or counted twice |
| RingBroadcast.SignalsConserved | SP_HW/SP_HW10/consumer.c:7-20 | over all consumers, signals sent are those in the shared counter plus all the others |
| RingBroadcast.NoUpdateLost | SP_HW/SP_HW10/consumer.c:13-15 | with the increment split into load and store, the counter always equals the signals counted, at most one process is inside the section, and a loaded value is still current |
| RingBroadcast.CountsIffWithinOneLap | SP_HW/SP_HW10/consumer.c:10-12 | a consumer handling index v counts it if and only if the newest written index is below v + rows, and rejects it otherwise |
| RingBroadcast.BigRingRejectsNothing | SP_HW/SP_HW10/producer.c:80 | a ring with a slot for every index never rejects a signal |
| RingBroadcast.NeverRejectsIff | SP_HW/SP_HW10/producer.c:72-105 | no run rejects a signal if and only if the ring has a slot for every index; a smaller ring has a run that does, whatever the number of consumers |
| RingBroadcast.SomeoneCanStep | SP_HW/SP_HW10/producer.c:72-123 | until the producer has exited, it or a consumer inside the section can take a step |
| RingBroadcast.FinalAccount | SP_HW/SP_HW10/producer.c:119-123 | the printed sum and the signals not counted add up to the signals sent; the printed rate times data and consumers is 100 times the signals never sent or not counted, so it lies in [0, 100] and is 0 if and only if every index was sent to every consumer and counted |
| RingBroadcast.LossBoundsReached | SP_HW/SP_HW10/producer.c:72-123 | for every setting there is a whole run with loss rate 0 and one with loss rate 100 |
| RingBroadcast.CoalescedReachable | SP_HW/SP_HW10/producer.c:86-105 | a signal can be merged with one that is pending |
| RingBroadcast.SharedBuffer.Perform | SP_HW/SP_HW10/producer.c:72-123 | each step of the producer, done in place on the ring, is the step of the state machine |
| RingBroadcast.SharedBuffer.Signal | SP_HW/SP_HW10/consumer.c:7-20 | each step of the handler, done in place on counter and semaphore, is the step of the state machine |
| Handoff.ReachableInv | SP_HW/SP_HW9/54_1/shm_xfr_writer.c:49-63 | the inductive invariant for every input: one turn in all, what the buffer holds, which chunks have been printed, and where both sides stand when the reader has quit |
| Handoff.NeverInBufferTogether | SP_HW/SP_HW9/54_1/shm_xfr_reader.c:43-53 | writer and reader never hold the buffer together |
| Handoff.UnlinkAfterReader | SP_HW/SP_HW9/54_1/shm_xfr_writer.c:63-85 | when the writer unlinks, the reader has left its loop for good and no chunk began with NUL |
| Handoff.ChunksCoverInput | SP_HW/SP_HW9/54_1/shm_xfr_writer.c:53 | the non-empty chunks of at most 255 characters that fgets cuts, put together, are the input |
| Handoff.FirstChunk | SP_HW/SP_HW9/54_1/shm_xfr_writer.c:53 | a chunk ends with the first newline, at 255 characters or at the end of the input, whichever comes first |
| Handoff.OutputIsPrefix | SP_HW/SP_HW9/54_1/shm_xfr_reader.c:51 | at every moment the output is a prefix of an input without NUL |
| Handoff.FinalTransfer | SP_HW/SP_HW9/54_1/shm_xfr_writer.c:49-63 | when nothing can move, the reader has shown the chunks before the first one that begins with NUL; both have finished if and only if there is none, and the output is the whole input if and only if that has no NUL |
| Handoff.EveryStepCounts | SP_HW/SP_HW9/54_1/shm_xfr_writer.c:49-63 | every step of either side uses up a bounded number of steps |
| Handoff.RunsAreShort | SP_HW/SP_HW9/54_1/shm_xfr_writer.c:49-63 | for an input of n characters no run has more than 10 n + 11 steps |
| Handoff.FinishedRun | SP_HW/SP_HW9/54_1/shm_xfr_writer.c:49-63 | every input has a run that comes to its end, with the output of the theorem above |
| Handoff.SharedMemory.WriterMove | SP_HW/SP_HW9/54_1/shm_xfr_writer.c:49-63 | each step of the writer, done in place on the 256-byte buffer, is the step of the state machine |
| Handoff.SharedMemory.ReaderMove | SP_HW/SP_HW9/54_1/shm_xfr_reader.c:43-53 | each step of the reader likewise |
| Handoff.SharedMemory.Fill | SP_HW/SP_HW9/54_1/shm_xfr_writer.c:59 | after strncpy of the whole buffer size the buffer reads back as the string that was copied, with no stale byte behind it |
| PingPong.ExactlyOneSignal | SP_HW/SP_HW7/22-3/sig_speed_sigsuspend.c:62-91 | in both forms there is exactly one signal about until the child exits; none is merged with a pending one and none is sent to a process that has exited |
| PingPong.SomeoneCanStep | SP_HW/SP_HW7/22-3/sig_speed_sigsuspend.c:74-91 | a step is possible if and only if one of the two is still running |
| PingPong.EveryStepCounts | SP_HW/SP_HW7/22-3/sig_speed_sigwaitinfo.c:74-91 | every step of either side lowers the number of remaining steps by exactly one |
| PingPong.RunsAreComplete | SP_HW/SP_HW7/22-3/sig_speed_sigwaitinfo.c:74-91 | every run that cannot be continued has taken the same number of steps, and both loops have run numSigs rounds in it with no signal left over |
| PingPong.SignalPair.ChildMove | SP_HW/SP_HW7/22-3/sig_speed_sigsuspend.c:75-80 | each step of the child, done in place, is the step of the state machine |
| PingPong.SignalPair.ParentMove | SP_HW/SP_HW7/22-3/sig_speed_sigsuspend.c:84-89 | each step of the parent likewise |
| SequenceAllocator.ReachableConsecutive | SP_HW/SP_HW8/44-6/fifo_seqnum_server.c:77-83 | in every run of the allocator each range starts where the lengths of the ranges before it end |
| SequenceAllocator.RangesDisjoint | SP_HW/SP_HW8/44-6/fifo_seqnum_server.c:77-83 | without negative lengths any two ranges are disjoint and all lie in [0, next) |
| FifoServer.RunsRefine | SP_HW/SP_HW8/44-6/fifo_seqnum_server.c:43-84 | every run of server and clients is a run of the allocator, in which only a reply allocates, so its ranges are consecutive and a request that is dropped leaves no gap |
| FifoServer.ReplyIsOwn | SP_HW/SP_HW8/44-6/fifo_seqnum_client.c:41-48 | the number a client prints starts a range that was made for its own request and lies below the counter |
| FifoServer.DeliveredRangesDisjoint | SP_HW/SP_HW8/44-6/fifo_seqnum_server.c:76-83 | no two clients ever receive overlapping ranges |
| FifoServer.CounterIsSum | SP_HW/SP_HW8/44-6/fifo_seqnum_server.c:83 | the counter is the sum of the lengths of the requests that reached the reply, and no client is answered twice |
| FifoServer.GapsAreDepartures | SP_HW/SP_HW8/44-6/fifo_seqnum_server.c:76-83 | in every reachable state a range handed out has been received by its client or lies alone in its FIFO, if and only if that client has not left |
| FifoServer.OpenIsTriedSixTimes | SP_HW/SP_HW8/44-6/fifo_seqnum_server.c:45-65 | in every run, from reading a request until it is replied to or dropped, at most six opens occur and no number is used up, whatever the clients do; each open succeeds if the client has its end open, is tried again up to five times if there is a FIFO without a reader, and drops the request otherwise |
| FifoServer.LateClientIsServed | SP_HW/SP_HW8/44-6/fifo_seqnum_server.c:54-60 | a client that opens its end after up to five failed tries receives its number, for any length |
| FifoServer.AbsentClientIsDropped | SP_HW/SP_HW8/44-6/fifo_seqnum_server.c:54-65 | a client that does not open its end before the sixth try is dropped without using up a number |
| FifoServer.DeadClientIsDropped | SP_HW/SP_HW8/44-6/fifo_seqnum_server.c:54-65 | a client that was killed is dropped after six tries, one that removed its FIFO after one |
| FifoServer.GapReachable | SP_HW/SP_HW8/44-6/fifo_seqnum_server.c:76-83 | a client that leaves between open and reply takes its range with it |
| FifoServer.Server.Perform | SP_HW/SP_HW8/44-6/fifo_seqnum_server.c:43-84 | each step, done in place on counter, FIFOs and clients, is the step of the state machine |
| QueueServer.RunsRefine | SP_HW/SP_HW8/46-2/server.c:35-54 | every run of server and clients is a run of the allocator, in which receiving a request allocates, whether or not the reply can be sent |
| QueueServer.ReplyIsOwn | SP_HW/SP_HW8/46-2/client.c:32-38 | with pids above 1, the number a client receives starts a range made for its own request |
| QueueServer.DeliveredRangesDisjoint | SP_HW/SP_HW8/46-2/server.c:43-50 | as long as no increment is negative, no two clients receive a common number |
| QueueServer.OverlapReachable | SP_HW/SP_HW8/46-2/client.c:12 | for any positive and any negative increment there is a run, asking for nothing else, in which two clients receive a common number |
| QueueServer.AlwaysDisjointIff | SP_HW/SP_HW8/46-2/client.c:12-24 | a check on increments that lets some positive value through keeps the ranges of all runs with any number of clients disjoint if and only if it lets no negative value through |
| QueueServer.StartsIncreaseInRuns | SP_HW/SP_HW8/46-2/server.c:44-47 | in every reachable state each range starts behind the one before it if and only if all increments received but the last are positive |
| QueueServer.CounterIsSum | SP_HW/SP_HW8/46-2/server.c:47 | the counter is the sum of the increments received, each client's once, and a queued request can always be received |
| QueueServer.ReachableUnique | SP_HW/SP_HW8/46-2/server.c:43-50 | in every reachable state a reply is in one place, in the server or in the queue, and its client has not received one |
| QueueServer.GapsAreFailuresOrDepartures | SP_HW/SP_HW8/46-2/server.c:43-53 | in every reachable state a range handed out has been received by its client, or is in the server or queued for a client that still waits, if and only if neither its send failed nor its client has left |
| QueueServer.GapsReachable | SP_HW/SP_HW8/46-2/server.c:43-53 | both ways of losing a range occur, and the reply to a client that left stays in the queue |
| QueueServer.WaitsInVainIff | SP_HW/SP_HW8/46-2/client.c:33 | a waiting client that was given a range has no reply anywhere, and cannot receive one, if and only if the send to it failed |
| QueueServer.Server.Take | SP_HW/SP_HW8/46-2/server.c:37 | msgrcv takes the first message of the type and keeps the others in order |
| QueueServer.Server.Perform | SP_HW/SP_HW8/46-2/server.c:35-54 | each step, done in place on the queue, is the step of the state machine |
| ProcessTree.PrintTree | SP_HW/SP_HW4/12-2.c:56-76 | for distinct pids and no cycle of parents the recursion ends and prints the rendered tree; for a pid not in the table only the indentation |
| ProcessTree.PrintChildren | SP_HW/SP_HW4/12-2.c:66-72 | the inner loop prints the trees of all children in table order |
| ProcessTree.TreeSound | SP_HW/SP_HW4/12-2.c:56-76 | every line shows a process of the table that descends from the root, indented by its distance from it |
| ProcessTree.TreeComplete | SP_HW/SP_HW4/12-2.c:56-76 | every descendant in the table is shown |
| ProcessTree.TreeNoRepeats | SP_HW/SP_HW4/12-2.c:56-76 | no process is shown twice |
| ProcessTree.AnyTwoOrdered | SP_HW/SP_HW4/12-2.c:63-72 | of any two processes of the tree one precedes the other, as its ancestor or in an earlier branch by table order, and is shown first |
| ProcessTree.TreeInPreorder | SP_HW/SP_HW4/12-2.c:63-72 | all lines stand in that order |
| ProcessTree.PrecedesOneWay | SP_HW/SP_HW4/12-2.c:63-72 | for an acyclic table with distinct pids the order is strict: no two processes precede each other |
| ProcessTree.OnlyOneList | SP_HW/SP_HW4/12-2.c:56-76 | soundness, completeness, no repetition and preorder determine the lines: there is only one such list |
| ProcessTree.RenderReads | SP_HW/SP_HW4/12-2.c:58-64 | every printed line reads as two tabs for each level, a numeral without superfluous zeros whose value is the pid, and the name in brackets |
| CLibrary.DecimalReads | SP_HW/SP_HW4/12-2.c:64 | the numeral printed for a number, read digit by digit, is that number again |
| ProcessTree.PrintProcesses | SP_HW/SP_HW4/12-2.c:111 | what is printed for pid 1 reads as that one list: every descendant, itself included, once, at its depth, in preorder by table order, and nothing else; nothing at all if pid 1 is not in the table |
| Tail.ScanChunk | SP_HW/SP_HW2/tail.c:70-80 | the scan of one chunk either finds the offset of the one-pass specification or has counted all newlines of the chunk |
| Tail.FindStart | SP_HW/SP_HW2/tail.c:57-88 | for every file, every count and every chunk size the backward chunked scan stops at the offset of the one-pass specification |
| Tail.PrintTail | SP_HW/SP_HW2/tail.c:57-95 | the output is the file from that offset on |
| Tail.SplitCovers | SP_HW/SP_HW2/tail.c:72-74 | cutting a text behind its newlines loses nothing and gives as many lines as newlines |
| Tail.SplitAtNewlines | SP_HW/SP_HW2/tail.c:72-74 | the cuts are exactly behind the newline characters |
| Tail.OutputIsLastLines | SP_HW/SP_HW2/tail.c:57-95 | for every file and n >= 0 the output is the last n newline-terminated lines, or all of them, and what stands behind the last newline |
| Tail.LastLinesIff | SP_HW/SP_HW2/tail.c:75-79 | that is the last n lines, a partial one counted, if and only if the file ends with a newline, is empty, or has fewer than n complete lines |
| Tail.NegativeCount | SP_HW/SP_HW2/tail.c:75-79 | for a negative count: the whole file, except that -1 shows nothing of a file that does not end with a newline |
| SparseCopy.AllZeros | SP_HW/SP_HW1/cp.c:15-22 | true if and only if all bytes read are zero |
| SparseCopy.Copy | SP_HW/SP_HW1/cp.c:43-55 | the source is the destination followed by zeros, and the destination ends where the specification says, for any chunk size |
| SparseCopy.DataEndIsTight | SP_HW/SP_HW1/cp.c:43-55 | that end lies behind the last chunk with a byte that is not zero, and everything behind it is zero |
| SparseCopy.CopyIsCompleteIff | SP_HW/SP_HW1/cp.c:43-55 | the copy equals the source if and only if the source is empty or its last chunk is not all zero |
| FixedRecords.Convert | SP_HW/SP_HW5/part3/convert.c:39-78 | for every input whose lines fit their fields the output is 512 bytes for each entry, the image of the entries in order |
| FixedRecords.RecordLayout | SP_HW/SP_HW5/part3/convert.c:75-76 | record k holds the word in its first 32 bytes and the text in the other 480, each with NULs up to the end of its field |
| FixedRecords.EntriesOfSource | SP_HW/SP_HW5/part3/convert.c:51-70 | a file of words and one-line definitions with any blank lines between entries has exactly those entries |
| FixedRecords.Lookup | SP_HW/SP_HW5/part3/lookup1.c:34-54 | on any file of records, with or without a record cut short at the end, the search, which chops the fields in place, returns the definition of the first entry for the word, or "not found" |
| FixedRecords.SearchIsScan | SP_HW/SP_HW5/part3/lookup1.c:40-51 | chopping the newlines makes the search through the entries the linear scan of the dictionary |
| FixedRecords.ConvertThenLookup | SP_HW/SP_HW5/part3/convert.c:39-78 | converting any dictionary that fits, with any blank lines, and looking a word up gives its first definition, or "not found" |
| FixedRecords.BlockIsReadInPairs | SP_HW/SP_HW5/part3/convert.c:51-70 | any block of fitting lines that a blank line or the end of the file follows is read two lines at a time, as word and definition, and an odd last line is dropped |
| FixedRecords.EntriesOfDocument | SP_HW/SP_HW5/part3/convert.c:39-78 | a file of articles with definitions of any number of lines and blank lines between the articles has exactly the entries of its blocks read that way |
| FixedRecords.ArticlesKeptIff | SP_HW/SP_HW5/part3/convert.c:2-9 | every article becomes exactly one entry with its whole definition if and only if every definition has exactly one line |
| FixedRecords.LookupsRightIff | SP_HW/SP_HW5/part3/lookup1.c:34-54 | for distinct words, every lookup tells the whole definition, or that there is none, if and only if every definition has exactly one line |
| FixedRecords.FirstLineIsTold | SP_HW/SP_HW5/part3/lookup1.c:46-51 | of a longer definition the first line is told, unless the word has been read before |
| FixedRecords.ConvertArticlesThenLookup | SP_HW/SP_HW5/part3/convert.c:39-78 | converting any such file and looking a word up tells what the blocks, read two lines at a time, say |

## Left out

- DictProtocol.SharedRecord.Perform: `strcpy` into and out of the record is one atomic step, so a reply read while the server overwrites it is the old or the new text, never a mixture of both.
- DictProtocol.SomeoneCanMove: process death, and with it the undoing of semaphore operations under SEM_UNDO, is outside the model; it can leave the semaphores in states that no run here reaches.
- DictSearch.Lookup: the file is taken as sorted by distinct words; the program opens `./fixrec` whatever name it is given, and does not check the order. Records are words and texts, not memory, so a field without its NUL does not occur.
- RingBroadcast.CountsIffWithinOneLap: writing a slot is one atomic step, so a consumer never compares with a half-written number.
- RingBroadcast.NoUpdateLost: a consumer is not killed between `sem_wait` and `sem_post`; otherwise the producer's final wait can block for ever.
- RingBroadcast.FinalAccount: the clock is a free choice at every send (time out or not), a signal may be queued or coalesced, every consumer is ready before the first signal, and percentages are exact. The product of data and consumers, and indices, are not bounded by the int range.
- Handoff.FinalTransfer: output is what `printf` is given; buffering and failing writes are not modelled. The reader starts with its semaphore and buffer in place.
- FifoServer.CounterIsSum: the counter is an unbounded integer, so its wrap-around after 2^31 numbers is not modelled; a torn or short request is discarded by the program and does not occur here. Live clients have different pids and each sends one request.
- QueueServer.CounterIsSum: the counter and the increments are unbounded integers here as well, each client sends one request, and a pid is not used again.
- QueueServer.GapsAreFailuresOrDepartures: a client can leave at any time while it waits; the end of the server, which removes the queue with everything in it, is not modelled.
- Pipeline.PipeAndExec: longer argument vectors or words overrun the fixed allocations of the original and are excluded; `fork`, `pipe`, `dup2` and `execvp` are taken to succeed. An empty line without bars reaches `execvp` with a NULL name and counts as reaching exec.
- Redirection.RedirectIn: whether a file can be opened is a parameter, a set of names; modes and truncation are not modelled.
- RunCommand.RunChild: background processing and waiting for the child are left out; `is_background` does not change argv, against its comment.
- CommandLine.Parse: `strtok` works on a copy, so the NULs it writes into the caller's line are not modelled; allocation always succeeds, and a grown vector always moves.
- ProcessTree.PrintProcesses: the table is a value of any length; filling it from `/proc`, its capacity of 1024 entries and the fields of the status files are left out.
- Tail.FindStart: reads are full, and the counters are unbounded.
- SparseCopy.Copy: reads and writes are full; the chunk size is a parameter, 1024 in the program.
- FixedRecords.Convert: inputs with a line that does not fit the field it is copied to, which the program would write past the end of the field, are excluded, as are NUL characters in words and definitions. The dictionary file that comes with the program has such lines: long definition lines that are read as words.
- PingPong.RunsAreComplete: no other process sends the signal.
- The socket versions of the dictionary (SP_HW11) and its other lookups: thin layers over send and receive, or copies of the search modelled here.
- SP_HW9/52_3: only message framing, and full chunks are printed without a terminator.
- SP_HW7/22-4: each branch forwards to the kernel's mask or disposition.
- The condition-variable exercise of the second quiz: it broadcasts without the lock and without a predicate, so no useful guarantee holds.
- The first shell (SP_HW3) parses a line and forks and execs one command, without pipes and redirections.
- The shell's builtins change or print the directory, echo their arguments, or print host and user; the utilities for host, date and process listings format what a system call or `/proc` returns; the argument helpers convert numbers and report errors.
