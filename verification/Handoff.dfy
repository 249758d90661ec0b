/** The two-semaphore hand-off (SP_HW9/54_1): a writer passes its standard input, line by line, through a buffer of
    256 bytes to a reader that prints it. */
module Handoff {
  import opened Machines
  import opened CLibrary

  const SHM_SIZE := 256

  datatype WriterPc =
    | WriterWait
    | Fetch
    | CopyLine(line: string)
    | CopyEnd
    | PostLine
    | PostEnd
    | LastWait
    | Unlink
    | WriterDone

  datatype ReaderPc = ReaderWait | Check | Print | PostPrinted | PostQuit | ReaderDone

  /** `input` is the whole of standard input, `rest` what fgets has not taken yet; `fetched` counts its calls that
      returned a line. `shm` is the string in the buffer, up to its NUL. */
  datatype State = State(
    input: string,
    rest: string,
    fetched: nat,
    shm: string,
    output: string,
    writerSem: nat,
    readerSem: nat,
    writer: WriterPc,
    reader: ReaderPc)

  datatype Action = WriterStep | ReaderStep

  ghost predicate Init(s: State) {
    && s.rest == s.input && s.fetched == 0
    && s.shm == "" && s.output == ""
    && s.writerSem == 1 && s.readerSem == 0
    && s.writer == WriterWait && s.reader == ReaderWait
  }

  predicate Enabled(s: State, a: Action) {
    match a
    case WriterStep =>
      s.writer != WriterDone && ((s.writer == WriterWait || s.writer == LastWait) ==> s.writerSem > 0)
    case ReaderStep => s.reader != ReaderDone && (s.reader == ReaderWait ==> s.readerSem > 0)
  }

  function Apply(s: State, a: Action): State
    requires Enabled(s, a)
  {
    match a
    case WriterStep =>
      (match s.writer
       case WriterWait => s.(writer := Fetch, writerSem := s.writerSem - 1)
       case Fetch =>
         var n := FgetsLength(s.rest, SHM_SIZE);
         if n == 0 then s.(writer := CopyEnd)
         else s.(writer := CopyLine(s.rest[..n]), rest := s.rest[n..], fetched := s.fetched + 1)
       case CopyLine(line) => s.(writer := PostLine, shm := CString(line))
       case CopyEnd => s.(writer := PostEnd, shm := "")
       case PostLine => s.(writer := WriterWait, readerSem := s.readerSem + 1)
       case PostEnd => s.(writer := LastWait, readerSem := s.readerSem + 1)
       case LastWait => s.(writer := Unlink, writerSem := s.writerSem - 1)
       case Unlink => s.(writer := WriterDone))
    case ReaderStep =>
      (match s.reader
       case ReaderWait => s.(reader := Check, readerSem := s.readerSem - 1)
       case Check => s.(reader := if s.shm == "" then PostQuit else Print)
       case Print => s.(reader := PostPrinted, output := s.output + s.shm)
       case PostPrinted => s.(reader := ReaderWait, writerSem := s.writerSem + 1)
       case PostQuit => s.(reader := ReaderDone, writerSem := s.writerSem + 1))
  }

  ghost predicate Next(s: State, s': State) {
    exists a :: Enabled(s, a) && s' == Apply(s, a)
  }

  // ---------- the chunks of the input ----------

  /** The lines fgets cuts the input into: each ends at a newline, at 255 characters or at the end. */
  function Chunks(input: string): (chunks: seq<string>)
    ensures forall k | 0 <= k < |chunks| :: 0 < |chunks[k]| < SHM_SIZE
    decreases |input|
  {
    if input == "" then []
    else
      var n := FgetsLength(input, SHM_SIZE);
      [input[..n]] + Chunks(input[n..])
  }

  lemma {:induction false} ChunksCoverInput(input: string)
    ensures Flatten(Chunks(input)) == input
    decreases |input|
  {
    if input != "" {
      var n := FgetsLength(input, SHM_SIZE);
      ChunksCoverInput(input[n..]);
      assert Chunks(input)[1..] == Chunks(input[n..]);
      assert input == input[..n] + input[n..];
    }
  }

  /** A chunk ends with the first newline, at 255 characters or at the end of the input, whichever comes first. */
  lemma FirstChunk(input: string)
    requires input != ""
    ensures var line := Chunks(input)[0];
            && line <= input && Chunks(input) == [line] + Chunks(input[|line|..])
            && 0 < |line| <= 255 && '\n' !in line[..|line| - 1]
            && (line[|line| - 1] == '\n' || |line| == 255 || line == input)
  {
    var n := FgetsLength(input, SHM_SIZE);
    assert Chunks(input)[0] == input[..n];
  }

  /** What printf("%s") shows of the first n chunks: each up to its first NUL. */
  function Printed(chunks: seq<string>, n: nat): string
    requires n <= |chunks|
  {
    if n == 0 then "" else Printed(chunks, n - 1) + CString(chunks[n - 1])
  }

  /** The first chunk that looks empty to the reader, or their number if there is none. */
  function FirstBlank(chunks: seq<string>): (z: nat)
    ensures z <= |chunks| && forall k | 0 <= k < z :: CString(chunks[k]) != ""
    ensures z < |chunks| ==> CString(chunks[z]) == ""
  {
    if chunks == [] || CString(chunks[0]) == "" then 0 else 1 + FirstBlank(chunks[1..])
  }

  // ---------- the invariant ----------

  predicate WriterHolds(s: State) {
    s.writer == Fetch || s.writer.CopyLine? || s.writer == CopyEnd || s.writer == PostLine || s.writer == PostEnd
  }

  predicate ReaderHolds(s: State) {
    s.reader == Check || s.reader == Print || s.reader == PostPrinted || s.reader == PostQuit
  }

  predicate Leaving(s: State) {
    s.writer == Unlink || s.writer == WriterDone
  }

  /** There is one turn: in a semaphore, with the writer, with the reader, or kept by the writer when it leaves. */
  predicate OneTurn(s: State) {
    s.writerSem + s.readerSem
    + (if WriterHolds(s) then 1 else 0) + (if ReaderHolds(s) then 1 else 0) + (if Leaving(s) then 1 else 0) == 1
  }

  predicate AtEnd(s: State) {
    s.writer == CopyEnd || s.writer == PostEnd || s.writer == LastWait || Leaving(s)
  }

  /** The latest chunk has been fetched but not printed. */
  predicate Outstanding(s: State) {
    || s.writer.CopyLine? || s.writer == PostLine
    || (s.writer == WriterWait && (s.readerSem == 1 || s.reader == Check || s.reader == Print))
  }

  predicate HasQuit(s: State) {
    s.reader == PostQuit || s.reader == ReaderDone
  }

  /** The reader is still listening: it has printed all the chunks but the outstanding one. */
  predicate Listening(s: State, chunks: seq<string>) {
    && !Leaving(s)
    && (Outstanding(s) ==> s.fetched > 0)
    && s.fetched <= |chunks|
    && (var printed := if Outstanding(s) then s.fetched - 1 else s.fetched;
        printed <= FirstBlank(chunks) && s.output == Printed(chunks, printed))
    && (Outstanding(s) && !s.writer.CopyLine? ==> s.shm == CString(chunks[s.fetched - 1]))
    && (s.writer == PostEnd || s.writer == LastWait ==> s.shm == "")
    && (s.reader == Print ==> s.shm != "")
    && (s.writer == LastWait ==> s.readerSem == 1 || s.reader == Check)
  }

  /** The reader has stopped, either at the end or at a chunk that begins with NUL. */
  predicate Stopped(s: State, chunks: seq<string>) {
    var z := FirstBlank(chunks);
    && s.output == Printed(chunks, z)
    && (z == |chunks| ==> (s.writer == LastWait && s.readerSem == 0) || Leaving(s))
    && (z < |chunks| ==> z < s.fetched && !Leaving(s) && (s.writer == LastWait ==> s.readerSem == 1))
  }

  ghost predicate Inv(s: State) {
    var chunks := Chunks(s.input);
    && OneTurn(s)
    && s.fetched <= |chunks| && Chunks(s.rest) == chunks[s.fetched..]
    && (s.writer.CopyLine? ==> s.fetched > 0 && s.writer.line == chunks[s.fetched - 1])
    && (AtEnd(s) ==> s.fetched == |chunks|)
    && if HasQuit(s) then Stopped(s, chunks) else Listening(s, chunks)
  }

  /** What the rest of standard input and the chunks have to do with each other. */
  lemma FetchTakesChunk(s: State)
    requires s.writer == Fetch && s.fetched <= |Chunks(s.input)| && Chunks(s.rest) == Chunks(s.input)[s.fetched..]
    ensures var s' := Apply(s, WriterStep);
            var chunks := Chunks(s.input);
            && s'.fetched <= |chunks| && Chunks(s'.rest) == chunks[s'.fetched..]
            && (s'.writer.CopyLine? ==> s'.fetched == s.fetched + 1 && s'.writer.line == chunks[s.fetched])
            && (s'.writer == CopyEnd ==> s'.fetched == |chunks|)
  {
    var chunks := Chunks(s.input);
    if s.rest != "" {
      assert Chunks(s.rest)[0] == chunks[s.fetched];
      assert Chunks(s.rest)[1..] == chunks[s.fetched + 1..];
    }
  }

  lemma FetchKeepsReader(s: State, chunks: seq<string>)
    requires s.writer == Fetch && OneTurn(s) && s.fetched <= |chunks|
    requires if HasQuit(s) then Stopped(s, chunks) else Listening(s, chunks)
    requires Apply(s, WriterStep).writer.CopyLine? ==> s.fetched < |chunks|
    requires Apply(s, WriterStep).writer == CopyEnd ==> s.fetched == |chunks|
    ensures var s' := Apply(s, WriterStep);
            && OneTurn(s') && HasQuit(s') == HasQuit(s)
            && if HasQuit(s) then Stopped(s', chunks) else Listening(s', chunks)
  {
    hide FirstBlank, CString, FgetsLength, Printed;
  }

  lemma FetchKeepsInv(s: State)
    requires Inv(s) && s.writer == Fetch
    ensures Inv(Apply(s, WriterStep))
  {
    FetchTakesChunk(s);
    FetchKeepsReader(s, Chunks(s.input));
    hide Chunks, FirstBlank, CString, FgetsLength, Printed, OneTurn, Stopped, Listening;
  }

  lemma WriterStepKeepsInv(s: State)
    requires Inv(s) && Enabled(s, WriterStep) && s.writer != Fetch
    ensures Inv(Apply(s, WriterStep))
  {
    hide Chunks, FirstBlank, CString, FgetsLength, Printed;
  }

  lemma ReaderStepKeepsInv(s: State)
    requires Inv(s) && Enabled(s, ReaderStep)
    ensures Inv(Apply(s, ReaderStep))
  {
    hide Chunks, FirstBlank, CString, FgetsLength, Printed;
    if s.reader == Print {
      PrintedNext(Chunks(s.input), s.fetched);
    }
  }

  lemma PrintedNext(chunks: seq<string>, n: nat)
    requires 0 < n <= |chunks|
    ensures Printed(chunks, n) == Printed(chunks, n - 1) + CString(chunks[n - 1])
  {
  }

  lemma ReachableInv(s: State)
    requires Reachable(Init, Next, s)
    ensures Inv(s)
  {
    hide Apply, Enabled, FgetsLength, CString;
    forall s, s' | Inv(s) && Next(s, s')
      ensures Inv(s')
    {
      var a :| Enabled(s, a) && s' == Apply(s, a);
      if a == WriterStep && s.writer == Fetch {
        FetchKeepsInv(s);
      } else if a == WriterStep {
        WriterStepKeepsInv(s);
      } else {
        ReaderStepKeepsInv(s);
      }
    }
    InvariantReachable(Init, Next, Inv, s);
  }

  // ---------- main results ----------

  lemma NeverInBufferTogether(s: State)
    requires Reachable(Init, Next, s)
    ensures !(WriterHolds(s) && ReaderHolds(s))
  {
    ReachableInv(s);
  }

  /** The writer unlinks only after the reader's last access to the buffer. */
  lemma UnlinkAfterReader(s: State)
    requires Reachable(Init, Next, s) && Leaving(s)
    ensures s.reader == ReaderDone && FirstBlank(Chunks(s.input)) == |Chunks(s.input)|
  {
    ReachableInv(s);
  }

  lemma {:induction false} PrintedIsFlattened(chunks: seq<string>, n: nat)
    requires n <= |chunks| && forall k | 0 <= k < n :: NUL !in chunks[k]
    ensures Printed(chunks, n) == Flatten(chunks[..n])
  {
    if n > 0 {
      PrintedIsFlattened(chunks, n - 1);
      WholeCString(chunks[n - 1]);
      FlattenAdd(chunks[..n - 1], [chunks[n - 1]]);
      SingleFlattens(chunks[n - 1]);
      assert chunks[..n] == chunks[..n - 1] + [chunks[n - 1]];
    }
  }

  lemma WholeCString(line: string)
    requires NUL !in line
    ensures CString(line) == line
  {
    CStringOfPadded(line, "");
    assert line + "" == line;
  }

  lemma {:induction false} FlattenPrefix(parts: seq<string>, n: nat)
    requires n <= |parts|
    ensures Flatten(parts[..n]) <= Flatten(parts)
  {
    if n > 0 {
      assert parts[..n][1..] == parts[1..][..n - 1];
      FlattenPrefix(parts[1..], n - 1);
    }
  }

  lemma {:induction false} ChunksHaveNoNul(input: string, k: nat)
    requires NUL !in input && k < |Chunks(input)|
    ensures NUL !in Chunks(input)[k]
    decreases |input|
  {
    if k > 0 {
      ChunksHaveNoNul(input[FgetsLength(input, SHM_SIZE)..], k - 1);
    }
  }

  lemma NoNulNoBlank(input: string)
    requires NUL !in input
    ensures FirstBlank(Chunks(input)) == |Chunks(input)|
    ensures forall n: nat | n <= |Chunks(input)| :: Printed(Chunks(input), n) == Flatten(Chunks(input)[..n])
  {
    var chunks := Chunks(input);
    forall k: nat | k < |chunks|
      ensures NUL !in chunks[k] && CString(chunks[k]) != ""
    {
      ChunksHaveNoNul(input, k);
      WholeCString(chunks[k]);
    }
    forall n: nat | n <= |chunks|
      ensures Printed(chunks, n) == Flatten(chunks[..n])
    {
      PrintedIsFlattened(chunks, n);
    }
  }

  /** At every moment the output is a prefix of an input without NUL characters. */
  lemma OutputIsPrefix(s: State)
    requires Reachable(Init, Next, s) && NUL !in s.input
    ensures s.output <= s.input
  {
    ReachableInv(s);
    var chunks := Chunks(s.input);
    NoNulNoBlank(s.input);
    ChunksCoverInput(s.input);
    var n := if HasQuit(s) then FirstBlank(chunks) else if Outstanding(s) then s.fetched - 1 else s.fetched;
    FlattenPrefix(chunks, n);
  }

  lemma {:induction false} PrintedHasNoNul(chunks: seq<string>, n: nat)
    requires n <= |chunks|
    ensures NUL !in Printed(chunks, n)
  {
    if n > 0 {
      PrintedHasNoNul(chunks, n - 1);
    }
  }

  ghost predicate Finished(s: State) {
    forall a :: !Enabled(s, a)
  }

  lemma FinalState(s: State)
    requires Reachable(Init, Next, s) && Finished(s)
    ensures s.output == Printed(Chunks(s.input), FirstBlank(Chunks(s.input)))
    ensures s.writer == WriterDone && s.reader == ReaderDone <==> FirstBlank(Chunks(s.input)) == |Chunks(s.input)|
  {
    ReachableInv(s);
    assert !Enabled(s, WriterStep) && !Enabled(s, ReaderStep);
    hide Chunks, FirstBlank, Printed, CString, Finished;
  }

  /** When nothing can move any more, the reader has shown the chunks before the first one that begins with NUL.
      Both programs have finished if and only if there is no such chunk, and the output is the whole input if and
      only if the input has no NUL character. */
  lemma FinalTransfer(s: State)
    requires Reachable(Init, Next, s) && Finished(s)
    ensures s.output == Printed(Chunks(s.input), FirstBlank(Chunks(s.input)))
    ensures s.writer == WriterDone && s.reader == ReaderDone <==> FirstBlank(Chunks(s.input)) == |Chunks(s.input)|
    ensures s.output == s.input <==> NUL !in s.input
  {
    FinalState(s);
    hide Enabled, Finished, Chunks;
    var chunks := Chunks(s.input);
    var z := FirstBlank(chunks);
    PrintedHasNoNul(chunks, z);
    if NUL !in s.input {
      NoNulNoBlank(s.input);
      ChunksCoverInput(s.input);
      assert chunks[..z] == chunks;
    }
  }

  /** A bound on the steps that are left. */
  function StepsLeft(s: State): nat {
    10 * |s.rest| +
    match s.writer
    case Fetch => 9
    case CopyLine(_) => 18
    case PostLine => 17
    case WriterWait =>
      if s.readerSem > 0 then 16
      else if s.reader == Check then 15
      else if s.reader == Print then 14
      else if ReaderHolds(s) then 13
      else 12
    case CopyEnd => 8
    case PostEnd => 7
    case LastWait =>
      if s.readerSem > 0 then 6 else if s.reader == Check then 5 else if ReaderHolds(s) then 4 else 3
    case Unlink => 2
    case WriterDone => 1
  }

  lemma WriterStepCounts(s: State)
    requires OneTurn(s) && Enabled(s, WriterStep)
    ensures StepsLeft(Apply(s, WriterStep)) < StepsLeft(s)
  {
    hide FgetsLength, CString;
  }

  lemma ReaderStepCounts(s: State)
    requires OneTurn(s) && Enabled(s, ReaderStep) && (s.writer == LastWait ==> s.reader != Print && s.reader != PostPrinted)
    requires s.writer == LastWait && s.reader == Check ==> s.shm == ""
    ensures StepsLeft(Apply(s, ReaderStep)) < StepsLeft(s)
  {
  }

  /** Every run comes to an end. */
  lemma EveryStepCounts(s: State, a: Action)
    requires Reachable(Init, Next, s) && Enabled(s, a)
    ensures StepsLeft(Apply(s, a)) < StepsLeft(s)
  {
    ReachableInv(s);
    hide Chunks, FirstBlank, Printed, Apply, StepsLeft;
    if a == WriterStep {
      WriterStepCounts(s);
    } else {
      ReaderStepCounts(s);
    }
  }

  /** A run is never longer than the bound on its first state. */
  lemma {:induction false} RunIsBounded(run: seq<State>, i: nat)
    requires IsRun(Init, Next, run) && i < |run|
    ensures Reachable(Init, Next, run[i]) && run[i].input == run[0].input
    ensures i <= StepsLeft(run[0]) - StepsLeft(run[i])
  {
    if i == 0 {
      InitialReachable(Init, Next, run[0]);
    } else {
      RunIsBounded(run, i - 1);
      assert Next(run[i - 1], run[i]);
      var a :| Enabled(run[i - 1], a) && run[i] == Apply(run[i - 1], a);
      hide StepsLeft;
      EveryStepCounts(run[i - 1], a);
      StepReachable(Init, Next, run[i - 1], run[i]);
    }
  }

  /** So for an input of n characters no run has more than 10 n + 12 steps. */
  lemma RunsAreShort(run: seq<State>)
    requires IsRun(Init, Next, run)
    ensures |run| - 1 < 10 * |run[0].input| + 12
  {
    RunIsBounded(run, |run| - 1);
  }

  lemma {:induction false} Continue(run: seq<State>) returns (finished: seq<State>)
    requires IsRun(Init, Next, run)
    ensures IsRun(Init, Next, finished) && run <= finished && Finished(finished[|finished| - 1])
    decreases 10 * |run[0].input| + 12 - |run|
  {
    RunsAreShort(run);
    var s := run[|run| - 1];
    if a :| Enabled(s, a) {
      assert Next(s, Apply(s, a));
      finished := Continue(run + [Apply(s, a)]);
    } else {
      finished := run;
    }
  }

  /** Every input has a run that comes to its end, and by FinalTransfer all of them print the same. */
  lemma FinishedRun(input: string) returns (run: seq<State>)
    ensures IsRun(Init, Next, run) && run[0].input == input && Finished(run[|run| - 1])
    ensures run[|run| - 1].output == Printed(Chunks(input), FirstBlank(Chunks(input)))
  {
    run := Continue([State(input, input, 0, "", "", 1, 0, WriterWait, ReaderWait)]);
    RunIsBounded(run, |run| - 1);
    FinalTransfer(run[|run| - 1]);
  }

  // ---------- the mapped buffer, updated in place ----------

  class SharedMemory {
    const shmem: array<char>
    const input: string
    var rest: string
    var fetched: nat
    var output: string
    var writerSem: nat
    var readerSem: nat
    var writer: WriterPc
    var reader: ReaderPc

    ghost predicate Valid()
      reads this, shmem
    {
      shmem.Length == SHM_SIZE && (writer.CopyLine? ==> |writer.line| < SHM_SIZE)
    }

    ghost function Snapshot(): State
      reads this, shmem
    {
      State(input, rest, fetched, CString(shmem[..]), output, writerSem, readerSem, writer, reader)
    }

    constructor (input: string)
      ensures Valid() && fresh(shmem) && this.input == input && Init(Snapshot())
    {
      shmem := new char[SHM_SIZE](_ => NUL);
      this.input := input;
      rest, fetched, output := input, 0, "";
      writerSem, readerSem, writer, reader := 1, 0, WriterWait, ReaderWait;
    }

    /** strncpy into the whole buffer: the string, then NULs up to the end. */
    method Fill(line: string)
      requires shmem.Length == SHM_SIZE && |line| < SHM_SIZE
      modifies shmem
      ensures CString(shmem[..]) == CString(line)
    {
      var text := CString(line);
      var i := 0;
      while i < shmem.Length
        invariant 0 <= i <= shmem.Length
        invariant forall k | 0 <= k < i :: shmem[k] == if k < |text| then text[k] else NUL
      {
        shmem[i] := if i < |text| then text[i] else NUL;
        i := i + 1;
      }
      assert shmem[..] == text + shmem[..][|text|..];
      CStringOfPadded(text, shmem[..][|text|..]);
    }

    method WriterMove()
      requires Valid() && Enabled(Snapshot(), WriterStep)
      modifies this, shmem
      ensures Valid() && Snapshot() == Apply(old(Snapshot()), WriterStep)
    {
      match writer
      case WriterWait =>
        writerSem := writerSem - 1;
        writer := Fetch;
      case Fetch =>
        var n := FgetsLength(rest, SHM_SIZE);
        if n == 0 {
          writer := CopyEnd;
        } else {
          writer := CopyLine(rest[..n]);
          rest, fetched := rest[n..], fetched + 1;
        }
      case CopyLine(line) =>
        Fill(line);
        writer := PostLine;
      case CopyEnd =>
        Fill("");
        writer := PostEnd;
      case PostLine =>
        readerSem := readerSem + 1;
        writer := WriterWait;
      case PostEnd =>
        readerSem := readerSem + 1;
        writer := LastWait;
      case LastWait =>
        writerSem := writerSem - 1;
        writer := Unlink;
      case Unlink =>
        writer := WriterDone;
    }

    method ReaderMove()
      requires Valid() && Enabled(Snapshot(), ReaderStep)
      modifies this
      ensures Valid() && Snapshot() == Apply(old(Snapshot()), ReaderStep)
    {
      match reader
      case ReaderWait =>
        readerSem := readerSem - 1;
        reader := Check;
      case Check =>
        reader := if |CString(shmem[..])| == 0 then PostQuit else Print;
      case Print =>
        output := output + CString(shmem[..]);
        reader := PostPrinted;
      case PostPrinted =>
        writerSem := writerSem + 1;
        reader := ReaderWait;
      case PostQuit =>
        writerSem := writerSem + 1;
        reader := ReaderDone;
    }
  }
}
