/** Shell pipelines: finding the first bar, splitting argv there, wiring the two halves through a pipe and
    recursing on the right half (SP_HW5/part2/pipe_present.c and pipe_command.c). */
module Pipeline {
  import opened Argv

  const BAR := "|"

  /** Capacity of the vectors that `pipe_and_exec` allocates. */
  const MAX_ARGS := 20

  // ---------- finding the bar ----------

  /** The index of the first bar; 0 when there is none, -1 when it comes first or last. */
  function BarAt(words: seq<string>): (r: int)
    ensures r == 0 <==> "|" !in words
    ensures r > 0 ==> r + 1 < |words| && words[r] == "|" && "|" !in words[..r]
    ensures r < 0 ==> r == -1 && (words[0] == "|" || (words[|words| - 1] == "|" && "|" !in words[..|words| - 1]))
  {
    var i := FirstIndex(words, BAR);
    if i == |words| then 0 else if i == 0 || i + 1 == |words| then -1 else i
  }

  method PipePresent(argv: array<Slot>, base: nat, ghost words: seq<string>) returns (r: int)
    requires Spells(argv[..], base, words)
    ensures r == BarAt(words)
  {
    var index := 0;
    while argv[base + index] != Null
      invariant 0 <= index <= |words|
      invariant BAR !in words[..index]
      decreases |words| - index
    {
      if argv[base + index].text == BAR {
        break;
      }
      index := index + 1;
    }
    FirstIndexUnique(words, BAR, index);
    if argv[base + index] == Null {
      return 0;
    }
    assert index + 1 < |words| ==> argv[base + (index + 1)] == Word(words[index + 1]);
    if index == 0 || argv[base + index + 1] == Null {
      return -1;
    }
    return index;
  }

  // ---------- splitting ----------

  /** A process that reaches exec: its argument vector and its open descriptors. */
  datatype Stage = Stage(argv: seq<string>, fds: FdTable)

  /** After pipe(): the two lowest free descriptors are the ends of pipe p. */
  function WithPipe(fds: FdTable, p: nat): (r: (FdTable, nat, nat))
    ensures r.1 !in fds && r.2 !in fds && r.1 != r.2
    ensures r.0 == fds[r.1 := ReadEnd(p)][r.2 := WriteEnd(p)]
  {
    var readFd := LowestFree(fds);
    var writeFd := LowestFree(fds[readFd := ReadEnd(p)]);
    (fds[readFd := ReadEnd(p)][writeFd := WriteEnd(p)], readFd, writeFd)
  }

  /** pipe() takes the lowest descriptors that are free, the read end first. */
  lemma PipeTakesLowest(fds: FdTable, p: nat)
    ensures var r := WithPipe(fds, p);
            && (forall fd: nat | fd < r.1 :: fd in fds)
            && forall fd: nat | fd < r.2 :: fd in fds || fd == r.1
  {
    var readFd := LowestFree(fds);
    var writeFd := LowestFree(fds[readFd := ReadEnd(p)]);
    forall fd: nat | fd < writeFd
      ensures fd in fds || fd == readFd
    {
      assert fd in fds[readFd := ReadEnd(p)];
    }
  }

  /** The talking parent: read end closed, write end also on standard output. */
  function ParentTable(fds: FdTable, p: nat): FdTable {
    var (table, readFd, writeFd) := WithPipe(fds, p);
    Dup2(Close(table, readFd), writeFd, 1)
  }

  /** The listening child: write end closed, read end also on standard input. */
  function ChildTable(fds: FdTable, p: nat): FdTable {
    var (table, readFd, writeFd) := WithPipe(fds, p);
    Dup2(Close(table, writeFd), readFd, 0)
  }

  /** The processes that reach exec, in pipeline order; p numbers the next pipe. */
  function Stages(words: seq<string>, fds: FdTable, p: nat): seq<Stage>
    decreases |words|
  {
    var bar := BarAt(words);
    if bar < 0 then []
    else if bar == 0 then [Stage(words, fds)]
    else [Stage(words[..bar], ParentTable(fds, p))] + Stages(words[bar + 1..], ChildTable(fds, p), p + 1)
  }

  /** What the fixed-size copies made before a fork ask of a command line. */
  predicate Fits(words: seq<string>) {
    |words| <= 20 && forall k | 0 <= k < |words| :: |words[k]| < 50
  }

  /** The copy of the command before the bar. */
  method CopyLeft(argv: array<Slot>, base: nat, bar: nat, ghost words: seq<string>) returns (left: array<Slot>)
    requires Spells(argv[..], base, words) && Fits(words) && bar < |words|
    ensures fresh(left) && left.Length == MAX_ARGS && Spells(left[..], 0, words[..bar])
  {
    left := new Slot[MAX_ARGS](_ => Null);
    var i := 0;
    while i < bar
      invariant 0 <= i <= bar
      invariant forall k | 0 <= k < i :: left[k] == Word(words[k])
    {
      left[i] := argv[base + i];
      i := i + 1;
    }
    left[i] := Null;
  }

  /** The copy of the rest keeps its old indices, but its NULL goes where the rest would end if it had been moved
      to the front. It stays inside its allocation and is never read again. */
  method CopyRight(argv: array<Slot>, base: nat, bar: nat, ghost words: seq<string>) returns (right: array<Slot>)
    requires Spells(argv[..], base, words) && Fits(words) && bar < |words|
    ensures fresh(right) && right.Length == MAX_ARGS
    ensures right[|words| - bar - 1] == Null
    ensures forall k | bar < k < |words| && k != |words| - bar - 1 :: right[k] == Word(words[k])
  {
    right := new Slot[MAX_ARGS](_ => Null);
    var j := 0;
    var i := bar + 1;
    while argv[base + i] != Null
      invariant bar < i <= |words| && j == i - bar - 1
      invariant i < |words| ==> argv[base + i] == Word(words[i])
      invariant forall k | bar < k < i :: right[k] == Word(words[k])
      decreases |words| - i
    {
      right[i] := argv[base + i];
      i := i + 1;
      j := j + 1;
    }
    right[j] := Null;
  }

  // ---------- what is exec'ed ----------

  /** The bar-separated parts of a command line; n bars make n + 1 parts. */
  function Segments(words: seq<string>): (segs: seq<seq<string>>)
    ensures segs != []
    ensures forall k | 0 <= k < |segs| :: BAR !in segs[k]
    decreases |words|
  {
    var i := FirstIndex(words, BAR);
    if i == |words| then [words] else [words[..i]] + Segments(words[i + 1..])
  }

  function Join(segs: seq<seq<string>>): seq<string>
    requires segs != []
  {
    if |segs| == 1 then segs[0] else segs[0] + ["|"] + Join(segs[1..])
  }

  /** Joining the parts with bars gives the command line back. */
  lemma {:induction false} JoinOfSegments(words: seq<string>)
    ensures Join(Segments(words)) == words
    decreases |words|
  {
    hide *;
    SegmentsUnfold(words);
    var i := FirstIndex(words, BAR);
    if i == |words| {
      JoinOfOne(words);
    } else {
      var rest := words[i + 1..];
      JoinOfSegments(rest);
      JoinUnfolds(words[..i], Segments(rest));
      assert words == words[..i] + ["|"] + rest;
    }
  }

  lemma SegmentsUnfold(words: seq<string>)
    ensures var i := FirstIndex(words, BAR);
            && (i < |words| ==> words[i] == "|")
            && Segments(words) == if i == |words| then [words] else [words[..i]] + Segments(words[i + 1..])
  {
    hide FirstIndex, Join;
  }

  lemma JoinOfOne(words: seq<string>)
    ensures Join([words]) == words
  {
  }

  lemma JoinUnfolds(first: seq<string>, segs: seq<seq<string>>)
    requires segs != []
    ensures Join([first] + segs) == first + ["|"] + Join(segs)
  {
    assert ([first] + segs)[1..] == segs;
  }

  /** There is no other way to cut a command line into bar-free parts. */
  lemma {:induction false} SegmentsOfJoin(segs: seq<seq<string>>)
    requires segs != [] && forall k | 0 <= k < |segs| :: BAR !in segs[k]
    ensures Segments(Join(segs)) == segs
  {
    var words := Join(segs);
    SegmentsUnfold(words);
    hide Segments;
    if |segs| == 1 {
      FirstIndexUnique(words, BAR, |words|);
    } else {
      JoinUnfolds(segs[0], segs[1..]);
      assert segs == [segs[0]] + segs[1..];
      hide Join;
      assert words[..|segs[0]|] == segs[0] && words[|segs[0]| + 1..] == Join(segs[1..]);
      FirstIndexUnique(words, BAR, |segs[0]|);
      SegmentsOfJoin(segs[1..]);
    }
  }

  function FirstEmpty(segs: seq<seq<string>>): (e: nat)
    ensures e <= |segs| && forall k | 0 <= k < e :: segs[k] != []
    ensures e < |segs| ==> segs[e] == []
  {
    if segs == [] || segs[0] == [] then 0 else 1 + FirstEmpty(segs[1..])
  }

  /** How many parts are exec'ed. All of them if none is empty, and also for an empty line without bars, which
      is exec'ed as it is. Otherwise the parts before the first empty one; when that is the last part, the
      part before it is lost as well, since a bar with nothing behind it is rejected together with its left side. */
  function ExecCount(segs: seq<seq<string>>): (n: nat)
    requires segs != []
  {
    var e := FirstEmpty(segs);
    if e == |segs| || |segs| == 1 then |segs|
    else if e == |segs| - 1 then e - 1
    else e
  }

  function Commands(stages: seq<Stage>): (argvs: seq<seq<string>>)
    ensures |argvs| == |stages| && forall k | 0 <= k < |stages| :: argvs[k] == stages[k].argv
  {
    seq(|stages|, k requires 0 <= k < |stages| => stages[k].argv)
  }

  lemma SegmentsAtBar(words: seq<string>)
    ensures var bar := BarAt(words);
            && (bar == 0 ==> Segments(words) == [words])
            && (bar > 0 ==> Segments(words) == [words[..bar]] + Segments(words[bar + 1..]))
  {
    var bar := BarAt(words);
    if bar > 0 {
      FirstIndexUnique(words, BAR, bar);
    } else if bar == 0 {
      FirstIndexUnique(words, BAR, |words|);
    }
  }

  /** A rejected line has an empty first part, or two parts of which the second is empty. */
  lemma SegmentsOfRejected(words: seq<string>)
    requires BarAt(words) < 0
    ensures var segs := Segments(words);
            |segs| > 1 && (segs[0] == [] || (|segs| == 2 && segs[1] == []))
  {
    var i := FirstIndex(words, BAR);
    if i > 0 {
      assert words[i + 1..] == [];
    }
  }

  /** Stages and parts unfold alike at the first bar. */
  lemma AtFirstBar(words: seq<string>, fds: FdTable, p: nat)
    ensures var bar, stages := BarAt(words), Stages(words, fds, p);
            && (bar < 0 ==> stages == [])
            && (bar == 0 ==> stages == [Stage(words, fds)] && Segments(words) == [words])
            && (bar > 0 ==>
                  && Segments(words) == [words[..bar]] + Segments(words[bar + 1..])
                  && stages == [Stage(words[..bar], ParentTable(fds, p))]
                               + Stages(words[bar + 1..], ChildTable(fds, p), p + 1))
  {
    hide ChildTable, ParentTable, BarAt, Segments;
    SegmentsAtBar(words);
  }

  /** The pipe, the fork and the descriptor work of both sides. */
  method ForkAroundPipe(fds: FdTable, p: nat) returns (parent: FdTable, child: FdTable)
    ensures parent == ParentTable(fds, p) && child == ChildTable(fds, p)
  {
    var (table, readFd, writeFd) := WithPipe(fds, p);
    parent := Dup2(Close(table, readFd), writeFd, 1);
    child := Dup2(Close(table, writeFd), readFd, 0);
  }

  lemma BehindBar(slots: seq<Slot>, base: nat, words: seq<string>)
    requires Spells(slots, base, words) && Fits(words) && BarAt(words) > 0
    ensures var bar := BarAt(words);
            Spells(slots, base + bar + 1, words[bar + 1..]) && Fits(words[bar + 1..])
  {
    var bar := BarAt(words);
    var rest := words[bar + 1..];
    forall k: nat | k < |rest|
      ensures slots[base + bar + 1 + k] == Word(rest[k])
    {
      assert slots[base + (bar + 1 + k)] == Word(words[bar + 1 + k]);
    }
  }

  /** The fork splits this call in two: the parent execs the left half, the child carries on with the rest of
      argv, behind the bar. */
  method PipeAndExec(argv: array<Slot>, base: nat, fds: FdTable, p: nat, ghost words: seq<string>)
    returns (stages: seq<Stage>)
    requires Spells(argv[..], base, words) && (BarAt(words) > 0 ==> Fits(words))
    ensures stages == Stages(words, fds, p)
    decreases |words|
  {
    hide *;
    ghost var slots := argv[..];
    AtFirstBar(words, fds, p);
    var bar := PipePresent(argv, base, words);
    if bar == -1 {
      return [];
    }
    if bar == 0 {
      SpellsWords(slots, base, words);
      assert argv[base..] == slots[base..];
      return [Stage(Words(argv[base..]), fds)];
    }
    var left := CopyLeft(argv, base, bar, words);
    var _ := CopyRight(argv, base, bar, words);
    assert argv[..] == slots;
    SpellsWords(left[..], 0, words[..bar]);
    assert left[..][0..] == left[..];
    var parent, child := ForkAroundPipe(fds, p);
    BehindBar(slots, base, words);
    var rest := PipeAndExec(argv, base + bar + 1, child, p + 1, words[bar + 1..]);
    return [Stage(Words(left[..]), parent)] + rest;
  }

  /** For every argv, the commands exec'ed are a prefix of its bar-separated parts, in order, and the length of
      that prefix is known. */
  lemma {:induction false} ExecutesPrefixOfSegments(words: seq<string>, fds: FdTable, p: nat)
    ensures ExecCount(Segments(words)) <= |Segments(words)|
    ensures Commands(Stages(words, fds, p)) == Segments(words)[..ExecCount(Segments(words))]
    decreases |words|
  {
    hide ChildTable, ParentTable, BarAt, Segments, Stages, FirstIndex;
    AtFirstBar(words, fds, p);
    var segs, bar := Segments(words), BarAt(words);
    if bar < 0 {
      SegmentsOfRejected(words);
    } else if bar > 0 {
      var rest := words[bar + 1..];
      ExecutesPrefixOfSegments(rest, ChildTable(fds, p), p + 1);
      assert segs[1..] == Segments(rest);
      FirstEmptyOfTail(segs);
      JoinOfSegments(rest);
      assert rest != [] && Segments(rest) != [[]];
    }
  }

  lemma FirstEmptyOfTail(segs: seq<seq<string>>)
    requires |segs| > 1 && segs[0] != []
    ensures FirstEmpty(segs) == 1 + FirstEmpty(segs[1..])
  {
  }

  // ---------- how the stages are wired ----------

  /** The descriptors of the process that carries the line on after k forks. */
  function AfterForks(fds: FdTable, p: nat, k: nat): FdTable {
    if k == 0 then fds else ChildTable(AfterForks(fds, p, k - 1), p + k - 1)
  }

  lemma {:induction false} FirstForkThenRest(fds: FdTable, p: nat, k: nat)
    ensures AfterForks(ChildTable(fds, p), p + 1, k) == AfterForks(fds, p, k + 1)
  {
    hide ChildTable, ParentTable;
    if k > 0 {
      FirstForkThenRest(fds, p, k - 1);
    }
  }

  function StageTable(fds: FdTable, p: nat, k: nat, last: bool): FdTable {
    if last then AfterForks(fds, p, k) else ParentTable(AfterForks(fds, p, k), p + k)
  }

  /** Stage k runs with what is left after k forks, redirected into its own pipe unless it is the last part. */
  lemma {:induction false} TableOfStage(words: seq<string>, fds: FdTable, p: nat, k: nat)
    requires k < |Stages(words, fds, p)|
    ensures Stages(words, fds, p)[k].fds == StageTable(fds, p, k, k == |Segments(words)| - 1)
    decreases k
  {
    hide ChildTable, ParentTable, BarAt, Stages, Segments, FirstIndex;
    AtFirstBar(words, fds, p);
    var bar := BarAt(words);
    if k > 0 {
      var rest, child := words[bar + 1..], ChildTable(fds, p);
      TableOfStage(rest, child, p + 1, k - 1);
      FirstForkThenRest(fds, p, k - 1);
    }
  }

  /** No end of pipe p or of a later pipe is open yet. */
  ghost predicate NoPipesFrom(fds: FdTable, p: nat) {
    forall fd | fd in fds :: fds[fd].Opened? || fds[fd].pipe < p
  }

  /** Something open is this file. */
  ghost predicate IsOpen(fds: FdTable, file: File) {
    exists fd :: OpenAt(fds, fd, file)
  }

  ghost predicate OpenAt(fds: FdTable, fd: nat, file: File) {
    fd in fds && fds[fd] == file
  }

  /** Pipe q can be read, on some descriptor that no later fork reuses. */
  ghost predicate KeepsReadEnd(fds: FdTable, q: nat) {
    exists fd: nat :: fd >= 2 && OpenAt(fds, fd, ReadEnd(q))
  }

  /** What one fork changes, seen from the listening child. */
  lemma ChildWiring(fds: FdTable, p: nat)
    requires HasStdio(fds)
    ensures var child := ChildTable(fds, p);
            && HasStdio(child) && child[0] == ReadEnd(p) && child[1] == fds[1]
            && KeepsReadEnd(child, p)
            && (forall fd | fd in fds && fd >= 2 :: fd in child && child[fd] == fds[fd])
            && forall fd | fd in child :: child[fd] == ReadEnd(p) || (fd in fds && child[fd] == fds[fd])
  {
    var (table, readFd, writeFd) := WithPipe(fds, p);
    assert readFd >= 2 && OpenAt(ChildTable(fds, p), readFd, ReadEnd(p));
  }

  /** What one fork changes, seen from the talking parent. */
  lemma ParentWiring(fds: FdTable, p: nat)
    requires HasStdio(fds)
    ensures var parent := ParentTable(fds, p);
            && HasStdio(parent) && parent[0] == fds[0] && parent[1] == WriteEnd(p)
            && (exists fd: nat :: fd >= 2 && OpenAt(parent, fd, WriteEnd(p)))
            && (forall fd | fd in fds && fd >= 2 :: fd in parent && parent[fd] == fds[fd])
            && forall fd | fd in parent :: parent[fd] == WriteEnd(p) || (fd in fds && parent[fd] == fds[fd])
  {
    var (table, readFd, writeFd) := WithPipe(fds, p);
    assert writeFd >= 2 && OpenAt(ParentTable(fds, p), writeFd, WriteEnd(p));
  }

  lemma {:induction false} ForksWiring(fds: FdTable, p: nat, k: nat, q: nat)
    requires HasStdio(fds) && NoPipesFrom(fds, p) && p <= q
    ensures var table := AfterForks(fds, p, k);
            && HasStdio(table)
            && table[0] == (if k == 0 then fds[0] else ReadEnd(p + k - 1))
            && table[1] == fds[1]
            && !IsOpen(table, WriteEnd(q))
            && (q < p + k ==> KeepsReadEnd(table, q))
            && (IsOpen(table, ReadEnd(q)) <==> q < p + k)
  {
    hide ChildTable, ParentTable;
    if k > 0 {
      var before, table := AfterForks(fds, p, k - 1), AfterForks(fds, p, k);
      ForksWiring(fds, p, k - 1, q);
      ChildWiring(before, p + k - 1);
      forall fd | OpenAt(table, fd, ReadEnd(q)) && q != p + k - 1
        ensures OpenAt(before, fd, ReadEnd(q))
      {
      }
      forall fd | OpenAt(table, fd, WriteEnd(q))
        ensures OpenAt(before, fd, WriteEnd(q))
      {
      }
      if q < p + k - 1 {
        var fd: nat :| fd >= 2 && OpenAt(before, fd, ReadEnd(q));
        assert OpenAt(table, fd, ReadEnd(q));
      }
    }
  }

  /** The wiring of stage k of a line. Standard input is the read end of the pipe before it, standard output the
      write end of the pipe behind it; the two outer ends are the original ones. The write end of a pipe is open
      in one stage only, so its reader sees end of file as soon as that stage is gone; the read end is open in
      every later stage. */
  lemma StageWiring(words: seq<string>, fds: FdTable, p: nat, k: nat, q: nat)
    requires k < |Stages(words, fds, p)| && HasStdio(fds) && NoPipesFrom(fds, p) && p <= q
    ensures var stage, last := Stages(words, fds, p)[k].fds, |Segments(words)| - 1;
            && k <= last
            && HasStdio(stage)
            && stage[0] == (if k == 0 then fds[0] else ReadEnd(p + k - 1))
            && stage[1] == (if k == last then fds[1] else WriteEnd(p + k))
            && (IsOpen(stage, WriteEnd(q)) <==> q == p + k && k < last)
            && (IsOpen(stage, ReadEnd(q)) <==> q < p + k)
  {
    hide *;
    ExecutesPrefixOfSegments(words, fds, p);
    TableOfStage(words, fds, p, k);
    StageTableUnfolds(fds, p, k);
    ForksWiring(fds, p, k, q);
    if k < |Segments(words)| - 1 {
      ForksWiring(fds, p, k, p + k);
      TalkingStage(AfterForks(fds, p, k), p + k, q);
    }
  }

  lemma StageTableUnfolds(fds: FdTable, p: nat, k: nat)
    ensures StageTable(fds, p, k, true) == AfterForks(fds, p, k)
    ensures StageTable(fds, p, k, false) == ParentTable(AfterForks(fds, p, k), p + k)
  {
  }

  lemma TalkingStage(fds: FdTable, p: nat, q: nat)
    requires HasStdio(fds) && !IsOpen(fds, WriteEnd(q))
    requires IsOpen(fds, ReadEnd(q)) ==> KeepsReadEnd(fds, q)
    requires !IsOpen(fds, ReadEnd(p))
    ensures var parent := ParentTable(fds, p);
            && HasStdio(parent) && parent[0] == fds[0] && parent[1] == WriteEnd(p)
            && (IsOpen(parent, WriteEnd(q)) <==> q == p)
            && (IsOpen(parent, ReadEnd(q)) <==> IsOpen(fds, ReadEnd(q)))
  {
    var parent := ParentTable(fds, p);
    ParentWiring(fds, p);
    assert OpenAt(parent, 1, WriteEnd(p));
    forall fd | OpenAt(parent, fd, ReadEnd(q)) || (q != p && OpenAt(parent, fd, WriteEnd(q)))
      ensures OpenAt(fds, fd, parent[fd])
    {
    }
    if IsOpen(fds, ReadEnd(q)) {
      var fd: nat :| fd >= 2 && OpenAt(fds, fd, ReadEnd(q));
      assert OpenAt(parent, fd, ReadEnd(q));
    }
  }

  predicate NoEmptyPart(segs: seq<seq<string>>) {
    forall k | 0 <= k < |segs| :: segs[k] != []
  }

  /** The first stage reads from this file, and the last one writes to that one. */
  predicate EndsAre(stages: seq<Stage>, input: File, output: File) {
    && stages != []
    && 0 in stages[0].fds && stages[0].fds[0] == input
    && 1 in stages[|stages| - 1].fds && stages[|stages| - 1].fds[1] == output
  }

  lemma NoneEmptyRunsAll(segs: seq<seq<string>>)
    requires segs != [] && NoEmptyPart(segs)
    ensures segs[..ExecCount(segs)] == segs
  {
    assert FirstEmpty(segs) == |segs|;
  }

  /** A pipeline with no empty part runs every part, and its two ends are the ends of the line. */
  lemma WellFormedPipeline(words: seq<string>, fds: FdTable, p: nat)
    requires HasStdio(fds) && NoPipesFrom(fds, p) && NoEmptyPart(Segments(words))
    ensures Commands(Stages(words, fds, p)) == Segments(words)
    ensures Join(Commands(Stages(words, fds, p))) == words
    ensures EndsAre(Stages(words, fds, p), fds[0], fds[1])
  {
    hide *;
    ExecutesPrefixOfSegments(words, fds, p);
    JoinOfSegments(words);
    NoneEmptyRunsAll(Segments(words));
    var stages := Stages(words, fds, p);
    StageWiring(words, fds, p, 0, p);
    StageWiring(words, fds, p, |stages| - 1, p);
    EndsOfStages(stages, fds);
  }

  lemma EndsOfStages(stages: seq<Stage>, fds: FdTable)
    requires stages != [] && HasStdio(fds) && HasStdio(stages[0].fds) && HasStdio(stages[|stages| - 1].fds)
    requires stages[0].fds[0] == fds[0] && stages[|stages| - 1].fds[1] == fds[1]
    ensures EndsAre(stages, fds[0], fds[1])
  {
  }
}
