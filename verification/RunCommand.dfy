/** What the forked child of the shell does with a command line: input redirection, output redirection, pipeline
    (SP_HW5/part2/run_command.c). */
module RunCommand {
  import opened Argv
  import opened Pipeline
  import Redirection

  /** The child exits before any exec when a redirection cannot open its file. */
  datatype Outcome = Exited | Launched(stages: seq<Stage>)

  /** The word behind `symbol` names a file that can be opened. */
  predicate Opens(words: seq<string>, symbol: string, files: set<string>) {
    var i := FirstIndex(words, symbol);
    i + 1 < |words| && words[i + 1] in files
  }

  /** One redirection of descriptor `fd`: the table after it. */
  function Redirect(words: seq<string>, symbol: string, files: set<string>, fds: FdTable, fd: nat): FdTable {
    if symbol in words && Opens(words, symbol, files) then fds[fd := Opened(words[FirstIndex(words, symbol) + 1])]
    else fds
  }

  function Launch(words: seq<string>, fds: FdTable, readable: set<string>, writable: set<string>): Outcome {
    var front := CutAt(words, "<");
    if "<" in words && !Opens(words, "<", readable) then Exited
    else if ">" in front && !Opens(front, ">", writable) then Exited
    else
      var withInput := Redirect(words, "<", readable, fds, 0);
      Launched(Stages(CutAt(front, ">"), Redirect(front, ">", writable, withInput, 1), 0))
  }

  lemma OpensIsCanOpen(slots: seq<Slot>, symbol: string, files: set<string>)
    requires Terminated(slots) && symbol in Words(slots)
    ensures Redirection.CanOpen(slots, FirstIndex(Words(slots), symbol), files) <==> Opens(Words(slots), symbol, files)
  {
    var i := FirstIndex(Words(slots), symbol);
    TerminatedHasRoom(slots);
    if i + 1 < |slots| && slots[i + 1].Word? {
      Redirection.NextWord(slots, i);
    }
  }

  /** What either redirection comes to: it fails, or it cuts the line and sets one descriptor. */
  ghost predicate Redirected(words: seq<string>, symbol: string, files: set<string>, fds: FdTable, fd: nat,
                             status: Redirection.Status, front: seq<string>, table: FdTable)
  {
    && (status == Redirection.Exit <==> symbol in words && !Opens(words, symbol, files))
    && (status != Redirection.Exit ==> front == CutAt(words, symbol) && table == Redirect(words, symbol, files, fds, fd))
  }

  method Input(argv: array<Slot>, fds: FdTable, readable: set<string>)
    returns (status: Redirection.Status, table: FdTable)
    requires Terminated(argv[..]) && HasStdio(fds)
    modifies argv
    ensures Terminated(argv[..])
    ensures Redirected(old(Words(argv[..])), "<", readable, fds, 0, status, Words(argv[..]), table)
  {
    hide Words, FirstIndex;
    if "<" in Words(argv[..]) {
      OpensIsCanOpen(argv[..], "<", readable);
    }
    status, table := Redirection.RedirectIn(argv, fds, readable);
  }

  method Output(argv: array<Slot>, fds: FdTable, writable: set<string>)
    returns (status: Redirection.Status, table: FdTable)
    requires Terminated(argv[..]) && HasStdio(fds)
    modifies argv
    ensures Terminated(argv[..])
    ensures Redirected(old(Words(argv[..])), ">", writable, fds, 1, status, Words(argv[..]), table)
  {
    hide Words, FirstIndex;
    if ">" in Words(argv[..]) {
      OpensIsCanOpen(argv[..], ">", writable);
    }
    status, table := Redirection.RedirectOut(argv, fds, writable);
  }

  method RunChild(argv: array<Slot>, fds: FdTable, readable: set<string>, writable: set<string>)
    returns (outcome: Outcome)
    requires Terminated(argv[..]) && HasStdio(fds)
    requires var line := CutAt(CutAt(Words(argv[..]), "<"), ">"); BarAt(line) > 0 ==> Fits(line)
    modifies argv
    ensures outcome == Launch(old(Words(argv[..])), fds, readable, writable)
  {
    hide Words, FirstIndex, Stages, Opens, Fits;
    ghost var words := Words(argv[..]);
    var status, table := Input(argv, fds, readable);
    if status == Redirection.Exit {
      return Exited;
    }
    ghost var front := Words(argv[..]);
    status, table := Output(argv, table, writable);
    if status == Redirection.Exit {
      return Exited;
    }
    ghost var line := Words(argv[..]);
    TerminatedSpells(argv[..]);
    var stages := PipeAndExec(argv, 0, table, 0, line);
    return Launched(stages);
  }

  /** Cutting at the first `<` and then at the first `>` of what is left keeps what stands before the earlier of
      the two, so every bar behind either of them is dropped with the commands it joins. */
  lemma LineEndsAtFirstRedirection(words: seq<string>)
    ensures var l, g := FirstIndex(words, "<"), FirstIndex(words, ">");
            CutAt(CutAt(words, "<"), ">") == words[..if l < g then l else g]
  {
    var l, g := FirstIndex(words, "<"), FirstIndex(words, ">");
    var front := words[..l];
    if l < g {
      assert front[..|front|] == words[..g][..l];
      FirstIndexUnique(front, ">", l);
    } else {
      assert front[..g] == words[..g];
      if g < l {
        FirstIndexUnique(front, ">", g);
      } else {
        FirstIndexUnique(front, ">", l);
      }
    }
  }

  /** The first `>` of the part before the first `<`. */
  lemma OutputBeforeInput(words: seq<string>)
    ensures var l, g := FirstIndex(words, "<"), FirstIndex(words, ">");
            (">" in CutAt(words, "<") <==> g < l) && (g < l ==> FirstIndex(CutAt(words, "<"), ">") == g)
  {
    var l, g := FirstIndex(words, "<"), FirstIndex(words, ">");
    var front := words[..l];
    if g < l {
      assert front[..g] == words[..g] && front[g] == ">";
      FirstIndexUnique(front, ">", g);
    } else {
      assert front == words[..g][..l];
    }
  }

  /** The child gives up if and only if a redirection that counts cannot open its file: the first `<` of the line, or
      the first `>` before it. */
  lemma ExitsIff(words: seq<string>, fds: FdTable, readable: set<string>, writable: set<string>)
    ensures var l, g := FirstIndex(words, "<"), FirstIndex(words, ">");
            Launch(words, fds, readable, writable).Exited?
            <==> || (l < |words| && !(l + 1 < |words| && words[l + 1] in readable))
                 || (g < l && !(g + 1 < l && words[g + 1] in writable))
  {
    hide FirstIndex, Stages, Redirect;
    OutputBeforeInput(words);
    FirstIndexInside(words, "<");
  }

  /** The descriptors a launched line starts with. */
  lemma LaunchedTable(words: seq<string>, fds: FdTable, readable: set<string>, writable: set<string>)
    requires HasStdio(fds) && NoPipesFrom(fds, 0)
    requires Launch(words, fds, readable, writable).Launched?
    ensures var l, g := FirstIndex(words, "<"), FirstIndex(words, ">");
            var front := CutAt(words, "<");
            var table := Redirect(front, ">", writable, Redirect(words, "<", readable, fds, 0), 1);
            && Launch(words, fds, readable, writable).stages == Stages(CutAt(front, ">"), table, 0)
            && HasStdio(table) && NoPipesFrom(table, 0)
            && (l < |words| ==> l + 1 < |words|) && (g < l ==> g + 1 < l)
            && table[0] == (if l < |words| then Opened(words[l + 1]) else fds[0])
            && table[1] == (if g < l then Opened(words[g + 1]) else fds[1])
  {
    hide *;
    var front := CutAt(words, "<");
    LaunchUnfolds(words, fds, readable, writable);
    OutputBeforeInput(words);
    FirstIndexInside(words, "<");
    FirstIndexInside(front, ">");
    RedirectedTable(words, "<", readable, fds, 0, 1);
    RedirectedTable(front, ">", writable, Redirect(words, "<", readable, fds, 0), 1, 0);
  }

  /** One redirection that does not fail sets its descriptor and leaves the other one alone. */
  lemma RedirectedTable(words: seq<string>, symbol: string, files: set<string>, fds: FdTable, fd: nat, other: nat)
    requires HasStdio(fds) && NoPipesFrom(fds, 0) && fd != other && fd < 2 && other < 2
    requires symbol in words ==> Opens(words, symbol, files)
    ensures var i := FirstIndex(words, symbol);
            var table := Redirect(words, symbol, files, fds, fd);
            && HasStdio(table) && NoPipesFrom(table, 0) && other in table && table[other] == fds[other]
            && (symbol in words ==> i + 1 < |words|)
            && fd in table && table[fd] == (if symbol in words then Opened(words[i + 1]) else fds[fd])
  {
    hide FirstIndex;
  }

  lemma LaunchUnfolds(words: seq<string>, fds: FdTable, readable: set<string>, writable: set<string>)
    requires Launch(words, fds, readable, writable).Launched?
    ensures var front := CutAt(words, "<");
            var table := Redirect(front, ">", writable, Redirect(words, "<", readable, fds, 0), 1);
            && front == words[..FirstIndex(words, "<")]
            && Launch(words, fds, readable, writable).stages == Stages(CutAt(front, ">"), table, 0)
            && ("<" in words ==> Opens(words, "<", readable))
            && (">" in front ==> Opens(front, ">", writable))
  {
    hide Stages, FirstIndex, Redirect, Opens;
  }

  lemma FirstIndexInside(words: seq<string>, symbol: string)
    ensures symbol in words <==> FirstIndex(words, symbol) < |words|
  {
    assert words[..|words|] == words;
  }

  /** The two ends of every launched line. The first stage reads the file behind the first `<`, if there is one, and
      the original input otherwise. The last process writes to the file behind the first `>` if that comes before any
      `<`, and to the original output otherwise, so an output redirection behind the first `<` is silently lost; if a
      part of the line was rejected, the last process writes into a pipe that nobody reads. */
  lemma EndsOfLaunchedLine(words: seq<string>, fds: FdTable, readable: set<string>, writable: set<string>)
    requires HasStdio(fds) && NoPipesFrom(fds, 0)
    requires Launch(words, fds, readable, writable).Launched? && Launch(words, fds, readable, writable).stages != []
    ensures var stages := Launch(words, fds, readable, writable).stages;
            var l, g := FirstIndex(words, "<"), FirstIndex(words, ">");
            var line := CutAt(CutAt(words, "<"), ">");
            var last := stages[|stages| - 1].fds;
            && (l < |words| ==> l + 1 < |words|) && (g < l ==> g + 1 < l)
            && HasStdio(stages[0].fds) && HasStdio(last)
            && stages[0].fds[0] == (if l < |words| then Opened(words[l + 1]) else fds[0])
            && last[1] == (if |stages| < |Segments(line)| then WriteEnd(|stages| - 1)
                           else if g < l then Opened(words[g + 1]) else fds[1])
  {
    hide *;
    var front := CutAt(words, "<");
    var line := CutAt(front, ">");
    var table := Redirect(front, ">", writable, Redirect(words, "<", readable, fds, 0), 1);
    LaunchedTable(words, fds, readable, writable);
    var stages := Stages(line, table, 0);
    StageWiring(line, table, 0, 0, 0);
    StageWiring(line, table, 0, |stages| - 1, 0);
  }
}
