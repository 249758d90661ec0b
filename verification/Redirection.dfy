/** Input and output redirection: rewriting argv and standard descriptors in place
    (SP_HW5/part2/redirect_in.c and redirect_out.c). */
module Redirection {
  import opened Argv

  /** -1 when the symbol does not occur, 0 on success; the process exits when the file cannot be opened. */
  datatype Status = NotFound | Success | Exit

  /** Opening argv[i + 1] succeeds when that slot holds the name of a file that can be opened. */
  predicate CanOpen(slots: seq<Slot>, i: nat, files: set<string>) {
    i + 1 < |slots| && slots[i + 1].Word? && slots[i + 1].text in files
  }

  /** The linear search both redirections start with. */
  method Search(argv: array<Slot>, symbol: string) returns (i: nat)
    requires Terminated(argv[..])
    ensures i == FirstIndex(Words(argv[..]), symbol)
    ensures i + 1 < argv.Length || (i < argv.Length && i == |Words(argv[..])|)
  {
    ghost var words := Words(argv[..]);
    TerminatedHasRoom(argv[..]);
    i := 0;
    while argv[i] != Null
      invariant i <= |words|
      invariant symbol !in words[..i]
      decreases |words| - i
    {
      assert argv[..][i] == Word(words[i]);
      if argv[i].text == symbol {
        FirstIndexUnique(words, symbol, i);
        return;
      }
      i := i + 1;
    }
    FirstIndexUnique(words, symbol, i);
  }

  /** `<` is found, its file becomes descriptor 0, and the slot of `<` becomes NULL: everything from the `<` on
      is cut off. The slots behind it stay as they were. */
  method RedirectIn(argv: array<Slot>, fds: FdTable, files: set<string>) returns (status: Status, fds': FdTable)
    requires Terminated(argv[..]) && HasStdio(fds)
    modifies argv
    ensures var words, i := old(Words(argv[..])), FirstIndex(old(Words(argv[..])), "<");
            && (status == NotFound <==> "<" !in words)
            && (status == Exit <==> "<" in words && !CanOpen(old(argv[..]), i, files))
            && (status != Success ==> argv[..] == old(argv[..]) && fds' == fds)
            && (status == Success ==>
                  && CanOpen(old(argv[..]), i, files)
                  && argv[..] == old(argv[..])[i := Null]
                  && Words(argv[..]) == CutAt(words, "<")
                  && fds' == fds[0 := Opened(words[i + 1])])
  {
    fds' := fds;
    ghost var words := Words(argv[..]);
    var i := Search(argv, "<");
    if argv[i] == Null {
      return NotFound, fds;
    }
    assert words[i] == "<";
    if argv[i + 1] == Null || argv[i + 1].text !in files {
      return Exit, fds;
    }
    var name := argv[i + 1].text;
    NextWord(argv[..], i);
    var fd := LowestFree(fds);
    OpenOnto(fds, name, 0);
    fds' := Close(Dup2(fds[fd := Opened(name)], fd, 0), fd);
    argv[i] := Null;
    WordsEndAtNull(argv[..], words[..i]);
    status := Success;
  }

  /** `>` likewise, with descriptor 1; here the slot of the file name becomes NULL as well. */
  method RedirectOut(argv: array<Slot>, fds: FdTable, files: set<string>) returns (status: Status, fds': FdTable)
    requires Terminated(argv[..]) && HasStdio(fds)
    modifies argv
    ensures var words, i := old(Words(argv[..])), FirstIndex(old(Words(argv[..])), ">");
            && (status == NotFound <==> ">" !in words)
            && (status == Exit <==> ">" in words && !CanOpen(old(argv[..]), i, files))
            && (status != Success ==> argv[..] == old(argv[..]) && fds' == fds)
            && (status == Success ==>
                  && CanOpen(old(argv[..]), i, files)
                  && argv[..] == old(argv[..])[i + 1 := Null][i := Null]
                  && Words(argv[..]) == CutAt(words, ">")
                  && fds' == fds[1 := Opened(words[i + 1])])
  {
    fds' := fds;
    ghost var words := Words(argv[..]);
    var i := Search(argv, ">");
    if argv[i] == Null {
      return NotFound, fds;
    }
    assert words[i] == ">";
    if argv[i + 1] == Null || argv[i + 1].text !in files {
      return Exit, fds;
    }
    var name := argv[i + 1].text;
    NextWord(argv[..], i);
    var fd := LowestFree(fds);
    OpenOnto(fds, name, 1);
    fds' := Close(Dup2(fds[fd := Opened(name)], fd, 1), fd);
    argv[i + 1] := Null;
    argv[i] := Null;
    WordsEndAtNull(argv[..], words[..i]);
    status := Success;
  }

  lemma NextWord(slots: seq<Slot>, i: nat)
    requires Terminated(slots) && i < |Words(slots)| && i + 1 < |slots| && slots[i + 1].Word?
    ensures i + 1 < |Words(slots)| && Words(slots)[i + 1] == slots[i + 1].text
  {
    assert |Words(slots)| < |slots| by {
      TerminatedHasRoom(slots);
    }
    assert slots[|Words(slots)|] == Null;
  }
}
