/** NULL-terminated argument vectors and the descriptor table of a process (SP_HW5/part2). */
module Argv {

  datatype Slot = Null | Word(text: string)

  /** The words of an argument vector: everything before the first NULL. */
  function Words(slots: seq<Slot>): (words: seq<string>)
    ensures |words| <= |slots|
    ensures forall k | 0 <= k < |words| :: slots[k] == Word(words[k])
    ensures |words| < |slots| ==> slots[|words|] == Null
  {
    if slots == [] || slots[0].Null? then [] else [slots[0].text] + Words(slots[1..])
  }

  predicate Terminated(slots: seq<Slot>) {
    Null in slots
  }

  lemma {:induction false} WordsEndAtNull(slots: seq<Slot>, words: seq<string>)
    requires |words| < |slots| && slots[|words|] == Null
    requires forall k | 0 <= k < |words| :: slots[k] == Word(words[k])
    ensures Words(slots) == words
  {
    if words != [] {
      WordsEndAtNull(slots[1..], words[1..]);
      assert words == [words[0]] + words[1..];
    }
  }

  /** `words`, and nothing more, stand at `base`, with a NULL behind them. */
  predicate Spells(slots: seq<Slot>, base: nat, words: seq<string>) {
    && base + |words| < |slots|
    && slots[base + |words|] == Null
    && forall k | 0 <= k < |words| :: slots[base + k] == Word(words[k])
  }

  lemma SpellsWords(slots: seq<Slot>, base: nat, words: seq<string>)
    requires Spells(slots, base, words)
    ensures base <= |slots| && Words(slots[base..]) == words
  {
    WordsEndAtNull(slots[base..], words);
  }

  lemma TerminatedSpells(slots: seq<Slot>)
    requires Terminated(slots)
    ensures Spells(slots, 0, Words(slots))
  {
    TerminatedHasRoom(slots);
  }

  lemma {:induction false} TerminatedHasRoom(slots: seq<Slot>)
    requires Terminated(slots)
    ensures |Words(slots)| < |slots|
  {
    if slots[0] != Null {
      TerminatedHasRoom(slots[1..]);
    }
  }

  /** The position of the first occurrence of a word, or the length when there is none. */
  function FirstIndex(words: seq<string>, w: string): (i: nat)
    ensures i <= |words| && w !in words[..i]
    ensures i < |words| ==> words[i] == w
  {
    if words == [] || words[0] == w then 0 else 1 + FirstIndex(words[1..], w)
  }

  lemma {:induction false} FirstIndexUnique(words: seq<string>, w: string, i: nat)
    requires i <= |words| && w !in words[..i]
    requires i < |words| ==> words[i] == w
    ensures FirstIndex(words, w) == i
  {
    if i > 0 {
      assert words[..i][0] == words[0] && words[1..][..i - 1] == words[..i][1..];
      FirstIndexUnique(words[1..], w, i - 1);
    }
  }

  function CutAt(words: seq<string>, w: string): seq<string> {
    words[..FirstIndex(words, w)]
  }

  // ---------- descriptors ----------

  datatype File = Opened(name: string) | ReadEnd(pipe: nat) | WriteEnd(pipe: nat)

  type FdTable = map<nat, File>

  function Above(used: set<nat>, k: nat): set<nat> {
    set x | x in used && k <= x
  }

  function FreeFrom(used: set<nat>, k: nat): (fd: nat)
    ensures fd !in used && k <= fd
    ensures forall x: nat | k <= x < fd :: x in used
    decreases Above(used, k)
  {
    if k in used then
      assert k in Above(used, k) && k !in Above(used, k + 1);
      FreeFrom(used, k + 1)
    else k
  }

  /** The kernel hands out the lowest descriptor that is not open. */
  function LowestFree(fds: FdTable): (fd: nat)
    ensures fd !in fds && forall x: nat | x < fd :: x in fds
  {
    FreeFrom(fds.Keys, 0)
  }

  function Close(fds: FdTable, fd: nat): FdTable {
    fds - {fd}
  }

  function Dup2(fds: FdTable, from: nat, to: nat): FdTable
    requires from in fds
  {
    fds[to := fds[from]]
  }

  predicate HasStdio(fds: FdTable) {
    0 in fds && 1 in fds
  }

  /** open, dup2 onto `target`, close: only `target` changes. */
  lemma OpenOnto(fds: FdTable, name: string, target: nat)
    requires target in fds
    ensures var fd := LowestFree(fds);
            Close(Dup2(fds[fd := Opened(name)], fd, target), fd) == fds[target := Opened(name)]
  {
  }
}
