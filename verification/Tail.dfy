/** The last lines of a file, found by scanning it backwards in chunks (SP_HW2/tail.c). */
module Tail {
  import opened CLibrary

  const NEWLINE := '\n'

  function Newlines(s: string): (n: nat)
    ensures n <= |s|
  {
    if s == "" then 0 else (if s[0] == NEWLINE then 1 else 0) + Newlines(s[1..])
  }

  lemma {:induction false} NewlinesAdd(a: string, b: string)
    ensures Newlines(a + b) == Newlines(a) + Newlines(b)
  {
    if a == "" {
      assert a + b == b;
    } else {
      assert (a + b)[1..] == a[1..] + b;
      NewlinesAdd(a[1..], b);
    }
  }

  /** Scanning one character further back. */
  lemma OneBack(file: string, i: nat)
    requires i < |file|
    ensures Newlines(file[i..]) == Newlines(file[i + 1..]) + (if file[i] == NEWLINE then 1 else 0)
  {
    assert file[i..][1..] == file[i + 1..];
  }

  /** The one-pass specification: going back from `end`, stop behind the first character that brings the number of
      newlines seen to needed + 1; with no such character, at the front. */
  function StartOffset(file: string, needed: int, end: nat): (start: nat)
    requires end <= |file|
    ensures start <= end
  {
    if end == 0 then 0
    else if Newlines(file[end - 1..]) == needed + 1 then end
    else StartOffset(file, needed, end - 1)
  }

  /** The scan is at `end`: it has counted the newlines from there on, and would have stopped nowhere behind it. */
  ghost predicate ScannedTo(file: string, needed: int, end: nat, count: nat) {
    && end <= |file|
    && count == Newlines(file[end..])
    && StartOffset(file, needed, |file|) == StartOffset(file, needed, end)
  }

  lemma ScanOne(file: string, needed: int, end: nat, count: nat)
    requires 0 < end && ScannedTo(file, needed, end, count)
    ensures var count' := count + (if file[end - 1] == NEWLINE then 1 else 0);
            if count' == needed + 1 then StartOffset(file, needed, |file|) == end
            else ScannedTo(file, needed, end - 1, count')
  {
    OneBack(file, end - 1);
  }

  lemma ScanBounds(file: string, needed: int, end: nat, count: nat)
    requires ScannedTo(file, needed, end, count)
    ensures end <= |file| && (end == 0 ==> StartOffset(file, needed, |file|) == 0)
  {
  }

  /** The buffer starts with the n bytes of the file from an offset on. */
  predicate Contains(buf: array<char>, file: string, offset: nat, n: nat)
    reads buf
  {
    n <= buf.Length && offset + n <= |file| && buf[..n] == file[offset..offset + n]
  }

  lemma ContainsAt(buf: array<char>, file: string, offset: nat, n: nat, i: nat)
    requires Contains(buf, file, offset, n) && i < n
    ensures i < buf.Length && offset + i < |file| && buf[i] == file[offset + i]
  {
    assert buf[..n][i] == file[offset..offset + n][i];
  }

  /** A full read of n bytes at an offset. */
  method Read(file: string, offset: nat, n: nat, buf: array<char>)
    requires offset + n <= |file| && n <= buf.Length
    modifies buf
    ensures Contains(buf, file, offset, n)
  {
    var i := 0;
    while i < n
      invariant 0 <= i <= n
      invariant forall k | 0 <= k < i :: buf[k] == file[offset + k]
    {
      buf[i] := file[offset + i];
      i := i + 1;
    }
  }

  /** The inner loop: the characters of one chunk, from its end. The flag says that the start has been found. */
  method ScanChunk(file: string, needed: int, position: nat, n: nat, buf: array<char>, count: nat)
    returns (position': nat, newlineCount: nat, flag: bool)
    requires Contains(buf, file, position, n) && ScannedTo(file, needed, position + n, count)
    ensures flag ==> position' == StartOffset(file, needed, |file|)
    ensures !flag ==> position' == position && ScannedTo(file, needed, position, newlineCount)
  {
    hide *;
    position', newlineCount, flag := position, count, false;
    var i := n - 1;
    while i >= 0
      invariant -1 <= i < n
      invariant ScannedTo(file, needed, position + i + 1, newlineCount)
    {
      ContainsAt(buf, file, position, n, i);
      ScanOne(file, needed, position + i + 1, newlineCount);
      if buf[i] == NEWLINE {
        newlineCount := newlineCount + 1;
      }
      if newlineCount == needed + 1 {
        return position + i + 1, newlineCount, true;
      }
      i := i - 1;
    }
  }

  /** The backward scan, whatever the chunk size and for every value of `needed`. */
  method FindStart(file: string, needed: int, chunk: nat) returns (position: nat)
    requires 0 < chunk
    ensures position == StartOffset(file, needed, |file|)
  {
    assert ScannedTo(file, needed, |file|, 0);
    hide *;
    position := |file|;
    var newlineCount, flag := 0, false;
    var buf := new char[chunk];
    while true
      invariant ScannedTo(file, needed, position, newlineCount)
      decreases position
    {
      ScanBounds(file, needed, position, newlineCount);
      var bytesToRead := if position < chunk then position else chunk;
      position := position - bytesToRead;
      Read(file, position, bytesToRead, buf);
      position, newlineCount, flag := ScanChunk(file, needed, position, bytesToRead, buf, newlineCount);
      if !flag {
        ScanBounds(file, needed, position, newlineCount);
      }
      if position == 0 || flag {
        break;
      }
    }
  }

  lemma ContainsNext(buf: array<char>, file: string, start: nat, offset: nat, n: nat)
    requires Contains(buf, file, offset, n) && start <= offset
    ensures n <= buf.Length && offset + n <= |file|
    ensures file[start..offset] + buf[..n] == file[start..offset + n]
  {
  }

  /** The whole program: find the start, then copy forward chunk by chunk. */
  method PrintTail(file: string, needed: int, chunk: nat) returns (output: string)
    requires 0 < chunk
    ensures output == file[StartOffset(file, needed, |file|)..]
  {
    hide *;
    var position := FindStart(file, needed, chunk);
    ghost var start := position;
    output := "";
    var buf := new char[chunk];
    while position < |file|
      invariant start <= position <= |file|
      invariant output == file[start..position]
      decreases |file| - position
    {
      var bytesRead := if |file| - position < chunk then |file| - position else chunk;
      Read(file, position, bytesRead, buf);
      ContainsNext(buf, file, start, position, bytesRead);
      output := output + buf[..bytesRead];
      position := position + bytesRead;
    }
  }

  // ---------- what the start offset means ----------

  /** The newline-terminated lines of a text, in order, and what stands behind the last newline. */
  datatype Text = Text(lines: seq<string>, partial: string)

  function Split(s: string): Text {
    if s == "" then Text([], "")
    else if s[0] == NEWLINE then Text([[NEWLINE]] + Split(s[1..]).lines, Split(s[1..]).partial)
    else Prepend(s[0], Split(s[1..]))
  }

  function Prepend(c: char, text: Text): Text {
    if text.lines == [] then Text([], [c] + text.partial)
    else Text([[c] + text.lines[0]] + text.lines[1..], text.partial)
  }

  predicate IsLine(line: string) {
    line != "" && line[|line| - 1] == NEWLINE && Newlines(line) == 1
  }

  lemma PrependFlattens(c: char, text: Text)
    ensures Flatten(Prepend(c, text).lines) + Prepend(c, text).partial == [c] + (Flatten(text.lines) + text.partial)
  {
    if text.lines != [] {
      assert Prepend(c, text).lines[1..] == text.lines[1..];
    }
  }

  /** Splitting cuts the text without losing anything, and only behind newlines. */
  lemma {:induction false} SplitCovers(s: string)
    ensures Flatten(Split(s).lines) + Split(s).partial == s
    ensures |Split(s).lines| == Newlines(s)
    ensures (forall k | 0 <= k < |Split(s).lines| :: IsLine(Split(s).lines[k])) && Newlines(Split(s).partial) == 0
  {
    if s != "" {
      SplitCovers(s[1..]);
      assert s == [s[0]] + s[1..];
      if s[0] == NEWLINE {
        assert Split(s).lines[1..] == Split(s[1..]).lines;
      } else {
        PrependFlattens(s[0], Split(s[1..]));
        var lines := Split(s[1..]).lines;
        if lines != [] {
          assert IsLine(lines[0]);
          assert ([s[0]] + lines[0])[1..] == lines[0];
        }
      }
    }
  }

  /** The cuts are exactly behind the newline characters. */
  lemma {:induction false} SplitAtNewlines(s: string)
    ensures forall k | 0 <= k < |Split(s).lines| ::
              var line := Split(s).lines[k]; line != "" && line[|line| - 1] == '\n' && '\n' !in line[..|line| - 1]
    ensures '\n' !in Split(s).partial
  {
    if s != "" {
      SplitAtNewlines(s[1..]);
      var rest := Split(s[1..]).lines;
      if s[0] != '\n' && rest != [] {
        var line := [s[0]] + rest[0];
        assert line[..|line| - 1] == [s[0]] + rest[0][..|rest[0]| - 1];
      }
    }
  }

  lemma {:induction false} LinesHaveNewlines(lines: seq<string>)
    requires forall k | 0 <= k < |lines| :: IsLine(lines[k])
    ensures Newlines(Flatten(lines)) == |lines|
  {
    if lines != [] {
      assert IsLine(lines[0]);
      LinesHaveNewlines(lines[1..]);
      NewlinesAdd(lines[0], Flatten(lines[1..]));
    }
  }

  lemma SuffixHasFewer(file: string, a: nat, b: nat)
    requires a <= b <= |file|
    ensures Newlines(file[b..]) <= Newlines(file[a..])
  {
    assert file[a..] == file[a..b] + file[b..];
    NewlinesAdd(file[a..b], file[b..]);
  }

  /** The scan stops at the one place where the count goes from needed to needed + 1. */
  lemma {:induction false} StopsAt(file: string, needed: nat, cut: nat, end: nat)
    requires 0 < cut <= end <= |file|
    requires Newlines(file[cut..]) == needed && Newlines(file[cut - 1..]) == needed + 1
    ensures StartOffset(file, needed, end) == cut
    decreases end
  {
    if cut < end {
      SuffixHasFewer(file, cut, end - 1);
      StopsAt(file, needed, cut, end - 1);
    }
  }

  lemma {:induction false} NeverStops(file: string, needed: nat, end: nat)
    requires end <= |file| && Newlines(file) <= needed
    ensures StartOffset(file, needed, end) == 0
  {
    if end > 0 {
      assert file[0..] == file;
      SuffixHasFewer(file, 0, end - 1);
      NeverStops(file, needed, end - 1);
    }
  }

  /** The last n elements, or all of them. */
  function Last(lines: seq<string>, n: nat): seq<string> {
    if n <= |lines| then lines[|lines| - n..] else lines
  }

  lemma CutBeforeLastLines(lines: seq<string>, partial: string, n: nat)
    requires (forall k | 0 <= k < |lines| :: IsLine(lines[k])) && Newlines(partial) == 0 && n < |lines|
    ensures var file := Flatten(lines) + partial;
            file[StartOffset(file, n, |file|)..] == Flatten(lines[|lines| - n..]) + partial
  {
    hide Newlines, StartOffset, Flatten;
    var k := |lines| - n;
    var file, front, back := Flatten(lines) + partial, Flatten(lines[..k]), Flatten(lines[k..]) + partial;
    FlattenAdd(lines[..k], lines[k..]);
    assert lines[..k] + lines[k..] == lines;
    assert file == front + back;
    CutBehindLine(lines[..k], back);
    LinesHaveNewlines(lines[k..]);
    NewlinesAdd(Flatten(lines[k..]), partial);
    assert file[|front|..] == back;
    StopsAt(file, n, |front|, |file|);
  }

  /** For every file and n >= 0 the output is the last n newline-terminated lines, or all of them, and then
      whatever stands behind the last newline. */
  lemma OutputIsLastLines(file: string, n: nat)
    ensures file[StartOffset(file, n, |file|)..] == Flatten(Last(Split(file).lines, n)) + Split(file).partial
  {
    hide Split, Newlines, StartOffset, Flatten;
    SplitCovers(file);
    if |Split(file).lines| <= n {
      NeverStops(file, n, |file|);
    } else {
      CutBeforeLastLines(Split(file).lines, Split(file).partial, n);
    }
  }

  lemma CutBehindLine(lines: seq<string>, back: string)
    requires lines != [] && forall k | 0 <= k < |lines| :: IsLine(lines[k])
    ensures |Flatten(lines)| > 0
    ensures Newlines((Flatten(lines) + back)[|Flatten(lines)| - 1..]) == 1 + Newlines(back)
  {
    var last := lines[|lines| - 1];
    assert IsLine(last);
    FlattenAdd(lines[..|lines| - 1], [last]);
    assert lines == lines[..|lines| - 1] + [last];
    assert Flatten([last]) == last;
    var front := Flatten(lines);
    assert front[|front| - 1] == last[|last| - 1];
    OneBack(front + back, |front| - 1);
    assert (front + back)[|front|..] == back;
  }

  /** The lines as a reader counts them: a partial last line is a line too. */
  function AllLines(file: string): seq<string> {
    Split(file).lines + (if Split(file).partial == "" then [] else [Split(file).partial])
  }

  lemma LastWithPartial(lines: seq<string>, partial: string, n: nat)
    requires (forall k | 0 <= k < |lines| :: IsLine(lines[k])) && Newlines(partial) == 0 && partial != ""
    ensures Flatten(Last(lines, n)) + partial == Flatten(Last(lines + [partial], n)) <==> |lines| < n
  {
    hide Newlines, Flatten;
    SingleFlattens(partial);
    FlattenAdd(lines, [partial]);
    if n == 0 {
      assert Last(lines + [partial], n) == [];
      SingleFlattens("");
    } else if n <= |lines| {
      var fewer := lines[|lines| - (n - 1)..];
      assert Last(lines + [partial], n) == fewer + [partial];
      FlattenAdd(fewer, [partial]);
      LinesHaveNewlines(fewer);
      LinesHaveNewlines(Last(lines, n));
      NewlinesAdd(Flatten(fewer), partial);
      NewlinesAdd(Flatten(Last(lines, n)), partial);
    }
  }

  /** The output is the last n lines in that sense if and only if the file is newline-terminated (or empty) or has
      fewer than n complete lines; otherwise one line too many is shown. */
  lemma LastLinesIff(file: string, n: nat)
    ensures file[StartOffset(file, n, |file|)..] == Flatten(Last(AllLines(file), n))
            <==> Split(file).partial == "" || |Split(file).lines| < n
  {
    hide Split, Newlines, StartOffset, Flatten;
    OutputIsLastLines(file, n);
    SplitCovers(file);
    if Split(file).partial == "" {
      assert AllLines(file) == Split(file).lines;
    } else {
      LastWithPartial(Split(file).lines, Split(file).partial, n);
    }
  }

  /** A negative count is not rejected: below -1 the whole file is shown, and at -1 nothing of a file whose last
      character is not a newline, everything otherwise. */
  lemma {:induction false} NegativeCount(file: string, needed: int, end: nat)
    requires needed < 0 && end <= |file|
    requires end == |file| || needed < -1 || Newlines(file[end..]) > 0
    ensures StartOffset(file, needed, end)
            == if needed == -1 && end == |file| && file != "" && file[end - 1] != NEWLINE then end else 0
    decreases end
  {
    if end > 0 {
      OneBack(file, end - 1);
      if end == |file| {
        assert file[end..] == "";
      }
      if Newlines(file[end - 1..]) != needed + 1 {
        NegativeCount(file, needed, end - 1);
      }
    }
  }
}
