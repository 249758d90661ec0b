/** Tokenising a command line into a heap-allocated, NULL-terminated vector, and freeing it again
    (SP_HW5/part2/parse.c). */
module CommandLine {
  import opened CLibrary

  predicate IsDelim(c: char) {
    c == ' ' || c == '\t' || c == '\n'
  }

  /** How many characters at the front of `s` are (or are not) delimiters. */
  function Span(s: string, delims: bool): (n: nat)
    ensures n <= |s| && (forall k | 0 <= k < n :: IsDelim(s[k]) == delims)
    ensures n < |s| ==> IsDelim(s[n]) != delims
  {
    if s == [] || IsDelim(s[0]) != delims then 0 else 1 + Span(s[1..], delims)
  }

  datatype Token = NoToken | Token(text: string, rest: string)

  /** strtok, section 7.24.5.8 of C11: skip delimiters, take the run up to the next one, and leave the saved
      pointer behind the delimiter that ended it. */
  function StrTok(s: string): (t: Token)
    ensures t.NoToken? <==> Span(s, true) == |s|
    ensures t.Token? ==> t.text != [] && |t.rest| < |s|
  {
    var body := s[Span(s, true)..];
    if body == [] then NoToken
    else
      var n := Span(body, false);
      Token(body[..n], if n < |body| then body[n + 1..] else [])
  }

  function Tokens(s: string): (ts: seq<string>)
    decreases |s|
  {
    match StrTok(s)
    case NoToken => []
    case Token(text, rest) => [text] + Tokens(rest)
  }

  // ---------- what the tokens are ----------

  /** A word has no space, no tab and no newline in it. */
  predicate IsWord(w: string) {
    w != [] && ' ' !in w && '\t' !in w && '\n' !in w
  }

  /** White space is spaces, tabs and newlines. */
  predicate IsSpace(s: string) {
    forall k | 0 <= k < |s| :: s[k] == ' ' || s[k] == '\t' || s[k] == '\n'
  }

  /** Words and the white space around them: gaps[k] stands before word k, the last gap behind the last word. */
  function Spaced(gaps: seq<string>, words: seq<string>): string
    requires |gaps| == |words| + 1
  {
    if words == [] then gaps[0] else gaps[0] + words[0] + Spaced(gaps[1..], words[1..])
  }

  /** Between two words there is at least one delimiter; the outer gaps may be empty. */
  ghost predicate Layout(gaps: seq<string>, words: seq<string>) {
    && |gaps| == |words| + 1
    && (forall k | 0 <= k < |words| :: IsWord(words[k]))
    && (forall k | 0 <= k < |gaps| :: IsSpace(gaps[k]))
    && forall k | 0 < k < |words| :: gaps[k] != []
  }

  lemma {:induction false} SpanOf(a: string, b: string, delims: bool)
    requires forall k | 0 <= k < |a| :: IsDelim(a[k]) == delims
    requires b == [] || IsDelim(b[0]) != delims
    ensures Span(a + b, delims) == |a|
  {
    if a == [] {
      assert a + b == b;
    } else {
      assert (a + b)[1..] == a[1..] + b;
      SpanOf(a[1..], b, delims);
    }
  }

  /** One space, tab or newline between two words is enough to separate them. */
  lemma TwoWords(a: string, c: char, b: string)
    requires IsWord(a) && IsWord(b) && (c == ' ' || c == '\t' || c == '\n')
    ensures Tokens(a + [c] + b) == [a, b]
  {
    var gaps, words := ["", [c], ""], [a, b];
    assert Layout(gaps, words);
    assert Spaced(gaps[2..], words[2..]) == "";
    assert gaps[1..][1..] == gaps[2..] && words[1..][1..] == words[2..];
    assert Spaced(gaps[1..], words[1..]) == [c] + b + "";
    assert Spaced(gaps, words) == "" + a + ([c] + b + "");
    assert "" + a + ([c] + b + "") == a + [c] + b;
    TokensOfLayout(gaps, words);
  }

  lemma StrTokOfLayout(gap: string, word: string, rest: string)
    requires IsSpace(gap) && IsWord(word)
    requires rest == [] || IsDelim(rest[0])
    ensures StrTok(gap + word + rest) == Token(word, if rest == [] then [] else rest[1..])
  {
    var s, body := gap + word + rest, word + rest;
    assert s == gap + body;
    assert IsDelim(body[0]) == false;
    SpanOf(gap, body, true);
    SpanOf(word, rest, false);
    hide Span, IsWord, IsSpace;
    assert s[|gap|..] == body && body[..|word|] == word;
    assert rest != [] ==> body[|word| + 1..] == rest[1..];
  }

  /** White space in front of a layout goes into its first gap. */
  function Widen(c: char, gaps: seq<string>): seq<string>
    requires gaps != []
  {
    [[c] + gaps[0]] + gaps[1..]
  }

  lemma WidenLayout(c: char, gaps: seq<string>, words: seq<string>)
    requires |gaps| == |words| + 1
    ensures Spaced(Widen(c, gaps), words) == [c] + Spaced(gaps, words)
  {
    if words != [] {
      assert Widen(c, gaps)[1..] == gaps[1..];
      assert [c] + gaps[0] + words[0] + Spaced(gaps[1..], words[1..])
          == [c] + (gaps[0] + words[0] + Spaced(gaps[1..], words[1..]));
    }
  }

  /** What follows the first word: nothing, or a delimiter and then a layout of the other words. */
  lemma AfterFirstWord(gaps: seq<string>, words: seq<string>) returns (gaps': seq<string>)
    requires Layout(gaps, words) && words != []
    ensures Layout(gaps', words[1..])
    ensures var rest := Spaced(gaps[1..], words[1..]);
            if rest == [] then words[1..] == [] && gaps' == [[]]
            else IsDelim(rest[0]) && Spaced(gaps', words[1..]) == rest[1..]
  {
    if gaps[1] == [] {
      gaps' := [[]];
    } else {
      var gap := gaps[1];
      gaps' := [gap[1..]] + gaps[2..];
      assert Widen(gap[0], gaps') == gaps[1..] by {
        assert [gap[0]] + gap[1..] == gap;
      }
      WidenLayout(gap[0], gaps', words[1..]);
      assert forall k | 0 <= k < |words[1..]| :: words[1..][k] == words[k + 1];
      assert forall k | 0 < k < |gaps'| :: gaps'[k] == gaps[k + 1];
    }
  }

  /** Words laid out with any white space are the tokens of the line. */
  lemma {:induction false} TokensOfLayout(gaps: seq<string>, words: seq<string>)
    requires Layout(gaps, words)
    ensures Tokens(Spaced(gaps, words)) == words
    decreases |words|
  {
    hide Span;
    if words == [] {
      SpanOf(gaps[0], [], true);
      assert gaps[0] + [] == gaps[0];
    } else {
      var rest := Spaced(gaps[1..], words[1..]);
      var gaps' := AfterFirstWord(gaps, words);
      StrTokOfLayout(gaps[0], words[0], rest);
      TokensOfLayout(gaps', words[1..]);
      assert words == [words[0]] + words[1..];
    }
  }

  lemma LayoutBehindWord(gap: string, word: string, gaps: seq<string>, words: seq<string>)
    requires IsSpace(gap) && IsWord(word) && Layout(gaps, words) && (words != [] ==> gaps[0] != [])
    ensures Layout([gap] + gaps, [word] + words)
    ensures Spaced([gap] + gaps, [word] + words) == gap + word + Spaced(gaps, words)
  {
    assert ([gap] + gaps)[1..] == gaps && ([word] + words)[1..] == words;
  }

  /** A token with what surrounds it: white space before, and behind it the end or one delimiter and the rest. */
  lemma StrTokShape(s: string)
    requires StrTok(s).Token?
    ensures var n, text, rest := Span(s, true), StrTok(s).text, StrTok(s).rest;
            && n + |text| <= |s| && IsSpace(s[..n]) && IsWord(text)
            && if n + |text| == |s| then s == s[..n] + text && rest == []
               else IsDelim(s[n + |text|]) && s == s[..n] + text + ([s[n + |text|]] + rest)
  {
    hide Span;
    var n := Span(s, true);
    var body := s[n..];
    var m := Span(body, false);
    assert s == s[..n] + body;
    if m < |body| {
      assert body == body[..m] + ([body[m]] + body[m + 1..]);
    }
  }

  /** A layout of what StrTok left gives a layout of the whole line. */
  lemma LayoutOfRest(s: string, tail: seq<string>) returns (gaps: seq<string>)
    requires StrTok(s).Token?
    requires Layout(tail, Tokens(StrTok(s).rest)) && Spaced(tail, Tokens(StrTok(s).rest)) == StrTok(s).rest
    ensures Layout(gaps, Tokens(s)) && Spaced(gaps, Tokens(s)) == s
  {
    hide StrTok, Span, Spaced;
    var n, text, rest := Span(s, true), StrTok(s).text, StrTok(s).rest;
    StrTokShape(s);
    if n + |text| < |s| {
      var c := s[n + |text|];
      WidenLayout(c, tail, Tokens(rest));
      LayoutBehindWord(s[..n], text, Widen(c, tail), Tokens(rest));
      gaps := [s[..n]] + Widen(c, tail);
    } else {
      NoTokensInNothing();
      LayoutBehindWord(s[..n], text, tail, []);
      gaps := [s[..n]] + tail;
    }
  }

  lemma NoTokensInNothing()
    ensures Tokens([]) == []
  {
  }

  /** Every line is such a layout of its tokens. */
  lemma {:induction false} LineIsLayout(s: string) returns (gaps: seq<string>)
    ensures Layout(gaps, Tokens(s)) && Spaced(gaps, Tokens(s)) == s
    decreases |s|
  {
    if StrTok(s).NoToken? {
      gaps := [s];
    } else {
      var tail := LineIsLayout(StrTok(s).rest);
      gaps := LayoutOfRest(s, tail);
    }
  }

  // ---------- the heap ----------

  /** A string, or a vector of pointers; pointer 0 is NULL. */
  datatype Block = Chars(text: string) | Vector(cells: seq<nat>)

  class Heap {
    var blocks: map<nat, Block>
    var next: nat

    ghost predicate Valid()
      reads this
    {
      0 < next && forall p | p in blocks :: 0 < p < next
    }

    constructor ()
      ensures Valid() && blocks == map[]
    {
      blocks, next := map[], 1;
    }

    method Malloc(block: Block) returns (p: nat)
      requires Valid()
      modifies this
      ensures Valid() && p != 0 && p !in old(blocks) && blocks == old(blocks)[p := block]
    {
      p := next;
      blocks, next := blocks[p := block], next + 1;
    }

    /** Growing a vector moves it; the new cells are NULL. */
    method Realloc(p: nat, count: nat) returns (q: nat)
      requires Valid() && (p != 0 ==> p in blocks && blocks[p].Vector? && |blocks[p].cells| <= count)
      modifies this
      ensures Valid() && q != 0 && q !in old(blocks)
      ensures var cells := if p == 0 then [] else old(blocks)[p].cells;
              blocks == (old(blocks) - {p})[q := Vector(cells + seq(count - |cells|, _ => 0))]
    {
      var cells := if p == 0 then [] else blocks[p].cells;
      q := Malloc(Vector(cells + seq(count - |cells|, _ => 0)));
      blocks := blocks - {p};
    }

    method Store(p: nat, i: nat, value: nat)
      requires Valid() && p in blocks && blocks[p].Vector? && i < |blocks[p].cells|
      modifies this
      ensures Valid() && blocks == old(blocks)[p := Vector(old(blocks)[p].cells[i := value])]
    {
      blocks := blocks[p := Vector(blocks[p].cells[i := value])];
    }

    /** Only a block that is still allocated can be freed, so nothing is freed twice. */
    method Free(p: nat)
      requires Valid() && p in blocks
      modifies this
      ensures Valid() && blocks == old(blocks) - {p}
    {
      blocks := blocks - {p};
    }
  }

  /** On top of the blocks of `before` the heap holds one vector and one string for every word, and nothing else. */
  ghost predicate HoldsVector(heap: map<nat, Block>, before: map<nat, Block>, argv: nat, cells: seq<nat>,
                              words: seq<string>)
  {
    && argv !in before && argv != 0 && argv !in cells
    && |cells| == |words|
    && (forall k | 0 <= k < |cells| ::
          cells[k] != 0 && cells[k] !in before && cells[k] in heap && heap[cells[k]] == Chars(words[k]))
    && (forall j, k | 0 <= j < k < |cells| :: cells[j] != cells[k])
    && (forall p :: p in heap <==> p in before || p == argv || p in cells)
    && forall p | p in before :: heap[p] == before[p]
  }

  /** The vector under construction; before the first word there is none. */
  ghost predicate Growing(heap: map<nat, Block>, before: map<nat, Block>, argv: nat, cells: seq<nat>,
                          words: seq<string>)
  {
    if argv == 0 then cells == [] && words == [] && heap == before
    else HoldsVector(heap, before, argv, cells, words) && heap[argv] == Vector(cells)
  }

  lemma AddWord(heap: map<nat, Block>, before: map<nat, Block>, argv: nat, cells: seq<nat>, words: seq<string>,
                heap': map<nat, Block>, argv': nat, p: nat, word: string)
    requires Growing(heap, before, argv, cells, words) && 0 !in heap
    requires argv' !in heap && argv' != 0 && (p in heap ==> p == argv) && p != argv' && p != 0
    requires heap' == (heap - {argv})[argv' := Vector(cells + [p])][p := Chars(word)]
    ensures Growing(heap', before, argv', cells + [p], words + [word])
  {
    forall q
      ensures q in heap' <==> q in before || q == argv' || q in cells + [p]
    {
      assert argv != 0 && q in cells ==> q in heap && q != argv;
    }
  }

  /** One token: the vector grows by a cell, and the cell points to a copy of the token. */
  method Append(heap: Heap, argv: nat, count: nat, word: string, ghost before: map<nat, Block>,
                ghost cells: seq<nat>, ghost words: seq<string>)
    returns (argv': nat, ghost cells': seq<nat>)
    requires heap.Valid() && 0 !in heap.blocks && count == |cells| + 1
    requires Growing(heap.blocks, before, argv, cells, words)
    modifies heap
    ensures heap.Valid() && argv' != 0 && |cells'| == count
    ensures Growing(heap.blocks, before, argv', cells', words + [word])
  {
    ghost var held := heap.blocks;
    argv' := heap.Realloc(argv, count);
    var p := heap.Malloc(Chars(word));
    heap.Store(argv', count - 1, p);
    cells' := cells + [p];
    assert heap.blocks[argv'] == Vector(cells');
    AddWord(held, before, argv, cells, words, heap.blocks, argv', p, word);
  }

  /** The last cell, holding NULL. */
  method Terminate(heap: Heap, argv: nat, count: nat, ghost before: map<nat, Block>, ghost cells: seq<nat>,
                   ghost words: seq<string>)
    returns (argv': nat)
    requires heap.Valid() && argv != 0 && count == |cells| + 1
    requires Growing(heap.blocks, before, argv, cells, words)
    modifies heap
    ensures heap.Valid() && HoldsVector(heap.blocks, before, argv', cells, words)
    ensures heap.blocks[argv'] == Vector(cells + [0])
  {
    argv' := heap.Realloc(argv, count);
    heap.Store(argv', count - 1, 0);
    assert heap.blocks[argv'] == Vector(cells + [0]);
  }

  lemma NewlineHasNoTokens()
    ensures Tokens("\n") == []
  {
    assert Span("\n", true) == 1;
  }

  /** `buffer` is the line as it was read; a NUL in it ends the line. */
  method Parse(heap: Heap, buffer: string) returns (argv: nat, ghost cells: seq<nat>)
    requires heap.Valid()
    modifies heap
    ensures heap.Valid()
    ensures Tokens(CString(buffer)) == [] ==> argv == 0 && heap.blocks == old(heap.blocks)
    ensures Tokens(CString(buffer)) != [] ==>
              && HoldsVector(heap.blocks, old(heap.blocks), argv, cells, Tokens(CString(buffer)))
              && heap.blocks[argv] == Vector(cells + [0])
  {
    hide StrTok, Span, HoldsVector, CString;
    NewlineHasNoTokens();
    var line := CString(buffer);
    argv, cells := 0, [];
    var token := StrTok(line);
    if line == "\n" || token.NoToken? {
      return;
    }
    var count := 1;
    argv, cells := Append(heap, 0, count, token.text, heap.blocks, [], []);
    ghost var words := [token.text];
    assert words == [] + [token.text];
    token := StrTok(token.rest);
    while token.Token?
      invariant heap.Valid() && argv != 0 && |cells| == count
      invariant Growing(heap.blocks, old(heap.blocks), argv, cells, words)
      invariant Tokens(line) == words + (if token.Token? then [token.text] + Tokens(token.rest) else [])
      decreases if token.Token? then |token.rest| + 1 else 0
    {
      count := count + 1;
      argv, cells := Append(heap, argv, count, token.text, old(heap.blocks), cells, words);
      words := words + [token.text];
      token := StrTok(token.rest);
    }
    assert words == Tokens(line);
    argv := Terminate(heap, argv, count + 1, old(heap.blocks), cells, words);
  }

  /** Frees every string of the vector and the vector itself, once each, and nothing else. */
  method FreeArgv(heap: Heap, argv: nat, ghost before: map<nat, Block>, ghost cells: seq<nat>,
                  ghost words: seq<string>)
    requires heap.Valid()
    requires HoldsVector(heap.blocks, before, argv, cells, words)
    requires heap.blocks[argv] == Vector(cells + [0])
    modifies heap
    ensures heap.Valid() && heap.blocks == before
  {
    ghost var held := heap.blocks;
    var i := 0;
    while heap.blocks[argv].cells[i] != 0
      invariant heap.Valid()
      invariant 0 <= i <= |cells|
      invariant forall p :: p in heap.blocks <==> p in held && p !in cells[..i]
      invariant forall p | p in heap.blocks :: heap.blocks[p] == held[p]
      decreases |cells| - i
    {
      assert cells[i] !in cells[..i];
      heap.Free(heap.blocks[argv].cells[i]);
      i := i + 1;
    }
    heap.Free(argv);
    assert cells[..i] == cells;
  }

  /** Parsing a line and freeing the result leaves the heap as it was. */
  method ParseThenFree(heap: Heap, buffer: string)
    requires heap.Valid()
    modifies heap
    ensures heap.Valid() && heap.blocks == old(heap.blocks)
  {
    var argv, cells := Parse(heap, buffer);
    if argv != 0 {
      FreeArgv(heap, argv, old(heap.blocks), cells, Tokens(CString(buffer)));
    }
  }
}
