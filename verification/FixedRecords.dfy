/** A dictionary text file turned into records of 512 bytes, and the linear search through them
    (SP_HW5/part3/convert.c and lookup1.c). */
module FixedRecords {
  import opened CLibrary
  import opened DictSearch

  const WORD := 32
  const TEXT := 480
  const RECORD := 512
  const BIGLINE := 512

  /** The two lines of one entry as fgets delivers them, newlines included. */
  datatype Entry = Entry(wordLine: string, textLine: string)

  /** The entries `convert` finds: blank lines are skipped; a line that is not blank is a word, and the next line is
      its definition, unless that is blank or missing, in which case the word is dropped. */
  function Entries(input: string): seq<Entry>
    decreases |input|
  {
    if input == "" then []
    else
      var n := FgetsLength(input, BIGLINE);
      var rest := input[n..];
      if input[0] == '\n' then Entries(rest)
      else if rest == "" then []
      else
        var m := FgetsLength(rest, BIGLINE);
        if rest[0] == '\n' then Entries(rest[m..])
        else [Entry(input[..n], rest[..m])] + Entries(rest[m..])
  }

  /** Every line that is copied into a field leaves room for the NUL behind it, and none contains a NUL. */
  predicate FieldsFit(input: string)
    decreases |input|
  {
    input == "" ||
    var n := FgetsLength(input, BIGLINE);
    var rest := input[n..];
    if input[0] == '\n' then FieldsFit(rest)
    else
      && n < WORD && NUL !in input[..n]
      && (rest == "" ||
          var m := FgetsLength(rest, BIGLINE);
          (rest[0] != '\n' ==> m < TEXT && NUL !in rest[..m]) && FieldsFit(rest[m..]))
  }

  function Pad(s: string, n: nat): (field: string)
    requires |s| <= n
    ensures |field| == n
  {
    s + seq(n - |s|, _ => NUL)
  }

  predicate EntryFits(e: Entry) {
    && 0 < |e.wordLine| < WORD && NUL !in e.wordLine
    && 0 < |e.textLine| < TEXT && NUL !in e.textLine
  }

  predicate AllFit(entries: seq<Entry>) {
    forall k | 0 <= k < |entries| :: EntryFits(entries[k])
  }

  /** The two fields of one record on file. */
  function Image(e: Entry): (record: string)
    requires EntryFits(e)
    ensures |record| == RECORD
  {
    Pad(e.wordLine, WORD) + Pad(e.textLine, TEXT)
  }

  function Encode(entries: seq<Entry>): (file: string)
    requires AllFit(entries)
    ensures |file| == RECORD * |entries|
  {
    if entries == [] then "" else Image(entries[0]) + Encode(entries[1..])
  }

  lemma {:induction false} EntriesFit(input: string)
    requires FieldsFit(input)
    ensures AllFit(Entries(input))
    decreases |input|
  {
    if input != "" {
      var rest := input[FgetsLength(input, BIGLINE)..];
      if input[0] == '\n' {
        EntriesFit(rest);
      } else if rest != "" {
        EntriesFit(rest[FgetsLength(rest, BIGLINE)..]);
      }
    }
  }

  lemma {:induction false} EncodeSnoc(entries: seq<Entry>, e: Entry)
    requires AllFit(entries) && EntryFits(e)
    ensures AllFit(entries + [e]) && Encode(entries + [e]) == Encode(entries) + Image(e)
  {
    if entries == [] {
      assert entries + [e] == [e] && [e][1..] == [];
    } else {
      assert (entries + [e])[1..] == entries[1..] + [e];
      EncodeSnoc(entries[1..], e);
    }
  }

  // ---------- convert ----------

  /** fgets hit the end of the file while it read these n characters. */
  predicate AtEof(rest: string, n: nat)
    requires n <= |rest|
  {
    n == 0 || (n < BIGLINE - 1 && rest[n - 1] != '\n')
  }

  method MemsetZero(buf: array<char>)
    modifies buf
    ensures forall k | 0 <= k < buf.Length :: buf[k] == NUL
  {
    forall k | 0 <= k < buf.Length {
      buf[k] := NUL;
    }
  }

  /** strcpy into a field that has just been cleared. */
  method StrCpyPadded(field: array<char>, s: string)
    requires |s| < field.Length && forall k | 0 <= k < field.Length :: field[k] == NUL
    modifies field
    ensures field[..] == Pad(s, field.Length)
  {
    forall k | 0 <= k < |s| {
      field[k] := s[k];
    }
  }

  /** One round of the loop, seen from the specification. */
  lemma NextEntry(input: string)
    requires input != "" && FieldsFit(input)
    ensures var n := FgetsLength(input, BIGLINE);
            var rest := input[n..];
            if input[0] == '\n' then Entries(input) == Entries(rest) && FieldsFit(rest)
            else
              && n < WORD
              && if rest == "" then Entries(input) == []
                 else
                   var m := FgetsLength(rest, BIGLINE);
                   && FieldsFit(rest[m..])
                   && if rest[0] == '\n' then Entries(input) == Entries(rest[m..])
                      else
                        var e := Entry(input[..n], rest[..m]);
                        EntryFits(e) && Entries(input) == [e] + Entries(rest[m..])
  {
    hide FgetsLength;
  }

  /** How far the loop has come: what is written encodes the entries before `rest`. */
  ghost predicate Progress(input: string, rest: string, out: string) {
    && FieldsFit(rest)
    && exists written :: WrittenSoFar(input, rest, out, written)
  }

  ghost predicate WrittenSoFar(input: string, rest: string, out: string, written: seq<Entry>) {
    AllFit(written) && Entries(input) == written + Entries(rest) && out == Encode(written)
  }

  lemma StartProgress(input: string)
    requires FieldsFit(input)
    ensures Progress(input, input, "")
  {
    assert WrittenSoFar(input, input, "", []);
  }

  /** A line that ends no entry is skipped. */
  lemma {:induction false} SkipProgress(input: string, rest: string, rest': string, out: string)
    requires Progress(input, rest, out) && Entries(rest') == Entries(rest) && FieldsFit(rest')
    ensures Progress(input, rest', out)
  {
    var written :| WrittenSoFar(input, rest, out, written);
    assert WrittenSoFar(input, rest', out, written);
  }

  lemma WriteNext(input: string, rest: string, rest': string, out: string, e: Entry, written: seq<Entry>)
    requires WrittenSoFar(input, rest, out, written) && EntryFits(e) && Entries(rest) == [e] + Entries(rest')
    ensures WrittenSoFar(input, rest', out + Image(e), written + [e])
  {
    hide Entries, Encode, Image, EntryFits;
    EncodeSnoc(written, e);
    assert Entries(input) == (written + [e]) + Entries(rest');
  }

  lemma WriteProgress(input: string, rest: string, rest': string, out: string, e: Entry)
    requires Progress(input, rest, out) && EntryFits(e) && Entries(rest) == [e] + Entries(rest') && FieldsFit(rest')
    ensures Progress(input, rest', out + Image(e))
  {
    hide Entries, FieldsFit, Image, EntryFits, WrittenSoFar;
    var written :| WrittenSoFar(input, rest, out, written);
    WriteNext(input, rest, rest', out, e, written);
  }

  lemma {:induction false} EndProgress(input: string, rest: string, out: string)
    requires Progress(input, rest, out) && Entries(rest) == []
    ensures AllFit(Entries(input)) && out == Encode(Entries(input))
  {
    var written :| WrittenSoFar(input, rest, out, written);
    assert written + [] == written;
  }

  method Convert(input: string) returns (out: string)
    requires FieldsFit(input)
    ensures AllFit(Entries(input))
    ensures out == Encode(Entries(input)) && |out| == RECORD * |Entries(input)|
  {
    hide FgetsLength, Entries, FieldsFit, Progress, Pad, EntryFits;
    StartProgress(input);
    EntriesOfNothing();
    var word, text := new char[WORD], new char[TEXT];
    out := "";
    var rest, eof := input, false;
    while !eof
      invariant word.Length == WORD && text.Length == TEXT
      invariant FieldsFit(rest) && Progress(input, rest, out)
      invariant eof ==> rest == ""
      decreases |rest|, !eof
    {
      MemsetZero(word);
      MemsetZero(text);
      var n := FgetsLength(rest, BIGLINE);
      if n == 0 {
        break;
      }
      ghost var before := rest;
      NextEntry(before);
      eof := AtEof(rest, n);
      var wordLine := rest[..n];
      rest := rest[n..];
      if wordLine[0] == '\n' {
        SkipProgress(input, before, rest, out);
        continue;
      }
      StrCpyPadded(word, wordLine);
      n := FgetsLength(rest, BIGLINE);
      if n == 0 {
        SkipProgress(input, before, rest, out);
        break;
      }
      eof := AtEof(rest, n);
      var textLine := rest[..n];
      rest := rest[n..];
      if textLine[0] == '\n' {
        SkipProgress(input, before, rest, out);
        continue;
      }
      EntryLengths(Entry(wordLine, textLine));
      StrCpyPadded(text, textLine);
      WriteProgress(input, before, rest, out, Entry(wordLine, textLine));
      assert word[..] + text[..] == Image(Entry(wordLine, textLine));
      out := out + (word[..] + text[..]);
    }
    EndProgress(input, rest, out);
  }

  lemma EntriesOfNothing()
    ensures Entries("") == [] && FieldsFit("")
  {
  }

  lemma EntryLengths(e: Entry)
    requires EntryFits(e)
    ensures |e.wordLine| < WORD && |e.textLine| < TEXT
  {
  }

  /** Where the fields of record k stand in the file: 32 bytes of word and 480 bytes of text, each a C string with
      NULs up to the end of its field. */
  lemma {:induction false} RecordLayout(entries: seq<Entry>, k: nat)
    requires AllFit(entries) && k < |entries|
    ensures |Encode(entries)| == 512 * |entries|
    ensures var record, e := Encode(entries)[512 * k..512 * k + 512], entries[k];
            && FieldHolds(record[..32], e.wordLine) && FieldHolds(record[32..], e.textLine)
  {
    var file := Encode(entries);
    if k == 0 {
      assert file[..512] == Image(entries[0]);
      assert Image(entries[0])[..32] == Pad(entries[0].wordLine, WORD);
      assert Image(entries[0])[32..] == Pad(entries[0].textLine, TEXT);
    } else {
      RecordLayout(entries[1..], k - 1);
      assert file[512 * k..512 * k + 512] == Encode(entries[1..])[512 * (k - 1)..512 * (k - 1) + 512];
    }
  }

  predicate FieldHolds(field: string, line: string) {
    |line| < |field| && field[..|line|] == line && forall i | |line| <= i < |field| :: field[i] == '\0'
  }

  // ---------- lookup1 ----------

  function Chop(line: string): string {
    if line == "" then "" else line[..|line| - 1]
  }

  /** The definition of the first entry for the word, both without the last character of their lines. */
  function Search(entries: seq<Entry>, word: string): Reply {
    if entries == [] then NotFound
    else if Chop(entries[0].wordLine) == word then Found(Chop(entries[0].textLine))
    else Search(entries[1..], word)
  }

  /** Overwriting the last character of a padded field with NUL. */
  lemma ChopPadded(s: string, n: nat)
    requires 0 < |s| < n && NUL !in s
    ensures CString(Pad(s, n)) == s
    ensures CString(Pad(s, n)[|s| - 1 := NUL]) == Chop(s)
  {
    CStringOfPadded(s, seq(n - |s|, _ => NUL));
    var field := Pad(s, n)[|s| - 1 := NUL];
    assert field == Chop(s) + field[|s| - 1..];
    CStringOfPadded(Chop(s), field[|s| - 1..]);
  }

  /** fread of one whole record. */
  method ReadRecord(file: string, offset: nat, word: array<char>, text: array<char>)
    requires offset + RECORD <= |file| && word.Length == WORD && text.Length == TEXT && word != text
    modifies word, text
    ensures word[..] + text[..] == file[offset..offset + RECORD]
  {
    forall k | 0 <= k < WORD {
      word[k] := file[offset + k];
    }
    forall k | 0 <= k < TEXT {
      text[k] := file[offset + WORD + k];
    }
  }

  /** dr.field[strlen(dr.field) - 1] = 0 */
  method ChopInPlace(field: array<char>, ghost line: string)
    requires 0 < |line| < field.Length && NUL !in line && field[..] == Pad(line, field.Length)
    modifies field
    ensures CString(field[..]) == Chop(line)
  {
    ChopPadded(line, field.Length);
    var n := |CString(field[..])|;
    field[n - 1] := NUL;
  }

  lemma EncodeUnfolds(entries: seq<Entry>, i: nat)
    requires AllFit(entries) && i < |entries|
    ensures EntryFits(entries[i])
    ensures Encode(entries[i..]) == Image(entries[i]) + Encode(entries[i + 1..])
  {
    assert entries[i..][1..] == entries[i + 1..];
  }

  lemma FieldsOfImage(e: Entry, word: string, text: string)
    requires EntryFits(e) && |word| == WORD && word + text == Image(e)
    ensures word == Pad(e.wordLine, WORD) && text == Pad(e.textLine, TEXT)
  {
    assert word == Image(e)[..WORD] && text == Image(e)[WORD..];
  }

  /** The linear search, on any file of records; a record that is cut short at the end is never read. */
  method Lookup(file: string, sought: string, ghost entries: seq<Entry>, ghost rest: string) returns (reply: Reply)
    requires AllFit(entries) && file == Encode(entries) + rest && |rest| < RECORD
    ensures reply == Search(entries, sought)
  {
    hide Encode, Image, Pad, CString, Chop;
    var word, text := new char[WORD], new char[TEXT];
    var offset := 0;
    ghost var i := 0;
    assert entries[0..] == entries && file[0..] == file;
    while offset + RECORD <= |file|
      invariant word.Length == WORD && text.Length == TEXT && word != text
      invariant i <= |entries| && offset == RECORD * i <= |file|
      invariant file[offset..] == Encode(entries[i..]) + rest
      invariant Search(entries, sought) == Search(entries[i..], sought)
      decreases |file| - offset
    {
      EncodeUnfolds(entries, i);
      assert entries[i..][1..] == entries[i + 1..];
      ReadRecord(file, offset, word, text);
      assert file[offset..offset + RECORD] == file[offset..][..RECORD] == Image(entries[i]);
      FieldsOfImage(entries[i], word[..], text[..]);
      ChopInPlace(word, entries[i].wordLine);
      ChopInPlace(text, entries[i].textLine);
      if CString(word[..]) == sought {
        return Found(CString(text[..]));
      }
      assert file[offset + RECORD..] == file[offset..][RECORD..];
      offset := offset + RECORD;
      i := i + 1;
    }
    return NotFound;
  }

  // ---------- the round trip ----------

  /** A dictionary whose words and definitions fit their fields, one line each. */
  predicate TableFits(table: seq<Record>) {
    forall k | 0 <= k < |table| ::
      && 0 < |table[k].word| && |table[k].word| + 1 < WORD && NUL !in table[k].word && '\n' !in table[k].word
      && 0 < |table[k].text| && |table[k].text| + 1 < TEXT && NUL !in table[k].text && '\n' !in table[k].text
  }

  function Blank(n: nat): string {
    seq(n, _ => '\n')
  }

  /** The text file: each word and its definition on a line, with any number of blank lines around entries. */
  function Source(gaps: seq<nat>, table: seq<Record>): string
    requires |gaps| == |table| + 1
  {
    if table == [] then Blank(gaps[0])
    else Blank(gaps[0]) + (table[0].word + "\n" + (table[0].text + "\n" + Source(gaps[1..], table[1..])))
  }

  function EntriesOf(table: seq<Record>): seq<Entry> {
    if table == [] then [] else [Entry(table[0].word + "\n", table[0].text + "\n")] + EntriesOf(table[1..])
  }

  lemma {:induction false} FgetsWholeLine(line: string, rest: string, size: nat)
    requires '\n' !in line && |line| + 1 < size
    ensures FgetsLength(line + "\n" + rest, size) == |line| + 1
  {
    if line != "" {
      assert (line + "\n" + rest)[1..] == line[1..] + "\n" + rest;
      FgetsWholeLine(line[1..], rest, size - 1);
    }
  }

  lemma {:induction false} BlankLinesSkipped(n: nat, rest: string)
    ensures Entries(Blank(n) + rest) == Entries(rest)
    ensures FieldsFit(Blank(n) + rest) == FieldsFit(rest)
  {
    if n == 0 {
      assert Blank(n) + rest == rest;
    } else {
      var input := Blank(n) + rest;
      assert input == "" + "\n" + (Blank(n - 1) + rest);
      FgetsWholeLine("", Blank(n - 1) + rest, BIGLINE);
      assert input[1..] == Blank(n - 1) + rest;
      BlankLinesSkipped(n - 1, rest);
    }
  }

  lemma OneEntry(word: string, text: string, rest: string)
    requires 0 < |word| && |word| + 1 < WORD && NUL !in word && '\n' !in word
    requires 0 < |text| && |text| + 1 < TEXT && NUL !in text && '\n' !in text
    requires FieldsFit(rest)
    ensures var input := word + "\n" + (text + "\n" + rest);
            FieldsFit(input) && Entries(input) == [Entry(word + "\n", text + "\n")] + Entries(rest)
  {
    var tail := text + "\n" + rest;
    var input := word + "\n" + tail;
    FgetsWholeLine(word, tail, BIGLINE);
    FgetsWholeLine(text, rest, BIGLINE);
    assert input[..|word| + 1] == word + "\n" && input[|word| + 1..] == tail;
    assert tail[..|text| + 1] == text + "\n" && tail[|text| + 1..] == rest;
  }

  lemma {:induction false} EntriesOfSource(gaps: seq<nat>, table: seq<Record>)
    requires |gaps| == |table| + 1 && TableFits(table)
    ensures FieldsFit(Source(gaps, table)) && Entries(Source(gaps, table)) == EntriesOf(table)
  {
    if table == [] {
      assert Blank(gaps[0]) == Blank(gaps[0]) + "";
      BlankLinesSkipped(gaps[0], "");
    } else {
      EntriesOfSource(gaps[1..], table[1..]);
      OneEntry(table[0].word, table[0].text, Source(gaps[1..], table[1..]));
      BlankLinesSkipped(gaps[0], table[0].word + "\n" + (table[0].text + "\n" + Source(gaps[1..], table[1..])));
    }
  }

  lemma {:induction false} SearchIsScan(table: seq<Record>, word: string)
    ensures Search(EntriesOf(table), word) == LinearScan(table, word)
  {
    if table != [] {
      assert Chop(table[0].word + "\n") == table[0].word && Chop(table[0].text + "\n") == table[0].text;
      SearchIsScan(table[1..], word);
    }
  }

  /** Converting a dictionary file and searching the records gives the first definition of the word, for any
      placement of blank lines between entries. */
  method ConvertThenLookup(gaps: seq<nat>, table: seq<Record>, sought: string) returns (reply: Reply)
    requires |gaps| == |table| + 1 && TableFits(table)
    ensures reply == LinearScan(table, sought)
  {
    EntriesOfSource(gaps, table);
    SearchIsScan(table, sought);
    var file := Convert(Source(gaps, table));
    reply := Lookup(file, sought, EntriesOf(table), "");
  }

  // ---------- definitions of any number of lines ----------

  /** One dictionary entry in the layout the program announces: the word, then the lines of its definition. */
  datatype Article = Article(word: string, definition: seq<string>)

  function LinesOf(a: Article): seq<string> {
    [a.word] + a.definition
  }

  /** Lines written out, each with its newline. */
  function Written(lines: seq<string>): string {
    if lines == [] then "" else lines[0] + "\n" + Written(lines[1..])
  }

  predicate LineFits(line: string, size: nat) {
    0 < |line| && |line| + 1 < size && NUL !in line && '\n' !in line
  }

  /** The lines of one block are copied into the two fields in turn, and each fits its field. */
  predicate BlockFits(lines: seq<string>) {
    forall k | 0 <= k < |lines| :: LineFits(lines[k], if k % 2 == 0 then WORD else TEXT)
  }

  /** A block read two lines at a time, as word and definition; an odd last line is dropped. */
  function Pairs(lines: seq<string>): (table: seq<Record>)
    ensures BlockFits(lines) ==> TableFits(table)
  {
    if |lines| < 2 then []
    else
      assert BlockFits(lines) ==> TableFits([Record(lines[0], lines[1])]) && BlockFits(lines[2..]) by {
        if BlockFits(lines) {
          BlockUnfolds(lines);
        }
      }
      [Record(lines[0], lines[1])] + Pairs(lines[2..])
  }

  lemma BlockUnfolds(lines: seq<string>)
    requires BlockFits(lines) && |lines| >= 2
    ensures LineFits(lines[0], WORD) && LineFits(lines[1], TEXT) && BlockFits(lines[2..])
  {
    var rest := lines[2..];
    forall k | 0 <= k < |rest|
      ensures LineFits(rest[k], if k % 2 == 0 then WORD else TEXT)
    {
      assert rest[k] == lines[k + 2];
    }
  }

  lemma PairsUnfolds(lines: seq<string>)
    ensures |lines| < 2 ==> Pairs(lines) == [] && EntriesOf([]) == []
    ensures |lines| >= 2 ==>
              EntriesOf(Pairs(lines))
              == [Entry(lines[0] + "\n", lines[1] + "\n")] + EntriesOf(Pairs(lines[2..]))
  {
    if |lines| >= 2 {
      var table := Pairs(lines);
      assert table == [Record(lines[0], lines[1])] + Pairs(lines[2..]);
      assert table[0] == Record(lines[0], lines[1]) && table[1..] == Pairs(lines[2..]);
    }
  }

  /** Any block that is followed by a blank line or by the end of the file is read two lines at a time. */
  lemma {:induction false} BlockIsReadInPairs(lines: seq<string>, rest: string)
    requires BlockFits(lines) && FieldsFit(rest) && (rest == "" || rest[0] == '\n')
    ensures FieldsFit(Written(lines) + rest)
    ensures Entries(Written(lines) + rest) == EntriesOf(Pairs(lines)) + Entries(rest)
  {
    hide *;
    PairsUnfolds(lines);
    WrittenUnfolds(lines, rest);
    if |lines| == 1 {
      FirstLineFits(lines);
      LoneWord(lines[0], rest);
    } else if |lines| >= 2 {
      BlockUnfolds(lines);
      BlockIsReadInPairs(lines[2..], rest);
      TwoLines(lines[0], lines[1], Written(lines[2..]) + rest);
    }
  }

  lemma FirstLineFits(lines: seq<string>)
    requires BlockFits(lines) && lines != []
    ensures LineFits(lines[0], WORD)
  {
  }

  lemma TwoLines(word: string, text: string, rest: string)
    requires LineFits(word, WORD) && LineFits(text, TEXT) && FieldsFit(rest)
    ensures var input := word + "\n" + (text + "\n" + rest);
            FieldsFit(input) && Entries(input) == [Entry(word + "\n", text + "\n")] + Entries(rest)
  {
    OneEntry(word, text, rest);
  }

  lemma WrittenUnfolds(lines: seq<string>, rest: string)
    ensures lines == [] ==> Written(lines) + rest == rest
    ensures |lines| == 1 ==> Written(lines) + rest == lines[0] + "\n" + rest
    ensures |lines| >= 2 ==>
              Written(lines) + rest == lines[0] + "\n" + (lines[1] + "\n" + (Written(lines[2..]) + rest))
  {
    hide Written;
    WrittenStep(lines);
    if |lines| >= 2 {
      WrittenStep(lines[1..]);
      assert lines[1..][1..] == lines[2..] && lines[1..][0] == lines[1];
      Regroup(lines[0] + "\n", lines[1] + "\n", Written(lines[2..]), rest);
    } else if |lines| == 1 {
      WrittenStep(lines[1..]);
      assert lines[0] + "\n" + "" == lines[0] + "\n";
    } else {
      assert "" + rest == rest;
    }
  }

  lemma WrittenStep(lines: seq<string>)
    ensures Written(lines) == if lines == [] then "" else lines[0] + "\n" + Written(lines[1..])
  {
  }

  lemma Regroup(a: string, b: string, c: string, d: string)
    ensures a + (b + c) + d == a + (b + (c + d))
  {
  }

  /** A word with no definition line behind it leaves nothing. */
  lemma LoneWord(word: string, rest: string)
    requires LineFits(word, WORD) && FieldsFit(rest) && (rest == "" || rest[0] == '\n')
    ensures FieldsFit(word + "\n" + rest) && Entries(word + "\n" + rest) == Entries(rest)
  {
    var input := word + "\n" + rest;
    FgetsWholeLine(word, rest, BIGLINE);
    assert input[..|word| + 1] == word + "\n" && input[|word| + 1..] == rest;
    if rest != "" {
      assert rest == "" + "\n" + rest[1..];
      FgetsWholeLine("", rest[1..], BIGLINE);
    }
  }

  /** A dictionary file: the articles with blank lines around them, at least one between any two. */
  function Document(gaps: seq<nat>, articles: seq<Article>): string
    requires |gaps| == |articles| + 1
  {
    if articles == [] then Blank(gaps[0])
    else Blank(gaps[0]) + (Written(LinesOf(articles[0])) + Document(gaps[1..], articles[1..]))
  }

  predicate Separated(gaps: seq<nat>) {
    forall k | 0 < k < |gaps| - 1 :: gaps[k] > 0
  }

  predicate ArticlesFit(articles: seq<Article>) {
    forall k | 0 <= k < |articles| :: BlockFits(LinesOf(articles[k]))
  }

  /** What the program makes of the articles. */
  function Readings(articles: seq<Article>): seq<Record> {
    if articles == [] then [] else Pairs(LinesOf(articles[0])) + Readings(articles[1..])
  }

  lemma {:induction false} EntriesOfAdd(a: seq<Record>, b: seq<Record>)
    ensures EntriesOf(a + b) == EntriesOf(a) + EntriesOf(b)
  {
    if a == [] {
      assert a + b == b;
    } else {
      assert (a + b)[1..] == a[1..] + b;
      EntriesOfAdd(a[1..], b);
    }
  }

  lemma StartsBlank(gaps: seq<nat>, articles: seq<Article>)
    requires |gaps| == |articles| + 1 && (articles == [] || gaps[0] > 0)
    ensures Document(gaps, articles) == "" || Document(gaps, articles)[0] == '\n'
  {
  }

  /** The entries of a dictionary file are those of its articles, each read two lines at a time. */
  lemma {:induction false} EntriesOfDocument(gaps: seq<nat>, articles: seq<Article>)
    requires |gaps| == |articles| + 1 && Separated(gaps) && ArticlesFit(articles)
    ensures FieldsFit(Document(gaps, articles))
    ensures Entries(Document(gaps, articles)) == EntriesOf(Readings(articles))
  {
    hide Entries, FieldsFit, FgetsLength, Pairs, Written, BlockFits;
    if articles == [] {
      assert Blank(gaps[0]) == Blank(gaps[0]) + "";
      BlankLinesSkipped(gaps[0], "");
      EntriesOfNothing();
    } else {
      var rest := Document(gaps[1..], articles[1..]);
      EntriesOfDocument(gaps[1..], articles[1..]);
      StartsBlank(gaps[1..], articles[1..]);
      BlockIsReadInPairs(LinesOf(articles[0]), rest);
      BlankLinesSkipped(gaps[0], Written(LinesOf(articles[0])) + rest);
      EntriesOfAdd(Pairs(LinesOf(articles[0])), Readings(articles[1..]));
    }
  }

  /** The lines of a definition as one text, without the last newline. */
  function Joined(lines: seq<string>): string {
    if lines == [] then "" else if |lines| == 1 then lines[0] else lines[0] + "\n" + Joined(lines[1..])
  }

  /** What the articles are meant to say: one record for each, with the whole definition. */
  function Meant(articles: seq<Article>): (table: seq<Record>)
    ensures |table| == |articles|
    ensures forall k | 0 <= k < |articles| :: table[k] == Record(articles[k].word, Joined(articles[k].definition))
  {
    if articles == [] then []
    else [Record(articles[0].word, Joined(articles[0].definition))] + Meant(articles[1..])
  }

  ghost predicate OneLineEach(articles: seq<Article>) {
    forall k | 0 <= k < |articles| :: |articles[k].definition| == 1
  }

  lemma {:induction false} ReadingsFit(articles: seq<Article>)
    requires ArticlesFit(articles)
    ensures TableFits(Readings(articles))
  {
    if articles != [] {
      ReadingsFit(articles[1..]);
    }
  }

  lemma {:induction false} OneLineReadings(articles: seq<Article>)
    requires OneLineEach(articles)
    ensures Readings(articles) == Meant(articles)
  {
    if articles != [] {
      OnePair(articles[0].word, articles[0].definition[0]);
      assert articles[0].definition == [articles[0].definition[0]];
      hide Pairs;
      OneLineReadings(articles[1..]);
    }
  }

  lemma OnePair(word: string, text: string)
    ensures Pairs([word] + [text]) == [Record(word, text)] && Joined([text]) == text
  {
    assert ([word] + [text])[2..] == [];
  }

  /** A definition that does not have exactly one line is no text the program can deliver. */
  lemma NotOneLine(definition: seq<string>)
    requires |definition| != 1
    ensures Joined(definition) == "" || '\n' in Joined(definition)
  {
    if |definition| > 1 {
      assert Joined(definition)[|definition[0]|] == '\n';
    }
  }

  lemma {:induction false} EntriesOfAt(table: seq<Record>)
    ensures |EntriesOf(table)| == |table|
    ensures forall k | 0 <= k < |table| :: EntriesOf(table)[k] == Entry(table[k].word + "\n", table[k].text + "\n")
  {
    if table != [] {
      EntriesOfAt(table[1..]);
    }
  }

  /** Every article becomes exactly one entry with its whole definition if and only if every definition has exactly
      one line. */
  lemma ArticlesKeptIff(gaps: seq<nat>, articles: seq<Article>)
    requires |gaps| == |articles| + 1 && Separated(gaps) && ArticlesFit(articles)
    ensures Entries(Document(gaps, articles)) == EntriesOf(Meant(articles)) <==> OneLineEach(articles)
  {
    hide Entries, Document, Readings, Joined;
    EntriesOfDocument(gaps, articles);
    if OneLineEach(articles) {
      OneLineReadings(articles);
    } else {
      var k :| 0 <= k < |articles| && |articles[k].definition| != 1;
      var read := Readings(articles);
      NotOneLine(articles[k].definition);
      ReadingsFit(articles);
      EntriesOfAt(read);
      EntriesOfAt(Meant(articles));
      if k < |read| {
        SameWithoutNewline(read[k].text, Joined(articles[k].definition));
      }
    }
  }

  lemma SameWithoutNewline(a: string, b: string)
    ensures a + "\n" == b + "\n" <==> a == b
  {
    assert (a + "\n")[..|a|] == a && (b + "\n")[..|b|] == b;
  }

  // ---------- what is told of an article ----------

  lemma {:induction false} ScanTellsText(table: seq<Record>, word: string)
    requires TableFits(table) && LinearScan(table, word).Found?
    ensures var text := LinearScan(table, word).text; text != "" && '\n' !in text
  {
    if table[0].word != word {
      ScanTellsText(table[1..], word);
    }
  }

  ghost predicate LookupsRight(articles: seq<Article>) {
    forall word :: LinearScan(Readings(articles), word) == LinearScan(Meant(articles), word)
  }

  ghost predicate WordsDistinct(articles: seq<Article>) {
    forall j, k | 0 <= j < k < |articles| :: articles[j].word != articles[k].word
  }

  /** Every lookup tells the whole definition, or that there is none, if and only if every definition has exactly
      one line. */
  lemma LookupsRightIff(articles: seq<Article>)
    requires ArticlesFit(articles) && WordsDistinct(articles)
    ensures LookupsRight(articles) <==> OneLineEach(articles)
  {
    hide Readings, Joined, LinearScan, BlockFits, TableFits;
    if OneLineEach(articles) {
      OneLineReadings(articles);
    } else {
      var k :| 0 <= k < |articles| && |articles[k].definition| != 1;
      var word := articles[k].word;
      NotOneLine(articles[k].definition);
      assert WordAt(Meant(articles), k, word);
      ScanFindsUnique(Meant(articles), k, word);
      ReadingsFit(articles);
      if LinearScan(Readings(articles), word).Found? {
        ScanTellsText(Readings(articles), word);
      }
      assert LinearScan(Readings(articles), word) != LinearScan(Meant(articles), word);
    }
  }

  lemma {:induction false} ScanSkips(front: seq<Record>, back: seq<Record>, word: string)
    requires forall k | 0 <= k < |front| :: front[k].word != word
    ensures LinearScan(front + back, word) == LinearScan(back, word)
  {
    if front == [] {
      assert front + back == back;
    } else {
      assert (front + back)[1..] == front[1..] + back;
      ScanSkips(front[1..], back, word);
    }
  }

  lemma {:induction false} ReadingsAdd(a: seq<Article>, b: seq<Article>)
    ensures Readings(a + b) == Readings(a) + Readings(b)
  {
    if a == [] {
      assert a + b == b;
    } else {
      assert (a + b)[1..] == a[1..] + b;
      ReadingsAdd(a[1..], b);
    }
  }

  /** Of a longer definition only the first line is told, unless the word has been read before. */
  lemma FirstLineIsTold(articles: seq<Article>, k: nat)
    requires k < |articles| && articles[k].definition != []
    requires forall i | 0 <= i < |Readings(articles[..k])| :: Readings(articles[..k])[i].word != articles[k].word
    ensures LinearScan(Readings(articles), articles[k].word) == Found(articles[k].definition[0])
  {
    var a, back := articles[k], Readings(articles[k..]);
    assert articles == articles[..k] + articles[k..];
    ReadingsAdd(articles[..k], articles[k..]);
    ScanSkips(Readings(articles[..k]), back, a.word);
    assert LinesOf(a)[0] == a.word && LinesOf(a)[1] == a.definition[0];
    assert back == Pairs(LinesOf(a)) + Readings(articles[k..][1..]);
  }

  /** Converting any dictionary file of this layout and searching it tells what its blocks, read two lines at a
      time, say. */
  method ConvertArticlesThenLookup(gaps: seq<nat>, articles: seq<Article>, sought: string) returns (reply: Reply)
    requires |gaps| == |articles| + 1 && Separated(gaps) && ArticlesFit(articles)
    ensures reply == LinearScan(Readings(articles), sought)
  {
    EntriesOfDocument(gaps, articles);
    SearchIsScan(Readings(articles), sought);
    var file := Convert(Document(gaps, articles));
    reply := Lookup(file, sought, EntriesOf(Readings(articles)), "");
  }
}
