/** The dictionary lookup behind the server: binary search over a sorted file of records,
    capped at 100 probes (SP_HW12/lookup5.c). */
module DictSearch {
  import opened Arithmetic
  import opened CLibrary

  /** C's 32-bit int: every sum below has to stay inside it. */
  newtype int32 = x: int | -0x8000_0000 <= x < 0x8000_0000

  const MAX_PROBES: int32 := 100

  datatype Record = Record(word: string, text: string)

  datatype Reply = Found(text: string) | NotFound

  /** What a lookup means: the text of the first record that carries the word. */
  function LinearScan(table: seq<Record>, word: string): Reply {
    if table == [] then NotFound
    else if table[0].word == word then Found(table[0].text)
    else LinearScan(table[1..], word)
  }

  /** Strictly increasing in strcmp order, so the words are distinct. */
  ghost predicate Sorted(table: seq<Record>) {
    forall i, j | 0 <= i < j < |table| :: StrCmp(table[i].word, table[j].word) < 0
  }

  ghost predicate WordAt(table: seq<Record>, p: int, word: string) {
    0 <= p < |table| && table[p].word == word
  }

  lemma {:induction false} ScanFindsUnique(table: seq<Record>, p: nat, word: string)
    requires WordAt(table, p, word)
    requires forall q | WordAt(table, q, word) :: q == p
    ensures LinearScan(table, word) == Found(table[p].text)
  {
    if p > 0 {
      assert table[0].word != word by {
        assert !WordAt(table, 0, word);
      }
      forall q | WordAt(table[1..], q, word)
        ensures q == p - 1
      {
        assert WordAt(table, q + 1, word);
      }
      ScanFindsUnique(table[1..], p - 1, word);
    }
  }

  lemma {:induction false} ScanMisses(table: seq<Record>, word: string)
    requires forall q :: !WordAt(table, q, word)
    ensures LinearScan(table, word) == NotFound
  {
    if table != [] {
      assert !WordAt(table, 0, word);
      forall q
        ensures !WordAt(table[1..], q, word)
      {
        assert !WordAt(table, q + 1, word);
      }
      ScanMisses(table[1..], word);
    }
  }

  function Pow2(n: nat): (p: nat)
    ensures p >= 1
  {
    if n == 0 then 1 else 2 * Pow2(n - 1)
  }

  lemma {:induction false} Pow2Grows(n: nat)
    requires n >= 30
    ensures Pow2(n) >= 0x4000_0000
  {
    if n == 30 {
      assert Pow2(10) == 1024;
      assert Pow2(20) == 0x10_0000;
    } else {
      Pow2Grows(n - 1);
    }
  }

  /** Halving a range of two or more keeps the bound that limits the number of probes. */
  lemma Halving(n: nat, m: nat, cnt: nat, size: nat)
    requires n >= 2 && 2 * (m - 1) <= n - 1
    requires (n - 1) * Pow2(cnt) < size
    ensures (m - 1) * Pow2(cnt + 1) < size
  {
    assert (m - 1) * Pow2(cnt + 1) == 2 * (m - 1) * Pow2(cnt);
    assert 2 * (m - 1) * Pow2(cnt) <= (n - 1) * Pow2(cnt) by {
      MulMonotone(2 * (m - 1), n - 1, Pow2(cnt));
    }
  }

  /** A range of at least two that has been probed `cnt` times needs more than 2^cnt records. */
  lemma ProbesBounded(n: nat, cnt: nat, size: nat)
    requires n >= 2 && size <= 0x4000_0000
    requires (n - 1) * Pow2(cnt) < size
    ensures cnt < 30
  {
    if cnt >= 30 {
      Pow2Grows(cnt);
      MulMonotone(1, n - 1, Pow2(cnt));
    }
  }

  /** Probing the record at `mid` tells on which side of it the sought word lies. */
  lemma ProbeSide(table: seq<Record>, mid: nat, p: nat, word: string)
    requires Sorted(table) && mid < |table| && WordAt(table, p, word)
    ensures StrCmp(table[mid].word, word) < 0 ==> mid < p
    ensures StrCmp(table[mid].word, word) > 0 ==> p < mid
    ensures StrCmp(table[mid].word, word) == 0 ==> p == mid
  {
    StrCmpAntisymmetric(table[mid].word, word);
    StrCmpAntisymmetric(table[p].word, table[mid].word);
  }

  /** The search answers exactly as the linear scan would. The step `start = mid` makes no progress on a
      one-record range, so a miss can run into the cap; a word that is present is always hit before it,
      and the midpoint sum never leaves the int range. */
  method Lookup(table: seq<Record>, sought: string) returns (reply: Reply)
    requires Sorted(table) && |table| <= 0x4000_0000
    ensures reply == LinearScan(table, sought)
  {
    var start: int32, end: int32, cnt: int32 := 0, |table| as int32, 0;
    ghost var present := exists p :: WordAt(table, p, sought);
    ghost var p := if present then var q :| WordAt(table, q, sought); q else 0;
    if present {
      forall q | WordAt(table, q, sought)
        ensures q == p
      {
        ProbeSide(table, q, p, sought);
        StrCmpAntisymmetric(sought, sought);
      }
      ScanFindsUnique(table, p, sought);
    } else {
      ScanMisses(table, sought);
    }
    while start != end
      invariant 0 <= start <= end <= |table| as int32
      invariant 0 <= cnt < MAX_PROBES
      invariant present ==> start as int <= p < end as int
      invariant present ==> (end as int - start as int - 1) * Pow2(cnt as nat) < |table|
      decreases MAX_PROBES - cnt
    {
      var mid := (end + start) / 2;
      var result := StrCmp(table[mid].word, sought);
      ghost var size := end as int - start as int;
      if present {
        ProbeSide(table, mid as nat, p, sought);
      }
      if result == 0 {
        StrCmpAntisymmetric(table[mid].word, sought);
        assert WordAt(table, mid as nat, sought);
        return Found(table[mid].text);
      } else if result < 0 {
        start := mid;
      } else {
        end := mid;
      }
      if present {
        ProbesBounded(size, cnt as nat, |table|);
        Halving(size, (end - start) as nat, cnt as nat, |table|);
      }
      cnt := cnt + 1;
      if cnt == MAX_PROBES {
        break;
      }
    }
    return NotFound;
  }
}
