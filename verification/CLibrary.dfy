/** The C string functions the programs lean on, over sequences of characters. */
module CLibrary {

  const NUL := '\0'

  /** The C string that starts at the front of a buffer: everything before the first NUL. */
  function CString(buffer: string): (s: string)
    ensures |s| <= |buffer| && s == buffer[..|s|] && NUL !in s
    ensures |s| < |buffer| ==> buffer[|s|] == NUL
  {
    if buffer == [] || buffer[0] == NUL then [] else [buffer[0]] + CString(buffer[1..])
  }

  lemma {:induction false} CStringOfPadded(s: string, rest: string)
    requires NUL !in s
    requires rest == [] || rest[0] == NUL
    ensures CString(s + rest) == s
  {
    if s == [] {
      assert s + rest == rest;
    } else {
      assert (s + rest)[1..] == s[1..] + rest;
      CStringOfPadded(s[1..], rest);
    }
  }

  /** The sign of C's strcmp, comparing characters by code. */
  function StrCmp(a: string, b: string): int {
    if a == [] then (if b == [] then 0 else -1)
    else if b == [] then 1
    else if a[0] < b[0] then -1
    else if a[0] > b[0] then 1
    else StrCmp(a[1..], b[1..])
  }

  /** The sign is that of the first difference; a proper prefix comes first. */
  lemma {:induction false} StrCmpByFirstDifference(a: string, b: string, k: nat)
    requires k <= |a| && k <= |b| && a[..k] == b[..k]
    ensures k < |a| && k < |b| && a[k] < b[k] ==> StrCmp(a, b) < 0
    ensures k < |a| && k < |b| && a[k] > b[k] ==> StrCmp(a, b) > 0
    ensures k == |a| < |b| ==> StrCmp(a, b) < 0
    ensures k == |b| < |a| ==> StrCmp(a, b) > 0
    ensures k == |a| == |b| ==> StrCmp(a, b) == 0
  {
    if k > 0 {
      assert a[0] == a[..k][0] == b[..k][0] == b[0];
      assert a[1..][..k - 1] == a[..k][1..] && b[1..][..k - 1] == b[..k][1..];
      StrCmpByFirstDifference(a[1..], b[1..], k - 1);
    }
  }

  lemma {:induction false} StrCmpAntisymmetric(a: string, b: string)
    ensures StrCmp(a, b) == 0 <==> a == b
    ensures StrCmp(a, b) == -StrCmp(b, a)
  {
    if a != [] && b != [] && a[0] == b[0] {
      StrCmpAntisymmetric(a[1..], b[1..]);
      assert a == [a[0]] + a[1..] && b == [b[0]] + b[1..];
    }
  }

  /** Strings written one behind the other. */
  function Flatten(lines: seq<string>): string {
    if lines == [] then "" else lines[0] + Flatten(lines[1..])
  }

  lemma SingleFlattens(line: string)
    ensures Flatten([line]) == line && Flatten([]) == ""
  {
    assert [line][1..] == [];
  }

  lemma {:induction false} FlattenAdd(a: seq<string>, b: seq<string>)
    ensures Flatten(a + b) == Flatten(a) + Flatten(b)
  {
    if a == [] {
      assert a + b == b;
    } else {
      assert (a + b)[1..] == a[1..] + b;
      FlattenAdd(a[1..], b);
    }
  }

  /** How many characters `fgets(buf, size, stream)` takes when `rest` is left in the stream:
      up to and including the first newline, at most size - 1, and none only at end of file. */
  function FgetsLength(rest: string, size: nat): (n: nat)
    requires 2 <= size
    ensures n <= |rest| && n < size && (n == 0 <==> rest == [])
    ensures forall k | 0 <= k < n - 1 :: rest[k] != '\n'
    ensures 0 < n < |rest| && n < size - 1 ==> rest[n - 1] == '\n'
  {
    if rest == [] then 0
    else if rest[0] == '\n' || size == 2 then 1
    else 1 + FgetsLength(rest[1..], size - 1)
  }

  function Digit(d: nat): char
    requires d < 10
  {
    "0123456789"[d]
  }

  /** printf's "%d" for a non-negative int. */
  function Decimal(n: nat): (s: string)
    ensures s != []
  {
    if n < 10 then [Digit(n)] else Decimal(n / 10) + [Digit(n % 10)]
  }

  /** Reading a numeral, digit by digit. */
  function Value(s: string): int {
    if s == "" then 0 else 10 * Value(s[..|s| - 1]) + (s[|s| - 1] as int - '0' as int)
  }

  predicate IsDigit(c: char) {
    '0' <= c <= '9'
  }

  /** The numeral printed for n reads as n again, and has no superfluous zero in front. */
  lemma {:induction false} DecimalReads(n: nat)
    ensures Value(Decimal(n)) == n
    ensures forall k | 0 <= k < |Decimal(n)| :: IsDigit(Decimal(n)[k])
    ensures n > 0 ==> Decimal(n)[0] != '0'
  {
    DigitReads(n % 10);
    if n < 10 {
      assert [Digit(n)][..0] == "";
    } else {
      DecimalReads(n / 10);
      assert (Decimal(n / 10) + [Digit(n % 10)])[..|Decimal(n / 10)|] == Decimal(n / 10);
    }
  }

  lemma DigitReads(d: nat)
    requires d < 10
    ensures IsDigit(Digit(d)) && Digit(d) as int - '0' as int == d
  {
  }

  /** Two numbers that print alike are equal. */
  lemma DecimalInjective(m: nat, n: nat)
    requires Decimal(m) == Decimal(n)
    ensures m == n
  {
    DecimalReads(m);
    DecimalReads(n);
  }
}
