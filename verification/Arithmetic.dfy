/** The non-linear facts used by the ring and by the binary search. */
module Arithmetic {

  lemma MulMonotone(a: int, b: int, c: nat)
    requires a <= b
    ensures a * c <= b * c
  {
    assert b * c - a * c == (b - a) * c;
  }

  lemma LargeMultiple(q: int, rows: nat)
    requires q != 0
    ensures q * rows >= rows || q * rows <= -(rows as int)
  {
    if q >= 1 {
      MulMonotone(1, q, rows);
    } else {
      MulMonotone(q, -1, rows);
    }
  }

  lemma CongruentAndClose(m: nat, n: nat, rows: nat)
    requires 0 < rows && m % rows == n % rows && m < n + rows && n < m + rows
    ensures m == n
  {
    assert m - n == (m / rows - n / rows) * rows;
    if m / rows != n / rows {
      LargeMultiple(m / rows - n / rows, rows);
    }
  }

  lemma OneLapCongruent(n: nat, rows: nat)
    requires 0 < rows
    ensures (n + rows) % rows == n % rows
  {
    var m := n + rows;
    assert m % rows - n % rows == (n / rows + 1 - m / rows) * rows;
    if n / rows + 1 != m / rows {
      LargeMultiple(n / rows + 1 - m / rows, rows);
    }
  }
}
