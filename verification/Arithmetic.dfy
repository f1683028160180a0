/** Products and quotients of natural numbers, as block and row addresses need them. */
module Arithmetic {
  lemma Distribute(i: int, j: int, len: int)
    ensures (i + j) * len == i * len + j * len
  {
  }

  lemma Monotone(i: nat, j: nat, len: nat)
    requires i <= j
    ensures i * len <= j * len
  {
    Distribute(i, j - i, len);
    assert (j - i) * len >= 0;
  }

  /** Item i of size len ends before item j begins. */
  lemma ItemsApart(i: nat, j: nat, len: nat)
    requires i < j
    ensures i * len + len <= j * len
  {
    Distribute(i, 1, len);
    Monotone(i + 1, j, len);
  }

  /** Division is determined by quotient and remainder. */
  lemma DivisionUnique(q: int, r: int, b: nat, c: int)
    requires b > 0 && c == q * b + r && 0 <= r < b
    ensures c / b == q && c % b == r
  {
    var q', r' := c / b, c % b;
    assert c == q' * b + r';
    Distribute(q - q', q', b);
    if q > q' {
      Monotone(1, q - q', b);
    } else if q < q' {
      Distribute(q' - q, q, b);
      Monotone(1, q' - q, b);
    }
  }

  /** index < q * m is in row index / q < m. */
  lemma RowBound(index: nat, q: nat, m: nat)
    requires q > 0 && index < q * m
    ensures index / q < m
  {
    var row := index / q;
    assert index == row * q + index % q;
    if row >= m { Monotone(m, row, q); }
  }
}
