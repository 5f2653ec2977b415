/**
 * Row-major flat indexing, as used by every dense matrix of the solver:
 * entry (row, col) of a matrix with `cols` columns lives at `col + row * cols`.
 * The lemmas here carry the non-linear arithmetic once, so that the
 * array code can call them instead of asking the solver to rediscover it.
 */
module Indexing {

  /** The flat position of entry (row, col) in a row-major buffer with `cols` columns. */
  function Flat(row: int, col: int, cols: int): int
  {
    col + row * cols
  }

  /** Every entry of a rows x cols matrix lies inside a buffer of rows * cols cells. */
  lemma FlatBound(row: int, col: int, rows: int, cols: int)
    requires 0 <= row < rows && 0 <= col < cols
    ensures 0 <= Flat(row, col, cols) < rows * cols
    ensures Flat(row, col, cols) + (cols - col) <= rows * cols
  {
    assert row * cols <= (rows - 1) * cols by {
      MulMonotone(row, rows - 1, cols);
    }
    assert (rows - 1) * cols == rows * cols - cols;
  }

  lemma MulMonotone(a: int, b: int, c: int)
    requires a <= b && 0 <= c
    ensures a * c <= b * c
  {
    assert b * c - a * c == (b - a) * c;
  }

  /** Splitting a flat position recovers the row and the column. */
  lemma FlatDivMod(row: int, col: int, cols: int)
    requires 0 <= row && 0 <= col < cols
    ensures Flat(row, col, cols) / cols == row
    ensures Flat(row, col, cols) % cols == col
  {
    var k := Flat(row, col, cols);
    DivModUnique(k, cols, row, col);
  }

  /** Euclidean division has one quotient and one remainder. */
  lemma DivModUnique(k: int, d: int, q: int, r: int)
    requires 0 < d && 0 <= r < d && k == q * d + r
    ensures k / d == q && k % d == r
  {
    var q', r' := k / d, k % d;
    assert k == q' * d + r' && 0 <= r' < d;
    if q' > q {
      assert q' * d - q * d == (q' - q) * d;
      MulMonotone(1, q' - q, d);
    } else if q' < q {
      assert q * d - q' * d == (q - q') * d;
      MulMonotone(1, q - q', d);
    }
  }

  /** Distinct (row, col) pairs inside the column range occupy distinct cells. */
  lemma FlatInjective(r1: int, c1: int, r2: int, c2: int, cols: int)
    requires 0 <= r1 && 0 <= r2 && 0 <= c1 < cols && 0 <= c2 < cols
    requires Flat(r1, c1, cols) == Flat(r2, c2, cols)
    ensures r1 == r2 && c1 == c2
  {
    FlatDivMod(r1, c1, cols);
    FlatDivMod(r2, c2, cols);
  }

  /** Every cell of a rows x cols buffer is the flat position of one entry. */
  lemma FlatSplit(k: int, rows: int, cols: int)
    requires 0 < cols && 0 <= k < rows * cols
    ensures 0 <= k / cols < rows && 0 <= k % cols < cols
    ensures k == Flat(k / cols, k % cols, cols)
  {
    if k / cols >= rows {
      MulMonotone(rows, k / cols, cols);
    }
  }

  /** FlatBound for every entry at once, for quantified loop invariants over array cells. */
  lemma FlatBoundAll(rows: int, cols: int)
    ensures forall row, col | 0 <= row < rows && 0 <= col < cols :: 0 <= Flat(row, col, cols) < rows * cols
  {
    forall row, col | 0 <= row < rows && 0 <= col < cols
      ensures 0 <= Flat(row, col, cols) < rows * cols
    {
      FlatBound(row, col, rows, cols);
    }
  }

  /** FlatInjective for every entry at once: only (row0, col0) itself sits at its cell. */
  lemma FlatDistinct(cols: int, row0: int, col0: int)
    requires 0 <= row0 && 0 <= col0 < cols
    ensures forall row, col | 0 <= row && 0 <= col < cols ::
      Flat(row, col, cols) == Flat(row0, col0, cols) <==> row == row0 && col == col0
  {
    forall row, col | 0 <= row && 0 <= col < cols && Flat(row, col, cols) == Flat(row0, col0, cols)
      ensures row == row0 && col == col0
    {
      FlatInjective(row, col, row0, col0, cols);
    }
  }

  /** Row `row` of a rows x cols buffer spans cells row * cols .. row * cols + cols. */
  lemma RowSpan(row: int, rows: int, cols: int)
    requires 0 <= row < rows && 0 <= cols
    ensures 0 <= row * cols && row * cols + cols <= rows * cols
  {
    MulMonotone(0, row, cols);
    MulMonotone(row + 1, rows, cols);
    assert (row + 1) * cols == row * cols + cols;
  }

  /** One past the last cell of a row is the first cell of the next row. */
  lemma NextRow(row: int, cols: int)
    ensures Flat(row, cols, cols) == Flat(row + 1, 0, cols)
  {
    assert (row + 1) * cols == row * cols + cols;
  }
}
