/**
 * The single-threaded branch of `solve_jacobi` (core/linearsolve.c).
 *
 * Every sweep visits the rows j = 0 .. rows-1 in turn and overwrites x[j]
 * with (b[j] - sum over i != j of A[j][i] * x[i]) / A[j][j], skipping the
 * division when the diagonal entry is zero. The matrix is the flat
 * row-major buffer of `Indexing` (entry (j, i) at i + j * cols). The update
 * is made in place, so a row reads the entries already updated earlier in
 * the same sweep: the iteration is Gauss-Seidel ordered, whatever its name
 * says. `float` arithmetic is modelled by `real`.
 */
module LinearSolve {
  import opened Indexing

  /** The buffers are large enough for every access of a sweep over `rows` rows. */
  predicate Shape(a: seq<real>, x: seq<real>, b: seq<real>, rows: int, cols: int)
  {
    0 <= rows <= cols && rows * cols <= |a| && cols <= |x| && rows <= |b|
  }

  /** A[j][i]. */
  function Entry(a: seq<real>, j: int, i: int, rows: int, cols: int): real
    requires 0 <= j < rows && 0 <= i < cols && rows * cols <= |a|
  {
    FlatBound(j, i, rows, cols);
    a[Flat(j, i, cols)]
  }

  /** sum over i < n, i != j, of A[j][i] * x[i]: the running sum of lines 40-47. */
  function OffDiagonalSum(a: seq<real>, x: seq<real>, j: int, rows: int, cols: int, n: int): real
    requires 0 <= j < rows && 0 <= n <= cols && rows * cols <= |a| && cols <= |x|
  {
    if n == 0 then 0.0
    else OffDiagonalSum(a, x, j, rows, cols, n - 1) + (if n - 1 != j then Entry(a, j, n - 1, rows, cols) * x[n - 1] else 0.0)
  }

  /** sum over i < n of A[j][i] * x[i]: row j of the product A x, up to column n. */
  function RowProduct(a: seq<real>, x: seq<real>, j: int, rows: int, cols: int, n: int): real
    requires 0 <= j < rows && 0 <= n <= cols && rows * cols <= |a| && cols <= |x|
  {
    if n == 0 then 0.0
    else RowProduct(a, x, j, rows, cols, n - 1) + Entry(a, j, n - 1, rows, cols) * x[n - 1]
  }

  /** x solves A x = b on every row. */
  predicate Solves(a: seq<real>, x: seq<real>, b: seq<real>, rows: int, cols: int)
    requires Shape(a, x, b, rows, cols)
  {
    forall j | 0 <= j < rows :: RowProduct(a, x, j, rows, cols, cols) == b[j]
  }

  /** No diagonal entry of the first `rows` rows is zero. */
  predicate NonZeroDiagonal(a: seq<real>, rows: int, cols: int)
    requires 0 <= rows <= cols && rows * cols <= |a|
  {
    forall j | 0 <= j < rows :: Entry(a, j, j, rows, cols) != 0.0
  }

  /**
   * Lines 40-60: the new estimate of x[j]. It solves row j of A x = b for
   * x[j] with the other entries held; on a zero diagonal the division is
   * skipped, so the row is solved as if its diagonal were 1.
   */
  function RowUpdate(a: seq<real>, x: seq<real>, b: seq<real>, j: int, rows: int, cols: int): (r: real)
    requires Shape(a, x, b, rows, cols) && 0 <= j < rows
    ensures Entry(a, j, j, rows, cols) != 0.0 ==>
      Entry(a, j, j, rows, cols) * r + OffDiagonalSum(a, x, j, rows, cols, cols) == b[j]
    ensures Entry(a, j, j, rows, cols) == 0.0 ==> r + OffDiagonalSum(a, x, j, rows, cols, cols) == b[j]
  {
    var s := b[j] - OffDiagonalSum(a, x, j, rows, cols, cols);
    var d := Entry(a, j, j, rows, cols);
    if d != 0.0 then s / d else s
  }

  /**
   * Rows lo .. hi-1 updated in turn, in place: row j reads the vector in
   * which rows lo .. j-1 already hold their new values. An empty range
   * (hi <= lo) changes nothing.
   */
  function SweepRange(a: seq<real>, x: seq<real>, b: seq<real>, rows: int, cols: int, lo: int, hi: int): (r: seq<real>)
    requires Shape(a, x, b, rows, cols) && 0 <= lo && hi <= rows
    ensures |r| == |x|
    decreases hi - lo
  {
    if hi <= lo then x
    else
      var prev := SweepRange(a, x, b, rows, cols, lo, hi - 1);
      prev[hi - 1 := RowUpdate(a, prev, b, hi - 1, rows, cols)]
  }

  /** Lines 37-61: one sweep over every row. */
  function Sweep(a: seq<real>, x: seq<real>, b: seq<real>, rows: int, cols: int): (r: seq<real>)
    requires Shape(a, x, b, rows, cols)
    ensures |r| == |x|
  {
    SweepRange(a, x, b, rows, cols, 0, rows)
  }

  /** Line 34: t sweeps one after the other. */
  function Sweeps(a: seq<real>, x: seq<real>, b: seq<real>, rows: int, cols: int, t: nat): (r: seq<real>)
    requires Shape(a, x, b, rows, cols)
    ensures |r| == |x|
  {
    if t == 0 then x
    else
      var prev := Sweeps(a, x, b, rows, cols, t - 1);
      Sweep(a, prev, b, rows, cols)
  }

  /**
   * Jacobi's method as the comment of lines 9-21 describes it: every row is
   * computed from the estimate of the previous sweep. The code does not do
   * this; see SweepIsNotJacobi.
   */
  function JacobiSweep(a: seq<real>, x: seq<real>, b: seq<real>, rows: int, cols: int): (r: seq<real>)
    requires Shape(a, x, b, rows, cols)
    ensures |r| == |x|
    ensures forall j | 0 <= j < |x| :: r[j] == if j < rows then RowUpdate(a, x, b, j, rows, cols) else x[j]
  {
    seq(|x|, j requires 0 <= j < |x| => if j < rows then RowUpdate(a, x, b, j, rows, cols) else x[j])
  }

  // ---------------------------------------------------------------------------
  // Properties of a sweep

  /** Row j's own entry x[j] never enters its off-diagonal sum. */
  lemma {:induction false} OffDiagonalIgnoresOwn(a: seq<real>, x: seq<real>, y: seq<real>, j: int, rows: int, cols: int, n: int)
    requires 0 <= j < rows && 0 <= n <= cols && rows * cols <= |a| && cols <= |x| && |y| == |x|
    requires forall i | 0 <= i < |x| && i != j :: y[i] == x[i]
    ensures OffDiagonalSum(a, y, j, rows, cols, n) == OffDiagonalSum(a, x, j, rows, cols, n)
  {
    if n > 0 {
      OffDiagonalIgnoresOwn(a, x, y, j, rows, cols, n - 1);
    }
  }

  /** Row j of A x is its off-diagonal sum plus the diagonal term. */
  lemma {:induction false} RowProductSplit(a: seq<real>, x: seq<real>, j: int, rows: int, cols: int, n: int)
    requires 0 <= j < rows && 0 <= n <= cols && rows * cols <= |a| && cols <= |x|
    ensures RowProduct(a, x, j, rows, cols, n) ==
      OffDiagonalSum(a, x, j, rows, cols, n) + (if j < n then Entry(a, j, j, rows, cols) * x[j] else 0.0)
  {
    if n > 0 {
      RowProductSplit(a, x, j, rows, cols, n - 1);
    }
  }

  /** With a non-zero diagonal, the update makes row j of A x = b hold. */
  lemma UpdateSolvesRow(a: seq<real>, x: seq<real>, b: seq<real>, j: int, rows: int, cols: int)
    requires Shape(a, x, b, rows, cols) && 0 <= j < rows && Entry(a, j, j, rows, cols) != 0.0
    ensures RowProduct(a, x[j := RowUpdate(a, x, b, j, rows, cols)], j, rows, cols, cols) == b[j]
  {
    var y := x[j := RowUpdate(a, x, b, j, rows, cols)];
    OffDiagonalIgnoresOwn(a, x, y, j, rows, cols, cols);
    RowProductSplit(a, y, j, rows, cols, cols);
  }

  /** A row whose equation already holds (with a non-zero diagonal) keeps its value. */
  lemma UpdateKeepsSolution(a: seq<real>, x: seq<real>, b: seq<real>, j: int, rows: int, cols: int)
    requires Shape(a, x, b, rows, cols) && 0 <= j < rows && Entry(a, j, j, rows, cols) != 0.0
    requires RowProduct(a, x, j, rows, cols, cols) == b[j]
    ensures RowUpdate(a, x, b, j, rows, cols) == x[j]
  {
    RowProductSplit(a, x, j, rows, cols, cols);
    var d, r := Entry(a, j, j, rows, cols), RowUpdate(a, x, b, j, rows, cols);
    assert d * r == d * x[j];
  }

  /**
   * The sweep is made in place: it changes only rows lo .. hi-1, and row j
   * is computed from the vector in which rows lo .. j-1 were already
   * updated by the same sweep.
   */
  lemma {:induction false} SweepInPlace(a: seq<real>, x: seq<real>, b: seq<real>, rows: int, cols: int, lo: int, hi: int)
    requires Shape(a, x, b, rows, cols) && 0 <= lo && hi <= rows
    ensures forall i | 0 <= i < |x| && !(lo <= i < hi) :: SweepRange(a, x, b, rows, cols, lo, hi)[i] == x[i]
    ensures forall j | lo <= j < hi ::
      SweepRange(a, x, b, rows, cols, lo, hi)[j] == RowUpdate(a, SweepRange(a, x, b, rows, cols, lo, j), b, j, rows, cols)
    decreases hi - lo
  {
    if lo < hi {
      SweepInPlace(a, x, b, rows, cols, lo, hi - 1);
    }
  }

  /** A solution of A x = b with a non-zero diagonal is left unchanged by a sweep over any rows. */
  lemma {:induction false} SweepRangeFixedPoint(a: seq<real>, x: seq<real>, b: seq<real>, rows: int, cols: int, lo: int, hi: int)
    requires Shape(a, x, b, rows, cols) && 0 <= lo && hi <= rows
    requires Solves(a, x, b, rows, cols) && NonZeroDiagonal(a, rows, cols)
    ensures SweepRange(a, x, b, rows, cols, lo, hi) == x
    decreases hi - lo
  {
    if lo < hi {
      SweepRangeFixedPoint(a, x, b, rows, cols, lo, hi - 1);
      UpdateKeepsSolution(a, x, b, hi - 1, rows, cols);
    }
  }

  /** Lines 15-17: the exact solution is a fixed point of the iteration, for any number of sweeps. */
  lemma {:induction false} SweepsFixedPoint(a: seq<real>, x: seq<real>, b: seq<real>, rows: int, cols: int, t: nat)
    requires Shape(a, x, b, rows, cols) && Solves(a, x, b, rows, cols) && NonZeroDiagonal(a, rows, cols)
    ensures Sweeps(a, x, b, rows, cols, t) == x
  {
    if t > 0 {
      SweepsFixedPoint(a, x, b, rows, cols, t - 1);
      SweepRangeFixedPoint(a, x, b, rows, cols, 0, rows);
    }
  }

  /**
   * The sweep is not Jacobi's: on A = [[1, 1], [1, 1]], b = [0, 0] and
   * x = [1, 1], row 1 reads the new x[0] = -1 and keeps 1, where Jacobi
   * would give -1.
   */
  lemma SweepIsNotJacobi()
    ensures Shape([1.0, 1.0, 1.0, 1.0], [1.0, 1.0], [0.0, 0.0], 2, 2)
    ensures Sweep([1.0, 1.0, 1.0, 1.0], [1.0, 1.0], [0.0, 0.0], 2, 2) == [-1.0, 1.0]
    ensures JacobiSweep([1.0, 1.0, 1.0, 1.0], [1.0, 1.0], [0.0, 0.0], 2, 2) == [-1.0, -1.0]
  {
    var a, x, b := [1.0, 1.0, 1.0, 1.0], [1.0, 1.0], [0.0, 0.0];
    assert OffDiagonalSum(a, x, 0, 2, 2, 2) == 1.0 by {
      assert OffDiagonalSum(a, x, 0, 2, 2, 1) == 0.0;
      assert Entry(a, 0, 1, 2, 2) == 1.0;
    }
    assert RowUpdate(a, x, b, 0, 2, 2) == -1.0 by {
      assert Entry(a, 0, 0, 2, 2) == 1.0;
    }
    var x1 := [-1.0, 1.0];
    assert SweepRange(a, x, b, 2, 2, 0, 1) == x1 by {
      assert SweepRange(a, x, b, 2, 2, 0, 0) == x;
    }
    assert OffDiagonalSum(a, x1, 1, 2, 2, 2) == -1.0 by {
      assert OffDiagonalSum(a, x1, 1, 2, 2, 1) == -1.0 by {
        assert Entry(a, 1, 0, 2, 2) == 1.0;
      }
    }
    assert RowUpdate(a, x1, b, 1, 2, 2) == 1.0 by {
      assert Entry(a, 1, 1, 2, 2) == 1.0;
    }
    assert OffDiagonalSum(a, x, 1, 2, 2, 2) == 1.0 by {
      assert OffDiagonalSum(a, x, 1, 2, 2, 1) == 1.0 by {
        assert Entry(a, 1, 0, 2, 2) == 1.0;
      }
    }
    assert RowUpdate(a, x, b, 1, 2, 2) == -1.0 by {
      assert Entry(a, 1, 1, 2, 2) == 1.0;
    }
    var j := JacobiSweep(a, x, b, 2, 2);
    assert j[0] == -1.0 && j[1] == -1.0;
  }

  // ---------------------------------------------------------------------------
  // The loops

  /** Lines 40-47: the off-diagonal sum of row j, accumulated column by column. */
  method RowSum(a: array<real>, x: array<real>, j: int, rows: int, cols: int) returns (s: real)
    requires 0 <= j < rows && 0 <= rows <= cols && rows * cols <= a.Length && cols <= x.Length
    ensures s == OffDiagonalSum(a[..], x[..], j, rows, cols, cols)
  {
    s := 0.0;
    for i := 0 to cols
      invariant s == OffDiagonalSum(a[..], x[..], j, rows, cols, i)
    {
      if i != j {
        FlatBound(j, i, rows, cols);
        s := s + a[i + j * cols] * x[i];
      }
    }
  }

  /**
   * Lines 37-61 over the rows lo .. hi-1 (all rows for `solve_jacobi`, one
   * chunk for the MPI variant): x[j] is overwritten row by row.
   */
  method SweepRows(a: array<real>, x: array<real>, b: array<real>, rows: int, cols: int, lo: int, hi: int)
    requires x != a && x != b
    requires Shape(a[..], x[..], b[..], rows, cols) && 0 <= lo && hi <= rows
    modifies x
    ensures x[..] == SweepRange(a[..], old(x[..]), b[..], rows, cols, lo, hi)
  {
    if hi <= lo {
      return;
    }
    var j := lo;
    while j < hi
      invariant lo <= j <= hi
      invariant x[..] == SweepRange(a[..], old(x[..]), b[..], rows, cols, lo, j)
    {
      var s := RowSum(a, x, j, rows, cols);
      var r := b[j] - s;
      FlatBound(j, j, rows, cols);
      var d := a[j + j * cols];
      if d != 0.0 {
        r := r / d;
      }
      ghost var prev := x[..];
      assert r == RowUpdate(a[..], prev, b[..], j, rows, cols);
      x[j] := r;
      assert x[..] == prev[j := r];
      j := j + 1;
    }
  }

  /**
   * Lines 7-63, single-threaded: with fewer than one thread nothing
   * happens; with one thread, max(iterations, 0) sweeps run in place over
   * x, and A and b are only read.
   */
  method SolveJacobi(a: array<real>, x: array<real>, b: array<real>, rows: int, cols: int, iterations: int, desiredThreads: int)
    requires x != a && x != b && desiredThreads <= 1
    requires desiredThreads == 1 ==> Shape(a[..], x[..], b[..], rows, cols)
    modifies x
    ensures desiredThreads < 1 ==> x[..] == old(x[..])
    ensures desiredThreads == 1 ==>
      x[..] == Sweeps(a[..], old(x[..]), b[..], rows, cols, if iterations < 0 then 0 else iterations)
    ensures a[..] == old(a[..]) && b[..] == old(b[..])
  {
    if desiredThreads < 1 {
      return;
    }
    var t := 0;
    while t < iterations
      invariant 0 <= t && (t <= iterations || t == 0)
      invariant x[..] == Sweeps(a[..], old(x[..]), b[..], rows, cols, t)
    {
      SweepRows(a, x, b, rows, cols, 0, rows);
      t := t + 1;
    }
  }
}
