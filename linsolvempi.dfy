/**
 * `solve_jacobi_mpi` (core/linsolvempi.c). The process count and rank,
 * which the source reads from MPI globals, are parameters here.
 *
 * Each process takes a chunk of ceil(rows / procs) rows starting at
 * chunk * rank. Every iteration sweeps its chunk, then sweeps all rows;
 * both sweeps are the in-place row update of `LinearSolve`. The source
 * computes the end of the chunk with a maximum where its comment asks for a
 * clamp; RowEndAsWritten and SolveJacobiMpiAsWritten model that line, RowEnd
 * and SolveJacobiMpi the clamp.
 */
module LinSolveMpi {
  import opened Indexing
  import opened LinearSolve

  /** Line 39: rows / procs rounded up. C's truncating division agrees with Dafny's, the operands being non-negative. */
  function ChunkSize(rows: int, procs: int): (chunk: int)
    requires 0 <= rows && 1 <= procs
    ensures 0 <= chunk
  {
    (rows + procs - 1) / procs
  }

  /** Line 42: the first row of the chunk of process `rank`. */
  function RowStart(rows: int, procs: int, rank: int): (start: int)
    requires 0 <= rows && 1 <= procs && 0 <= rank
    ensures start == ChunkSize(rows, procs) * rank && 0 <= start
  {
    ChunkSize(rows, procs) * rank
  }

  /** Lines 44-45 as written: the larger of the chunk's end and rows. */
  function RowEndAsWritten(rows: int, procs: int, rank: int): int
    requires 0 <= rows && 1 <= procs && 0 <= rank
  {
    var end := RowStart(rows, procs, rank) + ChunkSize(rows, procs);
    if end > rows then end else rows
  }

  /** Lines 43-45 as the comment there intends: the chunk's end clamped to rows. */
  function RowEnd(rows: int, procs: int, rank: int): (end: int)
    requires 0 <= rows && 1 <= procs && 0 <= rank
    ensures end <= rows
    ensures end == RowStart(rows, procs, rank) + ChunkSize(rows, procs) || end == rows
  {
    var end := RowStart(rows, procs, rank) + ChunkSize(rows, procs);
    if end < rows then end else rows
  }

  /** Lines 35-39: the chunk size is the least number of rows per process that covers every row. */
  lemma ChunkSizeCeiling(rows: int, procs: int)
    requires 0 <= rows && 1 <= procs
    ensures ChunkSize(rows, procs) * procs >= rows
    ensures (ChunkSize(rows, procs) - 1) * procs < rows
  {
    var c, r := ChunkSize(rows, procs), (rows + procs - 1) % procs;
    assert c * procs + r == rows + procs - 1;
  }

  /**
   * Lines 44-45 as written: with 7 rows on 2 processes, process 1 ends its
   * chunk at row 8, past the last row, and process 0 ends at row 7, so its
   * chunk covers process 1's rows too.
   */
  lemma RowEndAsWrittenOverruns()
    ensures RowEndAsWritten(7, 2, 1) == 8 > 7
    ensures RowStart(7, 2, 1) == 4 && RowEndAsWritten(7, 2, 0) == 7
  {
  }

  /** The as-written end stays within the rows only when the unclamped end already does. */
  lemma RowEndAsWrittenInBounds(rows: int, procs: int, rank: int)
    requires 0 <= rows && 1 <= procs && 0 <= rank
    ensures RowEndAsWritten(rows, procs, rank) <= rows <==> RowStart(rows, procs, rank) + ChunkSize(rows, procs) <= rows
    ensures RowEndAsWritten(rows, procs, rank) >= rows
  {
  }

  /** Row r lies in the chunk of process `rank`. */
  predicate InChunk(rows: int, procs: int, rank: int, r: int)
    requires 0 <= rows && 1 <= procs && 0 <= rank
  {
    RowStart(rows, procs, rank) <= r < RowEnd(rows, procs, rank)
  }

  /** The process whose chunk holds row r. */
  function Owner(rows: int, procs: int, r: int): int
    requires 0 <= r < rows && 1 <= procs
  {
    ChunkSizeCeiling(rows, procs);
    r / ChunkSize(rows, procs)
  }

  /**
   * With the clamp, the chunks partition the rows: every row lies in the
   * chunk of exactly one process 0 .. procs-1, and no chunk reaches past
   * the last row.
   */
  lemma ChunksPartition(rows: int, procs: int)
    requires 0 <= rows && 1 <= procs
    ensures forall rank | 0 <= rank < procs :: RowEnd(rows, procs, rank) <= rows
    ensures forall r | 0 <= r < rows :: 0 <= Owner(rows, procs, r) < procs && InChunk(rows, procs, Owner(rows, procs, r), r)
    ensures forall r, rank | 0 <= r < rows && 0 <= rank < procs && InChunk(rows, procs, rank, r) :: rank == Owner(rows, procs, r)
  {
    ChunkSizeCeiling(rows, procs);
    var c := ChunkSize(rows, procs);
    forall r | 0 <= r < rows
      ensures 0 <= Owner(rows, procs, r) < procs && InChunk(rows, procs, Owner(rows, procs, r), r)
    {
      var rank := r / c;
      assert rank * c <= r < rank * c + c;
      if rank >= procs {
        MulMonotone(procs, rank, c);
      }
    }
    forall r, rank | 0 <= r < rows && 0 <= rank < procs && InChunk(rows, procs, rank, r)
      ensures rank == Owner(rows, procs, r)
    {
      DivModUnique(r, c, rank, r - rank * c);
    }
  }

  /** Lines 50-113, one iteration over the chunk lo .. hi-1: the chunk sweep, then the full sweep. */
  function ChunkIteration(a: seq<real>, x: seq<real>, b: seq<real>, rows: int, cols: int, lo: int, hi: int): (r: seq<real>)
    requires Shape(a, x, b, rows, cols) && 0 <= lo && hi <= rows
    ensures |r| == |x|
  {
    var chunk := SweepRange(a, x, b, rows, cols, lo, hi);
    Sweep(a, chunk, b, rows, cols)
  }

  /** Line 50: t iterations over the chunk lo .. hi-1, one after the other. */
  function ChunkIterations(a: seq<real>, x: seq<real>, b: seq<real>, rows: int, cols: int, lo: int, hi: int, t: nat): (r: seq<real>)
    requires Shape(a, x, b, rows, cols) && 0 <= lo && hi <= rows
    ensures |r| == |x|
  {
    if t == 0 then x
    else
      var prev := ChunkIterations(a, x, b, rows, cols, lo, hi, t - 1);
      ChunkIteration(a, prev, b, rows, cols, lo, hi)
  }

  /** One iteration of process `rank`, its chunk clamped to the rows. */
  function Iteration(a: seq<real>, x: seq<real>, b: seq<real>, rows: int, cols: int, rank: int, procs: int): (r: seq<real>)
    requires Shape(a, x, b, rows, cols) && 0 <= rank && 1 <= procs
    ensures |r| == |x|
  {
    ChunkIteration(a, x, b, rows, cols, RowStart(rows, procs, rank), RowEnd(rows, procs, rank))
  }

  /** t iterations of process `rank`, its chunk clamped to the rows. */
  function Iterations(a: seq<real>, x: seq<real>, b: seq<real>, rows: int, cols: int, rank: int, procs: int, t: nat): (r: seq<real>)
    requires Shape(a, x, b, rows, cols) && 0 <= rank && 1 <= procs
    ensures |r| == |x|
  {
    ChunkIterations(a, x, b, rows, cols, RowStart(rows, procs, rank), RowEnd(rows, procs, rank), t)
  }

  /**
   * t iterations of process `rank` as written, where the unclamped chunk end
   * lies within the rows: the chunk then runs from RowStart to the last row.
   */
  function IterationsAsWritten(a: seq<real>, x: seq<real>, b: seq<real>, rows: int, cols: int, rank: int, procs: int, t: nat): (r: seq<real>)
    requires Shape(a, x, b, rows, cols) && 0 <= rank && 1 <= procs
    requires RowStart(rows, procs, rank) + ChunkSize(rows, procs) <= rows
    ensures |r| == |x|
  {
    ChunkIterations(a, x, b, rows, cols, RowStart(rows, procs, rank), RowEndAsWritten(rows, procs, rank), t)
  }

  /** No chunk is longer than the rows, so the chunk of process 0 always ends within them. */
  lemma ChunkSizeAtMostRows(rows: int, procs: int)
    requires 0 <= rows && 1 <= procs
    ensures ChunkSize(rows, procs) <= rows
    ensures RowStart(rows, procs, 0) + ChunkSize(rows, procs) <= rows
  {
    ChunkSizeCeiling(rows, procs);
    var c := ChunkSize(rows, procs);
    if c >= 1 {
      MulMonotone(1, procs, c - 1);
    }
  }

  /**
   * Lines 44-45 as written: with 8 rows on 2 processes, process 0's chunk
   * ends at row 8, the last row, where the clamp ends it at row 4.
   */
  lemma RowEndAsWrittenFirstChunk()
    ensures RowEndAsWritten(8, 2, 0) == 8 && RowEnd(8, 2, 0) == 4
  {
  }

  /**
   * As written, process 0 sweeps every row in its chunk sweep, whatever the
   * number of processes: t iterations are 2t single-threaded sweeps.
   */
  lemma {:induction false} AsWrittenFirstProcessSweepsTwice(a: seq<real>, x: seq<real>, b: seq<real>, rows: int, cols: int, procs: int, t: nat)
    requires Shape(a, x, b, rows, cols) && 1 <= procs
    ensures RowStart(rows, procs, 0) + ChunkSize(rows, procs) <= rows
    ensures IterationsAsWritten(a, x, b, rows, cols, 0, procs, t) == Sweeps(a, x, b, rows, cols, 2 * t)
  {
    ChunkSizeAtMostRows(rows, procs);
    assert RowEndAsWritten(rows, procs, 0) == rows;
    if t > 0 {
      AsWrittenFirstProcessSweepsTwice(a, x, b, rows, cols, procs, t - 1);
      var prev := ChunkIterations(a, x, b, rows, cols, 0, rows, t - 1);
      assert Sweeps(a, x, b, rows, cols, 2 * t) == Sweep(a, Sweeps(a, x, b, rows, cols, 2 * t - 1), b, rows, cols);
      assert Sweeps(a, x, b, rows, cols, 2 * t - 1) == Sweep(a, prev, b, rows, cols);
    }
  }

  /** A single process sweeps everything twice per iteration: t iterations are 2t single-threaded sweeps. */
  lemma {:induction false} SingleProcessSweepsTwice(a: seq<real>, x: seq<real>, b: seq<real>, rows: int, cols: int, t: nat)
    requires Shape(a, x, b, rows, cols)
    ensures Iterations(a, x, b, rows, cols, 0, 1, t) == Sweeps(a, x, b, rows, cols, 2 * t)
  {
    assert ChunkSize(rows, 1) == rows;
    if t > 0 {
      SingleProcessSweepsTwice(a, x, b, rows, cols, t - 1);
      var prev := Iterations(a, x, b, rows, cols, 0, 1, t - 1);
      assert Sweeps(a, x, b, rows, cols, 2 * t) == Sweep(a, Sweeps(a, x, b, rows, cols, 2 * t - 1), b, rows, cols);
      assert Sweeps(a, x, b, rows, cols, 2 * t - 1) == Sweep(a, prev, b, rows, cols);
    }
  }

  /** An exact solution with a non-zero diagonal is kept by every iteration of every process. */
  lemma {:induction false} IterationsFixedPoint(a: seq<real>, x: seq<real>, b: seq<real>, rows: int, cols: int, rank: int, procs: int, t: nat)
    requires Shape(a, x, b, rows, cols) && 0 <= rank && 1 <= procs
    requires Solves(a, x, b, rows, cols) && NonZeroDiagonal(a, rows, cols)
    ensures Iterations(a, x, b, rows, cols, rank, procs, t) == x
  {
    if t > 0 {
      IterationsFixedPoint(a, x, b, rows, cols, rank, procs, t - 1);
      SweepRangeFixedPoint(a, x, b, rows, cols, RowStart(rows, procs, rank), RowEnd(rows, procs, rank));
      SweepRangeFixedPoint(a, x, b, rows, cols, 0, rows);
    }
  }

  /**
   * Lines 16-21: with MPI disabled the function only prints a warning and
   * returns. The method has no modifies clause, so its postcondition, x left
   * as it was, is given by the frame and holds of any body.
   */
  method SolveJacobiMpiDisabled(a: array<real>, x: array<real>, b: array<real>, rows: int, cols: int, iterations: int)
    ensures x[..] == old(x[..])
  {
  }

  /**
   * Lines 26-119 with the chunk end clamped: max(iterations, 0) iterations,
   * each a sweep over the chunk of process `rank` and then a full sweep, in
   * place over x; A and b are only read.
   */
  method SolveJacobiMpi(a: array<real>, x: array<real>, b: array<real>, rows: int, cols: int, iterations: int,
                        rank: int, procs: int)
    requires x != a && x != b && 0 <= rank < procs
    requires Shape(a[..], x[..], b[..], rows, cols)
    modifies x
    ensures x[..] == Iterations(a[..], old(x[..]), b[..], rows, cols, rank, procs, if iterations < 0 then 0 else iterations)
    ensures a[..] == old(a[..]) && b[..] == old(b[..])
  {
    var chunksize := (rows + procs - 1) / procs;
    var rowstart := chunksize * rank;
    var rowend := rowstart + chunksize;
    rowend := if rowend < rows then rowend else rows;
    assert rowstart == RowStart(rows, procs, rank) && rowend == RowEnd(rows, procs, rank);
    IterateChunk(a, x, b, rows, cols, iterations, rowstart, rowend);
  }

  /**
   * Lines 26-119 as written, where the unclamped chunk end lies within the
   * rows: the maximum of line 45 then ends the chunk at the last row, and
   * every iteration sweeps from RowStart to the end before the full sweep.
   */
  method SolveJacobiMpiAsWritten(a: array<real>, x: array<real>, b: array<real>, rows: int, cols: int, iterations: int,
                                 rank: int, procs: int)
    requires x != a && x != b && 0 <= rank < procs
    requires Shape(a[..], x[..], b[..], rows, cols)
    requires RowStart(rows, procs, rank) + ChunkSize(rows, procs) <= rows
    modifies x
    ensures x[..] == IterationsAsWritten(a[..], old(x[..]), b[..], rows, cols, rank, procs, if iterations < 0 then 0 else iterations)
    ensures x[..] == ChunkIterations(a[..], old(x[..]), b[..], rows, cols, RowStart(rows, procs, rank), rows, if iterations < 0 then 0 else iterations)
    ensures a[..] == old(a[..]) && b[..] == old(b[..])
  {
    var chunksize := (rows + procs - 1) / procs;
    var rowstart := chunksize * rank;
    var rowend := rowstart + chunksize;
    rowend := if rowend > rows then rowend else rows;
    assert rowstart == RowStart(rows, procs, rank) && rowend == RowEndAsWritten(rows, procs, rank) == rows;
    IterateChunk(a, x, b, rows, cols, iterations, rowstart, rowend);
  }

  /** Lines 50-113: max(iterations, 0) iterations over the chunk lo .. hi-1, each a chunk sweep and a full sweep. */
  method IterateChunk(a: array<real>, x: array<real>, b: array<real>, rows: int, cols: int, iterations: int, lo: int, hi: int)
    requires x != a && x != b && 0 <= lo && hi <= rows
    requires Shape(a[..], x[..], b[..], rows, cols)
    modifies x
    ensures x[..] == ChunkIterations(a[..], old(x[..]), b[..], rows, cols, lo, hi, if iterations < 0 then 0 else iterations)
    ensures a[..] == old(a[..]) && b[..] == old(b[..])
  {
    var t := 0;
    while t < iterations
      invariant 0 <= t && (t <= iterations || t == 0)
      invariant x[..] == ChunkIterations(a[..], old(x[..]), b[..], rows, cols, lo, hi, t)
    {
      ghost var prev := x[..];
      SweepRows(a, x, b, rows, cols, lo, hi);
      SweepRows(a, x, b, rows, cols, 0, rows);
      assert x[..] == ChunkIteration(a[..], prev, b[..], rows, cols, lo, hi);
      t := t + 1;
    }
  }
}
