/**
 * `eqset_reorder` (structural/frameprocess.c): the rows of the constrained
 * stiffness matrix, the force vector and the displacement vector are copied
 * into new buffers grouped by node colour, colour 10 first and colour 0 last,
 * nodes ascending within a colour, each node's six degree-of-freedom rows
 * kept together and in order. `order` records where every source row went.
 */
module Reorder {
  import opened Indexing
  import opened Frames

  /** Line 199: the highest colour emitted. */
  const MaxColor := 10

  /**
   * The fields of `struct EquationSet` that the reordering touches:
   * `stiffness.rows`, `stiffness.cols`, `stiff_bc.elements`,
   * `forces.elements`, `displacements.elements` and `displacements.count`.
   */
  class EquationSet {
    var rows: int
    var cols: int
    var stiffBc: array<real>
    var forces: array<real>
    var displacements: array<real>
    var displacementCount: int

    /** Every buffer holds at least the cells the dimensions describe. */
    predicate Valid()
      reads this
    {
      0 <= rows && 0 <= cols && rows * cols <= stiffBc.Length &&
      rows <= forces.Length && rows <= displacements.Length && 0 <= displacementCount
    }
  }

  /** The equation row of degree of freedom `dof` (0..5) of node `node`: line 214. */
  function DofRow(node: int, dof: int): int
  {
    6 * node + dof
  }

  /** Row `row` of a row-major buffer with `cols` columns. */
  function RowOf(s: seq<real>, row: int, rows: int, cols: int): (r: seq<real>)
    requires 0 <= row < rows && 0 <= cols && rows * cols <= |s|
    ensures |r| == cols
  {
    RowSpan(row, rows, cols);
    s[row * cols .. row * cols + cols]
  }

  // ---------------------------------------------------------------------------
  // The emission order

  /** Nodes 0..n-1 of colour c, ascending (the node loop, lines 210-237). */
  function OfColor(colors: seq<int>, c: int, n: nat): seq<int>
    requires n <= |colors|
  {
    if n == 0 then []
    else OfColor(colors, c, n - 1) + (if colors[n - 1] == c then [n - 1] else [])
  }

  /**
   * The nodes of colours 10 down to c, in emission order (the colour loop,
   * line 205); Emitted(colors, 0) is the whole emission order, and node
   * Emitted(colors, 0)[k] fills destination rows 6k..6k+5.
   */
  function Emitted(colors: seq<int>, c: int): seq<int>
    requires 0 <= c <= MaxColor + 1
    decreases MaxColor + 1 - c
  {
    if c == MaxColor + 1 then []
    else Emitted(colors, c + 1) + OfColor(colors, c, |colors|)
  }

  /** Every colour lies in the emitted range 0..10. */
  predicate AllColored(colors: seq<int>)
  {
    forall p | 0 <= p < |colors| :: 0 <= colors[p] <= MaxColor
  }

  /** The number of nodes among 0..n-1 with a colour in c..10. */
  function Count(colors: seq<int>, c: int, n: nat): (count: nat)
    requires n <= |colors|
    ensures count <= n
    ensures c > MaxColor ==> count == 0
    ensures (forall p | 0 <= p < n :: c <= colors[p] <= MaxColor) ==> count == n
  {
    if n == 0 then 0
    else Count(colors, c, n - 1) + (if c <= colors[n - 1] <= MaxColor then 1 else 0)
  }

  /** The nodes of colours c..10 are those of colours c+1..10 and those of colour c. */
  lemma {:induction false} CountSplit(colors: seq<int>, c: int, n: nat)
    requires n <= |colors| && c <= MaxColor
    ensures Count(colors, c, n) == Count(colors, c + 1, n) + |OfColor(colors, c, n)|
  {
    if n > 0 {
      CountSplit(colors, c, n - 1);
    }
  }

  /** Colours c..10 emit exactly as many nodes as have those colours. */
  lemma {:induction false} EmittedCount(colors: seq<int>, c: int)
    requires 0 <= c <= MaxColor + 1
    ensures |Emitted(colors, c)| == Count(colors, c, |colors|)
    decreases MaxColor + 1 - c
  {
    if c <= MaxColor {
      EmittedCount(colors, c + 1);
      CountSplit(colors, c, |colors|);
    }
  }

  /** Looking at more nodes never lists fewer of a colour. */
  lemma {:induction false} OfColorGrows(colors: seq<int>, c: int, n: nat, m: nat)
    requires n <= m <= |colors|
    ensures |OfColor(colors, c, n)| <= |OfColor(colors, c, m)|
    decreases m - n
  {
    if n < m {
      OfColorGrows(colors, c, n, m - 1);
    }
  }

  /** OfColor lists only nodes below n of colour c. */
  lemma {:induction false} OfColorRange(colors: seq<int>, c: int, n: nat)
    requires n <= |colors|
    ensures forall k | 0 <= k < |OfColor(colors, c, n)| :: 0 <= OfColor(colors, c, n)[k] < n && colors[OfColor(colors, c, n)[k]] == c
  {
    if n > 0 {
      OfColorRange(colors, c, n - 1);
    }
  }

  /** Emitted lists only nodes whose colour is in c..10. */
  lemma {:induction false} EmittedRange(colors: seq<int>, c: int)
    requires 0 <= c <= MaxColor + 1
    ensures forall k | 0 <= k < |Emitted(colors, c)| ::
      0 <= Emitted(colors, c)[k] < |colors| && c <= colors[Emitted(colors, c)[k]] <= MaxColor
    decreases MaxColor + 1 - c
  {
    if c <= MaxColor {
      assert Emitted(colors, c) == Emitted(colors, c + 1) + OfColor(colors, c, |colors|);
      EmittedRange(colors, c + 1);
      OfColorRange(colors, c, |colors|);
    }
  }

  /** The nodes of one colour are listed in ascending order. */
  lemma {:induction false} OfColorIncreasing(colors: seq<int>, c: int, n: nat)
    requires n <= |colors|
    ensures forall k1, k2 | 0 <= k1 < k2 < |OfColor(colors, c, n)| :: OfColor(colors, c, n)[k1] < OfColor(colors, c, n)[k2]
  {
    if n > 0 {
      OfColorIncreasing(colors, c, n - 1);
      OfColorRange(colors, c, n - 1);
    }
  }

  /** No node is emitted twice. */
  lemma {:induction false} EmittedDistinct(colors: seq<int>, c: int)
    requires 0 <= c <= MaxColor + 1
    ensures forall k1, k2 | 0 <= k1 < k2 < |Emitted(colors, c)| :: Emitted(colors, c)[k1] != Emitted(colors, c)[k2]
    decreases MaxColor + 1 - c
  {
    if c <= MaxColor {
      EmittedDistinct(colors, c + 1);
      EmittedRange(colors, c + 1);
      OfColorRange(colors, c, |colors|);
      OfColorIncreasing(colors, c, |colors|);
      var e, o := Emitted(colors, c + 1), OfColor(colors, c, |colors|);
      assert Emitted(colors, c) == e + o;
      forall k1, k2 | 0 <= k1 < k2 < |e + o|
        ensures (e + o)[k1] != (e + o)[k2]
      {
        if k1 < |e| && |e| <= k2 {
          assert colors[(e + o)[k1]] > c == colors[(e + o)[k2]];
        }
      }
    }
  }

  /** Every node of colour c among 0..n-1 is listed, at the position returned. */
  lemma {:induction false} OfColorIndex(colors: seq<int>, c: int, n: nat, p: int) returns (k: int)
    requires n <= |colors| && 0 <= p < n && colors[p] == c
    ensures 0 <= k < |OfColor(colors, c, n)| && OfColor(colors, c, n)[k] == p
  {
    var prev := OfColor(colors, c, n - 1);
    assert OfColor(colors, c, n) == prev + (if colors[n - 1] == c then [n - 1] else []);
    if p < n - 1 {
      k := OfColorIndex(colors, c, n - 1, p);
      assert OfColor(colors, c, n)[k] == prev[k];
    } else {
      k := |prev|;
    }
  }

  /** Every node whose colour is in c..10 is emitted, at the position returned. */
  lemma {:induction false} EmittedIndex(colors: seq<int>, c: int, p: int) returns (k: int)
    requires 0 <= c <= MaxColor + 1 && 0 <= p < |colors| && c <= colors[p] <= MaxColor
    ensures 0 <= k < |Emitted(colors, c)| && Emitted(colors, c)[k] == p
    decreases MaxColor + 1 - c
  {
    var e, o := Emitted(colors, c + 1), OfColor(colors, c, |colors|);
    assert Emitted(colors, c) == e + o;
    if colors[p] == c {
      var j := OfColorIndex(colors, c, |colors|, p);
      k := |e| + j;
      assert (e + o)[k] == o[j];
    } else {
      k := EmittedIndex(colors, c + 1, p);
      assert (e + o)[k] == e[k];
    }
  }

  /** When every colour is in 0..10, every node is emitted exactly once. */
  lemma EmissionComplete(colors: seq<int>)
    requires AllColored(colors)
    ensures |Emitted(colors, 0)| == |colors|
    ensures forall k | 0 <= k < |colors| :: 0 <= Emitted(colors, 0)[k] < |colors|
    ensures forall p | 0 <= p < |colors| :: p in Emitted(colors, 0)
    ensures forall k1, k2 | 0 <= k1 < k2 < |colors| :: Emitted(colors, 0)[k1] != Emitted(colors, 0)[k2]
  {
    EmittedCount(colors, 0);
    EmittedDistinct(colors, 0);
    EmittedRange(colors, 0);
    forall p | 0 <= p < |colors|
      ensures p in Emitted(colors, 0)
    {
      var k := EmittedIndex(colors, 0, p);
    }
  }

  /** Node p has a colour above c. */
  predicate ColorAbove(colors: seq<int>, c: int, p: int)
  {
    0 <= p < |colors| && c < colors[p]
  }

  /** Every node listed has a colour above c. */
  predicate Above(colors: seq<int>, nodes: seq<int>, c: int)
  {
    forall k {:trigger ColorAbove(colors, c, nodes[k])} | 0 <= k < |nodes| :: ColorAbove(colors, c, nodes[k])
  }

  /**
   * One pass of the colour loop: colour c appends its nodes to those of
   * colours 10..c+1, all of which have a higher colour, and the total never
   * exceeds the node count.
   */
  lemma EmittedNext(colors: seq<int>, c: int)
    requires 0 <= c <= MaxColor
    ensures Emitted(colors, c) == Emitted(colors, c + 1) + OfColor(colors, c, |colors|)
    ensures Above(colors, Emitted(colors, c + 1), c)
    ensures |Emitted(colors, c)| <= |colors|
  {
    EmittedRange(colors, c + 1);
    EmittedCount(colors, c);
    var e := Emitted(colors, c + 1);
    forall k | 0 <= k < |e|
      ensures ColorAbove(colors, c, e[k])
    {
    }
  }

  // ---------------------------------------------------------------------------
  // The row permutation

  /** The first `rows` entries of `order` permute 0..rows-1. */
  predicate IsPermutation(order: seq<int>, rows: int)
    requires rows <= |order|
  {
    (forall r | 0 <= r < rows :: 0 <= order[r] < rows) &&
    (forall r1, r2 | 0 <= r1 < r2 < rows :: order[r1] != order[r2]) &&
    (forall d | 0 <= d < rows :: d in order[..rows])
  }

  /** Placed, read for `order` alone. */
  lemma PlacedOrder(matrixDest: seq<real>, forcesDest: seq<real>, dispDest: seq<real>, order: seq<int>,
                    matrixSrc: seq<real>, forcesSrc: seq<real>, dispSrc: seq<real>, rows: int, cols: int, emitted: seq<int>)
    requires Placed(matrixDest, forcesDest, dispDest, order, matrixSrc, forcesSrc, dispSrc, rows, cols, emitted)
    ensures forall k, dof | 0 <= k < |emitted| && 0 <= dof < 6 ::
      0 <= DofRow(emitted[k], dof) < |order| && order[DofRow(emitted[k], dof)] == DofRow(k, dof)
  {
    forall k, dof | 0 <= k < |emitted| && 0 <= dof < 6
      ensures 0 <= DofRow(emitted[k], dof) < |order| && order[DofRow(emitted[k], dof)] == DofRow(k, dof)
    {
      assert NodePlaced(matrixDest, forcesDest, dispDest, order, matrixSrc, forcesSrc, dispSrc, rows, cols, k, emitted[k]);
    }
  }

  /**
   * Sending the six rows of node e[k] to rows 6k..6k+5 permutes the rows
   * when e lists every one of the n nodes once.
   */
  lemma PlacementPermutes(e: seq<int>, n: nat, order: seq<int>)
    requires |e| == n && 6 * n <= |order|
    requires forall k | 0 <= k < n :: 0 <= e[k] < n
    requires forall k1, k2 | 0 <= k1 < k2 < n :: e[k1] != e[k2]
    requires forall p | 0 <= p < n :: p in e
    requires forall k, dof | 0 <= k < n && 0 <= dof < 6 :: order[DofRow(e[k], dof)] == DofRow(k, dof)
    ensures IsPermutation(order, 6 * n)
  {
    forall r | 0 <= r < 6 * n
      ensures 0 <= order[r] < 6 * n && order[r] / 6 < n && e[order[r] / 6] == r / 6 && order[r] % 6 == r % 6
    {
      var p, dof := r / 6, r % 6;
      assert r == DofRow(p, dof) && 0 <= p < n;
      assert p in e;
      var k :| 0 <= k < n && e[k] == p;
      assert order[DofRow(e[k], dof)] == DofRow(k, dof);
    }
    forall r1, r2 | 0 <= r1 < r2 < 6 * n
      ensures order[r1] != order[r2]
    {
      assert r1 == DofRow(r1 / 6, r1 % 6) && r2 == DofRow(r2 / 6, r2 % 6);
    }
    forall d | 0 <= d < 6 * n
      ensures d in order[..6 * n]
    {
      var k, dof := d / 6, d % 6;
      assert d == DofRow(k, dof) && 0 <= k < n;
      assert order[DofRow(e[k], dof)] == d;
      assert order[..6 * n][DofRow(e[k], dof)] == d;
    }
  }

  // ---------------------------------------------------------------------------
  // The procedure

  /** A row of a buffer is unchanged when only cells of another row changed. */
  lemma RowFrame(a: seq<real>, b: seq<real>, r: int, row0: int, rows: int, cols: int)
    requires 0 <= r < rows && 0 <= row0 < rows && r != row0 && 0 <= cols && rows * cols <= |a| == |b|
    requires forall j | 0 <= j < |a| && !(row0 * cols <= j < row0 * cols + cols) :: a[j] == b[j]
    ensures RowOf(a, r, rows, cols) == RowOf(b, r, rows, cols)
  {
    forall i | 0 <= i < cols
      ensures RowOf(a, r, rows, cols)[i] == RowOf(b, r, rows, cols)[i]
    {
      FlatBound(r, i, rows, cols);
      var j := Flat(r, i, cols);
      if r < row0 {
        FlatBound(r, i, row0, cols);
        assert j < row0 * cols;
      } else {
        MulMonotone(row0 + 1, r, cols);
        assert (row0 + 1) * cols == row0 * cols + cols;
        assert row0 * cols + cols <= j;
      }
      assert a[j] == b[j];
    }
  }

  /** Lines 219-222: row srcRow of src is copied into row destRow of dest; no other row changes. */
  method CopyRow(dest: array<real>, src: seq<real>, destRow: int, srcRow: int, rows: int, cols: int)
    requires 0 <= cols && 0 <= destRow < rows && 0 <= srcRow < rows
    requires rows * cols <= dest.Length && rows * cols <= |src|
    modifies dest
    ensures RowOf(dest[..], destRow, rows, cols) == RowOf(src, srcRow, rows, cols)
    ensures forall r | 0 <= r < rows && r != destRow :: RowOf(dest[..], r, rows, cols) == RowOf(old(dest[..]), r, rows, cols)
  {
    RowSpan(destRow, rows, cols);
    RowSpan(srcRow, rows, cols);
    ghost var start, srcStart := destRow * cols, srcRow * cols;
    for i := 0 to cols
      invariant forall j | 0 <= j < dest.Length ::
        dest[j] == if start <= j < start + i then src[j - start + srcStart] else old(dest[j])
    {
      dest[i + destRow * cols] := src[i + srcRow * cols];
    }
    forall r | 0 <= r < rows && r != destRow
      ensures RowOf(dest[..], r, rows, cols) == RowOf(old(dest[..]), r, rows, cols)
    {
      RowFrame(dest[..], old(dest[..]), r, destRow, rows, cols);
    }
    assert forall j | 0 <= j < cols :: dest[..][Flat(destRow, j, cols)] == src[Flat(srcRow, j, cols)];
  }

  /**
   * Node `node` has been moved to slot k: its six rows sit at rows
   * 6k..6k+5 of the destination buffers (matrix rows whole, force and
   * displacement entries alike) and `order` maps each of its source rows
   * to its destination row.
   */
  predicate NodePlaced(matrixDest: seq<real>, forcesDest: seq<real>, dispDest: seq<real>, order: seq<int>,
                       matrixSrc: seq<real>, forcesSrc: seq<real>, dispSrc: seq<real>, rows: int, cols: int,
                       k: int, node: int)
  {
    0 <= cols && rows * cols <= |matrixDest| && rows * cols <= |matrixSrc| &&
    rows <= |forcesDest| && rows <= |forcesSrc| && rows <= |dispDest| && rows <= |dispSrc| &&
    0 <= k && 6 * k + 6 <= rows && 0 <= node && 6 * node + 6 <= rows && 6 * node + 6 <= |order| &&
    forall dof | 0 <= dof < 6 ::
      order[DofRow(node, dof)] == DofRow(k, dof) &&
      forcesDest[DofRow(k, dof)] == forcesSrc[DofRow(node, dof)] &&
      dispDest[DofRow(k, dof)] == dispSrc[DofRow(node, dof)] &&
      RowOf(matrixDest, DofRow(k, dof), rows, cols) == RowOf(matrixSrc, DofRow(node, dof), rows, cols)
  }

  /** The first |emitted| nodes have been moved: node emitted[k] to slot k. */
  predicate Placed(matrixDest: seq<real>, forcesDest: seq<real>, dispDest: seq<real>, order: seq<int>,
                   matrixSrc: seq<real>, forcesSrc: seq<real>, dispSrc: seq<real>, rows: int, cols: int, emitted: seq<int>)
  {
    0 <= cols && rows * cols <= |matrixDest| && rows * cols <= |matrixSrc| &&
    rows <= |forcesDest| && rows <= |forcesSrc| && rows <= |dispDest| && rows <= |dispSrc| &&
    6 * |emitted| <= rows &&
    forall k {:trigger NodePlaced(matrixDest, forcesDest, dispDest, order, matrixSrc, forcesSrc, dispSrc, rows, cols, k, emitted[k])}
      | 0 <= k < |emitted| ::
      NodePlaced(matrixDest, forcesDest, dispDest, order, matrixSrc, forcesSrc, dispSrc, rows, cols, k, emitted[k])
  }

  /**
   * The first `dof` rows of node `node` have gone to slot `slot` of the
   * destination buffers, and nothing else of them has changed since they
   * held md0, fd0, dd0, o0.
   */
  predicate MovedUpTo(md0: seq<real>, fd0: seq<real>, dd0: seq<real>, o0: seq<int>,
                      md1: seq<real>, fd1: seq<real>, dd1: seq<real>, o1: seq<int>,
                      ms: seq<real>, fs: seq<real>, ds: seq<real>, rows: int, cols: int, slot: int, node: int, dof: int)
  {
    0 <= cols && rows * cols <= |md0| && |md0| == |md1| && rows * cols <= |ms| &&
    rows <= |fd0| && |fd0| == |fd1| && rows <= |dd0| && |dd0| == |dd1| && rows <= |fs| && rows <= |ds| && |o0| == |o1| &&
    0 <= slot && 6 * slot + 6 <= rows && 0 <= node && 6 * node + 6 <= rows && 6 * node + 6 <= |o0| && 0 <= dof <= 6 &&
    (forall d | 0 <= d < dof ::
      RowOf(md1, DofRow(slot, d), rows, cols) == RowOf(ms, DofRow(node, d), rows, cols) &&
      fd1[DofRow(slot, d)] == fs[DofRow(node, d)] && dd1[DofRow(slot, d)] == ds[DofRow(node, d)] &&
      o1[DofRow(node, d)] == DofRow(slot, d)) &&
    (forall r | 0 <= r < rows && !(6 * slot <= r < 6 * slot + dof) :: RowOf(md1, r, rows, cols) == RowOf(md0, r, rows, cols)) &&
    (forall i | 0 <= i < |fd0| && !(6 * slot <= i < 6 * slot + dof) :: fd1[i] == fd0[i]) &&
    (forall i | 0 <= i < |dd0| && !(6 * slot <= i < 6 * slot + dof) :: dd1[i] == dd0[i]) &&
    (forall i | 0 <= i < |o0| && !(6 * node <= i < 6 * node + dof) :: o1[i] == o0[i])
  }

  /** Moving row `dof` of the node (state A to state B) extends MovedUpTo by one row. */
  lemma MoveRowStep(md0: seq<real>, fd0: seq<real>, dd0: seq<real>, o0: seq<int>,
                    mdA: seq<real>, fdA: seq<real>, ddA: seq<real>, oA: seq<int>,
                    mdB: seq<real>, fdB: seq<real>, ddB: seq<real>, oB: seq<int>,
                    ms: seq<real>, fs: seq<real>, ds: seq<real>, rows: int, cols: int, slot: int, node: int, dof: int)
    requires MovedUpTo(md0, fd0, dd0, o0, mdA, fdA, ddA, oA, ms, fs, ds, rows, cols, slot, node, dof) && dof < 6
    requires |mdB| == |mdA|
    requires RowOf(mdB, DofRow(slot, dof), rows, cols) == RowOf(ms, DofRow(node, dof), rows, cols)
    requires forall r | 0 <= r < rows && r != DofRow(slot, dof) :: RowOf(mdB, r, rows, cols) == RowOf(mdA, r, rows, cols)
    requires fdB == fdA[DofRow(slot, dof) := fs[DofRow(node, dof)]]
    requires ddB == ddA[DofRow(slot, dof) := ds[DofRow(node, dof)]]
    requires oB == oA[DofRow(node, dof) := DofRow(slot, dof)]
    ensures MovedUpTo(md0, fd0, dd0, o0, mdB, fdB, ddB, oB, ms, fs, ds, rows, cols, slot, node, dof + 1)
  {
  }

  /** Moving one more node, not yet placed, to the next six rows keeps the earlier placements. */
  lemma PlacedExtends(md0: seq<real>, fd0: seq<real>, dd0: seq<real>, o0: seq<int>,
                      md1: seq<real>, fd1: seq<real>, dd1: seq<real>, o1: seq<int>,
                      ms: seq<real>, fs: seq<real>, ds: seq<real>, rows: int, cols: int, placed: seq<int>, n: int)
    requires n !in placed
    requires Placed(md0, fd0, dd0, o0, ms, fs, ds, rows, cols, placed)
    requires MovedUpTo(md0, fd0, dd0, o0, md1, fd1, dd1, o1, ms, fs, ds, rows, cols, |placed|, n, 6)
    ensures Placed(md1, fd1, dd1, o1, ms, fs, ds, rows, cols, placed + [n])
  {
    var next := placed + [n];
    forall k | 0 <= k < |next|
      ensures NodePlaced(md1, fd1, dd1, o1, ms, fs, ds, rows, cols, k, next[k])
    {
      if k < |placed| {
        assert NodePlaced(md0, fd0, dd0, o0, ms, fs, ds, rows, cols, k, placed[k]);
        assert next[k] == placed[k] != n;
        forall dof | 0 <= dof < 6
          ensures o1[DofRow(placed[k], dof)] == o0[DofRow(placed[k], dof)]
          ensures RowOf(md1, DofRow(k, dof), rows, cols) == RowOf(md0, DofRow(k, dof), rows, cols)
        {
          assert !(6 * n <= DofRow(placed[k], dof) < 6 * n + 6);
        }
      }
    }
  }

  /**
   * Lines 219-229 for one degree of freedom: source row srcRow becomes
   * destination row destRow in the matrix, force and displacement buffers,
   * and order[srcRow] records the move; nothing else changes.
   */
  method MoveRow(matrixDest: array<real>, forcesDest: array<real>, dispDest: array<real>, order: array<int>,
                 matrixSrc: seq<real>, forcesSrc: seq<real>, dispSrc: seq<real>,
                 rows: int, cols: int, destRow: int, srcRow: int)
    requires matrixDest != forcesDest && matrixDest != dispDest && forcesDest != dispDest
    requires 0 <= cols && 0 <= destRow < rows && 0 <= srcRow < rows && srcRow < order.Length
    requires rows * cols <= matrixDest.Length && rows * cols <= |matrixSrc|
    requires rows <= forcesDest.Length && rows <= |forcesSrc| && rows <= dispDest.Length && rows <= |dispSrc|
    modifies matrixDest, forcesDest, dispDest, order
    ensures RowOf(matrixDest[..], destRow, rows, cols) == RowOf(matrixSrc, srcRow, rows, cols)
    ensures forall r | 0 <= r < rows && r != destRow :: RowOf(matrixDest[..], r, rows, cols) == RowOf(old(matrixDest[..]), r, rows, cols)
    ensures forcesDest[..] == old(forcesDest[..])[destRow := forcesSrc[srcRow]]
    ensures dispDest[..] == old(dispDest[..])[destRow := dispSrc[srcRow]]
    ensures order[..] == old(order[..])[srcRow := destRow]
  {
    CopyRow(matrixDest, matrixSrc, destRow, srcRow, rows, cols);
    forcesDest[destRow] := forcesSrc[srcRow];
    dispDest[destRow] := dispSrc[srcRow];
    order[srcRow] := destRow;
  }

  /**
   * Lines 214-232: the six rows of `node` go to destination rows
   * destRow..destRow+5, in degree-of-freedom order, with their force and
   * displacement entries, and `order` records each move; the nodes placed
   * before stay where they are.
   */
  method MoveNode(matrixDest: array<real>, forcesDest: array<real>, dispDest: array<real>, order: array<int>,
                  matrixSrc: seq<real>, forcesSrc: seq<real>, dispSrc: seq<real>,
                  rows: int, cols: int, node: int, destRow: int, ghost placed: seq<int>)
    requires matrixDest != forcesDest && matrixDest != dispDest && forcesDest != dispDest
    requires 0 <= node && 6 * node + 6 <= rows && 6 * node + 6 <= order.Length && node !in placed
    requires destRow == 6 * |placed| && destRow + 6 <= rows
    requires Placed(matrixDest[..], forcesDest[..], dispDest[..], order[..], matrixSrc, forcesSrc, dispSrc, rows, cols, placed)
    modifies matrixDest, forcesDest, dispDest, order
    ensures Placed(matrixDest[..], forcesDest[..], dispDest[..], order[..], matrixSrc, forcesSrc, dispSrc, rows, cols, placed + [node])
  {
    ghost var slot := |placed|;
    var srcRow := node * 6;
    for dof := 0 to 6
      invariant MovedUpTo(old(matrixDest[..]), old(forcesDest[..]), old(dispDest[..]), old(order[..]),
                          matrixDest[..], forcesDest[..], dispDest[..], order[..],
                          matrixSrc, forcesSrc, dispSrc, rows, cols, slot, node, dof)
    {
      ghost var md, fd, dd, o := matrixDest[..], forcesDest[..], dispDest[..], order[..];
      MoveRow(matrixDest, forcesDest, dispDest, order, matrixSrc, forcesSrc, dispSrc, rows, cols, destRow + dof, srcRow + dof);
      MoveRowStep(old(matrixDest[..]), old(forcesDest[..]), old(dispDest[..]), old(order[..]), md, fd, dd, o,
                  matrixDest[..], forcesDest[..], dispDest[..], order[..],
                  matrixSrc, forcesSrc, dispSrc, rows, cols, slot, node, dof);
    }
    PlacedExtends(old(matrixDest[..]), old(forcesDest[..]), old(dispDest[..]), old(order[..]),
                  matrixDest[..], forcesDest[..], dispDest[..], order[..],
                  matrixSrc, forcesSrc, dispSrc, rows, cols, placed, node);
  }

  /**
   * Node n is appended to the nodes of colour `color` exactly when it has
   * that colour, and then it is not yet among the placed nodes and there is
   * room for it.
   */
  lemma EmitStep(colors: seq<int>, color: int, emitted: seq<int>, n: int)
    requires 0 <= n < |colors|
    requires Above(colors, emitted, color)
    requires |emitted| + |OfColor(colors, color, |colors|)| <= |colors|
    ensures OfColor(colors, color, n + 1) == OfColor(colors, color, n) + (if colors[n] == color then [n] else [])
    ensures colors[n] == color ==>
      n !in emitted + OfColor(colors, color, n) && |emitted + OfColor(colors, color, n)| + 1 <= |colors|
  {
    OfColorGrows(colors, color, n + 1, |colors|);
    OfColorRange(colors, color, n);
    forall k | 0 <= k < |emitted|
      ensures emitted[k] != n || colors[n] != color
    {
      assert ColorAbove(colors, color, emitted[k]);
    }
  }

  /**
   * Lines 206-237, one pass of the colour loop: the nodes of colour `color`
   * are moved, ascending, to the rows after those already filled.
   */
  method EmitColor(nodes: seq<Node>, color: int,
                   matrixDest: array<real>, forcesDest: array<real>, dispDest: array<real>, order: array<int>,
                   matrixSrc: seq<real>, forcesSrc: seq<real>, dispSrc: seq<real>,
                   rows: int, cols: int, destRow: int, ghost colors: seq<int>, ghost emitted: seq<int>)
    returns (nextRow: int)
    requires matrixDest != forcesDest && matrixDest != dispDest && forcesDest != dispDest
    requires 6 * |nodes| <= rows && 6 * |nodes| <= order.Length
    requires colors == NodeColors(nodes)
    requires Above(colors, emitted, color)
    requires |emitted| + |OfColor(colors, color, |colors|)| <= |colors|
    requires destRow == 6 * |emitted|
    requires Placed(matrixDest[..], forcesDest[..], dispDest[..], order[..], matrixSrc, forcesSrc, dispSrc, rows, cols, emitted)
    modifies matrixDest, forcesDest, dispDest, order
    ensures var next := emitted + OfColor(colors, color, |colors|);
      nextRow == 6 * |next| &&
      Placed(matrixDest[..], forcesDest[..], dispDest[..], order[..], matrixSrc, forcesSrc, dispSrc, rows, cols, next)
  {
    ghost var placed := emitted;
    nextRow := destRow;
    var n := 0;
    while n < |nodes|
      invariant 0 <= n <= |nodes|
      invariant placed == emitted + OfColor(colors, color, n) && nextRow == 6 * |placed|
      invariant Placed(matrixDest[..], forcesDest[..], dispDest[..], order[..], matrixSrc, forcesSrc, dispSrc, rows, cols, placed)
    {
      EmitStep(colors, color, emitted, n);
      if nodes[n].multicolor == color {
        MoveNode(matrixDest, forcesDest, dispDest, order, matrixSrc, forcesSrc, dispSrc, rows, cols, n, nextRow, placed);
        placed := placed + [n];
        nextRow := nextRow + 6;
      }
      n := n + 1;
    }
  }

  /** EmitColor, stated in terms of the emission order: colours 10..c+1 placed become colours 10..c placed. */
  method EmitNextColor(nodes: seq<Node>, color: int,
                       matrixDest: array<real>, forcesDest: array<real>, dispDest: array<real>, order: array<int>,
                       matrixSrc: seq<real>, forcesSrc: seq<real>, dispSrc: seq<real>,
                       rows: int, cols: int, destRow: int, ghost colors: seq<int>)
    returns (nextRow: int)
    requires matrixDest != forcesDest && matrixDest != dispDest && forcesDest != dispDest
    requires 6 * |nodes| <= rows && 6 * |nodes| <= order.Length
    requires colors == NodeColors(nodes) && 0 <= color <= MaxColor
    requires destRow == 6 * |Emitted(colors, color + 1)|
    requires Placed(matrixDest[..], forcesDest[..], dispDest[..], order[..], matrixSrc, forcesSrc, dispSrc,
                    rows, cols, Emitted(colors, color + 1))
    modifies matrixDest, forcesDest, dispDest, order
    ensures nextRow == 6 * |Emitted(colors, color)|
    ensures Placed(matrixDest[..], forcesDest[..], dispDest[..], order[..], matrixSrc, forcesSrc, dispSrc,
                   rows, cols, Emitted(colors, color))
  {
    EmittedNext(colors, color);
    nextRow := EmitColor(nodes, color, matrixDest, forcesDest, dispDest, order, matrixSrc, forcesSrc, dispSrc,
                         rows, cols, destRow, colors, Emitted(colors, color + 1));
  }

  /**
   * Lines 190-243: the colour loop, from the highest colour down to 0, fills
   * fresh buffers with the rows of Emitted(colors, 0), six per node.
   */
  method ReorderedCopy(nodes: seq<Node>, matrixSrc: seq<real>, forcesSrc: seq<real>, dispSrc: seq<real>,
                       rows: int, cols: int, count: int)
    returns (matrixDest: array<real>, forcesDest: array<real>, dispDest: array<real>, order: array<int>)
    requires 0 <= rows && 0 <= cols && 6 * |nodes| <= rows && 6 * |nodes| <= count
    requires rows * cols <= |matrixSrc| && rows <= |forcesSrc| && rows <= |dispSrc|
    ensures fresh(matrixDest) && fresh(forcesDest) && fresh(dispDest) && fresh(order)
    ensures matrixDest.Length == rows * cols && forcesDest.Length == rows && dispDest.Length == rows
    ensures order.Length == count
    ensures Placed(matrixDest[..], forcesDest[..], dispDest[..], order[..], matrixSrc, forcesSrc, dispSrc,
                   rows, cols, Emitted(NodeColors(nodes), 0))
  {
    matrixDest := new real[rows * cols];
    forcesDest := new real[rows];
    dispDest := new real[rows];
    order := new int[count];
    ghost var colors := NodeColors(nodes);
    var destRow := 0;
    var color := MaxColor;
    while color >= 0
      invariant -1 <= color <= MaxColor
      invariant destRow == 6 * |Emitted(colors, color + 1)|
      invariant Placed(matrixDest[..], forcesDest[..], dispDest[..], order[..], matrixSrc, forcesSrc, dispSrc,
                       rows, cols, Emitted(colors, color + 1))
    {
      destRow := EmitNextColor(nodes, color, matrixDest, forcesDest, dispDest, order, matrixSrc, forcesSrc, dispSrc,
                               rows, cols, destRow, colors);
      color := color - 1;
    }
    assert color + 1 == 0;
  }

  /**
   * Lines 182-253: node Emitted(colors, 0)[k] has its six rows moved to rows
   * 6k..6k+5 of fresh buffers, forces and displacements alike, rows copied
   * whole (columns are not permuted), and `order` maps each moved source row
   * to its destination. When every colour is in 0..10 and the matrix has six
   * rows per node, `order` is a permutation of the rows.
   */
  method ReorderEquations(frame: Frame, eqset: EquationSet) returns (order: array<int>)
    requires frame.Valid() && eqset.Valid()
    requires 6 * frame.nodeCount <= eqset.rows && 6 * frame.nodeCount <= eqset.displacementCount
    modifies eqset
    ensures eqset.rows == old(eqset.rows) && eqset.cols == old(eqset.cols)
    ensures eqset.displacementCount == old(eqset.displacementCount) && eqset.Valid()
    ensures fresh(order) && fresh(eqset.stiffBc) && fresh(eqset.forces) && fresh(eqset.displacements)
    ensures order.Length == eqset.displacementCount
    ensures eqset.stiffBc.Length == eqset.rows * eqset.cols
    ensures eqset.forces.Length == eqset.rows && eqset.displacements.Length == eqset.rows
    ensures Placed(eqset.stiffBc[..], eqset.forces[..], eqset.displacements[..], order[..],
                   old(eqset.stiffBc[..]), old(eqset.forces[..]), old(eqset.displacements[..]),
                   eqset.rows, eqset.cols, Emitted(NodeColors(frame.nodes[..frame.nodeCount]), 0))
    ensures AllColored(NodeColors(frame.nodes[..frame.nodeCount])) && eqset.rows == 6 * frame.nodeCount ==>
      IsPermutation(order[..], eqset.rows)
  {
    var matrixDest, forcesDest, dispDest;
    matrixDest, forcesDest, dispDest, order :=
      ReorderedCopy(frame.nodes[..frame.nodeCount], eqset.stiffBc[..], eqset.forces[..], eqset.displacements[..], eqset.rows, eqset.cols, eqset.displacementCount);
    eqset.stiffBc, eqset.forces, eqset.displacements := matrixDest, forcesDest, dispDest;
    ghost var colors := NodeColors(frame.nodes[..frame.nodeCount]);
    if AllColored(colors) && eqset.rows == 6 * frame.nodeCount {
      EmissionComplete(colors);
      PlacedOrder(eqset.stiffBc[..], eqset.forces[..], eqset.displacements[..], order[..],
                  old(eqset.stiffBc[..]), old(eqset.forces[..]), old(eqset.displacements[..]),
                  eqset.rows, eqset.cols, Emitted(colors, 0));
      PlacementPermutes(Emitted(colors, 0), frame.nodeCount, order[..]);
    }
  }
}
