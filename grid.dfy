/**
 * `create_grid_mesh` (graphics/grid.h): the vertex and triangle-index
 * buffers of a flat x_steps by y_steps grid over the square
 * [-0.5, 0.5] x [-0.5, 0.5].
 *
 * Vertex (i, j), for 0 <= i <= x_steps and 0 <= j <= y_steps, sits at
 * i + j * (x_steps + 1); cell (i, j), for i < x_steps and j < y_steps,
 * owns the six index slots from 6 * (i + j * x_steps): two triangles.
 * The source computes the cell's corners with the row stride y_steps + 1;
 * the index loops take the stride as a parameter, FillIndicesAsWritten runs
 * them with that stride and FillIndices with x_steps + 1, the stride of the
 * vertex layout, which the mesh built here uses. Whether malloc succeeds is
 * an input; floats are reals.
 */
module Grid {
  import opened Wrappers
  import opened Indexing

  /** One vertex: position, then colour. */
  datatype Vertex = Vertex(x: real, y: real, z: real, r: real, g: real, b: real)

  /** graphics/mesh.h: the two buffers and their lengths; a buffer whose allocation failed is null. */
  class Mesh {
    var vertices: array?<Vertex>
    var verticesLength: int
    var indices: array?<int>
    var indicesLength: int
  }

  /** Line 9: (x_steps + 1) * (y_steps + 1) vertices. */
  function VertexCount(xSteps: int, ySteps: int): int
  {
    (xSteps + 1) * (ySteps + 1)
  }

  /** Line 35: six indices per cell. */
  function IndexCount(xSteps: int, ySteps: int): int
  {
    6 * xSteps * ySteps
  }

  /** Line 23: the buffer position of vertex (i, j): rows of x_steps + 1 vertices. */
  function VertexAt(xSteps: int, i: int, j: int): int
  {
    Flat(j, i, xSteps + 1)
  }

  /** Line 49: the first index slot of cell (i, j): rows of x_steps cells, six slots each. */
  function CellSlot(xSteps: int, i: int, j: int): int
  {
    6 * Flat(j, i, xSteps)
  }

  /** i / steps as the float division of lines 25-30 computes it. */
  function Ratio(i: int, steps: int): real
    requires steps >= 1
  {
    (i as real) / (steps as real)
  }

  /** Lines 25-31: vertex (i, j): position (-0.5 + i/x_steps, -0.5 + j/y_steps, 0), colour (i/x_steps, j/y_steps, 0). */
  function GridVertex(xSteps: int, ySteps: int, i: int, j: int): Vertex
    requires xSteps >= 1 && ySteps >= 1
  {
    Vertex(-0.5 + Ratio(i, xSteps), -0.5 + Ratio(j, ySteps), 0.0, Ratio(i, xSteps), Ratio(j, ySteps), 0.0)
  }

  /** A step along the grid is 1/steps; the ends of a row or column are 0 and 1. */
  lemma RatioInUnit(i: int, steps: int)
    requires 0 <= i <= steps && steps >= 1
    ensures 0.0 <= Ratio(i, steps) <= 1.0
    ensures Ratio(0, steps) == 0.0 && Ratio(steps, steps) == 1.0
  {
    var q, n := Ratio(i, steps), steps as real;
    assert q * n == i as real;
  }

  /**
   * Lines 19-33: every vertex lies in the square [-0.5, 0.5]^2 of the plane
   * z = 0, the corners (0, 0) and (x_steps, y_steps) at (-0.5, -0.5) and
   * (0.5, 0.5); its colour is its position shifted by 0.5.
   */
  lemma GridSpansSquare(xSteps: int, ySteps: int, i: int, j: int)
    requires xSteps >= 1 && ySteps >= 1 && 0 <= i <= xSteps && 0 <= j <= ySteps
    ensures var v := GridVertex(xSteps, ySteps, i, j);
      -0.5 <= v.x <= 0.5 && -0.5 <= v.y <= 0.5 && v.z == 0.0 &&
      v.r == v.x + 0.5 && v.g == v.y + 0.5 && v.b == 0.0
    ensures GridVertex(xSteps, ySteps, 0, 0).x == -0.5 && GridVertex(xSteps, ySteps, 0, 0).y == -0.5
    ensures GridVertex(xSteps, ySteps, xSteps, ySteps).x == 0.5 && GridVertex(xSteps, ySteps, xSteps, ySteps).y == 0.5
  {
    RatioInUnit(i, xSteps);
    RatioInUnit(j, ySteps);
  }

  // ---------------------------------------------------------------------------
  // The two triangles of a cell

  /**
   * Lines 51-63 for a row stride: v1 = i + j * stride, v3 = i + (j + 1) * stride,
   * then the triangles v1, v2, v3 and v2, v4, v3 with v2 = v1 + 1, v4 = v3 + 1.
   */
  function CornersWith(stride: int, i: int, j: int): seq<int>
  {
    var v1 := i + j * stride;
    var v3 := i + (j + 1) * stride;
    [v1, v1 + 1, v3, v1 + 1, v3 + 1, v3]
  }

  /** Lines 51-54 as written: v1 and v3 step between rows by y_steps + 1. */
  function CornersAsWritten(xSteps: int, ySteps: int, i: int, j: int): seq<int>
  {
    CornersWith(ySteps + 1, i, j)
  }

  /** Lines 51-63 with the stride of the vertex layout, x_steps + 1. */
  function Corners(xSteps: int, i: int, j: int): seq<int>
  {
    CornersWith(xSteps + 1, i, j)
  }

  /**
   * Lines 49-63: cell (i, j) is the two triangles (i, j), (i+1, j), (i, j+1)
   * and (i+1, j), (i+1, j+1), (i, j+1) of the vertex grid, and every index
   * it writes names a vertex of the buffer.
   */
  lemma CellTriangles(xSteps: int, ySteps: int, i: int, j: int)
    requires 0 <= i < xSteps && 0 <= j < ySteps
    ensures Corners(xSteps, i, j) ==
      [VertexAt(xSteps, i, j), VertexAt(xSteps, i + 1, j), VertexAt(xSteps, i, j + 1),
       VertexAt(xSteps, i + 1, j), VertexAt(xSteps, i + 1, j + 1), VertexAt(xSteps, i, j + 1)]
    ensures forall t | 0 <= t < 6 :: 0 <= Corners(xSteps, i, j)[t] < VertexCount(xSteps, ySteps)
  {
    FlatBound(j, i, ySteps + 1, xSteps + 1);
    FlatBound(j + 1, i + 1, ySteps + 1, xSteps + 1);
    assert VertexCount(xSteps, ySteps) == (ySteps + 1) * (xSteps + 1);
  }

  /**
   * Lines 51-54 as written: with x_steps = 1 and y_steps = 2, cell (0, 1)
   * names vertex 6, but the buffer holds only 6 vertices.
   */
  lemma CornersAsWrittenOverrun()
    ensures VertexCount(1, 2) == 6
    ensures CornersAsWritten(1, 2, 0, 1)[2] == 6 && CornersAsWritten(1, 2, 0, 1)[4] == 7
  {
  }

  /**
   * Lines 51-54 as written stay inside the vertex buffer when the grid is no
   * taller than wide: the largest index, v4 of the top-right cell, is
   * x_steps + y_steps * (y_steps + 1), below (x_steps + 1) * (y_steps + 1).
   */
  lemma CornersAsWrittenInRange(xSteps: int, ySteps: int, i: int, j: int)
    requires 0 <= i < xSteps && 0 <= j < ySteps && ySteps <= xSteps
    ensures forall t | 0 <= t < 6 :: 0 <= CornersAsWritten(xSteps, ySteps, i, j)[t] < VertexCount(xSteps, ySteps)
  {
    MulMonotone(0, j, ySteps + 1);
    MulMonotone(j + 1, ySteps, ySteps + 1);
    MulMonotone(ySteps, xSteps, ySteps);
    assert ySteps * (ySteps + 1) == ySteps * ySteps + ySteps;
    assert VertexCount(xSteps, ySteps) == xSteps * ySteps + xSteps + ySteps + 1;
  }

  /** The written stride is the right one exactly when the grid is square. */
  lemma {:induction false} CornersAsWrittenSquare(xSteps: int, ySteps: int, i: int, j: int)
    requires 0 <= i < xSteps && 0 <= j < ySteps
    ensures xSteps == ySteps ==> CornersAsWritten(xSteps, ySteps, i, j) == Corners(xSteps, i, j)
    ensures CornersAsWritten(xSteps, ySteps, i, j) == Corners(xSteps, i, j) <==> xSteps == ySteps
  {
    var w := CornersAsWritten(xSteps, ySteps, i, j);
    var c := Corners(xSteps, i, j);
    if w == c {
      assert w[2] - w[0] == ySteps + 1 && c[2] - c[0] == xSteps + 1;
    }
  }

  // ---------------------------------------------------------------------------
  // The filled buffers

  /** The vertices before buffer position n are in place. */
  ghost predicate VerticesUpTo(vs: seq<Vertex>, xSteps: int, ySteps: int, n: int)
    requires xSteps >= 1 && ySteps >= 1
  {
    forall i, j | 0 <= i <= xSteps && 0 <= j <= ySteps && VertexAt(xSteps, i, j) < n ::
      0 <= VertexAt(xSteps, i, j) < |vs| && vs[VertexAt(xSteps, i, j)] == GridVertex(xSteps, ySteps, i, j)
  }

  /** The vertex buffer of the grid: every vertex (i, j) at its position. */
  ghost predicate GridVertices(vs: seq<Vertex>, xSteps: int, ySteps: int)
    requires xSteps >= 1 && ySteps >= 1
  {
    |vs| == VertexCount(xSteps, ySteps) && VerticesUpTo(vs, xSteps, ySteps, |vs|)
  }

  /** The cells before cell number n, in row order, have their six indices, for the given row stride, in place. */
  ghost predicate CellsUpTo(ixs: seq<int>, xSteps: int, ySteps: int, stride: int, n: int)
  {
    forall i, j | 0 <= i < xSteps && 0 <= j < ySteps && Flat(j, i, xSteps) < n ::
      0 <= CellSlot(xSteps, i, j) && CellSlot(xSteps, i, j) + 6 <= |ixs| &&
      ixs[CellSlot(xSteps, i, j)..CellSlot(xSteps, i, j) + 6] == CornersWith(stride, i, j)
  }

  /** A full index buffer: the two triangles of every cell, for the given row stride, in its slots. */
  ghost predicate IndexBuffer(ixs: seq<int>, xSteps: int, ySteps: int, stride: int)
  {
    |ixs| == IndexCount(xSteps, ySteps) && CellsUpTo(ixs, xSteps, ySteps, stride, xSteps * ySteps)
  }

  /** The index buffer of the grid: the two triangles of every cell in its slots. */
  ghost predicate GridIndices(ixs: seq<int>, xSteps: int, ySteps: int)
  {
    IndexBuffer(ixs, xSteps, ySteps, xSteps + 1)
  }

  /** The index buffer lines 45-65 write as they stand, with the row stride y_steps + 1. */
  ghost predicate GridIndicesAsWritten(ixs: seq<int>, xSteps: int, ySteps: int)
  {
    IndexBuffer(ixs, xSteps, ySteps, ySteps + 1)
  }

  /** Every position of the vertex buffer holds the grid vertex of its column and row. */
  lemma VertexBufferIsGrid(vs: seq<Vertex>, xSteps: int, ySteps: int)
    requires xSteps >= 1 && ySteps >= 1 && GridVertices(vs, xSteps, ySteps)
    ensures forall k | 0 <= k < |vs| :: vs[k] == GridVertex(xSteps, ySteps, k % (xSteps + 1), k / (xSteps + 1))
  {
    forall k | 0 <= k < |vs|
      ensures vs[k] == GridVertex(xSteps, ySteps, k % (xSteps + 1), k / (xSteps + 1))
    {
      FlatSplit(k, ySteps + 1, xSteps + 1);
      assert VertexAt(xSteps, k % (xSteps + 1), k / (xSteps + 1)) == k;
    }
  }

  /** The column of the cell whose slots hold index slot k. */
  function SlotColumn(xSteps: int, k: int): int
    requires xSteps >= 1
  {
    (k / 6) % xSteps
  }

  /** The row of the cell whose slots hold index slot k. */
  function SlotRow(xSteps: int, k: int): int
    requires xSteps >= 1
  {
    (k / 6) / xSteps
  }

  /**
   * Lines 45-49: the slots of distinct cells do not overlap, and every slot
   * of the index buffer lies in the slots of some cell; so each slot is
   * written by exactly one cell.
   */
  lemma CellSlotsPartition(xSteps: int, ySteps: int)
    requires xSteps >= 1 && ySteps >= 1
    ensures forall i1, j1, i2, j2 | 0 <= i1 < xSteps && 0 <= j1 < ySteps && 0 <= i2 < xSteps && 0 <= j2 < ySteps &&
      (i1 != i2 || j1 != j2) ::
      CellSlot(xSteps, i1, j1) + 6 <= CellSlot(xSteps, i2, j2) || CellSlot(xSteps, i2, j2) + 6 <= CellSlot(xSteps, i1, j1)
    ensures forall k | 0 <= k < IndexCount(xSteps, ySteps) ::
      0 <= SlotColumn(xSteps, k) < xSteps && 0 <= SlotRow(xSteps, k) < ySteps &&
      CellSlot(xSteps, SlotColumn(xSteps, k), SlotRow(xSteps, k)) <= k < CellSlot(xSteps, SlotColumn(xSteps, k), SlotRow(xSteps, k)) + 6
  {
    forall i1, j1, i2, j2 | 0 <= i1 < xSteps && 0 <= j1 < ySteps && 0 <= i2 < xSteps && 0 <= j2 < ySteps &&
      (i1 != i2 || j1 != j2)
      ensures CellSlot(xSteps, i1, j1) + 6 <= CellSlot(xSteps, i2, j2) || CellSlot(xSteps, i2, j2) + 6 <= CellSlot(xSteps, i1, j1)
    {
      if Flat(j1, i1, xSteps) == Flat(j2, i2, xSteps) {
        FlatInjective(j1, i1, j2, i2, xSteps);
      }
    }
    forall k | 0 <= k < IndexCount(xSteps, ySteps)
      ensures 0 <= SlotColumn(xSteps, k) < xSteps && 0 <= SlotRow(xSteps, k) < ySteps &&
        CellSlot(xSteps, SlotColumn(xSteps, k), SlotRow(xSteps, k)) <= k < CellSlot(xSteps, SlotColumn(xSteps, k), SlotRow(xSteps, k)) + 6
    {
      var c := k / 6;
      assert IndexCount(xSteps, ySteps) == 6 * (ySteps * xSteps);
      assert 6 * c <= k < 6 * c + 6 && c < ySteps * xSteps;
      FlatSplit(c, ySteps, xSteps);
    }
  }

  /** Every index in the index buffer names a vertex of the vertex buffer. */
  lemma IndicesInRange(ixs: seq<int>, xSteps: int, ySteps: int)
    requires xSteps >= 1 && ySteps >= 1 && GridIndices(ixs, xSteps, ySteps)
    ensures forall k | 0 <= k < |ixs| :: 0 <= ixs[k] < VertexCount(xSteps, ySteps)
  {
    forall k | 0 <= k < |ixs|
      ensures 0 <= ixs[k] < VertexCount(xSteps, ySteps)
    {
      SlotCell(ixs, xSteps, ySteps, xSteps + 1, k);
      CellTriangles(xSteps, ySteps, SlotColumn(xSteps, k), SlotRow(xSteps, k));
    }
  }

  /**
   * The index buffer as written names only vertices of the buffer when the
   * grid is no taller than wide; AsWrittenIndicesOverrun shows a taller one
   * that does not.
   */
  lemma AsWrittenIndicesInRange(ixs: seq<int>, xSteps: int, ySteps: int)
    requires xSteps >= 1 && ySteps >= 1 && GridIndicesAsWritten(ixs, xSteps, ySteps) && ySteps <= xSteps
    ensures forall k | 0 <= k < |ixs| :: 0 <= ixs[k] < VertexCount(xSteps, ySteps)
  {
    forall k | 0 <= k < |ixs|
      ensures 0 <= ixs[k] < VertexCount(xSteps, ySteps)
    {
      SlotCell(ixs, xSteps, ySteps, ySteps + 1, k);
      var i, j := SlotColumn(xSteps, k), SlotRow(xSteps, k);
      CornersAsWrittenInRange(xSteps, ySteps, i, j);
      assert ixs[k] == CornersAsWritten(xSteps, ySteps, i, j)[k - CellSlot(xSteps, i, j)];
    }
  }

  /**
   * Lines 45-65 as written on a grid one cell wide and two tall: slot 10,
   * written by cell (0, 1), holds vertex 7 of a buffer of 6 vertices.
   */
  lemma AsWrittenIndicesOverrun(ixs: seq<int>)
    requires GridIndicesAsWritten(ixs, 1, 2)
    ensures |ixs| == 12 && ixs[10] == 7 && VertexCount(1, 2) == 6
  {
    assert CellSlot(1, 0, 1) == 6;
    assert ixs[6..12] == CornersWith(3, 0, 1);
    assert ixs[10] == ixs[6..12][4];
  }

  /** Slot k of a full index buffer is written by cell (SlotColumn, SlotRow). */
  lemma SlotCell(ixs: seq<int>, xSteps: int, ySteps: int, stride: int, k: int)
    requires xSteps >= 1 && ySteps >= 1 && IndexBuffer(ixs, xSteps, ySteps, stride) && 0 <= k < |ixs|
    ensures 0 <= SlotColumn(xSteps, k) < xSteps && 0 <= SlotRow(xSteps, k) < ySteps
    ensures var s := CellSlot(xSteps, SlotColumn(xSteps, k), SlotRow(xSteps, k));
      s <= k < s + 6 && ixs[k] == CornersWith(stride, SlotColumn(xSteps, k), SlotRow(xSteps, k))[k - s]
  {
    CellSlotsFit(xSteps, ySteps);
    var c := k / 6;
    assert 6 * c <= k < 6 * c + 6 && c < ySteps * xSteps;
    FlatSplit(c, ySteps, xSteps);
    var i, j := SlotColumn(xSteps, k), SlotRow(xSteps, k);
    var s := CellSlot(xSteps, i, j);
    assert ixs[k] == ixs[s..s + 6][k - s];
  }

  // ---------------------------------------------------------------------------
  // create_grid_mesh

  /** Storing vertex (i, j) at its position extends the vertices in place by one. */
  lemma VerticesStep(vs: seq<Vertex>, xSteps: int, ySteps: int, i: int, j: int)
    requires xSteps >= 1 && ySteps >= 1 && 0 <= i <= xSteps && 0 <= j <= ySteps
    requires 0 <= VertexAt(xSteps, i, j) < |vs| && VerticesUpTo(vs, xSteps, ySteps, VertexAt(xSteps, i, j))
    ensures VerticesUpTo(vs[VertexAt(xSteps, i, j) := GridVertex(xSteps, ySteps, i, j)], xSteps, ySteps, VertexAt(xSteps, i, j) + 1)
  {
    FlatDistinct(xSteps + 1, j, i);
  }

  /** Writing the corners of cell (i, j) into its slots, and nothing before them, extends the cells in place by one. */
  lemma CellsStep(ixs: seq<int>, ixs': seq<int>, xSteps: int, ySteps: int, stride: int, i: int, j: int)
    requires 0 <= i < xSteps && 0 <= j < ySteps && CellsUpTo(ixs, xSteps, ySteps, stride, Flat(j, i, xSteps))
    requires var s := CellSlot(xSteps, i, j);
      0 <= s && s + 6 <= |ixs'| && |ixs'| == |ixs| && ixs'[..s] == ixs[..s] &&
      ixs'[s..s + 6] == CornersWith(stride, i, j)
    ensures CellsUpTo(ixs', xSteps, ySteps, stride, Flat(j, i, xSteps) + 1)
  {
    FlatDistinct(xSteps, j, i);
    var s := CellSlot(xSteps, i, j);
    forall i', j' | 0 <= i' < xSteps && 0 <= j' < ySteps && Flat(j', i', xSteps) < Flat(j, i, xSteps)
      ensures ixs'[CellSlot(xSteps, i', j')..CellSlot(xSteps, i', j') + 6] == CornersWith(stride, i', j')
    {
      var s' := CellSlot(xSteps, i', j');
      assert s' + 6 <= s;
      assert ixs'[s'..s' + 6] == ixs'[..s][s'..s' + 6] == ixs[..s][s'..s' + 6] == ixs[s'..s' + 6];
    }
  }

  /** Lines 19-33: the vertex loops, row by row. */
  method FillVertices(vertices: array<Vertex>, xSteps: int, ySteps: int)
    requires xSteps >= 1 && ySteps >= 1 && vertices.Length == VertexCount(xSteps, ySteps)
    modifies vertices
    ensures GridVertices(vertices[..], xSteps, ySteps)
  {
    var j := 0;
    while j <= ySteps
      invariant 0 <= j <= ySteps + 1
      invariant VerticesUpTo(vertices[..], xSteps, ySteps, VertexAt(xSteps, 0, j))
    {
      FillVertexRow(vertices, xSteps, ySteps, j);
      j := j + 1;
    }
    assert VertexAt(xSteps, 0, j) == VertexCount(xSteps, ySteps);
  }

  /** Lines 21-32: row j of vertices, left to right. */
  method FillVertexRow(vertices: array<Vertex>, xSteps: int, ySteps: int, j: int)
    requires xSteps >= 1 && ySteps >= 1 && vertices.Length == VertexCount(xSteps, ySteps) && 0 <= j <= ySteps
    requires VerticesUpTo(vertices[..], xSteps, ySteps, VertexAt(xSteps, 0, j))
    modifies vertices
    ensures VerticesUpTo(vertices[..], xSteps, ySteps, VertexAt(xSteps, 0, j + 1))
  {
    var i := 0;
    while i <= xSteps
      invariant 0 <= i <= xSteps + 1
      invariant VerticesUpTo(vertices[..], xSteps, ySteps, VertexAt(xSteps, i, j))
    {
      var index := i + j * (xSteps + 1);
      FlatBound(j, i, ySteps + 1, xSteps + 1);
      VerticesStep(vertices[..], xSteps, ySteps, i, j);
      // The six field stores of lines 25-31, made as one.
      var v := Vertex(-0.5 + (i as real) / (xSteps as real), -0.5 + (j as real) / (ySteps as real), 0.0,
                      (i as real) / (xSteps as real), (j as real) / (ySteps as real), 0.0);
      vertices[index] := v;
      i := i + 1;
    }
    NextRow(j, xSteps + 1);
  }

  /** Lines 45-65 with the row stride of the vertex layout: every index names a vertex of the buffer. */
  method FillIndices(indices: array<int>, xSteps: int, ySteps: int)
    requires xSteps >= 1 && ySteps >= 1 && indices.Length == IndexCount(xSteps, ySteps)
    modifies indices
    ensures GridIndices(indices[..], xSteps, ySteps)
    ensures forall k | 0 <= k < indices.Length :: 0 <= indices[k] < VertexCount(xSteps, ySteps)
  {
    FillCells(indices, xSteps, ySteps, xSteps + 1);
    IndicesInRange(indices[..], xSteps, ySteps);
  }

  /**
   * Lines 45-65 as written, with the row stride y_steps + 1: every index
   * names a vertex of the buffer when the grid is no taller than wide.
   */
  method FillIndicesAsWritten(indices: array<int>, xSteps: int, ySteps: int)
    requires xSteps >= 1 && ySteps >= 1 && indices.Length == IndexCount(xSteps, ySteps)
    modifies indices
    ensures GridIndicesAsWritten(indices[..], xSteps, ySteps)
    ensures ySteps <= xSteps ==> forall k | 0 <= k < indices.Length :: 0 <= indices[k] < VertexCount(xSteps, ySteps)
  {
    FillCells(indices, xSteps, ySteps, ySteps + 1);
    if ySteps <= xSteps {
      AsWrittenIndicesInRange(indices[..], xSteps, ySteps);
    }
  }

  /** Lines 45-65: the index loops, cell by cell, row by row, for a row stride. */
  method FillCells(indices: array<int>, xSteps: int, ySteps: int, stride: int)
    requires xSteps >= 1 && ySteps >= 1 && indices.Length == IndexCount(xSteps, ySteps)
    modifies indices
    ensures IndexBuffer(indices[..], xSteps, ySteps, stride)
  {
    var j := 0;
    while j < ySteps
      invariant 0 <= j <= ySteps
      invariant CellsUpTo(indices[..], xSteps, ySteps, stride, Flat(j, 0, xSteps))
    {
      FillCellRow(indices, xSteps, ySteps, stride, j);
      j := j + 1;
    }
    assert Flat(j, 0, xSteps) == xSteps * ySteps;
  }

  /** Lines 47-64: row j of cells, left to right. */
  method FillCellRow(indices: array<int>, xSteps: int, ySteps: int, stride: int, j: int)
    requires xSteps >= 1 && ySteps >= 1 && indices.Length == IndexCount(xSteps, ySteps) && 0 <= j < ySteps
    requires CellsUpTo(indices[..], xSteps, ySteps, stride, Flat(j, 0, xSteps))
    modifies indices
    ensures CellsUpTo(indices[..], xSteps, ySteps, stride, Flat(j + 1, 0, xSteps))
  {
    var i := 0;
    while i < xSteps
      invariant 0 <= i <= xSteps
      invariant CellsUpTo(indices[..], xSteps, ySteps, stride, Flat(j, i, xSteps))
    {
      var triangleIdx := 6 * (i + j * xSteps);
      var v1 := i + j * stride;
      var v2 := v1 + 1;
      var v3 := i + (j + 1) * stride;
      var v4 := v3 + 1;
      FlatBound(j, i, ySteps, xSteps);
      CellSlotsFit(xSteps, ySteps);
      ghost var before := indices[..];
      StoreCell(indices, triangleIdx, v1, v2, v3, v4);
      CellsStep(before, indices[..], xSteps, ySteps, stride, i, j);
      i := i + 1;
    }
    NextRow(j, xSteps);
  }

  /** The index buffer has six slots for each of the x_steps * y_steps cells. */
  lemma CellSlotsFit(xSteps: int, ySteps: int)
    ensures IndexCount(xSteps, ySteps) == 6 * (ySteps * xSteps)
  {
    assert 6 * xSteps * ySteps == 6 * (xSteps * ySteps);
  }

  /** Lines 57-62: the six stores of one cell, triangles v1, v2, v3 and v2, v4, v3 at slot `at`. */
  method StoreCell(indices: array<int>, at: int, v1: int, v2: int, v3: int, v4: int)
    requires 0 <= at && at + 6 <= indices.Length
    modifies indices
    ensures indices[..at] == old(indices[..at])
    ensures indices[at..at + 6] == [v1, v2, v3, v2, v4, v3]
  {
    indices[at] := v1;
    indices[at + 1] := v2;
    indices[at + 2] := v3;
    indices[at + 3] := v2;
    indices[at + 4] := v4;
    indices[at + 5] := v3;
  }

  /**
   * Lines 7-66: the lengths are set first; a failed allocation leaves its
   * buffer null and returns -1. When both succeed, the buffers hold the grid
   * and the function returns no value, modelled as None.
   */
  method CreateGridMesh(xSteps: int, ySteps: int, mesh: Mesh, verticesAllocated: bool, indicesAllocated: bool)
    returns (status: Option<int>)
    requires xSteps >= 1 && ySteps >= 1
    modifies mesh
    ensures mesh.verticesLength == VertexCount(xSteps, ySteps)
    ensures !verticesAllocated ==>
      status == Some(-1) && mesh.vertices == null && mesh.indices == old(mesh.indices) && mesh.indicesLength == old(mesh.indicesLength)
    ensures verticesAllocated ==>
      mesh.vertices != null && fresh(mesh.vertices) && GridVertices(mesh.vertices[..], xSteps, ySteps) &&
      mesh.indicesLength == IndexCount(xSteps, ySteps)
    ensures verticesAllocated && !indicesAllocated ==> status == Some(-1) && mesh.indices == null
    ensures verticesAllocated && indicesAllocated ==>
      status == None && mesh.indices != null && fresh(mesh.indices) && GridIndices(mesh.indices[..], xSteps, ySteps)
  {
    mesh.verticesLength := (xSteps + 1) * (ySteps + 1);
    if !verticesAllocated {
      mesh.vertices := null;
      return Some(-1);
    }
    var vertices := new Vertex[mesh.verticesLength];
    mesh.vertices := vertices;
    FillVertices(vertices, xSteps, ySteps);
    mesh.indicesLength := 6 * xSteps * ySteps;
    if !indicesAllocated {
      mesh.indices := null;
      return Some(-1);
    }
    var indices := new int[mesh.indicesLength];
    mesh.indices := indices;
    FillIndices(indices, xSteps, ySteps);
    return None;
  }
}
