/**
 * The dense matrix kernel of matrix.h. Matrices are flat row-major buffers:
 * entry (row, col) of a matrix with `cols` columns is at `col + row * cols`
 * (`Indexing.Flat`). The buffer routines work in place on arrays; the
 * `mat3` routines take and return 3x3 values.
 */
module Matrices {
  import opened Indexing
  import Vectors

  // ---------------------------------------------------------------------------
  // matrix_transpose

  /** The square n x n matrix at the front of s, transposed; cells past n * n are kept. */
  function Transposed(s: seq<real>, n: nat): (t: seq<real>)
    requires n * n <= |s|
    ensures |t| == |s|
    ensures forall k | n * n <= k < |s| :: t[k] == s[k]
  {
    seq(|s|, k requires 0 <= k < |s| =>
      if k < n * n then
        FlatSplit(k, n, n);
        FlatBound(k % n, k / n, n, n);
        s[Flat(k % n, k / n, n)]
      else s[k])
  }

  /** Entry (r, c) of the transpose is entry (c, r) of the original. */
  lemma TransposedAt(s: seq<real>, n: nat, r: int, c: int)
    requires n * n <= |s| && 0 <= r < n && 0 <= c < n
    ensures 0 <= Flat(r, c, n) < n * n && 0 <= Flat(c, r, n) < n * n
    ensures Transposed(s, n)[Flat(r, c, n)] == s[Flat(c, r, n)]
  {
    FlatBound(r, c, n, n);
    FlatBound(c, r, n, n);
    FlatDivMod(r, c, n);
  }

  /** Transposing twice restores the matrix. */
  lemma TransposeInvolution(s: seq<real>, n: nat)
    requires n * n <= |s|
    ensures Transposed(Transposed(s, n), n) == s
  {
    var t := Transposed(s, n);
    forall k | 0 <= k < n * n
      ensures Transposed(t, n)[k] == s[k]
    {
      FlatSplit(k, n, n);
      var r, c := k / n, k % n;
      TransposedAt(t, n, r, c);
      TransposedAt(s, n, c, r);
    }
  }

  /** Diagonal entries never move. */
  lemma TransposeKeepsDiagonal(s: seq<real>, n: nat, i: int)
    requires n * n <= |s| && 0 <= i < n
    ensures 0 <= Flat(i, i, n) < n * n
    ensures Transposed(s, n)[Flat(i, i, n)] == s[Flat(i, i, n)]
  {
    TransposedAt(s, n, i, i);
  }

  /** `matrix_transpose`: swaps each entry above the diagonal with its mirror image, in place. */
  method Transpose(mat: array<real>, n: nat)
    requires n * n <= mat.Length
    modifies mat
    ensures mat[..] == Transposed(old(mat[..]), n)
  {
    ghost var m0 := mat[..];
    FlatBoundAll(n, n);
    for j := 0 to n
      invariant forall r, c | 0 <= r < n && 0 <= c < n ::
        mat[Flat(r, c, n)] == if r < j || c < j then m0[Flat(c, r, n)] else m0[Flat(r, c, n)]
      invariant forall k | n * n <= k < mat.Length :: mat[k] == m0[k]
    {
      for i := j + 1 to n
        invariant forall r, c | 0 <= r < n && 0 <= c < n ::
          mat[Flat(r, c, n)] ==
            if r < j || c < j || (r == j && c < i) || (c == j && r < i) then m0[Flat(c, r, n)] else m0[Flat(r, c, n)]
        invariant forall k | n * n <= k < mat.Length :: mat[k] == m0[k]
      {
        FlatBound(j, i, n, n);
        FlatBound(i, j, n, n);
        FlatDistinct(n, j, i);
        FlatDistinct(n, i, j);
        var temp := mat[i + j * n];
        mat[i + j * n] := mat[j + i * n];
        mat[j + i * n] := temp;
      }
    }
    forall k | 0 <= k < mat.Length
      ensures mat[k] == Transposed(m0, n)[k]
    {
      if k < n * n {
        FlatSplit(k, n, n);
        TransposedAt(m0, n, k / n, k % n);
      }
    }
  }

  /** `mat6_transpose`. */
  method Mat6Transpose(mat: array<real>)
    requires 36 <= mat.Length
    modifies mat
    ensures mat[..] == Transposed(old(mat[..]), 6)
  {
    Transpose(mat, 6);
  }

  // ---------------------------------------------------------------------------
  // matrix_multiply and matrix_premultiply

  /**
   * The first m terms of row `row` of `left` (rows x cols) times column `col`
   * of `right` (cols x cols), accumulated from k = 0 upwards.
   */
  function RowTimesColumn(left: seq<real>, right: seq<real>, rows: nat, cols: nat, row: nat, col: nat, m: nat): real
    requires rows * cols <= |left| && cols * cols <= |right|
    requires row < rows && col < cols && m <= cols
  {
    if m == 0 then 0.0
    else
      FlatBound(row, m - 1, rows, cols);
      FlatBound(m - 1, col, cols, cols);
      RowTimesColumn(left, right, rows, cols, row, col, m - 1) + left[Flat(row, m - 1, cols)] * right[Flat(m - 1, col, cols)]
  }

  /** The first m terms of row `row` of `matrix` (rows x cols) times `vector`. */
  function RowTimesVector(matrix: seq<real>, vector: seq<real>, rows: nat, cols: nat, row: nat, m: nat): real
    requires rows * cols <= |matrix| && cols <= |vector|
    requires row < rows && m <= cols
  {
    if m == 0 then 0.0
    else
      FlatBound(row, m - 1, rows, cols);
      RowTimesVector(matrix, vector, rows, cols, row, m - 1) + matrix[Flat(row, m - 1, cols)] * vector[m - 1]
  }

  /** The n x n identity matrix. */
  function Identity(n: nat): (id: seq<real>)
    ensures |id| == n * n
    ensures forall r, c | 0 <= r < n && 0 <= c < n :: 0 <= Flat(r, c, n) < n * n && id[Flat(r, c, n)] == if r == c then 1.0 else 0.0
  {
    FlatBoundAll(n, n);
    var id := seq(n * n, k requires 0 <= k < n * n => if k / n == k % n then 1.0 else 0.0);
    assert forall r, c | 0 <= r < n && 0 <= c < n :: id[Flat(r, c, n)] == if r == c then 1.0 else 0.0 by {
      forall r, c | 0 <= r < n && 0 <= c < n
        ensures id[Flat(r, c, n)] == if r == c then 1.0 else 0.0
      {
        FlatDivMod(r, c, n);
      }
    }
    id
  }

  /** Multiplying by the identity on the right gives the left matrix back, entry by entry. */
  lemma {:induction false} RightIdentity(left: seq<real>, rows: nat, cols: nat, row: nat, col: nat, m: nat)
    requires rows * cols <= |left| && row < rows && col < cols && m <= cols
    ensures 0 <= Flat(row, col, cols) < |left|
    ensures RowTimesColumn(left, Identity(cols), rows, cols, row, col, m) == if col < m then left[Flat(row, col, cols)] else 0.0
  {
    FlatBound(row, col, rows, cols);
    if m > 0 {
      RightIdentity(left, rows, cols, row, col, m - 1);
    }
  }

  /** Multiplying by the identity on the left gives the right matrix back, entry by entry. */
  lemma {:induction false} LeftIdentity(right: seq<real>, n: nat, row: nat, col: nat, m: nat)
    requires n * n <= |right| && row < n && col < n && m <= n
    ensures 0 <= Flat(row, col, n) < |right|
    ensures RowTimesColumn(Identity(n), right, n, n, row, col, m) == if row < m then right[Flat(row, col, n)] else 0.0
  {
    FlatBound(row, col, n, n);
    if m > 0 {
      LeftIdentity(right, n, row, col, m - 1);
    }
  }

  /**
   * `matrix_multiply`: result (rows x cols) := left (rows x cols) times
   * right (cols x cols), every entry a full row-by-column sum.
   */
  method MatrixMultiply(result: array<real>, left: array<real>, right: array<real>, rows: nat, cols: nat)
    requires rows * cols <= result.Length && rows * cols <= left.Length && cols * cols <= right.Length
    requires result != left && result != right
    modifies result
    ensures forall j, i | 0 <= j < rows && 0 <= i < cols ::
      0 <= Flat(j, i, cols) < rows * cols &&
      result[Flat(j, i, cols)] == RowTimesColumn(left[..], right[..], rows, cols, j, i, cols)
    ensures forall k | rows * cols <= k < result.Length :: result[k] == old(result[k])
  {
    FlatBoundAll(rows, cols);
    for j := 0 to rows
      invariant forall j', i | 0 <= j' < j && 0 <= i < cols ::
        result[Flat(j', i, cols)] == RowTimesColumn(left[..], right[..], rows, cols, j', i, cols)
      invariant forall k | rows * cols <= k < result.Length :: result[k] == old(result[k])
    {
      for i := 0 to cols
        invariant forall j', i' | 0 <= j' < j && 0 <= i' < cols ::
          result[Flat(j', i', cols)] == RowTimesColumn(left[..], right[..], rows, cols, j', i', cols)
        invariant forall i' | 0 <= i' < i :: result[Flat(j, i', cols)] == RowTimesColumn(left[..], right[..], rows, cols, j, i', cols)
        invariant forall k | rows * cols <= k < result.Length :: result[k] == old(result[k])
      {
        var v := RowColumnProduct(left, right, rows, cols, j, i);
        FlatDistinct(cols, j, i);
        result[i + j * cols] := v;
      }
    }
  }

  /** The innermost loop of `matrix_multiply`: one entry of the product. */
  method RowColumnProduct(left: array<real>, right: array<real>, rows: nat, cols: nat, j: nat, i: nat) returns (v: real)
    requires rows * cols <= left.Length && cols * cols <= right.Length && j < rows && i < cols
    ensures v == RowTimesColumn(left[..], right[..], rows, cols, j, i, cols)
  {
    v := 0.0;
    for k := 0 to cols
      invariant v == RowTimesColumn(left[..], right[..], rows, cols, j, i, k)
    {
      FlatBound(j, k, rows, cols);
      FlatBound(k, i, cols, cols);
      v := v + left[k + j * cols] * right[i + k * cols];
    }
  }

  /** `mat6_multiply`: matrix_multiply on 6 x 6 matrices. */
  method Mat6Multiply(result: array<real>, left: array<real>, right: array<real>)
    requires 36 <= result.Length && 36 <= left.Length && 36 <= right.Length
    requires result != left && result != right
    modifies result
    ensures forall j, i | 0 <= j < 6 && 0 <= i < 6 ::
      result[Flat(j, i, 6)] == RowTimesColumn(left[..], right[..], 6, 6, j, i, 6)
    ensures forall k | 36 <= k < result.Length :: result[k] == old(result[k])
  {
    MatrixMultiply(result, left, right, 6, 6);
  }

  /** `matrix_premultiply`: result[j] := row j of matrix (rows x cols) times vector, for j < rows. */
  method Premultiply(result: array<real>, matrix: array<real>, vector: array<real>, rows: nat, cols: nat)
    requires rows <= result.Length && rows * cols <= matrix.Length && cols <= vector.Length
    requires result != matrix && result != vector
    modifies result
    ensures forall j | 0 <= j < rows :: result[j] == RowTimesVector(matrix[..], vector[..], rows, cols, j, cols)
    ensures forall k | rows <= k < result.Length :: result[k] == old(result[k])
  {
    for j := 0 to rows
      invariant forall j' | 0 <= j' < j :: result[j'] == RowTimesVector(matrix[..], vector[..], rows, cols, j', cols)
      invariant forall k | rows <= k < result.Length :: result[k] == old(result[k])
    {
      var v := 0.0;
      ghost var before := result[..];
      for i := 0 to cols
        invariant v == RowTimesVector(matrix[..], vector[..], rows, cols, j, i)
        invariant result[..] == before
      {
        FlatBound(j, i, rows, cols);
        v := v + matrix[i + j * cols] * vector[i];
      }
      result[j] := v;
    }
  }

  /** Premultiplying by the identity returns the vector, component by component. */
  lemma {:induction false} IdentityPremultiply(vector: seq<real>, n: nat, row: nat, m: nat)
    requires row < n && m <= n && n <= |vector|
    ensures RowTimesVector(Identity(n), vector, n, n, row, m) == if row < m then vector[row] else 0.0
  {
    if m > 0 {
      IdentityPremultiply(vector, n, row, m - 1);
    }
  }

  // ---------------------------------------------------------------------------
  // struct mat3 and its value routines

  /** Nine cells: a 3 x 3 matrix in row-major order. */
  type Cells9 = s: seq<real> | |s| == 9 witness [0.0, 0.0, 0.0, 0.0, 0.0, 0.0, 0.0, 0.0, 0.0]

  /** `struct mat3`. */
  datatype Mat3 = Mat3(elements: Cells9)

  const Mat3Identity: Mat3 := Mat3(Identity(3))

  /** Two 3 x 3 matrices with the same nine entries are the same matrix. */
  lemma Mat3Equal(a: Mat3, b: Mat3)
    requires forall r, c | 0 <= r < 3 && 0 <= c < 3 :: a.elements[Flat(r, c, 3)] == b.elements[Flat(r, c, 3)]
    ensures a == b
  {
    forall k | 0 <= k < 9
      ensures a.elements[k] == b.elements[k]
    {
      FlatSplit(k, 3, 3);
    }
  }

  /** `mat3_transpose`: a transposed copy of a 3 x 3 value. */
  function Mat3Transpose(m: Mat3): (t: Mat3)
    ensures forall r, c | 0 <= r < 3 && 0 <= c < 3 :: t.elements[Flat(r, c, 3)] == m.elements[Flat(c, r, 3)]
  {
    var t := Mat3(Transposed(m.elements, 3));
    assert forall r, c | 0 <= r < 3 && 0 <= c < 3 :: t.elements[Flat(r, c, 3)] == m.elements[Flat(c, r, 3)] by {
      forall r, c | 0 <= r < 3 && 0 <= c < 3
        ensures t.elements[Flat(r, c, 3)] == m.elements[Flat(c, r, 3)]
      {
        TransposedAt(m.elements, 3, r, c);
      }
    }
    t
  }

  /** Transposing a 3 x 3 value twice gives it back. */
  lemma Mat3TransposeInvolution(m: Mat3)
    ensures Mat3Transpose(Mat3Transpose(m)) == m
  {
    Mat3Equal(Mat3Transpose(Mat3Transpose(m)), m);
  }

  /** `mat3_multiply`: the 3 x 3 product of two values. */
  function Mat3Multiply(left: Mat3, right: Mat3): (p: Mat3)
    ensures forall r, c | 0 <= r < 3 && 0 <= c < 3 ::
      p.elements[Flat(r, c, 3)] == RowTimesColumn(left.elements, right.elements, 3, 3, r, c, 3)
  {
    var p := Mat3(seq(9, k requires 0 <= k < 9 => RowTimesColumn(left.elements, right.elements, 3, 3, k / 3, k % 3, 3)));
    assert forall r, c | 0 <= r < 3 && 0 <= c < 3 ::
      p.elements[Flat(r, c, 3)] == RowTimesColumn(left.elements, right.elements, 3, 3, r, c, 3) by {
      forall r, c | 0 <= r < 3 && 0 <= c < 3
        ensures p.elements[Flat(r, c, 3)] == RowTimesColumn(left.elements, right.elements, 3, 3, r, c, 3)
      {
        FlatDivMod(r, c, 3);
      }
    }
    p
  }

  /** The 3 x 3 identity is neutral on both sides of `mat3_multiply`. */
  lemma Mat3MultiplyIdentity(m: Mat3)
    ensures Mat3Multiply(m, Mat3Identity) == m
    ensures Mat3Multiply(Mat3Identity, m) == m
  {
    forall r, c | 0 <= r < 3 && 0 <= c < 3
      ensures Mat3Multiply(m, Mat3Identity).elements[Flat(r, c, 3)] == m.elements[Flat(r, c, 3)]
      ensures Mat3Multiply(Mat3Identity, m).elements[Flat(r, c, 3)] == m.elements[Flat(r, c, 3)]
    {
      RightIdentity(m.elements, 3, 3, r, c, 3);
      LeftIdentity(m.elements, 3, r, c, 3);
    }
    Mat3Equal(Mat3Multiply(m, Mat3Identity), m);
    Mat3Equal(Mat3Multiply(Mat3Identity, m), m);
  }

  /** `mat3_premultiply`: the 3 x 3 value times a vector, written out row by row. */
  function Mat3Premultiply(m: Mat3, v: Vectors.Vec3): (r: Vectors.Vec3)
    ensures r.x == RowTimesVector(m.elements, [v.x, v.y, v.z], 3, 3, 0, 3)
    ensures r.y == RowTimesVector(m.elements, [v.x, v.y, v.z], 3, 3, 1, 3)
    ensures r.z == RowTimesVector(m.elements, [v.x, v.y, v.z], 3, 3, 2, 3)
  {
    var e := m.elements;
    Mat3Row(e, [v.x, v.y, v.z], 0);
    Mat3Row(e, [v.x, v.y, v.z], 1);
    Mat3Row(e, [v.x, v.y, v.z], 2);
    Vectors.Vec3(e[0] * v.x + e[1] * v.y + e[2] * v.z,
                 e[3] * v.x + e[4] * v.y + e[5] * v.z,
                 e[6] * v.x + e[7] * v.y + e[8] * v.z)
  }

  /** A full row-by-vector sum of a 3 x 3 matrix, written out. */
  lemma Mat3Row(e: seq<real>, w: seq<real>, row: nat)
    requires |e| == 9 && |w| == 3 && row < 3
    ensures RowTimesVector(e, w, 3, 3, row, 3) == e[3 * row] * w[0] + e[3 * row + 1] * w[1] + e[3 * row + 2] * w[2]
  {
    assert RowTimesVector(e, w, 3, 3, row, 1) == e[3 * row] * w[0];
    assert RowTimesVector(e, w, 3, 3, row, 2) == e[3 * row] * w[0] + e[3 * row + 1] * w[1];
  }

  /** Premultiplying a vector by the 3 x 3 identity leaves it unchanged. */
  lemma Mat3PremultiplyIdentity(v: Vectors.Vec3)
    ensures Mat3Premultiply(Mat3Identity, v) == v
  {
    var w := [v.x, v.y, v.z];
    IdentityPremultiply(w, 3, 0, 3);
    IdentityPremultiply(w, 3, 1, 3);
    IdentityPremultiply(w, 3, 2, 3);
  }

  // ---------------------------------------------------------------------------
  // mat6_break_quads and mat6_join_quads

  /** First cell of quadrant q (0 top-left, 1 top-right, 2 bottom-left, 3 bottom-right) of a 6 x 6 buffer. */
  function QuadOffset(q: int): int
  {
    3 * (q % 2) + 18 * (q / 2)
  }

  /** The cell of a 6 x 6 buffer holding entry (row, col) of quadrant q. */
  function QuadCell(q: int, row: int, col: int): int
  {
    QuadOffset(q) + col + 6 * row
  }

  /** The quadrant a cell of a 6 x 6 buffer belongs to. */
  function QuadOf(k: int): int
  {
    2 * (k / 6 / 3) + k % 6 / 3
  }

  /** Quadrant q's entry (row, col) is entry (3 * (q / 2) + row, 3 * (q % 2) + col) of the 6 x 6 matrix. */
  lemma QuadCellAt(q: int, row: int, col: int)
    requires 0 <= q < 4 && 0 <= row < 3 && 0 <= col < 3
    ensures QuadCell(q, row, col) == Flat(3 * (q / 2) + row, 3 * (q % 2) + col, 6)
    ensures 0 <= QuadCell(q, row, col) < 36
  {
  }

  /** Every cell of a 6 x 6 buffer is an entry of one quadrant. */
  lemma QuadCover(k: int)
    requires 0 <= k < 36
    ensures 0 <= QuadOf(k) < 4 && 0 <= k / 6 % 3 < 3 && 0 <= k % 6 % 3 < 3
    ensures k == QuadCell(QuadOf(k), k / 6 % 3, k % 6 % 3)
  {
    var row6, col6 := k / 6, k % 6;
    DivModUnique(k, 6, row6, col6);
    var qr, qc := row6 / 3, col6 / 3;
    DivModUnique(row6, 3, qr, row6 % 3);
    DivModUnique(col6, 3, qc, col6 % 3);
    DivModUnique(2 * qr + qc, 2, qr, qc);
  }

  /** A quadrant entry's cell tells which quadrant, row and column it holds. */
  lemma QuadCellDecodes(q: int, row: int, col: int)
    requires 0 <= q < 4 && 0 <= row < 3 && 0 <= col < 3
    ensures QuadOf(QuadCell(q, row, col)) == q
    ensures QuadCell(q, row, col) / 6 % 3 == row && QuadCell(q, row, col) % 6 % 3 == col
  {
    var r6, c6 := 3 * (q / 2) + row, 3 * (q % 2) + col;
    QuadCellAt(q, row, col);
    FlatDivMod(r6, c6, 6);
    DivModUnique(r6, 3, q / 2, row);
    DivModUnique(c6, 3, q % 2, col);
  }

  /** Only entry (row, col) of quadrant q sits at its cell. */
  lemma QuadCellsDistinct(q: int, row: int, col: int)
    requires 0 <= q < 4 && 0 <= row < 3 && 0 <= col < 3
    ensures forall q', r, c | 0 <= q' < 4 && 0 <= r < 3 && 0 <= c < 3 && QuadCell(q', r, c) == QuadCell(q, row, col) ::
      q' == q && r == row && c == col
  {
    forall q', r, c | 0 <= q' < 4 && 0 <= r < 3 && 0 <= c < 3 && QuadCell(q', r, c) == QuadCell(q, row, col)
      ensures q' == q && r == row && c == col
    {
      QuadCellDecodes(q, row, col);
      QuadCellDecodes(q', r, c);
    }
  }

  /** `mat6_break_quads` as a value: the four 3 x 3 quadrants of a 6 x 6 matrix. */
  function Quads(mat: seq<real>): (quads: seq<Mat3>)
    requires 36 <= |mat|
    ensures |quads| == 4
    ensures forall q, r, c | 0 <= q < 4 && 0 <= r < 3 && 0 <= c < 3 ::
      0 <= QuadCell(q, r, c) < 36 && quads[q].elements[Flat(r, c, 3)] == mat[QuadCell(q, r, c)]
  {
    var quads := seq(4, q requires 0 <= q < 4 =>
      Mat3(seq(9, k requires 0 <= k < 9 => mat[QuadCell(q, k / 3, k % 3)])));
    assert forall q, r, c | 0 <= q < 4 && 0 <= r < 3 && 0 <= c < 3 ::
      0 <= QuadCell(q, r, c) < 36 && quads[q].elements[Flat(r, c, 3)] == mat[QuadCell(q, r, c)] by {
      forall q, r, c | 0 <= q < 4 && 0 <= r < 3 && 0 <= c < 3
        ensures 0 <= QuadCell(q, r, c) < 36 && quads[q].elements[Flat(r, c, 3)] == mat[QuadCell(q, r, c)]
      {
        FlatDivMod(r, c, 3);
        QuadCellAt(q, r, c);
      }
    }
    quads
  }

  /** `mat6_join_quads` as a value: the 6 x 6 matrix with the given quadrants. */
  function Joined(quads: seq<Mat3>): (mat: seq<real>)
    requires |quads| == 4
    ensures |mat| == 36
    ensures forall q, r, c | 0 <= q < 4 && 0 <= r < 3 && 0 <= c < 3 ::
      0 <= QuadCell(q, r, c) < 36 && mat[QuadCell(q, r, c)] == quads[q].elements[Flat(r, c, 3)]
  {
    var mat := seq(36, k requires 0 <= k < 36 => QuadCover(k); quads[QuadOf(k)].elements[Flat(k / 6 % 3, k % 6 % 3, 3)]);
    assert forall q, r, c | 0 <= q < 4 && 0 <= r < 3 && 0 <= c < 3 ::
      0 <= QuadCell(q, r, c) < 36 && mat[QuadCell(q, r, c)] == quads[q].elements[Flat(r, c, 3)] by {
      forall q, r, c | 0 <= q < 4 && 0 <= r < 3 && 0 <= c < 3
        ensures 0 <= QuadCell(q, r, c) < 36 && mat[QuadCell(q, r, c)] == quads[q].elements[Flat(r, c, 3)]
      {
        QuadCellAt(q, r, c);
        QuadCellDecodes(q, r, c);
      }
    }
    mat
  }

  /** Joining the quadrants of a matrix restores its first 36 cells. */
  lemma JoinQuadsOfMatrix(mat: seq<real>)
    requires 36 <= |mat|
    ensures Joined(Quads(mat)) == mat[..36]
  {
    forall k | 0 <= k < 36
      ensures Joined(Quads(mat))[k] == mat[k]
    {
      QuadCover(k);
      QuadCellAt(QuadOf(k), k / 6 % 3, k % 6 % 3);
    }
  }

  /** Breaking a joined matrix gives back its quadrants. */
  lemma QuadsOfJoined(quads: seq<Mat3>)
    requires |quads| == 4
    ensures Quads(Joined(quads)) == quads
  {
    forall q | 0 <= q < 4
      ensures Quads(Joined(quads))[q] == quads[q]
    {
      QuadOfJoined(quads, q);
    }
  }

  /** Quadrant q of a joined matrix is the q-th quadrant it was joined from. */
  lemma QuadOfJoined(quads: seq<Mat3>, q: int)
    requires |quads| == 4 && 0 <= q < 4
    ensures Quads(Joined(quads))[q] == quads[q]
  {
    var mat := Joined(quads);
    var back := Quads(mat);
    forall r, c | 0 <= r < 3 && 0 <= c < 3
      ensures back[q].elements[Flat(r, c, 3)] == quads[q].elements[Flat(r, c, 3)]
    {
      assert back[q].elements[Flat(r, c, 3)] == mat[QuadCell(q, r, c)];
    }
    Mat3Equal(back[q], quads[q]);
  }

  /**
   * `mat6_break_quads`: copies each 3 x 3 quadrant of the 6 x 6 matrix in
   * `mat` into quads[0..4], entry by entry. Its progress printing is left out.
   */
  method BreakQuads(mat: array<real>, quads: array<Mat3>)
    requires 36 <= mat.Length && 4 <= quads.Length
    modifies quads
    ensures quads[..4] == Quads(mat[..])
    ensures quads[4..] == old(quads[4..])
  {
    ghost var target := Quads(mat[..]);
    for q := 0 to 4
      invariant quads[..q] == target[..q]
      invariant quads[4..] == old(quads[4..])
    {
      var quad := CopyQuad(mat, quads[q], q);
      quads[q] := quad;
      assert quads[..q + 1] == quads[..q] + [quad];
    }
    assert quads[..4] == target;
  }

  /** The loops over j and i of `mat6_break_quads`: quadrant q of `mat`, written entry by entry over `quad`. */
  method CopyQuad(mat: array<real>, quad: Mat3, q: int) returns (r: Mat3)
    requires 36 <= mat.Length && 0 <= q < 4
    ensures r == Quads(mat[..])[q]
  {
    var offset := 3 * (q % 2) + 18 * (q / 2);
    var elements := quad.elements;
    for j := 0 to 3
      invariant forall r, c | 0 <= r < j && 0 <= c < 3 :: elements[Flat(r, c, 3)] == mat[QuadCell(q, r, c)]
    {
      for i := 0 to 3
        invariant forall r, c | 0 <= r < 3 && 0 <= c < 3 && (r < j || (r == j && c < i)) ::
          elements[Flat(r, c, 3)] == mat[QuadCell(q, r, c)]
      {
        QuadCellAt(q, j, i);
        FlatDistinct(3, j, i);
        elements := elements[i + 3 * j := mat[offset + i + 6 * j]];
      }
    }
    r := Mat3(elements);
    Mat3Equal(r, Quads(mat[..])[q]);
  }

  /**
   * `mat6_join_quads`: writes the four 3 x 3 quadrants in quads[0..4] into
   * their places in the 6 x 6 matrix `mat`.
   */
  method JoinQuads(mat: array<real>, quads: array<Mat3>)
    requires 36 <= mat.Length && 4 <= quads.Length
    modifies mat
    ensures mat[..36] == Joined(quads[..4])
    ensures forall k | 36 <= k < mat.Length :: mat[k] == old(mat[k])
  {
    for q := 0 to 4
      invariant forall q', r, c | 0 <= q' < q && 0 <= r < 3 && 0 <= c < 3 ::
        0 <= QuadCell(q', r, c) < 36 && mat[QuadCell(q', r, c)] == quads[q'].elements[Flat(r, c, 3)]
      invariant forall k | 36 <= k < mat.Length :: mat[k] == old(mat[k])
    {
      var offset := 3 * (q % 2) + 18 * (q / 2);
      for j := 0 to 3
        invariant forall q', r, c | 0 <= q' < 4 && 0 <= r < 3 && 0 <= c < 3 && (q' < q || (q' == q && r < j)) ::
          0 <= QuadCell(q', r, c) < 36 && mat[QuadCell(q', r, c)] == quads[q'].elements[Flat(r, c, 3)]
        invariant forall k | 36 <= k < mat.Length :: mat[k] == old(mat[k])
      {
        for i := 0 to 3
          invariant forall q', r, c | 0 <= q' < 4 && 0 <= r < 3 && 0 <= c < 3 &&
            (q' < q || (q' == q && (r < j || (r == j && c < i)))) ::
            0 <= QuadCell(q', r, c) < 36 && mat[QuadCell(q', r, c)] == quads[q'].elements[Flat(r, c, 3)]
          invariant forall k | 36 <= k < mat.Length :: mat[k] == old(mat[k])
        {
          QuadCellAt(q, j, i);
          QuadCellsDistinct(q, j, i);
          mat[offset + i + 6 * j] := quads[q].elements[i + 3 * j];
        }
      }
    }
    forall k | 0 <= k < 36
      ensures mat[k] == Joined(quads[..4])[k]
    {
      QuadCover(k);
    }
  }
}
