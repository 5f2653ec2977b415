# numerical-analysis: a Dafny model of the solver core

This project models the core of *numerical-analysis*, a C code base for
finite-element analysis of 3D beam frames with a small OpenGL viewer. It
covers the following parts:

- **Frame model** (`Frames`, from `structural/frame.h`). Nodes, beam
  elements, boundary conditions and the frame that holds them in arrays.
  Nodes also carry the `multicolor` field that the colouring pass writes.
- **Colouring and reordering** (`Multicolor` and `Reorder`, from
  `structural/frameprocess.c`).
  - `frame_assign_multicolor` builds an adjacency table with 8 slots per
    node from the element endpoints, then colours the nodes greedily.
  - `eqset_reorder` regroups the rows of the constrained stiffness matrix,
    the force vector and the displacement vector, colour by colour, into
    fresh buffers. It records the permutation in `order`.
- **Stiffness assembly** (`Stiffness`, from `structural/frame.c`).
  `add_local_stiffness` adds a 6 x 6 block into the flat global matrix.
  `structural` assembles one axial element into a zeroed 12 x 12 matrix.
- **Linear solvers** (`LinearSolve` and `LinSolveMpi`, from
  `core/linearsolve.c` and `core/linsolvempi.c`).
  - The single-threaded sweep of `solve_jacobi`.
  - The chunked sweep of `solve_jacobi_mpi`, with the process rank and the
    process count as parameters.
- **Spatial maths** (`Vectors`, `Matrices` and `Transforms`, from
  `core/vector.h`, `core/matrix.h` and `core/transform.h`).
  - vec3 algebra.
  - Transpose and products on flat row-major buffers.
  - The 3 x 3 value type.
  - The 6 x 6 split into 3 x 3 quadrants and back.
  - 4 x 4 identity, product, translation, scale and composed transform.
- **Paths** (`FilePath`, from `core/filepath.c`). `get_full_filepath` cuts
  the executable's path at its first `build`, then appends an optional
  prefix and a file name.
- **Frame file reader** (`FrameImport`, from `structural/frameimport.c`).
  `frame_import` reads `nodes`, `elements` and `boundary_conditions`
  sections from a token sequence. `frame_create_sample` builds the sample
  frame.
- **Grid mesh** (`Grid`, from `graphics/grid.h`). `create_grid_mesh` fills
  the vertex buffer and the triangle index buffer of a flat grid.

Two shared modules support the rest. `Wrappers` holds `Option`. `Indexing`
holds the row-major index arithmetic that every flat buffer uses.

## How the code is modelled

Code that works in place stays imperative:

- The array operations are `method`s over `array`s.
- The frame is a `class`.
- Each method is proved against a function that states its result on
  values: `Transposed`, `Scatter`, `SweepRange`, `Quads`/`Joined`, `Build`,
  `Coloring`, `Emitted`/`Placed`, `ReadNodes`, `FullFilepath`,
  `GridVertices`/`IndexBuffer`.
- The properties are proved about those functions.

The vec3, mat3 and mat4 code passes values and stays functional. C
`float` is modelled as `real`.

The code differs from its comments in three places. The model follows the
code in the first two. In the third it models both, and the rest of the
model builds on the comment:

- `solve_jacobi` describes Jacobi's method: every row is computed from the
  previous estimate. The code overwrites `vector_x[j]` in place, so later
  rows of a sweep read the new values, which is Gauss-Seidel order.
  `LinearSolve.Sweep` models the code. `LinearSolve.JacobiSweep` is the
  method the comment describes. `LinearSolve.SweepIsNotJacobi` shows an
  input on which the two differ.
- The comment on line 171 of `frame_import` says it returns success when
  the end of the file is reached without incident. The count of a section,
  though, comes from its header, before any line is read. A section that
  ends early keeps the announced count, and when the input ends there the
  function still returns 0, as `FrameImport.TruncatedSectionKeepsCount`
  shows.
- In `solve_jacobi_mpi`, the comment on line 43 says that the chunk end is
  clamped to `rows`, but line 45 takes the larger of the two.
  `LinSolveMpi.SolveJacobiMpi` uses the clamp, and
  `LinSolveMpi.SolveJacobiMpiAsWritten` models line 45 (see Findings).

## Model

| member | source | states |
|---|---|---|
| Vectors.AddCommutes | numerical_analysis/src/core/vector.h:20-23 | vec3_add gives the same vector whichever operand comes first |
| Vectors.SubtractUndoesAdd | numerical_analysis/src/core/vector.h:20-28 | (a + b) - b == a, component by component |
| Vectors.ScaleByOne | numerical_analysis/src/core/vector.h:12-18 | vec3_scale by 1 returns the vector unchanged |
| Vectors.ScaleDistributes | numerical_analysis/src/core/vector.h:12-23 | scaling a sum equals the sum of the scaled vectors |
| Vectors.ScaledSquareLength | numerical_analysis/src/core/vector.h:12-33 | scaling by s multiplies the squared length by s * s |
| Vectors.SquareLengthIsSelfDot | numerical_analysis/src/core/vector.h:30-33 | vec3_square_length(v) equals vec3_dot(v, v) and is never negative |
| Vectors.DistanceProperties | numerical_analysis/src/core/vector.h:40-44 | the squared distance of vec3_distance is symmetric in its two points and never negative |
| Vectors.CrossAnticommutes | numerical_analysis/src/core/vector.h:64-73 | cross(b, a) is the negation of cross(a, b) |
| Vectors.CrossSelfIsZero | numerical_analysis/src/core/vector.h:64-73 | cross(a, a) is the zero vector |
| Vectors.CrossIsOrthogonal | numerical_analysis/src/core/vector.h:59-73 | cross(a, b) has zero dot product with both a and b |
| Vectors.Normalize | numerical_analysis/src/core/vector.h:46-57 | given length with length * length the squared length of v: the result is the zero vector exactly when the length is 0, and otherwise has squared length 1 |
| Transforms.IdentityIsNeutral | numerical_analysis/src/core/transform.h:24-56 | MAT4_IDENTITY is a left and a right unit of mat4_multiply |
| Transforms.MultiplyAssociates | numerical_analysis/src/core/transform.h:31-56 | mat4_multiply is associative |
| Transforms.RowTimesProduct | numerical_analysis/src/core/transform.h:31-56 | one entry of (A B) C equals the same entry of A (B C) |
| Transforms.TransformIsScaleRotationTranslation | numerical_analysis/src/core/transform.h:170-182 | mat4_transform equals (scale * rotation) * translation, so by MultiplyAssociates also scale * (rotation * translation) |
| Transforms.Transform | numerical_analysis/src/core/transform.h:170-182 | with an identity rotation the result is the scale on the diagonal and the offsets px, py, pz in the last row |
| Transforms.NeutralTransforms | numerical_analysis/src/core/transform.h:141-168 | translation by (0, 0, 0) and scale by (1, 1, 1) are the identity |
| Transforms.TranslationsCompose | numerical_analysis/src/core/transform.h:141-156 | the product of two translations is the translation by the sum of their offsets |
| Transforms.ScalesCompose | numerical_analysis/src/core/transform.h:158-168 | the product of two scales is the scale by the componentwise products of their factors |
| Matrices.Transpose | numerical_analysis/src/core/matrix.h:13-24 | in place: the square matrix at the front of the buffer becomes its transpose; cells past side_size^2 are untouched |
| Matrices.TransposedAt | numerical_analysis/src/core/matrix.h:13-24 | entry (r, c) of the transpose is entry (c, r) of the original |
| Matrices.TransposeInvolution | numerical_analysis/src/core/matrix.h:13-24 | transposing twice restores the buffer |
| Matrices.TransposeKeepsDiagonal | numerical_analysis/src/core/matrix.h:13-24 | diagonal entries never move |
| Matrices.Mat6Transpose | numerical_analysis/src/core/matrix.h:94-97 | the 6 x 6 buffer becomes its transpose |
| Matrices.Identity | numerical_analysis/src/core/matrix.h:27-43 | the n x n identity: 1 on the diagonal, 0 elsewhere |
| Matrices.MatrixMultiply | numerical_analysis/src/core/matrix.h:27-43 | every result entry (r, c) is the full row-by-column sum of left and right; the operands are unchanged |
| Matrices.RowColumnProduct | numerical_analysis/src/core/matrix.h:33-40 | the inner loop returns the row-by-column sum of one entry |
| Matrices.RightIdentity | numerical_analysis/src/core/matrix.h:27-43 | left times the identity equals left, entry by entry |
| Matrices.LeftIdentity | numerical_analysis/src/core/matrix.h:27-43 | the identity times right equals right, entry by entry |
| Matrices.Mat6Multiply | numerical_analysis/src/core/matrix.h:89-92 | matrix_multiply with rows = cols = 6 |
| Matrices.Premultiply | numerical_analysis/src/core/matrix.h:46-59 | result[j] is the dot product of row j of the matrix with the vector, for every j < rows; nothing else changes |
| Matrices.IdentityPremultiply | numerical_analysis/src/core/matrix.h:46-59 | premultiplying by the identity returns the vector |
| Matrices.Mat3Transpose | numerical_analysis/src/core/matrix.h:61-66 | entry (r, c) of the result is entry (c, r) of the argument |
| Matrices.Mat3TransposeInvolution | numerical_analysis/src/core/matrix.h:61-66 | transposing a 3 x 3 value twice gives it back |
| Matrices.Mat3Multiply | numerical_analysis/src/core/matrix.h:68-75 | every entry of the 3 x 3 product is the full row-by-column sum |
| Matrices.Mat3MultiplyIdentity | numerical_analysis/src/core/matrix.h:68-75 | the 3 x 3 identity is neutral on both sides |
| Matrices.Mat3Premultiply | numerical_analysis/src/core/matrix.h:78-87 | each component of the result is the corresponding row of the matrix times the vector |
| Matrices.Mat3PremultiplyIdentity | numerical_analysis/src/core/matrix.h:78-87 | the identity leaves a vector unchanged |
| Matrices.QuadCellAt | numerical_analysis/src/core/matrix.h:115-134 | quadrant q's entry (row, col) is entry (3 * (q / 2) + row, 3 * (q % 2) + col) of the 6 x 6 matrix |
| Matrices.QuadCover | numerical_analysis/src/core/matrix.h:115-153 | every one of the 36 cells belongs to a quadrant entry |
| Matrices.QuadCellDecodes | numerical_analysis/src/core/matrix.h:115-153 | a quadrant cell determines its quadrant, row and column |
| Matrices.QuadCellsDistinct | numerical_analysis/src/core/matrix.h:115-153 | distinct quadrant entries occupy distinct cells |
| Matrices.Quads | numerical_analysis/src/core/matrix.h:115-134 | the four quadrants, each entry read from its cell of the 6 x 6 matrix |
| Matrices.Joined | numerical_analysis/src/core/matrix.h:137-153 | a 36-cell buffer whose quadrant cells hold the given quadrants' entries |
| Matrices.JoinQuadsOfMatrix | numerical_analysis/src/core/matrix.h:115-153 | joining the quadrants of a matrix restores its 36 cells |
| Matrices.QuadsOfJoined | numerical_analysis/src/core/matrix.h:115-153 | breaking a joined matrix gives back the four quadrants |
| Matrices.QuadOfJoined | numerical_analysis/src/core/matrix.h:115-153 | quadrant q of a joined matrix is the q-th quadrant joined |
| Matrices.BreakQuads | numerical_analysis/src/core/matrix.h:115-134 | quads[0..4] become Quads of the matrix; the matrix and quads[4..] are unchanged |
| Matrices.CopyQuad | numerical_analysis/src/core/matrix.h:119-131 | the j/i loops return quadrant q of the matrix |
| Matrices.JoinQuads | numerical_analysis/src/core/matrix.h:137-153 | the matrix becomes Joined(quads) in its first 36 cells, later cells unchanged |
| Stiffness.GlobalIndex | numerical_analysis/src/structural/frame.c:30-42 | the source's cell i + offset + 6 j node_count is global entry (6 node2 + j, 6 node1 + i) |
| Stiffness.GlobalCells | numerical_analysis/src/structural/frame.c:30-45 | a node_count-node global matrix has (6 node_count)^2 cells, each the flat position of one entry |
| Stiffness.ScatterAt | numerical_analysis/src/structural/frame.c:30-45 | entries inside the target block gain the local entry; every other entry is unchanged |
| Stiffness.ScatterAccumulates | numerical_analysis/src/structural/frame.c:30-45 | adding two blocks at the same place equals adding their sum |
| Stiffness.ScatterCommutes | numerical_analysis/src/structural/frame.c:158-161 | the order of the add_local_stiffness calls does not change the assembled matrix |
| Stiffness.AddLocalStiffness | numerical_analysis/src/structural/frame.c:30-45 | in place: kGlobal becomes Scatter(old kGlobal, kLocal, node1, node2, node_count) |
| Stiffness.Structural | numerical_analysis/src/structural/frame.c:94-161 | the assembled 12 x 12 matrix holds +k at (0, 0) and (6, 6), -k at (0, 6) and (6, 0) and zero elsewhere, and is symmetric |
| Frames.Frame.Empty | numerical_analysis/src/structural/frame.h:51-60 | the empty state a frame is in before `frame_import` fills it, with the shape of `struct Frame`: zero counts and empty arrays |
| Frames.NodeAt | numerical_analysis/src/structural/frameimport.c:64 | the compound literal of a node read from a line: the given position, and every other field, colour included, zero |
| Multicolor.NewTable | numerical_analysis/src/structural/frameprocess.c:57-64 | a fresh node_count * 8 table with every slot -1 |
| Multicolor.InitialTable | numerical_analysis/src/structural/frameprocess.c:57-64 | a table of node_count * 8 slots, every slot empty (-1) |
| Multicolor.ResetMulticolors | numerical_analysis/src/structural/frameprocess.c:66-69 | the colour of each counted node becomes 0; every other field and node is unchanged |
| Multicolor.Scan | numerical_analysis/src/structural/frameprocess.c:77-90 | the result is the first slot from p that holds v or is empty, or 8 when there is none |
| Multicolor.InsertForward | numerical_analysis/src/structural/frameprocess.c:77-105 | the table becomes the insertion of v into u's row; the degree rises to the slot index as lines 91-94 say; a full row is reported |
| Multicolor.InsertBackwardAsWritten | numerical_analysis/src/structural/frameprocess.c:108-135 | the table becomes the insertion; the degree becomes the largest slot index visited |
| Multicolor.ScanFindsListed | numerical_analysis/src/structural/frameprocess.c:77-90 | in a packed row the scan for a listed neighbour stops at its slot |
| Multicolor.AddForwardKeepsShape | numerical_analysis/src/structural/frameprocess.c:77-105 | insertion keeps the table packed and duplicate-free and lists v in u's row |
| Multicolor.ListsPersist | numerical_analysis/src/structural/frameprocess.c:71-136 | a listed neighbour stays listed as elements are added |
| Multicolor.AddIgnoresDegree | numerical_analysis/src/structural/frameprocess.c:77-135 | the table and overflow report do not depend on the degree |
| Multicolor.BuildAsWrittenSameTable | numerical_analysis/src/structural/frameprocess.c:71-136 | the as-written loop builds the same table and report as the corrected one; only the degree differs |
| Multicolor.BuildAsWrittenDegree | numerical_analysis/src/structural/frameprocess.c:91-94 | the as-written degree stays in 0..8 |
| Multicolor.BuildShape | numerical_analysis/src/structural/frameprocess.c:71-136 | with the corrected degree, the table is well formed and, without overflow, both nodes of every element list each other within the first degree slots |
| Multicolor.BuildTableAsWritten | numerical_analysis/src/structural/frameprocess.c:71-136 | the table and degree become BuildAsWritten of the counted elements |
| Multicolor.BuildTable | numerical_analysis/src/structural/frameprocess.c:71-136 | the table and degree become Build of the counted elements |
| Multicolor.IsAvailable | numerical_analysis/src/structural/frameprocess.c:153-163 | true exactly when no neighbour in the first degree slots already has the colour |
| Multicolor.FirstAvailable | numerical_analysis/src/structural/frameprocess.c:151-171 | the result is 0 or a colour from `color` to degree + 1 that no neighbour has, and every colour skipped before it is taken |
| Multicolor.FirstColor | numerical_analysis/src/structural/frameprocess.c:151-171 | the method returns FirstAvailable |
| Multicolor.Coloring | numerical_analysis/src/structural/frameprocess.c:142-178 | only nodes below k are coloured, each with 0 or a colour in 1..degree + 1 |
| Multicolor.ColoringSettles | numerical_analysis/src/structural/frameprocess.c:142-178 | a node's colour does not change after its turn |
| Multicolor.ColorAlwaysFound | numerical_analysis/src/structural/frameprocess.c:151-171 | degree slots can exclude at most degree colours, so one of 1..degree + 1 is free |
| Multicolor.ColoringComplete | numerical_analysis/src/structural/frameprocess.c:142-178 | every node ends with a colour in 1..degree + 1 |
| Multicolor.ColoringSeparates | numerical_analysis/src/structural/frameprocess.c:153-163 | a node listed within a later node's first degree slots ends with a different colour |
| Multicolor.ColorNodes | numerical_analysis/src/structural/frameprocess.c:142-178 | each node's colour becomes that of Coloring; the table is unchanged |
| Multicolor.PaintNode | numerical_analysis/src/structural/frameprocess.c:146-177 | node i, still at colour 0, takes the first colour free among its neighbours, or keeps 0; no other node changes |
| Multicolor.ProperColoring | numerical_analysis/src/structural/frameprocess.c:39-179 | with the degree counted as lines 91-94 do and no overflow, every node has a colour in 1..degree + 1 and no element joins two nodes of the same colour |
| Multicolor.ColoredFrameIsProper | numerical_analysis/src/structural/frameprocess.c:138-179 | when a frame's counted nodes hold Multicolors and no row overflowed, their colours are a proper colouring in 1..degree + 1 |
| Multicolor.AsWrittenColoringClash | numerical_analysis/src/structural/frameprocess.c:108-114 | as written, elements (1, 2) then (0, 1) on three nodes give nodes 0 and 1 the same colour |
| Multicolor.ClashTable | numerical_analysis/src/structural/frameprocess.c:71-136 | the as-written table of that input: row 1 holds 2 and 0, the degree is 1 |
| Multicolor.AssignMulticolorAsWritten | numerical_analysis/src/structural/frameprocess.c:39-179 | every counted node's colour becomes MulticolorsAsWritten; the other fields and nodes are unchanged |
| Multicolor.AssignMulticolor | numerical_analysis/src/structural/frameprocess.c:39-179 | every counted node's colour becomes Multicolors; the other fields and nodes are unchanged; with no overflow every counted node has a colour in 1..degree + 1 and no counted element joins two nodes of the same colour |
| Reorder.CountSplit | numerical_analysis/src/structural/frameprocess.c:205-237 | the nodes of colours c..10 are those of c+1..10 plus those of colour c |
| Reorder.EmittedCount | numerical_analysis/src/structural/frameprocess.c:205-237 | colours c..10 emit exactly as many nodes as have those colours |
| Reorder.OfColorGrows | numerical_analysis/src/structural/frameprocess.c:210-237 | looking at more nodes never lists fewer of a colour |
| Reorder.OfColorRange | numerical_analysis/src/structural/frameprocess.c:210-237 | only nodes below n of colour c are listed |
| Reorder.OfColorIncreasing | numerical_analysis/src/structural/frameprocess.c:210-237 | the nodes of one colour are listed in ascending order |
| Reorder.OfColorIndex | numerical_analysis/src/structural/frameprocess.c:210-237 | every node of colour c below n is listed |
| Reorder.EmittedRange | numerical_analysis/src/structural/frameprocess.c:205-237 | only nodes with a colour in c..10 are emitted |
| Reorder.EmittedDistinct | numerical_analysis/src/structural/frameprocess.c:205-237 | no node is emitted twice |
| Reorder.EmittedIndex | numerical_analysis/src/structural/frameprocess.c:205-237 | every node with a colour in c..10 is emitted |
| Reorder.EmissionComplete | numerical_analysis/src/structural/frameprocess.c:190-243 | with every colour in 0..10, the emission order is a permutation of the nodes |
| Reorder.EmittedNext | numerical_analysis/src/structural/frameprocess.c:205-237 | colour c appends its nodes after colours 10..c+1 and the total stays within the node count |
| Reorder.PlacementPermutes | numerical_analysis/src/structural/frameprocess.c:182-253 | moving node e[k]'s six rows to rows 6k..6k+5 permutes the rows when e lists every node once |
| Reorder.RowFrame | numerical_analysis/src/structural/frameprocess.c:219-222 | a row is unchanged when only cells of other rows change |
| Reorder.CopyRow | numerical_analysis/src/structural/frameprocess.c:219-222 | the destination row becomes the source row; no other cell changes |
| Reorder.MoveRowStep | numerical_analysis/src/structural/frameprocess.c:219-229 | moving one more row extends the moved prefix by that row |
| Reorder.PlacedExtends | numerical_analysis/src/structural/frameprocess.c:210-237 | placing one more unplaced node keeps earlier placements |
| Reorder.MoveRow | numerical_analysis/src/structural/frameprocess.c:219-229 | row srcRow of matrix, force and displacement becomes row destRow, and order records it |
| Reorder.MoveNode | numerical_analysis/src/structural/frameprocess.c:214-232 | the node's six rows go to destRow..destRow+5 in degree-of-freedom order |
| Reorder.EmitStep | numerical_analysis/src/structural/frameprocess.c:210-237 | node n is appended exactly when it has the colour, and is then not yet placed |
| Reorder.EmitColor | numerical_analysis/src/structural/frameprocess.c:206-237 | the nodes of the colour are moved, ascending, into the rows after those already filled |
| Reorder.EmitNextColor | numerical_analysis/src/structural/frameprocess.c:205-237 | placements for colours 10..c+1 become those for 10..c |
| Reorder.ReorderedCopy | numerical_analysis/src/structural/frameprocess.c:190-243 | the fresh buffers hold the rows of the emission order, six per node |
| Reorder.ReorderEquations | numerical_analysis/src/structural/frameprocess.c:182-253 | node Emitted(colors, 0)[k]'s six rows, forces and displacements move to rows 6k..6k+5; whole rows are copied |
| LinearSolve.RowUpdate | numerical_analysis/src/core/linearsolve.c:38-60 | with a non-zero diagonal the new x[j] solves row j with the other entries held; with a zero diagonal it is b[j] minus the off-diagonal sum |
| LinearSolve.RowSum | numerical_analysis/src/core/linearsolve.c:40-47 | the loop returns the off-diagonal sum of row j |
| LinearSolve.OffDiagonalIgnoresOwn | numerical_analysis/src/core/linearsolve.c:40-47 | the off-diagonal sum does not depend on x[j] |
| LinearSolve.RowProductSplit | numerical_analysis/src/core/linearsolve.c:40-47 | row j of A x is the off-diagonal sum plus the diagonal term |
| LinearSolve.UpdateSolvesRow | numerical_analysis/src/core/linearsolve.c:38-60 | after the update, row j of A x = b holds when the diagonal is non-zero |
| LinearSolve.UpdateKeepsSolution | numerical_analysis/src/core/linearsolve.c:38-60 | a row whose equation already holds keeps its value |
| LinearSolve.SweepInPlace | numerical_analysis/src/core/linearsolve.c:37-61 | row j is computed from the vector whose rows lo..j-1 are already updated; other rows are unchanged |
| LinearSolve.SweepRangeFixedPoint | numerical_analysis/src/core/linearsolve.c:37-61 | an exact solution with a non-zero diagonal is unchanged by a sweep over any rows |
| LinearSolve.SweepsFixedPoint | numerical_analysis/src/core/linearsolve.c:15-17 | an exact solution is a fixed point of every number of iterations |
| LinearSolve.JacobiSweep | numerical_analysis/src/core/linearsolve.c:9-21 | the Jacobi step described in the comment: every row from the previous estimate |
| LinearSolve.SweepIsNotJacobi | numerical_analysis/src/core/linearsolve.c:37-61 | on a 2 x 2 input the in-place sweep and the Jacobi step differ |
| LinearSolve.SweepRows | numerical_analysis/src/core/linearsolve.c:37-61 | in place: x becomes SweepRange of the old x over lo..hi-1; A and b are unchanged |
| LinearSolve.SolveJacobi | numerical_analysis/src/core/linearsolve.c:7-63 | with fewer than one thread x is unchanged; with one thread x becomes Sweeps(max(iterations, 0)) |
| LinSolveMpi.ChunkSizeCeiling | numerical_analysis/src/core/linsolvempi.c:35-39 | chunk * procs covers every row and (chunk - 1) * procs does not |
| LinSolveMpi.RowStart | numerical_analysis/src/core/linsolvempi.c:42 | the chunk starts at chunk * rank |
| LinSolveMpi.RowEnd | numerical_analysis/src/core/linsolvempi.c:43-45 | the corrected end is at most rows, and is either the unclamped end or rows |
| LinSolveMpi.RowEndAsWrittenOverruns | numerical_analysis/src/core/linsolvempi.c:44-45 | as written, 7 rows on 2 processes end process 1's chunk at row 8 |
| LinSolveMpi.RowEndAsWrittenInBounds | numerical_analysis/src/core/linsolvempi.c:44-45 | as written, the end is never below rows, and within rows only when the unclamped end already is |
| LinSolveMpi.RowEndAsWrittenFirstChunk | numerical_analysis/src/core/linsolvempi.c:43-45 | as written, 8 rows on 2 processes end process 0's chunk at row 8, where the clamp ends it at row 4 |
| LinSolveMpi.ChunkSizeAtMostRows | numerical_analysis/src/core/linsolvempi.c:35-42 | no chunk is longer than the rows, so the chunk of process 0 ends within them |
| LinSolveMpi.ChunksPartition | numerical_analysis/src/core/linsolvempi.c:35-45 | with the clamp every row lies in exactly one process's chunk and no chunk passes the last row |
| LinSolveMpi.SingleProcessSweepsTwice | numerical_analysis/src/core/linsolvempi.c:50-113 | with one process, t iterations are 2t single-threaded sweeps |
| LinSolveMpi.IterationsFixedPoint | numerical_analysis/src/core/linsolvempi.c:50-113 | an exact solution with a non-zero diagonal is kept by every iteration |
| LinSolveMpi.AsWrittenFirstProcessSweepsTwice | numerical_analysis/src/core/linsolvempi.c:44-113 | as written, process 0's chunk runs to the last row for any process count, so t iterations are 2t single-threaded sweeps |
| LinSolveMpi.SolveJacobiMpiDisabled | numerical_analysis/src/core/linsolvempi.c:16-21 | without MPI, x is unchanged |
| LinSolveMpi.SolveJacobiMpi | numerical_analysis/src/core/linsolvempi.c:26-119 | with the chunk end clamped as the comment on line 43 asks, x becomes Iterations(max(iterations, 0)) for this rank; A and b are unchanged |
| LinSolveMpi.SolveJacobiMpiAsWritten | numerical_analysis/src/core/linsolvempi.c:26-119 | as written, when the unclamped chunk end lies within the rows: each iteration sweeps rows RowStart .. rows - 1 and then all rows, max(iterations, 0) times; A and b are unchanged |
| LinSolveMpi.IterateChunk | numerical_analysis/src/core/linsolvempi.c:50-113 | x becomes ChunkIterations(lo, hi, max(iterations, 0)): each iteration a sweep of rows lo .. hi - 1, then of all rows; A and b are unchanged |
| FilePath.CString | numerical_analysis/src/core/filepath.c:26 | the C string is the buffer's longest NUL-free prefix |
| FilePath.CStringOf | numerical_analysis/src/core/filepath.c:26 | a buffer holding s and then NUL holds the C string s |
| FilePath.FindFrom | numerical_analysis/src/core/filepath.c:31 | the first occurrence at or after `from`, or None when there is none |
| FilePath.FindFirst | numerical_analysis/src/core/filepath.c:31 | the first occurrence of the needle, or None exactly when it does not occur |
| FilePath.NullCases | numerical_analysis/src/core/filepath.c:16-33 | a failed readlink or a path without "build" gives NULL |
| FilePath.Success | numerical_analysis/src/core/filepath.c:30-69 | with "build" first at b the result is path[..b] + prefix + filename exactly when it and its NUL fit in 4096 |
| FilePath.NullPrefixIsEmpty | numerical_analysis/src/core/filepath.c:45-66 | a NULL prefix gives the same result as an empty one |
| FilePath.CopyLink | numerical_analysis/src/core/filepath.c:16-26 | the buffer starts with the path and a NUL |
| FilePath.MatchesAt | numerical_analysis/src/core/filepath.c:31 | true exactly when the needle occurs at position i |
| FilePath.StrStr | numerical_analysis/src/core/filepath.c:31 | the first occurrence in the C string, or -1 |
| FilePath.StrCopy | numerical_analysis/src/core/filepath.c:58-69 | s and a NUL are written at `at`; nothing else changes |
| FilePath.AppendNames | numerical_analysis/src/core/filepath.c:58-69 | the C string becomes the kept path, then the prefix, then the file name |
| FilePath.GetFullFilepath | numerical_analysis/src/core/filepath.c:12-84 | NULL exactly when FullFilepath is None; otherwise a fresh 4096-character buffer whose C string is FullFilepath's value |
| FrameImport.Convert | numerical_analysis/src/structural/frameimport.c:30 | a %i or %f conversion of a number token gives its value; %s accepts any word |
| FrameImport.ScanValues | numerical_analysis/src/structural/frameimport.c:30 | each value is its conversion's reading of the next token, and the scan stops early only at the end or at a token its conversion refuses |
| FrameImport.Check | numerical_analysis/src/structural/frameimport.c:30-34 | fscanf returns EOF when the input ends before the first conversion, else the count of values assigned |
| FrameImport.ScanAccepts | numerical_analysis/src/structural/frameimport.c:30 | when every conversion accepts its token, all values are assigned |
| FrameImport.ScanFrom | numerical_analysis/src/structural/frameimport.c:30 | a scan reads only the tokens from p on |
| FrameImport.HeaderScans | numerical_analysis/src/structural/frameimport.c:30-34 | fscanf returns 2 exactly for a header that scans, and then assigns its word and count |
| FrameImport.ScanHeader | numerical_analysis/src/structural/frameimport.c:30-34 | the method returns what Check and Scan give for the header |
| FrameImport.NodeLineScans | numerical_analysis/src/structural/frameimport.c:55-64 | a node line is stored exactly when fscanf returns 4, with its index and three coordinates |
| FrameImport.NodeIndexIgnored | numerical_analysis/src/structural/frameimport.c:64 | the index read at the head of a node line does not change the node stored |
| FrameImport.ElementLineScans | numerical_analysis/src/structural/frameimport.c:83-92 | an element line is stored exactly when fscanf returns 5, with its five fields |
| FrameImport.KindWordsRoundTrip | numerical_analysis/src/structural/frameimport.c:120-147 | each of the five kinds other than BC_Default is named by one word, and each word names one kind |
| FrameImport.BcLineScans | numerical_analysis/src/structural/frameimport.c:111-147 | a line is stored exactly when fscanf returns 5 and its word names a kind |
| FrameImport.ScanNode | numerical_analysis/src/structural/frameimport.c:55-64 | returns fscanf's count, the next token and, for 4, the node built from the values |
| FrameImport.ScanElement | numerical_analysis/src/structural/frameimport.c:83-92 | returns fscanf's count and, for 5, the element built from the values |
| FrameImport.ScanBc | numerical_analysis/src/structural/frameimport.c:111-147 | returns fscanf's count and, for 5 and a known word, the condition |
| FrameImport.ReadNodes | numerical_analysis/src/structural/frameimport.c:47-65 | at most n nodes are stored |
| FrameImport.ReadNodesLines | numerical_analysis/src/structural/frameimport.c:47-65 | the nodes stored are the consecutive node lines from p in file order; fewer than n only when the next line does not scan |
| FrameImport.ReadNodesEnd | numerical_analysis/src/structural/frameimport.c:47-65 | reading resumes after the last stored line or after the failed scan |
| FrameImport.ReadNodesCount | numerical_analysis/src/structural/frameimport.c:47-65 | when i lines scan and the next does not, exactly i are stored |
| FrameImport.ReadElements | numerical_analysis/src/structural/frameimport.c:74-93 | at most n elements are stored |
| FrameImport.ReadElementsLines | numerical_analysis/src/structural/frameimport.c:74-93 | the elements stored are the consecutive element lines from p in file order |
| FrameImport.ReadElementsEnd | numerical_analysis/src/structural/frameimport.c:74-93 | reading resumes after the last stored line or after the failed scan |
| FrameImport.ReadElementsCount | numerical_analysis/src/structural/frameimport.c:74-93 | when i lines scan and the next does not, exactly i are stored |
| FrameImport.ReadBcs | numerical_analysis/src/structural/frameimport.c:102-158 | at most n conditions are stored |
| FrameImport.ReadBcsLines | numerical_analysis/src/structural/frameimport.c:102-158 | the conditions stored are the consecutive lines from p in file order |
| FrameImport.ReadBcsEnd | numerical_analysis/src/structural/frameimport.c:102-158 | reading resumes after the last stored line or after the failed scan |
| FrameImport.ReadBcsCount | numerical_analysis/src/structural/frameimport.c:102-158 | when i lines scan and the next does not, exactly i are stored |
| FrameImport.FillNodes | numerical_analysis/src/structural/frameimport.c:47-65 | the array's first entries become ReadNodes; the result is where reading resumes |
| FrameImport.FillElements | numerical_analysis/src/structural/frameimport.c:74-93 | the array's first entries become ReadElements |
| FrameImport.FillBcs | numerical_analysis/src/structural/frameimport.c:102-158 | the array's first entries become ReadBcs |
| FrameImport.ImportNodes | numerical_analysis/src/structural/frameimport.c:40-65 | the node count is set from the header and a fresh array holds the node lines read |
| FrameImport.ImportElements | numerical_analysis/src/structural/frameimport.c:66-94 | the element count is set and a fresh array holds the lines read |
| FrameImport.ImportBcs | numerical_analysis/src/structural/frameimport.c:95-159 | the condition count is set and a fresh array holds the lines read |
| FrameImport.Run | numerical_analysis/src/structural/frameimport.c:26-179 | reading stops at or after p; the status is 0 or -1, and 0 exactly when reading stopped at the end of the input |
| FrameImport.Import | numerical_analysis/src/structural/frameimport.c:9-180 | a file that cannot be opened gives -1 and reads nothing; otherwise the status is 0 exactly when reading stopped at the end of the file |
| FrameImport.EmptyFileSucceeds | numerical_analysis/src/structural/frameimport.c:26-179 | an empty file reads nothing and returns 0 |
| FrameImport.TruncatedSectionKeepsCount | numerical_analysis/src/structural/frameimport.c:43-59 | a file announcing 3 nodes with one node line keeps node_count 3 and stores one node |
| FrameImport.UnknownCommandFails | numerical_analysis/src/structural/frameimport.c:160-176 | an unknown command gives -1 |
| FrameImport.FrameImport | numerical_analysis/src/structural/frameimport.c:9-180 | the status is that of Import; each section read sets its count and a fresh array holding its lines |
| FrameImport.SampleNodes | numerical_analysis/src/structural/frameimport.c:196-204 | four fresh nodes at the sample positions |
| FrameImport.CreateSample | numerical_analysis/src/structural/frameimport.c:183-231 | four nodes, three elements from node 0 and four boundary conditions (force 700 at node 0, zero displacement at 1, 2, 3) |
| Grid.RatioInUnit | numerical_analysis/src/graphics/grid.h:19-33 | i / steps lies in [0, 1], with 0 and 1 at the ends |
| Grid.GridSpansSquare | numerical_analysis/src/graphics/grid.h:19-33 | every vertex lies in [-0.5, 0.5]^2 at z = 0 with colour (x + 0.5, y + 0.5, 0); the corners are at (-0.5, -0.5) and (0.5, 0.5) |
| Grid.VertexBufferIsGrid | numerical_analysis/src/graphics/grid.h:19-33 | position (x_steps + 1) j + i of the buffer holds the vertex of column i and row j |
| Grid.VerticesStep | numerical_analysis/src/graphics/grid.h:21-32 | storing vertex (i, j) extends the filled prefix by one |
| Grid.FillVertexRow | numerical_analysis/src/graphics/grid.h:21-32 | row j of the vertex buffer holds the grid vertices; earlier rows are unchanged |
| Grid.FillVertices | numerical_analysis/src/graphics/grid.h:19-33 | the vertex buffer holds GridVertices |
| Grid.CellTriangles | numerical_analysis/src/graphics/grid.h:49-63 | with the corrected stride x_steps + 1 (see Findings), cell (i, j) is the two triangles of its corners, and every index names a vertex of the buffer |
| Grid.CornersAsWrittenOverrun | numerical_analysis/src/graphics/grid.h:51-54 | as written, x_steps = 1, y_steps = 2 gives cell (0, 1) the vertex 6 of a 6-vertex buffer |
| Grid.CornersAsWrittenInRange | numerical_analysis/src/graphics/grid.h:51-54 | as written, with y_steps <= x_steps every corner of every cell names a vertex of the buffer |
| Grid.CornersAsWrittenSquare | numerical_analysis/src/graphics/grid.h:51-54 | the written stride equals the right one exactly when x_steps == y_steps |
| Grid.CellSlotsFit | numerical_analysis/src/graphics/grid.h:38-42 | the index buffer has 6 slots per cell |
| Grid.CellSlotsPartition | numerical_analysis/src/graphics/grid.h:45-49 | cells' slots are disjoint and cover the index buffer |
| Grid.SlotCell | numerical_analysis/src/graphics/grid.h:45-65 | in a full index buffer of any stride, slot k lies in the slots of cell (SlotColumn, SlotRow) and holds that cell's corner at the same offset |
| Grid.IndicesInRange | numerical_analysis/src/graphics/grid.h:45-65 | with the corrected stride x_steps + 1 (see Findings), every index in the buffer names a vertex |
| Grid.AsWrittenIndicesInRange | numerical_analysis/src/graphics/grid.h:45-65 | as written, every index in the buffer names a vertex when y_steps <= x_steps |
| Grid.AsWrittenIndicesOverrun | numerical_analysis/src/graphics/grid.h:45-65 | as written, x_steps = 1 and y_steps = 2 put vertex 7 in slot 10, past the 6-vertex buffer |
| Grid.CellsStep | numerical_analysis/src/graphics/grid.h:57-62 | for any row stride, writing one cell's corners after a preserved prefix extends the filled cells |
| Grid.StoreCell | numerical_analysis/src/graphics/grid.h:57-62 | the six slots at `at` become v1, v2, v3, v2, v4, v3; the prefix is unchanged |
| Grid.FillCellRow | numerical_analysis/src/graphics/grid.h:47-64 | row j of cells is written with the given row stride (x_steps + 1 corrected, y_steps + 1 as written, see Findings); earlier cells are unchanged |
| Grid.FillIndices | numerical_analysis/src/graphics/grid.h:45-65 | with the corrected stride x_steps + 1 (see Findings), the index buffer holds GridIndices and every index names a vertex |
| Grid.FillIndicesAsWritten | numerical_analysis/src/graphics/grid.h:45-65 | as written, with stride y_steps + 1, the index buffer holds GridIndicesAsWritten; when y_steps <= x_steps every index names a vertex |
| Grid.FillCells | numerical_analysis/src/graphics/grid.h:45-65 | for a row stride, every cell's six slots hold its two triangles at that stride |
| Grid.CreateGridMesh | numerical_analysis/src/graphics/grid.h:7-66 | the lengths are set; each failed allocation leaves its buffer null; when both succeed the buffers hold the grid's vertices and, with the corrected stride x_steps + 1 (see Findings), its triangles |

## Left out

- The OpenMP branch of `solve_jacobi` (`desired_threads > 1`) is left out. It is concurrent code. `LinearSolve.SolveJacobi` requires `desired_threads <= 1`.
- Floating point is modelled as `real`: no rounding, no NaN or infinity. The `!= 0.f` tests on diagonals and lengths become exact comparisons with 0.
- `vec3_length`, `vec3_distance` and `mat4_rotation` use `sqrtf`, `sinf` and `cosf`. Each is modelled in one of these ways:
  - Through the squared form: `Vectors.SquareDistance`.
  - As a parameter: the length of `Vectors.Normalize`, the rotation matrix of `Transforms.Transform`, the axial stiffness `k` of `Stiffness.Structural`.
- Vectors.DistanceProperties: states symmetry and non-negativity of the squared distance. It does not state that the distance is zero only for equal points.
- Integer widths are not modelled. `int` is unbounded, so index products such as `36 * node_count * node_count` never overflow.
- Console output, timing and the print helpers are left out: `printf`, `fprintf(stderr, ...)`, `omp_get_wtime`, `MPI_Wtime`, `matrix_print`, `mat4_print` and the progress printing of `mat6_break_quads`.
- The MPI runtime is not modelled. The rank and the process count, which `solve_jacobi_mpi` reads from globals, are parameters. The initialisation and communication code of `core/mpiutility.c` is left out.
- The path of the running executable is an input. `readlink` is the operating system's; a failed call is `None`.
- `fopen` is modelled by an input that is `None` when the file cannot be opened. The file's contents are a sequence of tokens.
- These `fscanf` details are not modelled:
  - partial consumption of a token that a conversion rejects;
  - the radix prefixes that `%i` accepts (a token records the value `%i` reads);
  - the 256-character limit of the `%s` buffer.
- A failed `malloc` appears only where the code checks for it. It is an input flag of `Grid.CreateGridMesh`. Elsewhere allocation is assumed to succeed.
- A negative section count reads no lines, as the source's loops do, and the count is stored as read. The source passes `malloc` the count converted to a huge `size_t`, for which `malloc` typically returns NULL; the model allocates an empty array instead.
- Grid.CreateGridMesh: requires at least one step in each direction. For a successful allocation, the source falls off the end of an `int` function without returning a value; the model returns `None` there.
- Grid.CreateGridMesh: fills the indices with the corrected stride x_steps + 1, through `Grid.FillIndices`. The fill as written is `Grid.FillIndicesAsWritten` (see Findings).
- Grid.CellTriangles: states the triangles for the corrected stride x_steps + 1, not for the y_steps + 1 of `graphics/grid.h` lines 51-54. The corners as written are `Grid.CornersAsWritten`.
- Grid.FillIndices: uses the corrected stride x_steps + 1, not the y_steps + 1 of `graphics/grid.h` lines 51-54. The fill as written is `Grid.FillIndicesAsWritten`.
- Grid.FillIndicesAsWritten: promises in-range indices only when y_steps <= x_steps. Taller grids name vertices past the buffer, as `Grid.AsWrittenIndicesOverrun` shows.
- LinSolveMpi.SolveJacobiMpi: uses the clamped chunk end. The chunk end as written is modelled by `LinSolveMpi.SolveJacobiMpiAsWritten` (see Findings).
- LinSolveMpi.SolveJacobiMpiAsWritten: requires the unclamped chunk end to lie within the rows. Past that point, line 45 makes the chunk sweep read `vector_b` and the rows of A beyond their ends, which is undefined in C.
- Matrices.MatrixMultiply: requires `result` to be distinct from `left` and `right`. The C pointers may alias, and an aliased call is not modelled.
- Matrices.Mat6Multiply: requires `result` to be distinct from `left` and `right`. An aliased call is not modelled.
- Matrices.Premultiply: requires `result` to be distinct from `matrix` and `vector`. An aliased call is not modelled.
- LinearSolve.SweepRows: requires `x` to be distinct from `A` and `b`. An aliased call is not modelled.
- LinearSolve.SolveJacobi: requires `x` to be distinct from `A` and `b`. An aliased call is not modelled.
- LinSolveMpi.SolveJacobiMpi: requires `x` to be distinct from `A` and `b`. An aliased call is not modelled.
- LinSolveMpi.SolveJacobiMpiAsWritten: requires `x` to be distinct from `A` and `b`. An aliased call is not modelled.
- LinSolveMpi.IterateChunk: requires `x` to be distinct from `A` and `b`. An aliased call is not modelled.
- FrameImport.CreateSample: models only the node positions, as the source sets them. The other node fields are left uninitialised by `malloc`, so their values are not stated.
- In the boundary-condition section, the source has two exits: a line that does not scan, and a word that names no kind. Both end the section in the same way, and the model merges them into one.
- `eqset_reorder` frees the old buffers and swaps in the new ones by pointer. The model returns fresh arrays and reassigns the equation set's fields. Deallocation is not modelled.
- The application, renderer, camera, input, model import and shader code under `graphics/` is not part of this model, and neither are `fluid.c`, `main.c` or `core/api.c`. Only `graphics/grid.h` is modelled.
- `frame_build_equations`, `solve_sor_single` and `frame_update_results` are not part of this model. Their bodies are not among the sources modelled here.

## Findings

| source | as written | input that shows it | evidently intended | confidence | as-written member | corrected member |
|---|---|---|---|---|---|---|
| numerical_analysis/src/structural/frameprocess.c:108-114 | inserting n1 into n2's row sets `degree` to the slot index n, where the n1 side (lines 91-94) uses n + 1; the colour scan reads only `degree` slots (line 154) | two elements (1, 2) and (0, 1) on three nodes: row 1 is [2, 0], degree 1; node 1 scans only neighbour 2 and takes colour 1, the colour of node 0 | degree counts the fullest row on both sides, so every neighbour is scanned and no element joins two nodes of one colour | not executed | Multicolor.AsWrittenColoringClash | Multicolor.ProperColoring |
| numerical_analysis/src/core/linsolvempi.c:44-45 | the chunk end is the larger of `rowstart + chunksize` and `rows` | rows = 8, procs = 2: process 0 sweeps rows 0..7 where its chunk is rows 0..3 (`LinSolveMpi.AsWrittenFirstProcessSweepsTwice`); rows = 7, procs = 2: process 1 sweeps rows 4..7, one past the last row (`LinSolveMpi.RowEndAsWrittenOverruns`) | the end clamped to `rows`, as the comment on line 43 says, so the chunks partition the rows | not executed | LinSolveMpi.SolveJacobiMpiAsWritten | LinSolveMpi.ChunksPartition |
| numerical_analysis/src/graphics/grid.h:51-54 | the vertex above v1 is taken `y_steps + 1` places on, but rows of the vertex buffer are `x_steps + 1` long | x_steps = 1, y_steps = 2: cell (0, 1) uses vertex 6 (and 7) of a 6-vertex buffer | stride `x_steps + 1`, so every cell is its two triangles and every index names a vertex | not executed | Grid.FillIndicesAsWritten | Grid.FillIndices |
