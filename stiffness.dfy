/**
 * Assembly of the global stiffness matrix (frame.c). The global matrix of a
 * frame with `nodeCount` nodes is square with 6 * nodeCount rows and columns
 * (three forces and three moments per node) and is stored row-major in a
 * flat buffer of 36 * nodeCount * nodeCount cells.
 */
module Stiffness {
  import opened Indexing

  /** Rows and columns of the global matrix. */
  function Width(nodeCount: int): int
  {
    6 * nodeCount
  }

  /** Global entry (row, col) lies in the 6 x 6 block of force rows of node2 and displacement columns of node1. */
  predicate InBlock(row: int, col: int, node1: int, node2: int)
  {
    6 * node2 <= row < 6 * node2 + 6 && 6 * node1 <= col < 6 * node1 + 6
  }

  /**
   * `add_local_stiffness` as a value: the 6 x 6 block kLocal added into the
   * global matrix g at global row 6 * node2 + j, column 6 * node1 + i.
   */
  function Scatter(g: seq<real>, kLocal: seq<real>, node1: int, node2: int, nodeCount: int): (s: seq<real>)
    requires 0 <= node1 < nodeCount && 0 <= node2 < nodeCount && 36 <= |kLocal|
    ensures |s| == |g|
  {
    var w := Width(nodeCount);
    seq(|g|, idx requires 0 <= idx < |g| =>
      var row, col := idx / w, idx % w;
      if InBlock(row, col, node1, node2) then g[idx] + kLocal[(col - 6 * node1) + (row - 6 * node2) * 6]
      else g[idx])
  }

  /** The cells of a nodeCount-node global matrix are exactly the flat positions of its entries. */
  lemma GlobalCells(nodeCount: int)
    requires 0 < nodeCount
    ensures Width(nodeCount) * Width(nodeCount) == 36 * nodeCount * nodeCount
    ensures forall r, c | 0 <= r < Width(nodeCount) && 0 <= c < Width(nodeCount) ::
      0 <= Flat(r, c, Width(nodeCount)) < 36 * nodeCount * nodeCount
  {
    FlatBoundAll(Width(nodeCount), Width(nodeCount));
  }

  /** Each entry of a scattered matrix: inside the block it gains the local entry, elsewhere it keeps its value. */
  lemma ScatterAt(g: seq<real>, kLocal: seq<real>, node1: int, node2: int, nodeCount: int, row: int, col: int)
    requires 0 <= node1 < nodeCount && 0 <= node2 < nodeCount && 36 <= |kLocal|
    requires |g| == 36 * nodeCount * nodeCount
    requires 0 <= row < Width(nodeCount) && 0 <= col < Width(nodeCount)
    ensures 0 <= Flat(row, col, Width(nodeCount)) < |g|
    ensures Scatter(g, kLocal, node1, node2, nodeCount)[Flat(row, col, Width(nodeCount))] ==
      if InBlock(row, col, node1, node2)
      then g[Flat(row, col, Width(nodeCount))] + kLocal[Flat(row - 6 * node2, col - 6 * node1, 6)]
      else g[Flat(row, col, Width(nodeCount))]
  {
    GlobalCells(nodeCount);
    FlatDivMod(row, col, Width(nodeCount));
  }

  /** Two scatters equal when they agree on every entry. */
  lemma GlobalEqual(a: seq<real>, b: seq<real>, nodeCount: int)
    requires 0 < nodeCount && |a| == |b| == 36 * nodeCount * nodeCount
    requires forall r, c | 0 <= r < Width(nodeCount) && 0 <= c < Width(nodeCount) ::
      0 <= Flat(r, c, Width(nodeCount)) < |a| && a[Flat(r, c, Width(nodeCount))] == b[Flat(r, c, Width(nodeCount))]
    ensures a == b
  {
    GlobalCells(nodeCount);
    forall idx | 0 <= idx < |a|
      ensures a[idx] == b[idx]
    {
      FlatSplit(idx, Width(nodeCount), Width(nodeCount));
    }
  }

  /** Entrywise sum of two 6 x 6 blocks. */
  function BlockSum(a: seq<real>, b: seq<real>): (s: seq<real>)
    requires 36 <= |a| && 36 <= |b|
    ensures |s| == 36
  {
    seq(36, k requires 0 <= k < 36 => a[k] + b[k])
  }

  /** Contributions accumulate: scattering two blocks into the same place adds their sum. */
  lemma ScatterAccumulates(g: seq<real>, a: seq<real>, b: seq<real>, node1: int, node2: int, nodeCount: int)
    requires 0 <= node1 < nodeCount && 0 <= node2 < nodeCount && 36 <= |a| && 36 <= |b|
    requires |g| == 36 * nodeCount * nodeCount
    ensures Scatter(Scatter(g, a, node1, node2, nodeCount), b, node1, node2, nodeCount)
         == Scatter(g, BlockSum(a, b), node1, node2, nodeCount)
  {
    var once := Scatter(g, a, node1, node2, nodeCount);
    var twice := Scatter(once, b, node1, node2, nodeCount);
    var summed := Scatter(g, BlockSum(a, b), node1, node2, nodeCount);
    GlobalCells(nodeCount);
    forall r, c | 0 <= r < Width(nodeCount) && 0 <= c < Width(nodeCount)
      ensures twice[Flat(r, c, Width(nodeCount))] == summed[Flat(r, c, Width(nodeCount))]
    {
      ScatterAt(g, a, node1, node2, nodeCount, r, c);
      ScatterAt(once, b, node1, node2, nodeCount, r, c);
      ScatterAt(g, BlockSum(a, b), node1, node2, nodeCount, r, c);
      if InBlock(r, c, node1, node2) {
        FlatBound(r - 6 * node2, c - 6 * node1, 6, 6);
      }
    }
    GlobalEqual(twice, summed, nodeCount);
  }

  /** The order in which blocks are assembled does not matter. */
  lemma ScatterCommutes(g: seq<real>, a: seq<real>, b: seq<real>, p1: int, p2: int, q1: int, q2: int, nodeCount: int)
    requires 0 <= p1 < nodeCount && 0 <= p2 < nodeCount && 0 <= q1 < nodeCount && 0 <= q2 < nodeCount
    requires 36 <= |a| && 36 <= |b| && |g| == 36 * nodeCount * nodeCount
    ensures Scatter(Scatter(g, a, p1, p2, nodeCount), b, q1, q2, nodeCount)
         == Scatter(Scatter(g, b, q1, q2, nodeCount), a, p1, p2, nodeCount)
  {
    var ab := Scatter(Scatter(g, a, p1, p2, nodeCount), b, q1, q2, nodeCount);
    var ba := Scatter(Scatter(g, b, q1, q2, nodeCount), a, p1, p2, nodeCount);
    GlobalCells(nodeCount);
    forall r, c | 0 <= r < Width(nodeCount) && 0 <= c < Width(nodeCount)
      ensures ab[Flat(r, c, Width(nodeCount))] == ba[Flat(r, c, Width(nodeCount))]
    {
      ScatterAt(g, a, p1, p2, nodeCount, r, c);
      ScatterAt(Scatter(g, a, p1, p2, nodeCount), b, q1, q2, nodeCount, r, c);
      ScatterAt(g, b, q1, q2, nodeCount, r, c);
      ScatterAt(Scatter(g, b, q1, q2, nodeCount), a, p1, p2, nodeCount, r, c);
    }
    GlobalEqual(ab, ba, nodeCount);
  }

  /** The source's cell arithmetic lands on global entry (6 * node2 + j, 6 * node1 + i). */
  lemma GlobalIndex(i: int, j: int, node1: int, node2: int, nodeCount: int)
    ensures i + (6 * node1 + 36 * (node2 * nodeCount)) + j * 6 * nodeCount
         == Flat(6 * node2 + j, 6 * node1 + i, Width(nodeCount))
  {
    calc {
      Flat(6 * node2 + j, 6 * node1 + i, Width(nodeCount));
      6 * node1 + i + (6 * node2 + j) * (6 * nodeCount);
      { assert (6 * node2 + j) * (6 * nodeCount) == 36 * (node2 * nodeCount) + j * 6 * nodeCount; }
      i + (6 * node1 + 36 * (node2 * nodeCount)) + j * 6 * nodeCount;
    }
  }

  /**
   * `add_local_stiffness`: adds the 6 x 6 block kLocal into kGlobal, local
   * entry (j, i) into global row 6 * node2 + j and column 6 * node1 + i.
   */
  method AddLocalStiffness(kGlobal: array<real>, kLocal: seq<real>, node1: int, node2: int, nodeCount: int)
    requires 0 <= node1 < nodeCount && 0 <= node2 < nodeCount && 36 <= |kLocal|
    requires kGlobal.Length == 36 * nodeCount * nodeCount
    modifies kGlobal
    ensures kGlobal[..] == Scatter(old(kGlobal[..]), kLocal, node1, node2, nodeCount)
  {
    ghost var g0 := kGlobal[..];
    ghost var w := Width(nodeCount);
    GlobalCells(nodeCount);
    var offset := 6 * node1 + 36 * (node2 * nodeCount);
    for j := 0 to 6
      invariant forall r, c | 0 <= r < w && 0 <= c < w ::
        kGlobal[Flat(r, c, w)] ==
          if InBlock(r, c, node1, node2) && r < 6 * node2 + j
          then g0[Flat(r, c, w)] + kLocal[Flat(r - 6 * node2, c - 6 * node1, 6)]
          else g0[Flat(r, c, w)]
    {
      for i := 0 to 6
        invariant forall r, c | 0 <= r < w && 0 <= c < w ::
          kGlobal[Flat(r, c, w)] ==
            if InBlock(r, c, node1, node2) && (r < 6 * node2 + j || (r == 6 * node2 + j && c < 6 * node1 + i))
            then g0[Flat(r, c, w)] + kLocal[Flat(r - 6 * node2, c - 6 * node1, 6)]
            else g0[Flat(r, c, w)]
      {
        var localIdx := i + j * 6;
        var globalIdx := i + offset + j * 6 * nodeCount;
        GlobalIndex(i, j, node1, node2, nodeCount);
        FlatDistinct(w, 6 * node2 + j, 6 * node1 + i);
        kGlobal[globalIdx] := kGlobal[globalIdx] + kLocal[localIdx];
      }
    }
    forall r, c | 0 <= r < w && 0 <= c < w
      ensures kGlobal[Flat(r, c, w)] == Scatter(g0, kLocal, node1, node2, nodeCount)[Flat(r, c, w)]
    {
      ScatterAt(g0, kLocal, node1, node2, nodeCount, r, c);
    }
    GlobalEqual(kGlobal[..], Scatter(g0, kLocal, node1, node2, nodeCount), nodeCount);
  }

  /** A 6 x 6 axial block: v at local entry (0, 0), zero elsewhere. */
  function AxialBlock(v: real): (block: seq<real>)
    ensures |block| == 36
  {
    seq(36, k requires 0 <= k < 36 => if k == 0 then v else 0.0)
  }

  /** The assembled matrix of one axial element of stiffness k joining node 0 and node 1. */
  function AxialEntry(k: real, row: int, col: int): real
  {
    if (row == 0 && col == 0) || (row == 6 && col == 6) then k
    else if (row == 0 && col == 6) || (row == 6 && col == 0) then -k
    else 0.0
  }

  /**
   * The assembly of `structural`: two nodes, one element from node 0 to
   * node 1 with axial stiffness k. The global matrix is zero-filled, then the
   * four blocks k11, k12, k21, k22 are scattered into it.
   */
  method Structural(k: real) returns (kGlobal: array<real>)
    ensures fresh(kGlobal) && kGlobal.Length == 144
    ensures forall r, c | 0 <= r < 12 && 0 <= c < 12 :: kGlobal[Flat(r, c, 12)] == AxialEntry(k, r, c)
    ensures forall r, c | 0 <= r < 12 && 0 <= c < 12 :: kGlobal[Flat(r, c, 12)] == kGlobal[Flat(c, r, 12)]
  {
    var nodeCount := 2;
    var node1, node2 := 0, 1;
    kGlobal := new real[36 * nodeCount * nodeCount];
    for i := 0 to 36 * nodeCount * nodeCount
      invariant forall i' | 0 <= i' < i :: kGlobal[i'] == 0.0
    {
      kGlobal[i] := 0.0;
    }
    ghost var zero := kGlobal[..];
    var k11, k12, k21, k22 := AxialBlock(k), AxialBlock(-k), AxialBlock(-k), AxialBlock(k);
    AddLocalStiffness(kGlobal, k11, node1, node1, nodeCount);
    ghost var g1 := kGlobal[..];
    AddLocalStiffness(kGlobal, k12, node1, node2, nodeCount);
    ghost var g2 := kGlobal[..];
    AddLocalStiffness(kGlobal, k21, node2, node1, nodeCount);
    ghost var g3 := kGlobal[..];
    AddLocalStiffness(kGlobal, k22, node2, node2, nodeCount);
    forall r, c | 0 <= r < 12 && 0 <= c < 12
      ensures kGlobal[Flat(r, c, 12)] == AxialEntry(k, r, c)
    {
      ScatterAt(zero, k11, node1, node1, nodeCount, r, c);
      ScatterAt(g1, k12, node1, node2, nodeCount, r, c);
      ScatterAt(g2, k21, node2, node1, nodeCount, r, c);
      ScatterAt(g3, k22, node2, node2, nodeCount, r, c);
    }
  }
}
