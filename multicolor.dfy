/**
 * Node colouring of frameprocess.c (`frame_assign_multicolor`). A fixed-width
 * adjacency table is built from the element endpoints (8 slots per node,
 * -1 meaning empty) while a running `degree` is kept; each node then gets
 * the lowest colour in 1..degree+1 not held by the neighbours listed in the
 * first `degree` slots of its row.
 */
module Multicolor {
  import opened Frames

  /** Marks an empty slot of the adjacency table. */
  const Empty: int := -1

  /** Cell of slot p of node's row; every row has max_neighbors = 8 slots. */
  function Slot(node: int, p: int): int
  {
    p + node * 8
  }

  /** node's row lies inside the table. */
  predicate InTable(table: seq<int>, node: int)
  {
    0 <= node && node * 8 + 8 <= |table|
  }

  /** Every endpoint of every element names one of the nodeCount nodes. */
  predicate EndpointsIn(elements: seq<Element>, nodeCount: int)
  {
    forall e | 0 <= e < |elements| :: 0 <= elements[e].node1 < nodeCount && 0 <= elements[e].node2 < nodeCount
  }

  /** First slot at or after p of node's row that holds v or is empty; 8 when there is none. */
  function Scan(table: seq<int>, node: int, v: int, p: int): (q: int)
    requires InTable(table, node) && 0 <= p <= 8
    ensures p <= q <= 8
    ensures q < 8 ==> table[Slot(node, q)] == v || table[Slot(node, q)] == Empty
    ensures forall n | p <= n < q :: table[Slot(node, n)] != v && table[Slot(node, n)] != Empty
    decreases 8 - p
  {
    if p == 8 then 8
    else if table[Slot(node, p)] == v || table[Slot(node, p)] == Empty then p
    else Scan(table, node, v, p + 1)
  }

  /** A scan from slot 0 passes the slots before n and stops at n, or runs off the row when n is 8. */
  lemma ScanStopsAt(table: seq<int>, node: int, v: int, n: int)
    requires InTable(table, node) && 0 <= n <= 8
    requires forall m | 0 <= m < n :: table[Slot(node, m)] != v && table[Slot(node, m)] != Empty
    requires n < 8 ==> table[Slot(node, n)] == v || table[Slot(node, n)] == Empty
    ensures Scan(table, node, v, 0) == n
  {
  }

  /** The adjacency table, the running degree and whether a full row was reported. */
  datatype Adjacency = Adjacency(table: seq<int>, degree: int, overflow: bool)

  /**
   * Lines 77-105: add n2 to n1's row unless it is already there. A row with no
   * room is reported and left as it is. An insertion at slot p raises the
   * degree to p + 1.
   */
  function AddForward(a: Adjacency, n1: int, n2: int): Adjacency
    requires InTable(a.table, n1)
  {
    var p := Scan(a.table, n1, n2, 0);
    if p == 8 then a.(overflow := true)
    else if a.table[Slot(n1, p)] == n2 then a
    else Adjacency(a.table[Slot(n1, p) := n2], if p >= a.degree then p + 1 else a.degree, a.overflow)
  }

  /**
   * Lines 108-135 as written: the same insertion of n1 into n2's row, but the
   * degree is raised to every slot index the scan visits (p, or 7 when the
   * row is full) rather than to p + 1 at an insertion.
   */
  function AddBackwardAsWritten(a: Adjacency, n2: int, n1: int): Adjacency
    requires InTable(a.table, n2)
  {
    var p := Scan(a.table, n2, n1, 0);
    var visited := if p == 8 then 7 else p;
    var degree := if visited > a.degree then visited else a.degree;
    if p == 8 then Adjacency(a.table, degree, true)
    else if a.table[Slot(n2, p)] == n1 then a.(degree := degree)
    else Adjacency(a.table[Slot(n2, p) := n1], degree, a.overflow)
  }

  /** Lines 61-64: every slot empty. */
  function InitialTable(nodeCount: nat): (table: seq<int>)
    ensures |table| == nodeCount * 8
    ensures forall i | 0 <= i < |table| :: table[i] == Empty
  {
    seq(nodeCount * 8, _ => Empty)
  }

  /** Lines 71-136 as written: the adjacency after the given elements, in order. */
  function BuildAsWritten(elements: seq<Element>, nodeCount: nat): (a: Adjacency)
    requires EndpointsIn(elements, nodeCount)
    ensures |a.table| == nodeCount * 8
  {
    if |elements| == 0 then Adjacency(InitialTable(nodeCount), 0, false)
    else
      var e := elements[|elements| - 1];
      var a := BuildAsWritten(elements[..|elements| - 1], nodeCount);
      AddBackwardAsWritten(AddForward(a, e.node1, e.node2), e.node2, e.node1)
  }

  /** The adjacency with both insertions counting degree as lines 91-94 do. */
  function Build(elements: seq<Element>, nodeCount: nat): (a: Adjacency)
    requires EndpointsIn(elements, nodeCount)
    ensures |a.table| == nodeCount * 8
  {
    if |elements| == 0 then Adjacency(InitialTable(nodeCount), 0, false)
    else
      var e := elements[|elements| - 1];
      var a := Build(elements[..|elements| - 1], nodeCount);
      AddForward(AddForward(a, e.node1, e.node2), e.node2, e.node1)
  }

  // ---------------------------------------------------------------------------
  // Shape of the adjacency table

  /** Every slot is empty or names one of the nodeCount nodes. */
  predicate EntriesValid(table: seq<int>, nodeCount: int)
  {
    forall i | 0 <= i < |table| :: table[i] == Empty || 0 <= table[i] < nodeCount
  }

  /** Every row is a packed prefix of entries followed only by empty slots. */
  predicate Packed(table: seq<int>, nodeCount: int)
    requires |table| == nodeCount * 8
  {
    forall node, p, q | 0 <= node < nodeCount && 0 <= p < q < 8 ::
      table[Slot(node, q)] != Empty ==> table[Slot(node, p)] != Empty
  }

  /** No row names the same neighbour twice. */
  predicate Distinct(table: seq<int>, nodeCount: int)
    requires |table| == nodeCount * 8
  {
    forall node, p, q | 0 <= node < nodeCount && 0 <= p < q < 8 ::
      table[Slot(node, p)] != Empty ==> table[Slot(node, p)] != table[Slot(node, q)]
  }

  /** Slots at or beyond `degree` are empty in every row. */
  predicate WithinDegree(table: seq<int>, nodeCount: int, degree: int)
    requires |table| == nodeCount * 8
  {
    forall node, p | 0 <= node < nodeCount && 0 <= p < 8 && degree <= p :: table[Slot(node, p)] == Empty
  }

  /** v is listed in u's row. */
  predicate Lists(table: seq<int>, u: int, v: int)
    requires InTable(table, u)
  {
    exists p | 0 <= p < 8 :: table[Slot(u, p)] == v
  }

  /** The table is well formed: valid, packed, distinct rows and 0 <= degree <= 8. */
  predicate WellFormed(a: Adjacency, nodeCount: int)
  {
    |a.table| == nodeCount * 8 && 0 <= a.degree <= 8 &&
    EntriesValid(a.table, nodeCount) && Packed(a.table, nodeCount) && Distinct(a.table, nodeCount)
  }

  /** Entries once written are never changed: rows only grow. */
  predicate Grows(before: seq<int>, after: seq<int>)
  {
    |before| == |after| && forall i | 0 <= i < |before| :: before[i] != Empty ==> after[i] == before[i]
  }

  /** In a packed row, the scan for a listed v stops at v's slot, never later. */
  lemma {:induction false} ScanFindsListed(table: seq<int>, nodeCount: int, node: int, v: int, p: int, q: int)
    requires |table| == nodeCount * 8 && 0 <= node < nodeCount && Packed(table, nodeCount)
    requires 0 <= p <= q < 8 && table[Slot(node, q)] == v && v != Empty
    ensures Scan(table, node, v, p) <= q && table[Slot(node, Scan(table, node, v, p))] == v
    decreases q - p
  {
    if table[Slot(node, p)] != v {
      assert p < q;
      assert table[Slot(node, p)] != Empty;
      ScanFindsListed(table, nodeCount, node, v, p + 1, q);
    }
  }

  /** Inserting at the first free slot keeps a well-formed table well formed and lists v in u's row. */
  lemma AddForwardKeepsShape(a: Adjacency, nodeCount: int, u: int, v: int)
    requires WellFormed(a, nodeCount) && 0 <= u < nodeCount && 0 <= v < nodeCount
    ensures WellFormed(AddForward(a, u, v), nodeCount)
    ensures Grows(a.table, AddForward(a, u, v).table)
    ensures Lists(a.table, u, v) ==> AddForward(a, u, v) == a
    ensures AddForward(a, u, v).overflow ==> a.overflow || forall p | 0 <= p < 8 :: a.table[Slot(u, p)] != Empty
    ensures !AddForward(a, u, v).overflow ==> Lists(AddForward(a, u, v).table, u, v)
    ensures a.degree <= AddForward(a, u, v).degree
    ensures WithinDegree(a.table, nodeCount, a.degree) ==> WithinDegree(AddForward(a, u, v).table, nodeCount, AddForward(a, u, v).degree)
  {
    var p := Scan(a.table, u, v, 0);
    if Lists(a.table, u, v) {
      var q :| 0 <= q < 8 && a.table[Slot(u, q)] == v;
      ScanFindsListed(a.table, nodeCount, u, v, 0, q);
    }
    if p < 8 && a.table[Slot(u, p)] != v {
      var t := a.table[Slot(u, p) := v];
      assert t[Slot(u, p)] == v;
      forall node, i | 0 <= node < nodeCount && 0 <= i < 8
        ensures (node == u && i == p) <==> Slot(node, i) == Slot(u, p)
      {
      }
    }
  }

  /** A listed neighbour stays listed as the table grows. */
  lemma ListsPersist(before: seq<int>, after: seq<int>, u: int, v: int)
    requires InTable(before, u) && Grows(before, after) && v != Empty && Lists(before, u, v)
    ensures InTable(after, u) && Lists(after, u, v)
  {
    var p :| 0 <= p < 8 && before[Slot(u, p)] == v;
    assert after[Slot(u, p)] == v;
  }

  /**
   * With both insertions counting degree as lines 91-94 do, the table stays
   * well formed, no slot at or beyond `degree` is used, and unless a full row
   * was reported, each element's endpoints list each other.
   */
  lemma {:induction false} BuildShape(elements: seq<Element>, nodeCount: nat)
    requires EndpointsIn(elements, nodeCount)
    ensures WellFormed(Build(elements, nodeCount), nodeCount)
    ensures WithinDegree(Build(elements, nodeCount).table, nodeCount, Build(elements, nodeCount).degree)
    ensures !Build(elements, nodeCount).overflow ==>
      forall e | 0 <= e < |elements| ::
        Lists(Build(elements, nodeCount).table, elements[e].node1, elements[e].node2) &&
        Lists(Build(elements, nodeCount).table, elements[e].node2, elements[e].node1)
  {
    if |elements| > 0 {
      var e := elements[|elements| - 1];
      var prefix := elements[..|elements| - 1];
      var a := Build(prefix, nodeCount);
      BuildShape(prefix, nodeCount);
      var a1 := AddForward(a, e.node1, e.node2);
      AddForwardKeepsShape(a, nodeCount, e.node1, e.node2);
      var a2 := AddForward(a1, e.node2, e.node1);
      AddForwardKeepsShape(a1, nodeCount, e.node2, e.node1);
      assert a2 == Build(elements, nodeCount);
      if !a2.overflow {
        assert !a1.overflow && !a.overflow;
        forall i | 0 <= i < |elements|
          ensures Lists(a2.table, elements[i].node1, elements[i].node2)
          ensures Lists(a2.table, elements[i].node2, elements[i].node1)
        {
          var x, y := elements[i].node1, elements[i].node2;
          if i < |elements| - 1 {
            assert prefix[i] == elements[i];
            ListsPersist(a.table, a1.table, x, y);
            ListsPersist(a1.table, a2.table, x, y);
            ListsPersist(a.table, a1.table, y, x);
            ListsPersist(a1.table, a2.table, y, x);
          } else {
            ListsPersist(a1.table, a2.table, x, y);
          }
        }
      }
    }
  }

  /** The table and the overflow report do not depend on the degree. */
  lemma AddIgnoresDegree(a: Adjacency, b: Adjacency, u: int, v: int)
    requires a.table == b.table && a.overflow == b.overflow && InTable(a.table, u)
    ensures AddForward(a, u, v).table == AddForward(b, u, v).table
    ensures AddForward(a, u, v).overflow == AddForward(b, u, v).overflow
    ensures AddBackwardAsWritten(a, u, v).table == AddForward(b, u, v).table
    ensures AddBackwardAsWritten(a, u, v).overflow == AddForward(b, u, v).overflow
  {
  }

  /** The code as written builds the same table and overflow report; only the degree differs. */
  lemma {:induction false} BuildAsWrittenSameTable(elements: seq<Element>, nodeCount: nat)
    requires EndpointsIn(elements, nodeCount)
    ensures BuildAsWritten(elements, nodeCount).table == Build(elements, nodeCount).table
    ensures BuildAsWritten(elements, nodeCount).overflow == Build(elements, nodeCount).overflow
  {
    if |elements| > 0 {
      var e := elements[|elements| - 1];
      var prefix := elements[..|elements| - 1];
      BuildAsWrittenSameTable(prefix, nodeCount);
      var a, b := BuildAsWritten(prefix, nodeCount), Build(prefix, nodeCount);
      AddIgnoresDegree(a, b, e.node1, e.node2);
      AddIgnoresDegree(AddForward(a, e.node1, e.node2), AddForward(b, e.node1, e.node2), e.node2, e.node1);
    }
  }

  // ---------------------------------------------------------------------------
  // Greedy colouring, lines 142-178

  /** No neighbour listed in the first `degree` slots of node's row currently has colour `color`. */
  predicate Available(table: seq<int>, colors: seq<int>, node: int, degree: int, color: int)
    requires InTable(table, node) && 0 <= degree <= 8 && EntriesValid(table, |colors|)
  {
    forall n | 0 <= n < degree :: table[Slot(node, n)] == Empty || colors[table[Slot(node, n)]] != color
  }

  /** Lines 151-171: the first colour from `color` to degree + 1 that is available, or 0 when there is none. */
  function FirstAvailable(table: seq<int>, colors: seq<int>, node: int, degree: int, color: int): (c: int)
    requires InTable(table, node) && 0 <= degree <= 8 && EntriesValid(table, |colors|)
    requires 1 <= color <= degree + 2
    ensures c == 0 || (color <= c <= degree + 1 && Available(table, colors, node, degree, c))
    ensures forall c' | color <= c' <= degree + 1 && (c == 0 || c' < c) :: !Available(table, colors, node, degree, c')
    decreases degree + 2 - color
  {
    if color > degree + 1 then 0
    else if Available(table, colors, node, degree, color) then color
    else FirstAvailable(table, colors, node, degree, color + 1)
  }

  /**
   * Lines 146-178: the colours after nodes 0..k-1 have been coloured in
   * order, starting from all colours reset to 0 (lines 66-69). A node for
   * which no colour is available keeps 0.
   */
  function Coloring(table: seq<int>, degree: int, nodeCount: nat, k: nat): (colors: seq<int>)
    requires |table| == nodeCount * 8 && EntriesValid(table, nodeCount) && 0 <= degree <= 8 && k <= nodeCount
    ensures |colors| == nodeCount
    ensures forall i | k <= i < nodeCount :: colors[i] == 0
    ensures forall i | 0 <= i < nodeCount :: 0 <= colors[i] <= degree + 1
  {
    if k == 0 then seq(nodeCount, _ => 0)
    else
      var cs := Coloring(table, degree, nodeCount, k - 1);
      cs[k - 1 := FirstAvailable(table, cs, k - 1, degree, 1)]
  }

  /** A node's colour is settled once its turn has passed. */
  lemma {:induction false} ColoringSettles(table: seq<int>, degree: int, nodeCount: nat, i: nat, k: nat)
    requires |table| == nodeCount * 8 && EntriesValid(table, nodeCount) && 0 <= degree <= 8
    requires i < k <= nodeCount
    ensures Coloring(table, degree, nodeCount, k)[i] == Coloring(table, degree, nodeCount, i + 1)[i]
    decreases k
  {
    if k > i + 1 {
      ColoringSettles(table, degree, nodeCount, i, k - 1);
    }
  }

  /** The colours a node's first `degree` slots exclude. */
  function Excluded(table: seq<int>, colors: seq<int>, node: int, n: int): (x: set<int>)
    requires InTable(table, node) && 0 <= n <= 8 && EntriesValid(table, |colors|)
    ensures |x| <= n
    ensures forall m | 0 <= m < n && table[Slot(node, m)] != Empty :: colors[table[Slot(node, m)]] in x
  {
    if n == 0 then {}
    else
      var rest := Excluded(table, colors, node, n - 1);
      var slot := table[Slot(node, n - 1)];
      if slot == Empty then rest else rest + {colors[slot]}
  }

  /** The colours 1..m. */
  function Palette(m: nat): (p: set<int>)
    ensures |p| == m
    ensures forall c :: c in p <==> 1 <= c <= m
  {
    if m == 0 then {} else Palette(m - 1) + {m}
  }

  /** A subset is no larger than its superset. */
  lemma SubsetNoLarger(a: set<int>, b: set<int>)
    requires a <= b
    ensures |a| <= |b|
  {
    assert b == a + (b - a);
    assert a * (b - a) == {};
  }

  /** Pigeonhole: degree slots cannot exclude all of the degree + 1 colours, so one is always found. */
  lemma ColorAlwaysFound(table: seq<int>, colors: seq<int>, node: int, degree: int)
    requires InTable(table, node) && 0 <= degree <= 8 && EntriesValid(table, |colors|)
    ensures FirstAvailable(table, colors, node, degree, 1) != 0
  {
    if FirstAvailable(table, colors, node, degree, 1) == 0 {
      var x := Excluded(table, colors, node, degree);
      forall c | c in Palette(degree + 1)
        ensures c in x
      {
        assert !Available(table, colors, node, degree, c);
        var n :| 0 <= n < degree && table[Slot(node, n)] != Empty && colors[table[Slot(node, n)]] == c;
      }
      SubsetNoLarger(Palette(degree + 1), x);
      assert false;
    }
  }

  /** The colours `frame_assign_multicolor` assigns, as written. */
  function MulticolorsAsWritten(elements: seq<Element>, nodeCount: nat): (colors: seq<int>)
    requires EndpointsIn(elements, nodeCount)
    ensures |colors| == nodeCount
  {
    var a := BuildAsWritten(elements, nodeCount);
    BuildShape(elements, nodeCount);
    BuildAsWrittenSameTable(elements, nodeCount);
    BuildAsWrittenDegree(elements, nodeCount);
    Coloring(a.table, a.degree, nodeCount, nodeCount)
  }

  /** The colours with the degree counted as lines 91-94 do on both sides. */
  function Multicolors(elements: seq<Element>, nodeCount: nat): (colors: seq<int>)
    requires EndpointsIn(elements, nodeCount)
    ensures |colors| == nodeCount
  {
    var a := Build(elements, nodeCount);
    BuildShape(elements, nodeCount);
    Coloring(a.table, a.degree, nodeCount, nodeCount)
  }

  /** The degree as written stays within 0..8, so the colouring scan stays inside each row. */
  lemma {:induction false} BuildAsWrittenDegree(elements: seq<Element>, nodeCount: nat)
    requires EndpointsIn(elements, nodeCount)
    ensures 0 <= BuildAsWritten(elements, nodeCount).degree <= 8
  {
    if |elements| > 0 {
      BuildAsWrittenDegree(elements[..|elements| - 1], nodeCount);
    }
  }

  /** Every node receives a colour in 1..degree + 1. */
  lemma ColoringComplete(table: seq<int>, degree: int, nodeCount: nat, i: nat)
    requires |table| == nodeCount * 8 && EntriesValid(table, nodeCount) && 0 <= degree <= 8 && i < nodeCount
    ensures 1 <= Coloring(table, degree, nodeCount, nodeCount)[i] <= degree + 1
  {
    ColoringSettles(table, degree, nodeCount, i, nodeCount);
    ColorAlwaysFound(table, Coloring(table, degree, nodeCount, i), i, degree);
  }

  /** A node listed within the first `degree` slots of a later node's row ends with a different colour. */
  lemma ColoringSeparates(table: seq<int>, degree: int, nodeCount: nat, lo: nat, hi: nat, p: int)
    requires |table| == nodeCount * 8 && EntriesValid(table, nodeCount) && 0 <= degree <= 8
    requires lo < hi < nodeCount && 0 <= p < degree && table[Slot(hi, p)] == lo
    ensures Coloring(table, degree, nodeCount, nodeCount)[lo] != Coloring(table, degree, nodeCount, nodeCount)[hi]
  {
    var cs := Coloring(table, degree, nodeCount, hi);
    var c := FirstAvailable(table, cs, hi, degree, 1);
    ColorAlwaysFound(table, cs, hi, degree);
    assert cs[lo] != c;
    ColoringSettles(table, degree, nodeCount, lo, hi);
    ColoringSettles(table, degree, nodeCount, lo, nodeCount);
    ColoringSettles(table, degree, nodeCount, hi, nodeCount);
  }

  /**
   * Every node holds a colour in 1..degree + 1, and no element joins two
   * distinct nodes of the same colour.
   */
  predicate ProperlyColored(colors: seq<int>, elements: seq<Element>, degree: int)
    requires EndpointsIn(elements, |colors|)
  {
    && (forall i | 0 <= i < |colors| :: 1 <= colors[i] <= degree + 1)
    && (forall e | 0 <= e < |elements| && elements[e].node1 != elements[e].node2 ::
          colors[elements[e].node1] != colors[elements[e].node2])
  }

  /**
   * The intended invariant, for the degree counted as lines 91-94 do on both
   * sides: unless a full row was reported, every node gets a colour in
   * 1..degree + 1 and no element joins two nodes of the same colour.
   */
  lemma ProperColoring(elements: seq<Element>, nodeCount: nat)
    requires EndpointsIn(elements, nodeCount) && !Build(elements, nodeCount).overflow
    ensures ProperlyColored(Multicolors(elements, nodeCount), elements, Build(elements, nodeCount).degree)
  {
    var a := Build(elements, nodeCount);
    BuildShape(elements, nodeCount);
    forall i | 0 <= i < nodeCount
      ensures 1 <= Multicolors(elements, nodeCount)[i] <= a.degree + 1
    {
      ColoringComplete(a.table, a.degree, nodeCount, i);
    }
    forall e | 0 <= e < |elements| && elements[e].node1 != elements[e].node2
      ensures Multicolors(elements, nodeCount)[elements[e].node1] != Multicolors(elements, nodeCount)[elements[e].node2]
    {
      var x, y := elements[e].node1, elements[e].node2;
      var lo, hi := if x < y then x else y, if x < y then y else x;
      assert Lists(a.table, hi, lo);
      var p :| 0 <= p < 8 && a.table[Slot(hi, p)] == lo;
      ColoringSeparates(a.table, a.degree, nodeCount, lo, hi, p);
    }
  }

  /**
   * As written, the degree can fall short of the fullest row, and the colour
   * scan then misses neighbours: with elements (1, 2) then (0, 1) on three
   * nodes, node 1 lists 2 and 0 but the degree stays 1, so nodes 0 and 1,
   * which element (0, 1) joins, both get colour 1.
   */
  lemma AsWrittenColoringClash()
    ensures var elements := [Element(1, 2, 200.0, 80.0, 1.0), Element(0, 1, 200.0, 80.0, 1.0)];
      EndpointsIn(elements, 3) && !BuildAsWritten(elements, 3).overflow &&
      BuildAsWritten(elements, 3).degree == 1 &&
      MulticolorsAsWritten(elements, 3)[0] == 1 && MulticolorsAsWritten(elements, 3)[1] == 1
  {
    var elements := [Element(1, 2, 200.0, 80.0, 1.0), Element(0, 1, 200.0, 80.0, 1.0)];
    ClashTable();
    var t4 := InitialTable(3)[Slot(1, 0) := 2][Slot(2, 0) := 1][Slot(0, 0) := 1][Slot(1, 1) := 0];
    BuildShape(elements, 3);
    BuildAsWrittenSameTable(elements, 3);
    var c0 := Coloring(t4, 1, 3, 0);
    assert c0 == [0, 0, 0];
    assert Available(t4, c0, 0, 1, 1);
    var c1 := Coloring(t4, 1, 3, 1);
    assert c1 == [1, 0, 0];
    assert Available(t4, c1, 1, 1, 1);
    var c2 := Coloring(t4, 1, 3, 2);
    assert c2 == [1, 1, 0];
    ColoringSettles(t4, 1, 3, 0, 3);
    ColoringSettles(t4, 1, 3, 1, 3);
  }

  /** The as-written table of the clash above: row 1 holds 2 and 0, the degree is 1. */
  lemma ClashTable()
    ensures var elements := [Element(1, 2, 200.0, 80.0, 1.0), Element(0, 1, 200.0, 80.0, 1.0)];
      BuildAsWritten(elements, 3) ==
      Adjacency(InitialTable(3)[Slot(1, 0) := 2][Slot(2, 0) := 1][Slot(0, 0) := 1][Slot(1, 1) := 0], 1, false)
  {
    var e0, e1 := Element(1, 2, 200.0, 80.0, 1.0), Element(0, 1, 200.0, 80.0, 1.0);
    var elements := [e0, e1];
    assert elements[..1] == [e0] && [e0][..0] == [];
    var t0 := InitialTable(3);
    assert Scan(t0, 1, 2, 0) == 0;
    var t1 := t0[Slot(1, 0) := 2];
    assert AddForward(Adjacency(t0, 0, false), 1, 2) == Adjacency(t1, 1, false);
    assert Scan(t1, 2, 1, 0) == 0;
    var t2 := t1[Slot(2, 0) := 1];
    assert BuildAsWritten([e0], 3) == Adjacency(t2, 1, false);
    assert Scan(t2, 0, 1, 0) == 0;
    var t3 := t2[Slot(0, 0) := 1];
    assert AddForward(Adjacency(t2, 1, false), 0, 1) == Adjacency(t3, 1, false);
    assert Scan(t3, 1, 0, 1) == 1;
    assert Scan(t3, 1, 0, 0) == 1;
  }

  // ---------------------------------------------------------------------------
  // The procedure itself

  /** Lines 57-64: a fresh table with every slot empty. */
  method NewTable(nodeCount: nat) returns (neighbors: array<int>)
    ensures fresh(neighbors) && neighbors[..] == InitialTable(nodeCount)
  {
    neighbors := new int[nodeCount * 8];
    for i := 0 to nodeCount * 8
      invariant forall j | 0 <= j < i :: neighbors[j] == Empty
    {
      neighbors[i] := -1;
    }
  }

  /** Lines 66-69: every counted node's colour is reset to 0; nothing else changes. */
  method ResetMulticolors(frame: Frame)
    requires frame.Valid()
    modifies frame.nodes
    ensures forall i | 0 <= i < frame.nodes.Length ::
      frame.nodes[i] == if i < frame.nodeCount then old(frame.nodes[i]).(multicolor := 0) else old(frame.nodes[i])
  {
    for i := 0 to frame.nodeCount
      invariant forall j | 0 <= j < frame.nodes.Length ::
        frame.nodes[j] == if j < i then old(frame.nodes[j]).(multicolor := 0) else old(frame.nodes[j])
    {
      frame.nodes[i] := frame.nodes[i].(multicolor := 0);
    }
  }

  /** Lines 77-105: adds v to u's row in place; `overflow` accumulates the "max_neighbors exceeded" report. */
  method InsertForward(neighbors: array<int>, degree: int, overflow: bool, u: int, v: int)
    returns (newDegree: int, newOverflow: bool)
    requires InTable(neighbors[..], u)
    modifies neighbors
    ensures Adjacency(neighbors[..], newDegree, newOverflow) == AddForward(Adjacency(old(neighbors[..]), degree, overflow), u, v)
  {
    ghost var table := neighbors[..];
    newDegree, newOverflow := degree, overflow;
    var n := 0;
    while n < 8
      invariant 0 <= n <= 8 && neighbors[..] == table && newDegree == degree
      invariant forall m | 0 <= m < n :: table[Slot(u, m)] != v && table[Slot(u, m)] != Empty
      invariant newOverflow == (overflow || n == 8)
    {
      if neighbors[n + u * 8] == v {
        ScanStopsAt(table, u, v, n);
        break;
      } else if neighbors[n + u * 8] == -1 {
        ScanStopsAt(table, u, v, n);
        neighbors[n + u * 8] := v;
        assert neighbors[..] == table[Slot(u, n) := v];
        if n >= newDegree {
          newDegree := n + 1;
        }
        break;
      } else if n == 8 - 1 {
        newOverflow := true;
      }
      n := n + 1;
    }
    if n == 8 {
      ScanStopsAt(table, u, v, 8);
    }
  }

  /**
   * Lines 108-135 as written: adds v to u's row in place, raising the degree
   * to every slot index visited before the scan stops.
   */
  method InsertBackwardAsWritten(neighbors: array<int>, degree: int, overflow: bool, u: int, v: int)
    returns (newDegree: int, newOverflow: bool)
    requires InTable(neighbors[..], u)
    modifies neighbors
    ensures Adjacency(neighbors[..], newDegree, newOverflow) == AddBackwardAsWritten(Adjacency(old(neighbors[..]), degree, overflow), u, v)
  {
    ghost var table := neighbors[..];
    newDegree, newOverflow := degree, overflow;
    var n := 0;
    while n < 8
      invariant 0 <= n <= 8 && neighbors[..] == table
      invariant newDegree == if n > 0 && n - 1 > degree then n - 1 else degree
      invariant forall m | 0 <= m < n :: table[Slot(u, m)] != v && table[Slot(u, m)] != Empty
      invariant newOverflow == (overflow || n == 8)
    {
      if n > newDegree {
        newDegree := n;
      }
      if neighbors[n + u * 8] == v {
        ScanStopsAt(table, u, v, n);
        break;
      } else if neighbors[n + u * 8] == -1 {
        ScanStopsAt(table, u, v, n);
        neighbors[n + u * 8] := v;
        assert neighbors[..] == table[Slot(u, n) := v];
        break;
      } else if n == 8 - 1 {
        newOverflow := true;
      }
      n := n + 1;
    }
    if n == 8 {
      ScanStopsAt(table, u, v, 8);
    }
  }

  /** The counted elements of a frame. */
  function CountedElements(frame: Frame): (elements: seq<Element>)
    reads frame, frame.elements
    requires frame.Valid() && frame.ElementsInRange()
    ensures EndpointsIn(elements, frame.nodeCount)
  {
    frame.elements[..frame.elementCount]
  }

  /** Lines 71-136 as written: the element loop filling the table and keeping the degree. */
  method BuildTableAsWritten(frame: Frame, neighbors: array<int>) returns (degree: int, overflow: bool)
    requires frame.Valid() && frame.ElementsInRange()
    requires neighbors[..] == InitialTable(frame.nodeCount)
    modifies neighbors
    ensures BuildAsWritten(CountedElements(frame), frame.nodeCount) == Adjacency(neighbors[..], degree, overflow)
  {
    var elements := CountedElements(frame);
    degree, overflow := 0, false;
    for i := 0 to frame.elementCount
      invariant BuildAsWritten(elements[..i], frame.nodeCount) == Adjacency(neighbors[..], degree, overflow)
    {
      var n1 := frame.elements[i].node1;
      var n2 := frame.elements[i].node2;
      assert elements[..i + 1][..i] == elements[..i];
      degree, overflow := InsertForward(neighbors, degree, overflow, n1, n2);
      degree, overflow := InsertBackwardAsWritten(neighbors, degree, overflow, n2, n1);
    }
    assert elements[..frame.elementCount] == elements;
  }

  /** The element loop with n2's insertion counting degree as n1's does (lines 91-94). */
  method BuildTable(frame: Frame, neighbors: array<int>) returns (degree: int, overflow: bool)
    requires frame.Valid() && frame.ElementsInRange()
    requires neighbors[..] == InitialTable(frame.nodeCount)
    modifies neighbors
    ensures Build(CountedElements(frame), frame.nodeCount) == Adjacency(neighbors[..], degree, overflow)
  {
    var elements := CountedElements(frame);
    degree, overflow := 0, false;
    for i := 0 to frame.elementCount
      invariant Build(elements[..i], frame.nodeCount) == Adjacency(neighbors[..], degree, overflow)
    {
      var n1 := frame.elements[i].node1;
      var n2 := frame.elements[i].node2;
      assert elements[..i + 1][..i] == elements[..i];
      degree, overflow := InsertForward(neighbors, degree, overflow, n1, n2);
      degree, overflow := InsertForward(neighbors, degree, overflow, n2, n1);
    }
    assert elements[..frame.elementCount] == elements;
  }

  /** Lines 153-163: whether no neighbour in the first `degree` slots of node's row already has `color`. */
  method IsAvailable(frame: Frame, neighbors: array<int>, node: int, degree: int, color: int) returns (available: bool)
    requires frame.Valid() && neighbors.Length == frame.nodeCount * 8
    requires InTable(neighbors[..], node) && 0 <= degree <= 8 && EntriesValid(neighbors[..], frame.nodeCount)
    ensures available == Available(neighbors[..], NodeColors(frame.nodes[..frame.nodeCount]), node, degree, color)
  {
    ghost var colors := NodeColors(frame.nodes[..frame.nodeCount]);
    available := true;
    var n := 0;
    while n < degree
      invariant 0 <= n <= degree && available
      invariant forall m | 0 <= m < n :: neighbors[Slot(node, m)] == Empty || colors[neighbors[Slot(node, m)]] != color
    {
      var neighbor := neighbors[n + node * 8];
      if neighbor != -1 && color == frame.nodes[neighbor].multicolor {
        assert colors[neighbors[Slot(node, n)]] == color;
        available := false;
        break;
      }
      n := n + 1;
    }
  }

  /**
   * Lines 142-178: each node in turn takes the first colour in 1..degree + 1
   * that no neighbour has yet, or keeps 0 when there is none.
   */
  method ColorNodes(frame: Frame, neighbors: array<int>, degree: int)
    requires frame.Valid() && neighbors.Length == frame.nodeCount * 8
    requires EntriesValid(neighbors[..], frame.nodeCount) && 0 <= degree <= 8
    requires forall i | 0 <= i < frame.nodeCount :: frame.nodes[i].multicolor == 0
    modifies frame.nodes
    ensures NodeColors(frame.nodes[..frame.nodeCount]) == Coloring(neighbors[..], degree, frame.nodeCount, frame.nodeCount)
    ensures forall i | 0 <= i < frame.nodes.Length :: frame.nodes[i] == old(frame.nodes[i]).(multicolor := frame.nodes[i].multicolor)
    ensures forall i | frame.nodeCount <= i < frame.nodes.Length :: frame.nodes[i] == old(frame.nodes[i])
  {
    ghost var table := neighbors[..];
    ghost var nodes := frame.nodes[..];
    var numColors := degree + 1;
    PaintedNothing(nodes, Coloring(table, degree, frame.nodeCount, 0));
    for i := 0 to frame.nodeCount
      invariant frame.nodes[..] == Painted(nodes, Coloring(table, degree, frame.nodeCount, i))
    {
      ghost var colors := Coloring(table, degree, frame.nodeCount, i);
      assert NodeColors(frame.nodes[..frame.nodeCount]) == colors;
      PaintNode(frame, neighbors, degree, i);
      PaintedStep(nodes, colors, i, FirstAvailable(table, colors, i, degree, 1));
    }
  }

  /** Lines 146-177 for node i, whose colour is still 0: it takes the first free colour, or keeps 0. */
  method PaintNode(frame: Frame, neighbors: array<int>, degree: int, i: int)
    requires frame.Valid() && neighbors.Length == frame.nodeCount * 8
    requires EntriesValid(neighbors[..], frame.nodeCount) && 0 <= degree <= 8
    requires 0 <= i < frame.nodeCount && frame.nodes[i].multicolor == 0
    modifies frame.nodes
    ensures frame.nodes[..] == old(frame.nodes[..])[i := old(frame.nodes[i]).(multicolor :=
      FirstAvailable(neighbors[..], NodeColors(old(frame.nodes[..frame.nodeCount])), i, degree, 1))]
  {
    var color := FirstColor(frame, neighbors, i, degree);
    if color != 0 {
      frame.nodes[i] := frame.nodes[i].(multicolor := color);
    }
  }

  /** The nodes with the first |colors| of them given those colours; the rest as they were. */
  ghost function Painted(nodes: seq<Node>, colors: seq<int>): (r: seq<Node>)
    requires |colors| <= |nodes|
    ensures |r| == |nodes|
    ensures forall j | 0 <= j < |nodes| :: r[j] == nodes[j].(multicolor := r[j].multicolor)
    ensures forall j | |colors| <= j < |nodes| :: r[j] == nodes[j]
    ensures NodeColors(r[..|colors|]) == colors
  {
    seq(|nodes|, j requires 0 <= j < |nodes| => if j < |colors| then nodes[j].(multicolor := colors[j]) else nodes[j])
  }

  /** Painting nodes with the colours they already have leaves them as they are. */
  lemma PaintedNothing(nodes: seq<Node>, colors: seq<int>)
    requires |colors| <= |nodes| && forall j | 0 <= j < |colors| :: nodes[j].multicolor == colors[j]
    ensures Painted(nodes, colors) == nodes
  {
  }

  /** Changing colour i repaints node i alone. */
  lemma PaintedStep(nodes: seq<Node>, colors: seq<int>, i: int, c: int)
    requires 0 <= i < |colors| <= |nodes|
    ensures Painted(nodes, colors[i := c]) == Painted(nodes, colors)[i := Painted(nodes, colors)[i].(multicolor := c)]
  {
  }

  /** Lines 151-171: the first colour in 1..degree + 1 free at `node`, or 0 when every one is taken. */
  method FirstColor(frame: Frame, neighbors: array<int>, node: int, degree: int) returns (color: int)
    requires frame.Valid() && neighbors.Length == frame.nodeCount * 8
    requires InTable(neighbors[..], node) && 0 <= degree <= 8 && EntriesValid(neighbors[..], frame.nodeCount)
    ensures color == FirstAvailable(neighbors[..], NodeColors(frame.nodes[..frame.nodeCount]), node, degree, 1)
  {
    ghost var colors := NodeColors(frame.nodes[..frame.nodeCount]);
    color := 1;
    while color <= degree + 1
      invariant 1 <= color <= degree + 2
      invariant forall c | 1 <= c < color :: !Available(neighbors[..], colors, node, degree, c)
    {
      var available := IsAvailable(frame, neighbors, node, degree, color);
      if available {
        return;
      }
      color := color + 1;
    }
    color := 0;
  }

  /**
   * Lines 39-179 as written: every counted node receives the colour of the
   * as-written colouring; the other node fields and the uncounted nodes are
   * unchanged. `overflow` is whether a row ran out of slots.
   */
  method AssignMulticolorAsWritten(frame: Frame) returns (overflow: bool)
    requires frame.Valid() && frame.ElementsInRange()
    modifies frame.nodes
    ensures NodeColors(frame.nodes[..frame.nodeCount]) == MulticolorsAsWritten(CountedElements(frame), frame.nodeCount)
    ensures overflow == BuildAsWritten(CountedElements(frame), frame.nodeCount).overflow
    ensures forall i | 0 <= i < frame.nodes.Length :: frame.nodes[i] == old(frame.nodes[i]).(multicolor := frame.nodes[i].multicolor)
    ensures forall i | frame.nodeCount <= i < frame.nodes.Length :: frame.nodes[i] == old(frame.nodes[i])
  {
    var neighbors := NewTable(frame.nodeCount);
    ResetMulticolors(frame);
    var degree;
    degree, overflow := BuildTableAsWritten(frame, neighbors);
    BuildShape(CountedElements(frame), frame.nodeCount);
    BuildAsWrittenSameTable(CountedElements(frame), frame.nodeCount);
    BuildAsWrittenDegree(CountedElements(frame), frame.nodeCount);
    ColorNodes(frame, neighbors, degree);
  }

  /** ProperColoring, read off the colours stored in a frame's counted nodes. */
  lemma ColoredFrameIsProper(frame: Frame)
    requires frame.Valid() && frame.ElementsInRange()
    requires NodeColors(frame.nodes[..frame.nodeCount]) == Multicolors(CountedElements(frame), frame.nodeCount)
    requires !Build(CountedElements(frame), frame.nodeCount).overflow
    ensures ProperlyColored(NodeColors(frame.nodes[..frame.nodeCount]), CountedElements(frame), Build(CountedElements(frame), frame.nodeCount).degree)
  {
    ProperColoring(CountedElements(frame), frame.nodeCount);
  }

  /**
   * The same procedure with the degree kept as the longest row: when no row
   * overflows, every counted node gets a colour in 1..degree + 1 and no
   * counted element joins two nodes of the same colour.
   */
  method AssignMulticolor(frame: Frame) returns (overflow: bool)
    requires frame.Valid() && frame.ElementsInRange()
    modifies frame.nodes
    ensures NodeColors(frame.nodes[..frame.nodeCount]) == Multicolors(CountedElements(frame), frame.nodeCount)
    ensures overflow == Build(CountedElements(frame), frame.nodeCount).overflow
    ensures !overflow ==> ProperlyColored(NodeColors(frame.nodes[..frame.nodeCount]), CountedElements(frame), Build(CountedElements(frame), frame.nodeCount).degree)
    ensures forall i | 0 <= i < frame.nodes.Length :: frame.nodes[i] == old(frame.nodes[i]).(multicolor := frame.nodes[i].multicolor)
    ensures forall i | frame.nodeCount <= i < frame.nodes.Length :: frame.nodes[i] == old(frame.nodes[i])
  {
    var neighbors := NewTable(frame.nodeCount);
    ResetMulticolors(frame);
    var degree;
    degree, overflow := BuildTable(frame, neighbors);
    BuildShape(CountedElements(frame), frame.nodeCount);
    ColorNodes(frame, neighbors, degree);
    if !overflow {
      ColoredFrameIsProper(frame);
    }
  }
}
