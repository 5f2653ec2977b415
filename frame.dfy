/**
 * The frame model of frame.h: nodes joined by beam elements, with boundary
 * conditions fixing a force, moment, displacement or rotation at a node.
 */
module Frames {
  import opened Vectors

  /**
   * `struct Node`: a position and the four quantities solved for, plus the
   * colour group `multicolor` that the colouring pass assigns.
   */
  datatype Node = Node(pos: Vec3, force: Vec3, moment: Vec3, displacement: Vec3, rotation: Vec3, multicolor: int)

  /** A node at `pos` with every other field zero, as a C compound literal leaves it. */
  function NodeAt(pos: Vec3): (n: Node)
    ensures n.pos == pos && n.force == Zero && n.moment == Zero && n.displacement == Zero
    ensures n.rotation == Zero && n.multicolor == 0
  {
    Node(pos, Zero, Zero, Zero, Zero, 0)
  }

  /** `struct Element`: a beam from node1 to node2 with its material properties. */
  datatype Element = Element(node1: int, node2: int, elasticModulus: real, shearModulus: real, radius: real)

  /** `enum BoundaryKind`, in declaration order (BC_Default = 0). */
  datatype BoundaryKind = Default | Force | Moment | Displacement | Rotation | Joint

  /** `struct BoundaryCondition`: the property `kind` of node `node` is fixed to `value`. */
  datatype BoundaryCondition = BoundaryCondition(node: int, kind: BoundaryKind, value: Vec3)

  /** `struct Frame`: arrays of nodes, elements and boundary conditions and their counts. */
  class Frame {
    var nodes: array<Node>
    var elements: array<Element>
    var bconditions: array<BoundaryCondition>
    var nodeCount: int
    var elementCount: int
    var bcCount: int

    /** An empty frame: no nodes, elements or boundary conditions. */
    constructor Empty()
      ensures nodeCount == 0 && elementCount == 0 && bcCount == 0
      ensures nodes.Length == 0 && elements.Length == 0 && bconditions.Length == 0
      ensures fresh(nodes) && fresh(elements) && fresh(bconditions)
    {
      nodes := new Node[0];
      elements := new Element[0];
      bconditions := new BoundaryCondition[0];
      nodeCount, elementCount, bcCount := 0, 0, 0;
    }

    /** The counts describe the arrays: every counted entry exists. */
    predicate Valid()
      reads this
    {
      0 <= nodeCount <= nodes.Length && 0 <= elementCount <= elements.Length && 0 <= bcCount <= bconditions.Length
    }

    /** Every counted element joins two counted nodes. */
    predicate ElementsInRange()
      reads this, elements
      requires Valid()
    {
      forall e | 0 <= e < elementCount :: 0 <= elements[e].node1 < nodeCount && 0 <= elements[e].node2 < nodeCount
    }
  }

  /** The colour of every node, in node order. */
  function NodeColors(nodes: seq<Node>): (colors: seq<int>)
    ensures |colors| == |nodes|
    ensures forall i | 0 <= i < |nodes| :: colors[i] == nodes[i].multicolor
  {
    seq(|nodes|, i requires 0 <= i < |nodes| => nodes[i].multicolor)
  }
}
