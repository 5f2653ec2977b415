/**
 * The frame text reader of structural/frameimport.c.
 *
 * The file is a sequence of whitespace-separated tokens, or None when it
 * cannot be opened. Every fscanf call is modelled by Scan: each conversion
 * (%s, %i, %f) consumes one token, and the scan stops at the first token
 * its conversion does not accept, leaving that token unread. A token
 * carries its text together with the values %i and %f read from it, when
 * they accept it.
 *
 * The file holds commands `nodes N`, `elements N` and
 * `boundary_conditions N`, each followed by up to N lines. Run gives, as a
 * value, what `frame_import` returns and leaves in the frame; FrameImport
 * is the reading loop itself, proved to agree with it.
 */
module FrameImport {
  import opened Wrappers
  import opened Vectors
  import opened Frames

  /** One whitespace-separated word of the file and what %i and %f make of it. */
  datatype Token = Token(text: string, asInt: Option<int>, asReal: Option<real>)

  /** The conversions used by the reader: %s, %i and %f. */
  datatype Conversion = Str | Int | Float

  /** A value assigned by one conversion. */
  datatype Value = Text(text: string) | Integer(i: int) | Number(r: real)

  /** What fscanf returns when the input ends before the first conversion. */
  const Eof := -1

  /** Line 30: "%s %i". */
  const HeaderFormat := [Str, Int]
  /** Line 55: "%i %f %f %f". */
  const NodeFormat := [Int, Float, Float, Float]
  /** Line 83: "%i %i %f %f %f". */
  const ElementFormat := [Int, Int, Float, Float, Float]
  /** Line 111: "%i %f %f %f %s". */
  const BcFormat := [Int, Float, Float, Float, Str]

  /** The value conversion c makes of token t, if it accepts it. */
  function Convert(t: Token, c: Conversion): (v: Option<Value>)
    ensures c == Str ==> v == Some(Text(t.text))
    ensures c == Int ==> (v.Some? <==> t.asInt.Some?) && (v.Some? ==> v.value == Integer(t.asInt.value))
    ensures c == Float ==> (v.Some? <==> t.asReal.Some?) && (v.Some? ==> v.value == Number(t.asReal.value))
  {
    match c
    case Str => Some(Text(t.text))
    case Int => if t.asInt.Some? then Some(Integer(t.asInt.value)) else None
    case Float => if t.asReal.Some? then Some(Number(t.asReal.value)) else None
  }

  /**
   * The values one fscanf call assigns when reading from token p: the
   * longest prefix of `format` whose conversions accept the tokens from p
   * on, one token each.
   */
  function Scan(tokens: seq<Token>, p: nat, format: seq<Conversion>): (vs: seq<Value>)
    requires p <= |tokens|
    ensures |vs| <= |format| && p + |vs| <= |tokens|
    decreases |format|
  {
    if |format| == 0 || p == |tokens| then []
    else
      match Convert(tokens[p], format[0])
      case None => []
      case Some(v) => [v] + Scan(tokens, p + 1, format[1..])
  }

  /**
   * Each value a scan assigns is its conversion of the next token, and the
   * scan stops early only at the end of the input or at a token its
   * conversion does not accept.
   */
  lemma {:induction false} ScanValues(tokens: seq<Token>, p: nat, format: seq<Conversion>)
    requires p <= |tokens|
    ensures var vs := Scan(tokens, p, format);
      (forall k | 0 <= k < |vs| :: Convert(tokens[p + k], format[k]) == Some(vs[k])) &&
      (|vs| < |format| ==> p + |vs| == |tokens| || Convert(tokens[p + |vs|], format[|vs|]).None?)
    decreases |format|
  {
    var vs := Scan(tokens, p, format);
    if |format| > 0 && p < |tokens| && Convert(tokens[p], format[0]).Some? {
      var rest := Scan(tokens, p + 1, format[1..]);
      assert vs == [Convert(tokens[p], format[0]).value] + rest;
      ScanValues(tokens, p + 1, format[1..]);
      forall k | 0 < k < |vs|
        ensures Convert(tokens[p + k], format[k]) == Some(vs[k])
      {
        assert vs[k] == rest[k - 1] && format[k] == format[1..][k - 1];
        assert tokens[p + k] == tokens[(p + 1) + (k - 1)];
      }
      if |vs| < |format| {
        assert format[|vs|] == format[1..][|rest|];
      }
    }
  }

  /** fscanf's result: EOF when the input is exhausted before the first conversion, else the number of values assigned. */
  function Check(tokens: seq<Token>, p: nat, format: seq<Conversion>): (check: int)
    requires p <= |tokens| && |format| > 0
    ensures check == Eof <==> p == |tokens|
    ensures check != Eof ==> check == |Scan(tokens, p, format)|
  {
    if p == |tokens| then Eof else |Scan(tokens, p, format)|
  }

  /** When every conversion accepts its token, a scan assigns all of them. */
  lemma {:induction false} ScanAccepts(tokens: seq<Token>, p: nat, format: seq<Conversion>)
    requires p + |format| <= |tokens|
    requires forall k | 0 <= k < |format| :: Convert(tokens[p + k], format[k]).Some?
    ensures |Scan(tokens, p, format)| == |format|
    decreases |format|
  {
    if |format| > 0 {
      assert Convert(tokens[p + 0], format[0]).Some?;
      forall k | 0 <= k < |format| - 1
        ensures Convert(tokens[p + 1 + k], format[1..][k]).Some?
      {
        assert Convert(tokens[p + (k + 1)], format[k + 1]).Some?;
      }
      ScanAccepts(tokens, p + 1, format[1..]);
    }
  }

  /** A scan reads only the tokens from p on. */
  lemma {:induction false} ScanFrom(t1: seq<Token>, t2: seq<Token>, p: nat, format: seq<Conversion>)
    requires p <= |t1| && p <= |t2| && t1[p..] == t2[p..]
    ensures Scan(t1, p, format) == Scan(t2, p, format)
    decreases |format|
  {
    if |format| > 0 && p < |t1| {
      assert t1[p] == t1[p..][0] && t2[p] == t2[p..][0];
      assert t1[p + 1..] == t1[p..][1..] && t2[p + 1..] == t2[p..][1..];
      ScanFrom(t1, t2, p + 1, format[1..]);
    }
  }

  /** Lines 117-145: the boundary-condition kind a word names; any other word names none. */
  function KindOf(word: string): Option<BoundaryKind>
  {
    if word == "force" then Some(Force)
    else if word == "displacement" then Some(Displacement)
    else if word == "moment" then Some(Moment)
    else if word == "rotation" then Some(Rotation)
    else if word == "joint" then Some(Joint)
    else None
  }

  /** The word the reader expects for each kind but BC_Default, which no word names. */
  function KindWord(kind: BoundaryKind): string
  {
    match kind
    case Default => ""
    case Force => "force"
    case Moment => "moment"
    case Displacement => "displacement"
    case Rotation => "rotation"
    case Joint => "joint"
  }

  /** Exactly the five kinds other than BC_Default are named, each by one word. */
  lemma KindWordsRoundTrip(word: string, kind: BoundaryKind)
    ensures KindOf(word) == Some(kind) <==> kind != Default && word == KindWord(kind)
  {
  }

  // ---------------------------------------------------------------------------
  // The lines of a section

  /** The first token of line k of a section whose lines of `width` tokens start at p. */
  function LineStart(p: int, width: int, k: int): int
  {
    p + width * k
  }

  /** Token p starts a node line that scans: an integer, then three numbers. */
  predicate NodeLineAt(tokens: seq<Token>, p: int)
  {
    0 <= p && p + 4 <= |tokens| && tokens[p].asInt.Some? &&
    tokens[p + 1].asReal.Some? && tokens[p + 2].asReal.Some? && tokens[p + 3].asReal.Some?
  }

  /** Token p starts an element line that scans: two integers, then three numbers. */
  predicate ElementLineAt(tokens: seq<Token>, p: int)
  {
    0 <= p && p + 5 <= |tokens| && tokens[p].asInt.Some? && tokens[p + 1].asInt.Some? &&
    tokens[p + 2].asReal.Some? && tokens[p + 3].asReal.Some? && tokens[p + 4].asReal.Some?
  }

  /** Token p starts a boundary-condition line that scans and whose last word names a kind. */
  predicate BcLineAt(tokens: seq<Token>, p: int)
  {
    0 <= p && p + 5 <= |tokens| && tokens[p].asInt.Some? &&
    tokens[p + 1].asReal.Some? && tokens[p + 2].asReal.Some? && tokens[p + 3].asReal.Some? &&
    KindOf(tokens[p + 4].text).Some?
  }

  /** Line 64: the node a node line gives, its position with every other field zero; the leading index is dropped. */
  function NodeOfLine(tokens: seq<Token>, p: int): Node
    requires NodeLineAt(tokens, p)
  {
    NodeAt(Vec3(tokens[p + 1].asReal.value, tokens[p + 2].asReal.value, tokens[p + 3].asReal.value))
  }

  /** Line 92: the element an element line gives, field for field. */
  function ElementOfLine(tokens: seq<Token>, p: int): Element
    requires ElementLineAt(tokens, p)
  {
    Element(tokens[p].asInt.value, tokens[p + 1].asInt.value,
      tokens[p + 2].asReal.value, tokens[p + 3].asReal.value, tokens[p + 4].asReal.value)
  }

  /** Line 147: the boundary condition a boundary-condition line gives. */
  function BcOfLine(tokens: seq<Token>, p: int): BoundaryCondition
    requires BcLineAt(tokens, p)
  {
    BoundaryCondition(tokens[p].asInt.value, KindOf(tokens[p + 4].text).value,
      Vec3(tokens[p + 1].asReal.value, tokens[p + 2].asReal.value, tokens[p + 3].asReal.value))
  }

  /** One line of a section: the entry it stores and where reading goes on, or where the section stops. */
  datatype Step<T> = Read(item: T, next: nat) | Stop(next: nat)

  /** Lines 49-64: a node line; one that does not scan ends the section after the tokens the scan took. */
  function NodeLine(tokens: seq<Token>, p: nat): (r: Step<Node>)
    requires p <= |tokens|
  {
    if NodeLineAt(tokens, p) then Read(NodeOfLine(tokens, p), p + 4)
    else Stop(p + |Scan(tokens, p, NodeFormat)|)
  }

  /** Lines 76-92: an element line. */
  function ElementLine(tokens: seq<Token>, p: nat): (r: Step<Element>)
    requires p <= |tokens|
  {
    if ElementLineAt(tokens, p) then Read(ElementOfLine(tokens, p), p + 5)
    else Stop(p + |Scan(tokens, p, ElementFormat)|)
  }

  /** Lines 104-147: a boundary-condition line; one naming no kind ends the section after all five tokens are read. */
  function BcLine(tokens: seq<Token>, p: nat): (r: Step<BoundaryCondition>)
    requires p <= |tokens|
  {
    if BcLineAt(tokens, p) then Read(BcOfLine(tokens, p), p + 5)
    else Stop(p + |Scan(tokens, p, BcFormat)|)
  }

  /**
   * Lines 55 and 64: a node line is stored exactly when fscanf returns 4,
   * and then the scan assigns the line's index and its three coordinates.
   */
  lemma NodeLineScans(tokens: seq<Token>, p: nat)
    requires p <= |tokens|
    ensures NodeLineAt(tokens, p) <==> Check(tokens, p, NodeFormat) == 4
    ensures NodeLineAt(tokens, p) ==> (Scan(tokens, p, NodeFormat) ==
      [Integer(tokens[p].asInt.value), Number(tokens[p + 1].asReal.value), Number(tokens[p + 2].asReal.value),
       Number(tokens[p + 3].asReal.value)])
  {
    var vs := Scan(tokens, p, NodeFormat);
    ScanValues(tokens, p, NodeFormat);
    if NodeLineAt(tokens, p) {
      forall k | 0 <= k < 4
        ensures Convert(tokens[p + k], NodeFormat[k]).Some?
      {
      }
      ScanAccepts(tokens, p, NodeFormat);
    }
    if |vs| == 4 {
      assert Convert(tokens[p + 0], Int) == Some(vs[0]);
      assert Convert(tokens[p + 1], Float) == Some(vs[1]);
      assert Convert(tokens[p + 2], Float) == Some(vs[2]);
      assert Convert(tokens[p + 3], Float) == Some(vs[3]);
    }
  }

  /** Lines 83 and 92: an element line is stored exactly when fscanf returns 5, and then the scan assigns its five fields. */
  lemma ElementLineScans(tokens: seq<Token>, p: nat)
    requires p <= |tokens|
    ensures ElementLineAt(tokens, p) <==> Check(tokens, p, ElementFormat) == 5
    ensures ElementLineAt(tokens, p) ==> (Scan(tokens, p, ElementFormat) ==
      [Integer(tokens[p].asInt.value), Integer(tokens[p + 1].asInt.value), Number(tokens[p + 2].asReal.value),
       Number(tokens[p + 3].asReal.value), Number(tokens[p + 4].asReal.value)])
  {
    var vs := Scan(tokens, p, ElementFormat);
    ScanValues(tokens, p, ElementFormat);
    if ElementLineAt(tokens, p) {
      forall k | 0 <= k < 5
        ensures Convert(tokens[p + k], ElementFormat[k]).Some?
      {
      }
      ScanAccepts(tokens, p, ElementFormat);
    }
    if |vs| == 5 {
      assert Convert(tokens[p + 0], Int) == Some(vs[0]);
      assert Convert(tokens[p + 1], Int) == Some(vs[1]);
      assert Convert(tokens[p + 2], Float) == Some(vs[2]);
      assert Convert(tokens[p + 3], Float) == Some(vs[3]);
      assert Convert(tokens[p + 4], Float) == Some(vs[4]);
    }
  }

  /**
   * Lines 111-147: a boundary-condition line is stored exactly when fscanf
   * returns 5 and the scanned word names a kind; the scan assigns the
   * node index, the three components and the word.
   */
  lemma BcLineScans(tokens: seq<Token>, p: nat)
    requires p <= |tokens|
    ensures BcLineAt(tokens, p) <==>
      Check(tokens, p, BcFormat) == 5 && KindOf(Scan(tokens, p, BcFormat)[4].text).Some?
    ensures Check(tokens, p, BcFormat) == 5 ==> (Scan(tokens, p, BcFormat) ==
      [Integer(tokens[p].asInt.value), Number(tokens[p + 1].asReal.value), Number(tokens[p + 2].asReal.value),
       Number(tokens[p + 3].asReal.value), Text(tokens[p + 4].text)])
  {
    var vs := Scan(tokens, p, BcFormat);
    ScanValues(tokens, p, BcFormat);
    if BcLineAt(tokens, p) {
      forall k | 0 <= k < 5
        ensures Convert(tokens[p + k], BcFormat[k]).Some?
      {
      }
      ScanAccepts(tokens, p, BcFormat);
    }
    if |vs| == 5 {
      assert Convert(tokens[p + 0], Int) == Some(vs[0]);
      assert Convert(tokens[p + 1], Float) == Some(vs[1]);
      assert Convert(tokens[p + 2], Float) == Some(vs[2]);
      assert Convert(tokens[p + 3], Float) == Some(vs[3]);
      assert Convert(tokens[p + 4], Str) == Some(vs[4]);
    }
  }

  /** Line 64: the index at the head of a node line does not matter; any integer there reads the same node. */
  lemma NodeIndexIgnored(tokens: seq<Token>, p: nat, index: Token)
    requires p < |tokens| && tokens[p].asInt.Some? && index.asInt.Some?
    ensures NodeLine(tokens[p := index], p) == NodeLine(tokens, p)
  {
    var t' := tokens[p := index];
    var vs, vs' := Scan(tokens, p, NodeFormat), Scan(t', p, NodeFormat);
    assert vs[1..] == Scan(tokens, p + 1, NodeFormat[1..]);
    assert vs'[1..] == Scan(t', p + 1, NodeFormat[1..]);
    assert t'[p + 1..] == tokens[p + 1..];
    ScanFrom(tokens, t', p + 1, NodeFormat[1..]);
  }

  /** The entries a section stored, in file order, and the token reading goes on from. */
  datatype Lines<T> = Lines(items: seq<T>, next: nat)

  /**
   * Lines 47-65: up to n node lines, each stored in turn; the first line
   * that does not scan ends the section.
   */
  function ReadNodes(tokens: seq<Token>, p: nat, n: int): (r: Lines<Node>)
    requires p <= |tokens|
    ensures |r.items| <= (if n < 0 then 0 else n) && p <= r.next <= |tokens|
    decreases if n < 0 then 0 else n
  {
    if n <= 0 then Lines([], p)
    else
      match NodeLine(tokens, p)
      case Stop(q) => Lines([], q)
      case Read(node, q) =>
        var rest := ReadNodes(tokens, q, n - 1);
        Lines([node] + rest.items, rest.next)
  }

  /**
   * The nodes stored are those of the consecutive node lines from p, in
   * file order; fewer than n are stored only when the next line does not scan.
   */
  lemma {:induction false} ReadNodesLines(tokens: seq<Token>, p: nat, n: int)
    requires p <= |tokens|
    ensures var r := ReadNodes(tokens, p, n);
      (forall k | 0 <= k < |r.items| :: NodeLineAt(tokens, LineStart(p, 4, k)) && r.items[k] == NodeOfLine(tokens, LineStart(p, 4, k))) &&
      (|r.items| < n ==> !NodeLineAt(tokens, LineStart(p, 4, |r.items|)))
    decreases if n < 0 then 0 else n
  {
    assert LineStart(p, 4, 0) == p;
    if n > 0 && NodeLineAt(tokens, p) {
      var q := p + 4;
      var r, rest := ReadNodes(tokens, p, n), ReadNodes(tokens, q, n - 1);
      assert r.items == [NodeOfLine(tokens, p)] + rest.items;
      ReadNodesLines(tokens, q, n - 1);
      forall k | 0 < k <= |rest.items|
        ensures LineStart(q, 4, k - 1) == LineStart(p, 4, k) && r.items[k] == rest.items[k - 1]
      {
      }
    }
  }

  /**
   * Reading goes on right after the last line stored, or, when fewer than
   * n lines were stored, after the tokens the failed scan took.
   */
  lemma {:induction false} ReadNodesEnd(tokens: seq<Token>, p: nat, n: int)
    requires p <= |tokens|
    ensures var r := ReadNodes(tokens, p, n); var end := LineStart(p, 4, |r.items|);
      0 <= end <= |tokens| &&
      (|r.items| < n ==> r.next == end + |Scan(tokens, end, NodeFormat)|) &&
      (|r.items| == (if n < 0 then 0 else n) ==> r.next == end)
    decreases if n < 0 then 0 else n
  {
    assert LineStart(p, 4, 0) == p;
    if n > 0 && NodeLineAt(tokens, p) {
      var q := p + 4;
      var r, rest := ReadNodes(tokens, p, n), ReadNodes(tokens, q, n - 1);
      assert r == Lines([NodeOfLine(tokens, p)] + rest.items, rest.next);
      ReadNodesEnd(tokens, q, n - 1);
      assert LineStart(q, 4, |rest.items|) == LineStart(p, 4, |r.items|);
    }
  }


  /** When the first i lines from p scan and either i lines were asked for or line i does not scan, exactly i are stored. */
  lemma ReadNodesCount(tokens: seq<Token>, p: nat, n: int, i: int)
    requires p <= |tokens| && 0 <= i
    requires forall k | 0 <= k < i :: NodeLineAt(tokens, LineStart(p, 4, k))
    requires i == (if n < 0 then 0 else n) || (i < n && !NodeLineAt(tokens, LineStart(p, 4, i)))
    ensures |ReadNodes(tokens, p, n).items| == i
  {
    ReadNodesLines(tokens, p, n);
  }

  /**
   * Lines 74-93: up to n element lines, each stored in turn; the first
   * line that does not scan ends the section.
   */
  function ReadElements(tokens: seq<Token>, p: nat, n: int): (r: Lines<Element>)
    requires p <= |tokens|
    ensures |r.items| <= (if n < 0 then 0 else n) && p <= r.next <= |tokens|
    decreases if n < 0 then 0 else n
  {
    if n <= 0 then Lines([], p)
    else
      match ElementLine(tokens, p)
      case Stop(q) => Lines([], q)
      case Read(element, q) =>
        var rest := ReadElements(tokens, q, n - 1);
        Lines([element] + rest.items, rest.next)
  }

  /**
   * The elements stored are those of the consecutive element lines from p,
   * in file order; fewer than n only when the next line does not scan.
   */
  lemma {:induction false} ReadElementsLines(tokens: seq<Token>, p: nat, n: int)
    requires p <= |tokens|
    ensures var r := ReadElements(tokens, p, n);
      (forall k | 0 <= k < |r.items| :: ElementLineAt(tokens, LineStart(p, 5, k)) && r.items[k] == ElementOfLine(tokens, LineStart(p, 5, k))) &&
      (|r.items| < n ==> !ElementLineAt(tokens, LineStart(p, 5, |r.items|)))
    decreases if n < 0 then 0 else n
  {
    assert LineStart(p, 5, 0) == p;
    if n > 0 && ElementLineAt(tokens, p) {
      var q := p + 5;
      var r, rest := ReadElements(tokens, p, n), ReadElements(tokens, q, n - 1);
      assert r.items == [ElementOfLine(tokens, p)] + rest.items;
      ReadElementsLines(tokens, q, n - 1);
      forall k | 0 < k <= |rest.items|
        ensures LineStart(q, 5, k - 1) == LineStart(p, 5, k) && r.items[k] == rest.items[k - 1]
      {
      }
    }
  }

  /**
   * Reading goes on right after the last line stored, or, when fewer than
   * n lines were stored, after the tokens the failed scan took.
   */
  lemma {:induction false} ReadElementsEnd(tokens: seq<Token>, p: nat, n: int)
    requires p <= |tokens|
    ensures var r := ReadElements(tokens, p, n); var end := LineStart(p, 5, |r.items|);
      0 <= end <= |tokens| &&
      (|r.items| < n ==> r.next == end + |Scan(tokens, end, ElementFormat)|) &&
      (|r.items| == (if n < 0 then 0 else n) ==> r.next == end)
    decreases if n < 0 then 0 else n
  {
    assert LineStart(p, 5, 0) == p;
    if n > 0 && ElementLineAt(tokens, p) {
      var q := p + 5;
      var r, rest := ReadElements(tokens, p, n), ReadElements(tokens, q, n - 1);
      assert r == Lines([ElementOfLine(tokens, p)] + rest.items, rest.next);
      ReadElementsEnd(tokens, q, n - 1);
      assert LineStart(q, 5, |rest.items|) == LineStart(p, 5, |r.items|);
    }
  }


  /** When the first i lines from p scan and either i lines were asked for or line i does not scan, exactly i are stored. */
  lemma ReadElementsCount(tokens: seq<Token>, p: nat, n: int, i: int)
    requires p <= |tokens| && 0 <= i
    requires forall k | 0 <= k < i :: ElementLineAt(tokens, LineStart(p, 5, k))
    requires i == (if n < 0 then 0 else n) || (i < n && !ElementLineAt(tokens, LineStart(p, 5, i)))
    ensures |ReadElements(tokens, p, n).items| == i
  {
    ReadElementsLines(tokens, p, n);
  }

  /**
   * Lines 102-158: up to n boundary-condition lines, each stored in turn;
   * the first line that does not scan or names no kind ends the section.
   */
  function ReadBcs(tokens: seq<Token>, p: nat, n: int): (r: Lines<BoundaryCondition>)
    requires p <= |tokens|
    ensures |r.items| <= (if n < 0 then 0 else n) && p <= r.next <= |tokens|
    decreases if n < 0 then 0 else n
  {
    if n <= 0 then Lines([], p)
    else
      match BcLine(tokens, p)
      case Stop(q) => Lines([], q)
      case Read(bc, q) =>
        var rest := ReadBcs(tokens, q, n - 1);
        Lines([bc] + rest.items, rest.next)
  }

  /**
   * The conditions stored are those of the consecutive boundary-condition
   * lines from p, in file order; fewer than n only when the next line does
   * not scan or names no kind.
   */
  lemma {:induction false} ReadBcsLines(tokens: seq<Token>, p: nat, n: int)
    requires p <= |tokens|
    ensures var r := ReadBcs(tokens, p, n);
      (forall k | 0 <= k < |r.items| :: BcLineAt(tokens, LineStart(p, 5, k)) && r.items[k] == BcOfLine(tokens, LineStart(p, 5, k))) &&
      (|r.items| < n ==> !BcLineAt(tokens, LineStart(p, 5, |r.items|)))
    decreases if n < 0 then 0 else n
  {
    assert LineStart(p, 5, 0) == p;
    if n > 0 && BcLineAt(tokens, p) {
      var q := p + 5;
      var r, rest := ReadBcs(tokens, p, n), ReadBcs(tokens, q, n - 1);
      assert r.items == [BcOfLine(tokens, p)] + rest.items;
      ReadBcsLines(tokens, q, n - 1);
      forall k | 0 < k <= |rest.items|
        ensures LineStart(q, 5, k - 1) == LineStart(p, 5, k) && r.items[k] == rest.items[k - 1]
      {
      }
    }
  }

  /**
   * Reading goes on right after the last line stored, or, when fewer than
   * n lines were stored, after the tokens the failed scan took.
   */
  lemma {:induction false} ReadBcsEnd(tokens: seq<Token>, p: nat, n: int)
    requires p <= |tokens|
    ensures var r := ReadBcs(tokens, p, n); var end := LineStart(p, 5, |r.items|);
      0 <= end <= |tokens| &&
      (|r.items| < n ==> r.next == end + |Scan(tokens, end, BcFormat)|) &&
      (|r.items| == (if n < 0 then 0 else n) ==> r.next == end)
    decreases if n < 0 then 0 else n
  {
    assert LineStart(p, 5, 0) == p;
    if n > 0 && BcLineAt(tokens, p) {
      var q := p + 5;
      var r, rest := ReadBcs(tokens, p, n), ReadBcs(tokens, q, n - 1);
      assert r == Lines([BcOfLine(tokens, p)] + rest.items, rest.next);
      ReadBcsEnd(tokens, q, n - 1);
      assert LineStart(q, 5, |rest.items|) == LineStart(p, 5, |r.items|);
    }
  }


  /** When the first i lines from p scan and either i lines were asked for or line i does not scan, exactly i are stored. */
  lemma ReadBcsCount(tokens: seq<Token>, p: nat, n: int, i: int)
    requires p <= |tokens| && 0 <= i
    requires forall k | 0 <= k < i :: BcLineAt(tokens, LineStart(p, 5, k))
    requires i == (if n < 0 then 0 else n) || (i < n && !BcLineAt(tokens, LineStart(p, 5, i)))
    ensures |ReadBcs(tokens, p, n).items| == i
  {
    ReadBcsLines(tokens, p, n);
  }

  // ---------------------------------------------------------------------------
  // The command loop

  /** A section the file set: the count from its header, and the entries its lines stored. */
  datatype Section<T> = Section(count: int, items: seq<T>)

  /** What the file set in the frame: each section it gave, the last of each kind winning. */
  datatype Imported = Imported(nodes: Option<Section<Node>>, elements: Option<Section<Element>>, bcs: Option<Section<BoundaryCondition>>)

  /** The result of the reader: the returned status, the frame contents set, and the token where the last command read began. */
  datatype Outcome = Outcome(status: int, frame: Imported, stop: nat)

  const NothingRead := Imported(None, None, None)

  /** Token p starts a command header that scans: a word, then an integer count. */
  predicate HeaderAt(tokens: seq<Token>, p: int)
  {
    0 <= p && p + 2 <= |tokens| && tokens[p + 1].asInt.Some?
  }

  /** Line 30: fscanf returns 2 exactly for a header that scans, and then assigns its word and count. */
  lemma HeaderScans(tokens: seq<Token>, p: nat)
    requires p <= |tokens|
    ensures HeaderAt(tokens, p) <==> Check(tokens, p, HeaderFormat) == 2
    ensures HeaderAt(tokens, p) ==> Scan(tokens, p, HeaderFormat) == [Text(tokens[p].text), Integer(tokens[p + 1].asInt.value)]
  {
    var vs := Scan(tokens, p, HeaderFormat);
    ScanValues(tokens, p, HeaderFormat);
    if HeaderAt(tokens, p) {
      forall k | 0 <= k < 2
        ensures Convert(tokens[p + k], HeaderFormat[k]).Some?
      {
      }
      ScanAccepts(tokens, p, HeaderFormat);
    }
    if |vs| == 2 {
      assert Convert(tokens[p + 0], Str) == Some(vs[0]);
      assert Convert(tokens[p + 1], Int) == Some(vs[1]);
    }
  }

  /**
   * Lines 26-179 from token p on: read a header; `nodes`, `elements` and
   * `boundary_conditions` set their count and read their lines, then the
   * loop goes on. A header that does not scan ends the loop with 0 at the
   * end of the input and -1 elsewhere; an unknown command ends it with -1.
   */
  function Run(tokens: seq<Token>, p: nat, acc: Imported): (r: Outcome)
    requires p <= |tokens|
    ensures p <= r.stop <= |tokens|
    ensures r.status == 0 || r.status == -1
    ensures r.status == 0 <==> r.stop == |tokens|
    decreases |tokens| - p
  {
    if !HeaderAt(tokens, p) then
      Outcome(if p == |tokens| then 0 else -1, acc, p)
    else
      var word, count := tokens[p].text, tokens[p + 1].asInt.value;
      if word == "nodes" then
        var lines := ReadNodes(tokens, p + 2, count);
        Run(tokens, lines.next, acc.(nodes := Some(Section(count, lines.items))))
      else if word == "elements" then
        var lines := ReadElements(tokens, p + 2, count);
        Run(tokens, lines.next, acc.(elements := Some(Section(count, lines.items))))
      else if word == "boundary_conditions" then
        var lines := ReadBcs(tokens, p + 2, count);
        Run(tokens, lines.next, acc.(bcs := Some(Section(count, lines.items))))
      else
        Outcome(-1, acc, p)
  }

  /** Lines 9-180: a file that cannot be opened gives -1 and sets nothing. */
  function Import(file: Option<seq<Token>>): (r: Outcome)
    ensures file.None? ==> r.status == -1 && r.frame == NothingRead
    ensures file.Some? ==> (r.status == 0 <==> r.stop == |file.value|)
  {
    match file
    case None => Outcome(-1, NothingRead, 0)
    case Some(tokens) => Run(tokens, 0, NothingRead)
  }

  /** An empty file reads nothing and succeeds. */
  lemma EmptyFileSucceeds()
    ensures Import(Some([])) == Outcome(0, NothingRead, 0)
  {
  }

  /** A word that no conversion but %s accepts. */
  function Word(s: string): Token { Token(s, None, None) }

  /** A whole number, which both %i and %f accept. */
  function Whole(text: string, i: int): Token { Token(text, Some(i), Some(i as real)) }

  /**
   * Lines 43 and 47-59: the count comes from the header before any line is
   * read. A file announcing 3 nodes that ends after one node line keeps
   * node_count = 3 with one node stored, and the import still returns 0,
   * because the next command read meets the end of the input.
   */
  lemma TruncatedSectionKeepsCount()
    ensures var r := Import(Some([Word("nodes"), Whole("3", 3), Whole("0", 0), Whole("1", 1), Whole("2", 2), Whole("5", 5)]));
      r.status == 0 && r.frame.nodes == Some(Section(3, [NodeAt(Vec3(1.0, 2.0, 5.0))]))
  {
    var tokens := [Word("nodes"), Whole("3", 3), Whole("0", 0), Whole("1", 1), Whole("2", 2), Whole("5", 5)];
    assert HeaderAt(tokens, 0) && !HeaderAt(tokens, 6);
    assert NodeLineAt(tokens, 2) && !NodeLineAt(tokens, 6);
    assert ReadNodes(tokens, 6, 2) == Lines([], 6);
    assert ReadNodes(tokens, 2, 3) == Lines([NodeAt(Vec3(1.0, 2.0, 5.0))], 6);
  }

  /** Lines 160-176: an unknown command ends the reading with -1, even when the file ends right after it. */
  lemma UnknownCommandFails(word: string)
    requires word != "nodes" && word != "elements" && word != "boundary_conditions"
    ensures Import(Some([Word(word), Whole("1", 1)])).status == -1
  {
    var tokens := [Word(word), Whole("1", 1)];
    assert HeaderAt(tokens, 0);
  }

  // ---------------------------------------------------------------------------
  // The reading loop

  /** The first entries of `arr` and the count hold what the section set, if the file gave one. */
  predicate Holds<T(==)>(count: int, arr: array<T>, section: Option<Section<T>>)
    reads arr
  {
    section.Some? ==>
      count == section.value.count && |section.value.items| <= arr.Length && arr[..|section.value.items|] == section.value.items
  }

  /** The frame holds every section the file set. */
  predicate Stored(frame: Frame, f: Imported)
    reads frame, frame.nodes, frame.elements, frame.bconditions
  {
    Holds(frame.nodeCount, frame.nodes, f.nodes) && Holds(frame.elementCount, frame.elements, f.elements) &&
    Holds(frame.bcCount, frame.bconditions, f.bcs)
  }

  /** Line 30: one fscanf of a command header: what it returns, and the word and count when it returns 2. */
  method ScanHeader(tokens: seq<Token>, p: nat) returns (check: int, word: string, count: int)
    requires p <= |tokens|
    ensures check == Check(tokens, p, HeaderFormat)
    ensures check == 2 <==> HeaderAt(tokens, p)
    ensures check == 2 ==> word == tokens[p].text && count == tokens[p + 1].asInt.value
  {
    var vs := Scan(tokens, p, HeaderFormat);
    HeaderScans(tokens, p);
    check := Check(tokens, p, HeaderFormat);
    if check == 2 {
      word, count := vs[0].text, vs[1].i;
    } else {
      word, count := "", 0;
    }
  }

  /**
   * Line 55: one fscanf of a node line: what it returns, the token after
   * what it read, and the node built from the values when it returns 4.
   */
  method ScanNode(tokens: seq<Token>, p: nat) returns (check: int, node: Node, next: nat)
    requires p <= |tokens|
    ensures check == Check(tokens, p, NodeFormat) && next == p + |Scan(tokens, p, NodeFormat)|
    ensures check == 4 <==> NodeLineAt(tokens, p)
    ensures check == 4 ==> node == NodeOfLine(tokens, p)
  {
    var vs := Scan(tokens, p, NodeFormat);
    NodeLineScans(tokens, p);
    check := Check(tokens, p, NodeFormat);
    next := p + |vs|;
    node := if check == 4 then NodeAt(Vec3(vs[1].r, vs[2].r, vs[3].r)) else NodeAt(Zero);
  }

  /** Line 83: one fscanf of an element line, and the element built from the values when it returns 5. */
  method ScanElement(tokens: seq<Token>, p: nat) returns (check: int, element: Element, next: nat)
    requires p <= |tokens|
    ensures check == Check(tokens, p, ElementFormat) && next == p + |Scan(tokens, p, ElementFormat)|
    ensures check == 5 <==> ElementLineAt(tokens, p)
    ensures check == 5 ==> element == ElementOfLine(tokens, p)
  {
    var vs := Scan(tokens, p, ElementFormat);
    ElementLineScans(tokens, p);
    check := Check(tokens, p, ElementFormat);
    next := p + |vs|;
    element := if check == 5 then Element(vs[0].i, vs[1].i, vs[2].r, vs[3].r, vs[4].r) else Element(0, 0, 0.0, 0.0, 0.0);
  }

  /**
   * Line 111: one fscanf of a boundary-condition line. When it returns 5,
   * the line is stored exactly when the word names a kind, and then as the
   * condition built from the values.
   */
  method ScanBc(tokens: seq<Token>, p: nat) returns (check: int, index: int, value: Vec3, word: string, next: nat)
    requires p <= |tokens|
    ensures check == Check(tokens, p, BcFormat) && next == p + |Scan(tokens, p, BcFormat)|
    ensures check == 5 ==> (BcLineAt(tokens, p) <==> KindOf(word).Some?)
    ensures check == 5 && KindOf(word).Some? ==> BoundaryCondition(index, KindOf(word).value, value) == BcOfLine(tokens, p)
    ensures check != 5 ==> !BcLineAt(tokens, p)
  {
    var vs := Scan(tokens, p, BcFormat);
    BcLineScans(tokens, p);
    check := Check(tokens, p, BcFormat);
    next := p + |vs|;
    if check == 5 {
      index, value, word := vs[0].i, Vec3(vs[1].r, vs[2].r, vs[3].r), vs[4].text;
    } else {
      index, value, word := 0, Zero, "";
    }
  }

  /** Lines 47-65: the node lines are read into `nodes` from its start; the result is where reading goes on. */
  method FillNodes(nodes: array<Node>, tokens: seq<Token>, p: nat, count: int) returns (next: nat)
    requires p <= |tokens| && nodes.Length == (if count < 0 then 0 else count)
    modifies nodes
    ensures var r := ReadNodes(tokens, p, count); next == r.next && nodes[..|r.items|] == r.items
  {
    next := p;
    var i := 0;
    while i < count
      invariant 0 <= i <= nodes.Length && next == LineStart(p, 4, i) && next <= |tokens|
      invariant forall k | 0 <= k < i :: NodeLineAt(tokens, LineStart(p, 4, k)) && nodes[k] == NodeOfLine(tokens, LineStart(p, 4, k))
    {
      var check, node, after := ScanNode(tokens, next);
      if check != 4 {
        ReadNodesCount(tokens, p, count, i);
        ReadNodesLines(tokens, p, count);
        ReadNodesEnd(tokens, p, count);
        return after;
      }
      nodes[i] := node;
      next := after;
      i := i + 1;
    }
    ReadNodesCount(tokens, p, count, i);
    ReadNodesLines(tokens, p, count);
    ReadNodesEnd(tokens, p, count);
  }

  /** Lines 74-93: the element lines are read into `elements` from its start. */
  method FillElements(elements: array<Element>, tokens: seq<Token>, p: nat, count: int) returns (next: nat)
    requires p <= |tokens| && elements.Length == (if count < 0 then 0 else count)
    modifies elements
    ensures var r := ReadElements(tokens, p, count); next == r.next && elements[..|r.items|] == r.items
  {
    next := p;
    var i := 0;
    while i < count
      invariant 0 <= i <= elements.Length && next == LineStart(p, 5, i) && next <= |tokens|
      invariant forall k | 0 <= k < i :: ElementLineAt(tokens, LineStart(p, 5, k)) && elements[k] == ElementOfLine(tokens, LineStart(p, 5, k))
    {
      var check, element, after := ScanElement(tokens, next);
      if check != 5 {
        ReadElementsCount(tokens, p, count, i);
        ReadElementsLines(tokens, p, count);
        ReadElementsEnd(tokens, p, count);
        return after;
      }
      elements[i] := element;
      next := after;
      i := i + 1;
    }
    ReadElementsCount(tokens, p, count, i);
    ReadElementsLines(tokens, p, count);
    ReadElementsEnd(tokens, p, count);
  }

  /** Lines 102-158: the boundary-condition lines are read into `bcs` from its start; an unknown kind word ends them. */
  method FillBcs(bcs: array<BoundaryCondition>, tokens: seq<Token>, p: nat, count: int) returns (next: nat)
    requires p <= |tokens| && bcs.Length == (if count < 0 then 0 else count)
    modifies bcs
    ensures var r := ReadBcs(tokens, p, count); next == r.next && bcs[..|r.items|] == r.items
  {
    next := p;
    var i := 0;
    while i < count
      invariant 0 <= i <= bcs.Length && next == LineStart(p, 5, i) && next <= |tokens|
      invariant forall k | 0 <= k < i :: BcLineAt(tokens, LineStart(p, 5, k)) && bcs[k] == BcOfLine(tokens, LineStart(p, 5, k))
    {
      var check, index, value, word, after := ScanBc(tokens, next);
      if check != 5 || KindOf(word).None? {
        ReadBcsCount(tokens, p, count, i);
        ReadBcsLines(tokens, p, count);
        ReadBcsEnd(tokens, p, count);
        return after;
      }
      var bc := BoundaryCondition(index, KindOf(word).value, value);
      bcs[i] := bc;
      next := after;
      i := i + 1;
    }
    ReadBcsCount(tokens, p, count, i);
    ReadBcsLines(tokens, p, count);
    ReadBcsEnd(tokens, p, count);
  }

  /** Lines 40-65: the `nodes` command sets the count and a fresh array holding the node lines read. */
  method ImportNodes(frame: Frame, tokens: seq<Token>, p: nat, count: int) returns (next: nat)
    requires p <= |tokens|
    modifies frame
    ensures var lines := ReadNodes(tokens, p, count);
      next == lines.next && fresh(frame.nodes) && Holds(frame.nodeCount, frame.nodes, Some(Section(count, lines.items)))
    ensures frame.elements == old(frame.elements) && frame.elementCount == old(frame.elementCount)
    ensures frame.bconditions == old(frame.bconditions) && frame.bcCount == old(frame.bcCount)
  {
    frame.nodeCount := count;
    var nodes := new Node[if count < 0 then 0 else count];
    frame.nodes := nodes;
    next := FillNodes(nodes, tokens, p, count);
  }

  /** Lines 66-94: the `elements` command sets the count and a fresh array holding the element lines read. */
  method ImportElements(frame: Frame, tokens: seq<Token>, p: nat, count: int) returns (next: nat)
    requires p <= |tokens|
    modifies frame
    ensures var lines := ReadElements(tokens, p, count);
      next == lines.next && fresh(frame.elements) && Holds(frame.elementCount, frame.elements, Some(Section(count, lines.items)))
    ensures frame.nodes == old(frame.nodes) && frame.nodeCount == old(frame.nodeCount)
    ensures frame.bconditions == old(frame.bconditions) && frame.bcCount == old(frame.bcCount)
  {
    frame.elementCount := count;
    var elements := new Element[if count < 0 then 0 else count];
    frame.elements := elements;
    next := FillElements(elements, tokens, p, count);
  }

  /** Lines 95-159: the `boundary_conditions` command sets the count and a fresh array holding the lines read. */
  method ImportBcs(frame: Frame, tokens: seq<Token>, p: nat, count: int) returns (next: nat)
    requires p <= |tokens|
    modifies frame
    ensures var lines := ReadBcs(tokens, p, count);
      next == lines.next && fresh(frame.bconditions) && Holds(frame.bcCount, frame.bconditions, Some(Section(count, lines.items)))
    ensures frame.nodes == old(frame.nodes) && frame.nodeCount == old(frame.nodeCount)
    ensures frame.elements == old(frame.elements) && frame.elementCount == old(frame.elementCount)
  {
    frame.bcCount := count;
    var bcs := new BoundaryCondition[if count < 0 then 0 else count];
    frame.bconditions := bcs;
    next := FillBcs(bcs, tokens, p, count);
  }

  /**
   * Lines 9-180: `frame_import`. The status is that of Import; each section
   * the file gave sets its count and a fresh array whose first entries are
   * the lines read; a kind of section the file did not give is left as it was.
   */
  method FrameImport(file: Option<seq<Token>>, frame: Frame) returns (status: int)
    modifies frame
    ensures status == Import(file).status && Stored(frame, Import(file).frame)
    ensures Import(file).frame.nodes.None? ==> frame.nodes == old(frame.nodes) && frame.nodeCount == old(frame.nodeCount)
    ensures Import(file).frame.elements.None? ==> frame.elements == old(frame.elements) && frame.elementCount == old(frame.elementCount)
    ensures Import(file).frame.bcs.None? ==> frame.bconditions == old(frame.bconditions) && frame.bcCount == old(frame.bcCount)
    ensures Import(file).frame.nodes.Some? ==> fresh(frame.nodes)
    ensures Import(file).frame.elements.Some? ==> fresh(frame.elements)
    ensures Import(file).frame.bcs.Some? ==> fresh(frame.bconditions)
  {
    if file.None? {
      return -1;
    }
    var tokens := file.value;
    var p := 0;
    ghost var acc := NothingRead;
    while true
      invariant p <= |tokens| && Run(tokens, p, acc) == Import(file)
      invariant Holds(frame.nodeCount, frame.nodes, acc.nodes)
      invariant Holds(frame.elementCount, frame.elements, acc.elements)
      invariant Holds(frame.bcCount, frame.bconditions, acc.bcs)
      invariant acc.nodes.None? ==> frame.nodes == old(frame.nodes) && frame.nodeCount == old(frame.nodeCount)
      invariant acc.elements.None? ==> frame.elements == old(frame.elements) && frame.elementCount == old(frame.elementCount)
      invariant acc.bcs.None? ==> frame.bconditions == old(frame.bconditions) && frame.bcCount == old(frame.bcCount)
      invariant acc.nodes.Some? ==> fresh(frame.nodes)
      invariant acc.elements.Some? ==> fresh(frame.elements)
      invariant acc.bcs.Some? ==> fresh(frame.bconditions)
      decreases |tokens| - p
    {
      var check, word, count := ScanHeader(tokens, p);
      if check != 2 {
        return if check != Eof then -1 else 0;
      }
      if word == "nodes" {
        var next := ImportNodes(frame, tokens, p + 2, count);
        acc := acc.(nodes := Some(Section(count, ReadNodes(tokens, p + 2, count).items)));
        p := next;
      } else if word == "elements" {
        var next := ImportElements(frame, tokens, p + 2, count);
        acc := acc.(elements := Some(Section(count, ReadElements(tokens, p + 2, count).items)));
        p := next;
      } else if word == "boundary_conditions" {
        var next := ImportBcs(frame, tokens, p + 2, count);
        acc := acc.(bcs := Some(Section(count, ReadBcs(tokens, p + 2, count).items)));
        p := next;
      } else {
        return -1;
      }
    }
  }

  // ---------------------------------------------------------------------------
  // The sample frame

  /** Lines 202-205: the sample's node positions. */
  const SamplePositions := [Vec3(0.0, 0.0, 0.0), Vec3(-1.0, 0.0, 0.0), Vec3(0.0, -1.0, 0.0), Vec3(1.0, 0.0, 0.0)]

  /**
   * Lines 186-190 and 208-210: three beams from node 0 to nodes 1-3, E = 200
   * and G = 80; the radius constant is an int initialised from 1.0f, so 1.
   */
  const SampleElements := [Element(0, 1, 200.0, 80.0, 1.0), Element(0, 2, 200.0, 80.0, 1.0), Element(0, 3, 200.0, 80.0, 1.0)]

  /** Lines 215-230: a force of 700 along x at node 0, and zero displacement at nodes 1-3. */
  const SampleConditions := [BoundaryCondition(0, Force, Vec3(700.0, 0.0, 0.0)), BoundaryCondition(1, Displacement, Zero),
                             BoundaryCondition(2, Displacement, Zero), BoundaryCondition(3, Displacement, Zero)]

  /** Lines 196 and 201-204: four fresh nodes; only their positions are set. */
  method SampleNodes() returns (nodes: array<Node>)
    ensures fresh(nodes) && nodes.Length == 4
    ensures forall i | 0 <= i < 4 :: nodes[i].pos == SamplePositions[i]
  {
    nodes := new Node[4];
    nodes[0] := nodes[0].(pos := Vec3(0.0, 0.0, 0.0));
    nodes[1] := nodes[1].(pos := Vec3(-1.0, 0.0, 0.0));
    nodes[2] := nodes[2].(pos := Vec3(0.0, -1.0, 0.0));
    nodes[3] := nodes[3].(pos := Vec3(1.0, 0.0, 0.0));
  }

  /**
   * Lines 183-231: `frame_create_sample`: four nodes, three elements, four
   * boundary conditions in fresh arrays. Only the nodes' positions are set.
   */
  method CreateSample(frame: Frame)
    modifies frame
    ensures frame.nodeCount == 4 && frame.elementCount == 3 && frame.bcCount == 4
    ensures fresh(frame.nodes) && fresh(frame.elements) && fresh(frame.bconditions)
    ensures frame.nodes.Length == 4 && forall i | 0 <= i < 4 :: frame.nodes[i].pos == SamplePositions[i]
    ensures frame.elements[..] == SampleElements && frame.bconditions[..] == SampleConditions
    ensures frame.Valid() && frame.ElementsInRange()
  {
    var elasticModulus, shearModulus, radius := 200.0, 80.0, 1;
    var nodes := SampleNodes();
    var elements := new Element[] [Element(0, 1, elasticModulus, shearModulus, radius as real),
                                   Element(0, 2, elasticModulus, shearModulus, radius as real),
                                   Element(0, 3, elasticModulus, shearModulus, radius as real)];
    // Conditions 1-3 fix the displacement of the outer nodes; condition 0 is the applied force.
    var bconditions := new BoundaryCondition[] [BoundaryCondition(0, Force, Vec3(700.0, 0.0, 0.0)),
                                                BoundaryCondition(1, Displacement, Vec3(0.0, 0.0, 0.0)),
                                                BoundaryCondition(2, Displacement, Vec3(0.0, 0.0, 0.0)),
                                                BoundaryCondition(3, Displacement, Vec3(0.0, 0.0, 0.0))];
    frame.nodeCount, frame.elementCount, frame.bcCount := 4, 3, 4;
    frame.nodes, frame.elements, frame.bconditions := nodes, elements, bconditions;
  }
}
