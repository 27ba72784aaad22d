/**
 * The graph of a redesigned network: one node per accepted row, named
 * `<line>_<index>` after its place along its line, and an edge between each
 * two consecutive nodes of a line, coloured by the line. Station names are
 * not read.
 */
module RedesignGraph {
  import opened Wrappers
  import opened MetroData

  /** An accepted row: the position stored for it, filed under its line. */
  type Point = Filed<Position>

  /**
   * What a row contributes: nothing when its line, latitude or longitude
   * failed or when it lies outside the Montreal box, else its point, with
   * the longitude made negative.
   */
  function RedesignPoint(r: RawRow): (p: Option<Point>)
    ensures p.Some? <==>
      && r.line.Some? && r.latitude.Some? && r.longitude.Some?
      && InBox(r.latitude.value, NegAbs(r.longitude.value))
    ensures p.Some? ==> var pos := p.value.value; InBox(pos.lat, pos.lon) && pos.lon <= 0.0
    ensures p.Some? ==> p.value.line == r.line.value
    ensures p.Some? ==> var pos := p.value.value; pos.lat == r.latitude.value && (pos.lon == r.longitude.value || pos.lon == -r.longitude.value)
  {
    if r.line.Some? && r.latitude.Some? && r.longitude.Some? then
      var lat := r.latitude.value;
      var lon := NegAbs(r.longitude.value);
      if InBox(lat, lon) then Some(Filed(r.line.value, Position(lon, lat))) else None
    else None
  }

  /** The accepted rows, in file order. */
  function Points(rows: seq<RawRow>): (points: seq<Point>)
    ensures |points| <= |rows|
    decreases |rows|
  {
    if rows == [] then []
    else
      var init := rows[..|rows| - 1];
      match RedesignPoint(rows[|rows| - 1])
      case None => Points(init)
      case Some(p) => Points(init) + [p]
  }

  /** A point is kept exactly when some row yields it. */
  lemma {:induction false} PointsAccepted(rows: seq<RawRow>)
    ensures forall p :: p in Points(rows) <==> exists r :: r in rows && RedesignPoint(r) == Some(p)
    decreases |rows|
  {
    if rows != [] {
      var init := rows[..|rows| - 1];
      PointsAccepted(init);
      assert forall r :: r in rows <==> r in init || r == rows[|rows| - 1];
    }
  }

  /** The character of a decimal digit. */
  function DigitChar(d: nat): (c: char)
    requires d < 10
    ensures '0' <= c <= '9' && c as int - '0' as int == d
  {
    (('0' as int) + d) as char
  }

  predicate IsDigits(s: string) {
    forall k :: 0 <= k < |s| ==> '0' <= s[k] <= '9'
  }

  /** `str(n)`: the decimal numeral of `n`, without leading zeros. */
  function Digits(n: nat): (s: string)
    ensures |s| > 0 && IsDigits(s)
    decreases n
  {
    if n < 10 then [DigitChar(n)] else Digits(n / 10) + [DigitChar(n % 10)]
  }

  /** The number a decimal numeral denotes. */
  function DigitsValue(s: string): nat
    requires IsDigits(s)
    decreases |s|
  {
    if s == [] then 0 else DigitsValue(s[..|s| - 1]) * 10 + (s[|s| - 1] as int - '0' as int)
  }

  /** Reading back a numeral gives the number written. */
  lemma {:induction false} DigitsRoundTrip(n: nat)
    ensures DigitsValue(Digits(n)) == n
    decreases n
  {
    if n >= 10 {
      var s := Digits(n);
      assert s[..|s| - 1] == Digits(n / 10);
      DigitsRoundTrip(n / 10);
    } else {
      assert Digits(n)[..0] == [];
    }
  }

  /** The node id of the `i`-th point of `line`: `f"{line}_{i}"`. */
  function NodeName(line: string, i: nat): (name: string)
    ensures |name| > |line| && name[|line|] == '_'
  {
    line + "_" + Digits(i)
  }

  /** An id reads back as its parts: the line name, then `_`, then the numeral of the index. */
  lemma NodeNameReadsBack(line: string, i: nat)
    ensures NodeName(line, i)[..|line|] == line
    ensures IsDigits(NodeName(line, i)[|line| + 1..]) && DigitsValue(NodeName(line, i)[|line| + 1..]) == i
  {
    DigitsRoundTrip(i);
    assert NodeName(line, i)[|line| + 1..] == Digits(i);
  }

  /**
   * Different points get different ids: as the numeral holds no `_`, the
   * last `_` of an id separates its line from its index.
   */
  lemma NodeNameInjective(l1: string, i1: nat, l2: string, i2: nat)
    requires NodeName(l1, i1) == NodeName(l2, i2)
    ensures l1 == l2 && i1 == i2
  {
    var x := NodeName(l1, i1);
    var d1, d2 := Digits(i1), Digits(i2);
    assert |d1| == |d2|;
    assert l1 == x[..|l1|] == l2;
    assert d1 == x[|l1| + 1..] == d2;
    DigitsRoundTrip(i1);
    DigitsRoundTrip(i2);
  }

  /** The edge between the `(i - 1)`-th and the `i`-th node of `line`. */
  function Link(line: string, i: nat): Edge
    requires i >= 1
  {
    EdgeOf(NodeName(line, i - 1), NodeName(line, i))
  }

  /** An id that is an end of a link belongs to the link's line and is one of its two places. */
  lemma NameOnLink(line: string, i: nat, x: string, j: nat)
    requires i >= 1 && NodeName(x, j) in Link(line, i)
    ensures x == line && (j == i - 1 || j == i)
  {
    if NodeName(x, j) == NodeName(line, i - 1) {
      NodeNameInjective(x, j, line, i - 1);
    } else {
      NodeNameInjective(x, j, line, i);
    }
  }

  /** Links of different lines, or at different places, are different edges. */
  lemma LinkInjective(l1: string, i1: nat, l2: string, i2: nat)
    requires i1 >= 1 && i2 >= 1 && Link(l1, i1) == Link(l2, i2)
    ensures l1 == l2 && i1 == i2
  {
    NameOnLink(l2, i2, l1, i1);
    NameOnLink(l2, i2, l1, i1 - 1);
  }

  /** `nodes` after the nodes of the first `n` points of `line`. */
  function LineNodes(nodes: map<string, Position>, line: string, coords: seq<Position>, n: nat): map<string, Position>
    requires n <= |coords|
  {
    if n == 0 then nodes else LineNodes(nodes, line, coords, n - 1)[NodeName(line, n - 1) := coords[n - 1]]
  }

  /** `edges` after the links among the first `n` points of `line`, coloured `c`. */
  function LineEdges(edges: map<Edge, Colour>, line: string, n: nat, c: Colour): map<Edge, Colour> {
    if n <= 1 then edges else LineEdges(edges, line, n - 1, c)[Link(line, n - 1) := c]
  }

  /** The nodes after adding, in the order of `lines`, the points of each line. */
  function AllNodes(lines: seq<string>, byLine: map<string, seq<Position>>): map<string, Position>
    requires forall l :: l in lines ==> l in byLine
    decreases |lines|
  {
    if lines == [] then map[]
    else
      var last := lines[|lines| - 1];
      LineNodes(AllNodes(lines[..|lines| - 1], byLine), last, byLine[last], |byLine[last]|)
  }

  /** The edges after adding, in the order of `lines`, the links of each line. */
  function AllEdges(lines: seq<string>, byLine: map<string, seq<Position>>): map<Edge, Colour>
    requires forall l :: l in lines ==> l in byLine
    decreases |lines|
  {
    if lines == [] then map[]
    else
      var last := lines[|lines| - 1];
      LineEdges(AllEdges(lines[..|lines| - 1], byLine), last, |byLine[last]|, LineColour(last))
  }

  /** The graph `build_redesign_graph` returns for `rows`. */
  function RedesignSpec(rows: seq<RawRow>): StationGraph {
    var points := Points(rows);
    var lines := FirstSeen(Lines(points));
    StationGraph(AllNodes(lines, GroupByLine(points)), AllEdges(lines, GroupByLine(points)))
  }

  /** The row loop: fills `positions_by_line`, with its key order, from the accepted rows. */
  method GroupPoints(rows: seq<RawRow>) returns (lineOrder: seq<string>, positionsByLine: map<string, seq<Position>>)
    ensures lineOrder == FirstSeen(Lines(Points(rows)))
    ensures positionsByLine == GroupByLine(Points(rows))
  {
    positionsByLine := map[];
    lineOrder := [];
    ghost var points: seq<Point> := [];
    var i := 0;
    while i < |rows|
      invariant 0 <= i <= |rows|
      invariant points == Points(rows[..i])
      invariant lineOrder == FirstSeen(Lines(points))
      invariant positionsByLine == GroupByLine(points)
    {
      var row := rows[i];
      assert rows[..i + 1][..i] == rows[..i];
      assert Points(rows[..i + 1]) == if RedesignPoint(row).Some? then points + [RedesignPoint(row).value] else points;
      if row.line.Some? && row.latitude.Some? && row.longitude.Some? {
        var line := row.line.value;
        var lat := row.latitude.value;
        var lon := NegAbs(row.longitude.value);
        if InBox(lat, lon) {
          ghost var p := Filed(line, Position(lon, lat));
          FiledAppended(points, p);
          // setdefault(line, []).append((lon, lat)); a new key goes last in the key order
          var coords := if line in positionsByLine then positionsByLine[line] else [];
          if line !in positionsByLine {
            lineOrder := lineOrder + [line];
          }
          positionsByLine := positionsByLine[line := coords + [Position(lon, lat)]];
          points := points + [p];
        }
      }
      i := i + 1;
    }
    assert rows[..i] == rows;
  }

  /**
   * The line loop: for every line in key order, a node per position and,
   * from the second on, an edge from the previous node.
   */
  method JoinPoints(lineOrder: seq<string>, positionsByLine: map<string, seq<Position>>)
    returns (nodes: map<string, Position>, edges: map<Edge, Colour>)
    requires forall l :: l in lineOrder ==> l in positionsByLine
    ensures nodes == AllNodes(lineOrder, positionsByLine)
    ensures edges == AllEdges(lineOrder, positionsByLine)
  {
    nodes := map[];
    edges := map[];
    var k := 0;
    while k < |lineOrder|
      invariant 0 <= k <= |lineOrder|
      invariant nodes == AllNodes(lineOrder[..k], positionsByLine)
      invariant edges == AllEdges(lineOrder[..k], positionsByLine)
    {
      var line := lineOrder[k];
      var coords := positionsByLine[line];
      var colour := LineColour(line);
      ghost var nodesBefore, edgesBefore := nodes, edges;
      var prev: Option<string> := None;
      var i := 0;
      while i < |coords|
        invariant 0 <= i <= |coords|
        invariant nodes == LineNodes(nodesBefore, line, coords, i)
        invariant edges == LineEdges(edgesBefore, line, i, colour)
        invariant prev == if i == 0 then None else Some(NodeName(line, i - 1))
      {
        var nodeId := NodeName(line, i);
        nodes := nodes[nodeId := coords[i]];
        if prev.Some? && prev.value != "" {
          edges := edges[EdgeOf(prev.value, nodeId) := colour];
        }
        prev := Some(nodeId);
        i := i + 1;
      }
      assert lineOrder[..k + 1][..k] == lineOrder[..k];
      k := k + 1;
    }
    assert lineOrder[..k] == lineOrder;
  }

  /** `build_redesign_graph`, once the CSV has been read into rows. */
  method BuildRedesignGraph(rows: seq<RawRow>) returns (g: StationGraph)
    ensures g == RedesignSpec(rows)
  {
    var lineOrder, positionsByLine := GroupPoints(rows);
    var nodes, edges := JoinPoints(lineOrder, positionsByLine);
    g := StationGraph(nodes, edges);
  }

  /** The test on the previous id always passes once there is one: no node id is empty. */
  lemma PreviousIdIsTruthy(line: string, i: nat)
    ensures NodeName(line, i) != ""
  {
    assert |NodeName(line, i)| > 0;
  }

  /** `x` is the id of one of the first `n` points of `line`. */
  predicate NamedOn(x: string, line: string, n: nat) {
    exists i :: 0 <= i < n && x == NodeName(line, i)
  }

  /** `e` links two of the first `n` points of `line`. */
  predicate LinkedOn(e: Edge, line: string, n: nat) {
    exists i :: 1 <= i < n && e == Link(line, i)
  }

  lemma NamedOnSnoc(x: string, line: string, n: nat)
    requires n > 0
    ensures NamedOn(x, line, n) <==> NamedOn(x, line, n - 1) || x == NodeName(line, n - 1)
  {
    if NamedOn(x, line, n) {
      var i :| 0 <= i < n && x == NodeName(line, i);
      if i < n - 1 {
        assert NamedOn(x, line, n - 1);
      }
    }
    if x == NodeName(line, n - 1) {
      assert NamedOn(x, line, n);
    }
  }

  lemma LinkedOnSnoc(e: Edge, line: string, n: nat)
    requires n > 1
    ensures LinkedOn(e, line, n) <==> LinkedOn(e, line, n - 1) || e == Link(line, n - 1)
  {
    if LinkedOn(e, line, n) {
      var i :| 1 <= i < n && e == Link(line, i);
      if i < n - 1 {
        assert LinkedOn(e, line, n - 1);
      }
    }
    if e == Link(line, n - 1) {
      assert LinkedOn(e, line, n);
    }
  }

  /** Adding the first `n` points of `line` makes exactly their ids nodes. */
  lemma {:induction false} LineNodesDomain(nodes: map<string, Position>, line: string, coords: seq<Position>, n: nat)
    requires n <= |coords|
    ensures forall x :: x in LineNodes(nodes, line, coords, n) <==> x in nodes || NamedOn(x, line, n)
    decreases n
  {
    if n > 0 {
      LineNodesDomain(nodes, line, coords, n - 1);
      forall x ensures NamedOn(x, line, n) <==> NamedOn(x, line, n - 1) || x == NodeName(line, n - 1) {
        NamedOnSnoc(x, line, n);
      }
    }
  }

  /**
   * Adding the first `n` points of `line`: each id sits at its point's
   * position; every other node stays where it was.
   */
  lemma {:induction false} LineNodesValues(nodes: map<string, Position>, line: string, coords: seq<Position>, n: nat)
    requires n <= |coords|
    ensures forall i :: 0 <= i < n ==>
      NodeName(line, i) in LineNodes(nodes, line, coords, n) && LineNodes(nodes, line, coords, n)[NodeName(line, i)] == coords[i]
    ensures forall x :: x in nodes && !NamedOn(x, line, n) ==>
      x in LineNodes(nodes, line, coords, n) && LineNodes(nodes, line, coords, n)[x] == nodes[x]
    decreases n
  {
    if n > 0 {
      LineNodesValues(nodes, line, coords, n - 1);
      forall i | 0 <= i < n - 1 ensures NodeName(line, i) != NodeName(line, n - 1) {
        if NodeName(line, i) == NodeName(line, n - 1) {
          NodeNameInjective(line, i, line, n - 1);
        }
      }
      forall x | x in nodes && !NamedOn(x, line, n) ensures !NamedOn(x, line, n - 1) && x != NodeName(line, n - 1) {
        NamedOnSnoc(x, line, n);
      }
    }
  }

  /** Adding the links among the first `n` points of `line` makes exactly them new edges. */
  lemma {:induction false} LineEdgesDomain(edges: map<Edge, Colour>, line: string, n: nat, c: Colour)
    ensures forall e :: e in LineEdges(edges, line, n, c) <==> e in edges || LinkedOn(e, line, n)
    decreases n
  {
    if n > 1 {
      LineEdgesDomain(edges, line, n - 1, c);
      forall e ensures LinkedOn(e, line, n) <==> LinkedOn(e, line, n - 1) || e == Link(line, n - 1) {
        LinkedOnSnoc(e, line, n);
      }
    }
  }

  /**
   * Adding the links among the first `n` points of `line`: each is
   * coloured `c`; every other edge keeps its colour.
   */
  lemma {:induction false} LineEdgesValues(edges: map<Edge, Colour>, line: string, n: nat, c: Colour)
    ensures forall i :: 1 <= i < n ==> Link(line, i) in LineEdges(edges, line, n, c) && LineEdges(edges, line, n, c)[Link(line, i)] == c
    ensures forall e :: e in edges && !LinkedOn(e, line, n) ==>
      e in LineEdges(edges, line, n, c) && LineEdges(edges, line, n, c)[e] == edges[e]
    decreases n
  {
    if n > 1 {
      LineEdgesValues(edges, line, n - 1, c);
      forall e | e in edges && !LinkedOn(e, line, n) ensures !LinkedOn(e, line, n - 1) && e != Link(line, n - 1) {
        LinkedOnSnoc(e, line, n);
      }
    }
  }

  lemma NotLastInInit(lines: seq<string>, l: string)
    requires l in lines && l != lines[|lines| - 1]
    ensures l in lines[..|lines| - 1]
  {
    var k :| 0 <= k < |lines| && lines[k] == l;
    assert lines[..|lines| - 1][k] == l;
  }

  /** `x` is the id of some point of some line of `lines`. */
  predicate NamedOnSome(x: string, lines: seq<string>, byLine: map<string, seq<Position>>)
    requires forall l :: l in lines ==> l in byLine
  {
    exists k :: 0 <= k < |lines| && NamedOn(x, lines[k], |byLine[lines[k]]|)
  }

  /** `e` links two consecutive points of some line of `lines`. */
  predicate LinkedOnSome(e: Edge, lines: seq<string>, byLine: map<string, seq<Position>>)
    requires forall l :: l in lines ==> l in byLine
  {
    exists k :: 0 <= k < |lines| && LinkedOn(e, lines[k], |byLine[lines[k]]|)
  }

  lemma NamedOnSomeSnoc(x: string, lines: seq<string>, byLine: map<string, seq<Position>>)
    requires lines != [] && forall l :: l in lines ==> l in byLine
    ensures var n := |lines| - 1;
      NamedOnSome(x, lines, byLine) <==> NamedOnSome(x, lines[..n], byLine) || NamedOn(x, lines[n], |byLine[lines[n]]|)
  {
    var n := |lines| - 1;
    var init := lines[..n];
    if NamedOnSome(x, lines, byLine) {
      var k :| 0 <= k < |lines| && NamedOn(x, lines[k], |byLine[lines[k]]|);
      if k < n {
        assert init[k] == lines[k];
        assert NamedOnSome(x, init, byLine);
      }
    }
    NamedOnSomeGrows(x, lines, byLine);
  }

  /** An id of the earlier lines, or of the last line, is an id of some line. */
  lemma NamedOnSomeGrows(x: string, lines: seq<string>, byLine: map<string, seq<Position>>)
    requires lines != [] && forall l :: l in lines ==> l in byLine
    ensures var n := |lines| - 1;
      NamedOnSome(x, lines[..n], byLine) || NamedOn(x, lines[n], |byLine[lines[n]]|) ==> NamedOnSome(x, lines, byLine)
  {
    var n := |lines| - 1;
    var init := lines[..n];
    if NamedOnSome(x, init, byLine) {
      var k :| 0 <= k < n && NamedOn(x, init[k], |byLine[init[k]]|);
      assert init[k] == lines[k];
      assert NamedOnSome(x, lines, byLine);
    }
    if NamedOn(x, lines[n], |byLine[lines[n]]|) {
      assert NamedOnSome(x, lines, byLine);
    }
  }

  lemma LinkedOnSomeSnoc(e: Edge, lines: seq<string>, byLine: map<string, seq<Position>>)
    requires lines != [] && forall l :: l in lines ==> l in byLine
    ensures var n := |lines| - 1;
      LinkedOnSome(e, lines, byLine) <==> LinkedOnSome(e, lines[..n], byLine) || LinkedOn(e, lines[n], |byLine[lines[n]]|)
  {
    var n := |lines| - 1;
    var init := lines[..n];
    if LinkedOnSome(e, lines, byLine) {
      var k :| 0 <= k < |lines| && LinkedOn(e, lines[k], |byLine[lines[k]]|);
      if k < n {
        assert init[k] == lines[k];
        assert LinkedOnSome(e, init, byLine);
      }
    }
    LinkedOnSomeGrows(e, lines, byLine);
  }

  /** A link of the earlier lines, or of the last line, is a link of some line. */
  lemma LinkedOnSomeGrows(e: Edge, lines: seq<string>, byLine: map<string, seq<Position>>)
    requires lines != [] && forall l :: l in lines ==> l in byLine
    ensures var n := |lines| - 1;
      LinkedOnSome(e, lines[..n], byLine) || LinkedOn(e, lines[n], |byLine[lines[n]]|) ==> LinkedOnSome(e, lines, byLine)
  {
    var n := |lines| - 1;
    var init := lines[..n];
    if LinkedOnSome(e, init, byLine) {
      var k :| 0 <= k < n && LinkedOn(e, init[k], |byLine[init[k]]|);
      assert init[k] == lines[k];
      assert LinkedOnSome(e, lines, byLine);
    }
    if LinkedOn(e, lines[n], |byLine[lines[n]]|) {
      assert LinkedOnSome(e, lines, byLine);
    }
  }

  /**
   * After all lines the nodes are exactly the ids of the points, each at
   * its own position: no line overwrites another's node.
   */
  lemma {:induction false} AllNodesSpec(lines: seq<string>, byLine: map<string, seq<Position>>)
    requires forall l :: l in lines ==> l in byLine
    ensures forall x :: x in AllNodes(lines, byLine) <==> NamedOnSome(x, lines, byLine)
    ensures forall l, i :: l in lines && 0 <= i < |byLine[l]| ==>
      NodeName(l, i) in AllNodes(lines, byLine) && AllNodes(lines, byLine)[NodeName(l, i)] == byLine[l][i]
    decreases |lines|
  {
    if lines != [] {
      var n := |lines| - 1;
      var init := lines[..n];
      var last := lines[n];
      assert forall k :: 0 <= k < n ==> init[k] == lines[k];
      AllNodesSpec(init, byLine);
      LineNodesDomain(AllNodes(init, byLine), last, byLine[last], |byLine[last]|);
      LineNodesValues(AllNodes(init, byLine), last, byLine[last], |byLine[last]|);
      var after := AllNodes(lines, byLine);
      forall x ensures x in after <==> NamedOnSome(x, lines, byLine) {
        NamedOnSomeSnoc(x, lines, byLine);
      }
      forall l, i | l in lines && 0 <= i < |byLine[l]|
        ensures NodeName(l, i) in after && after[NodeName(l, i)] == byLine[l][i]
      {
        if l != last {
          NotLastInInit(lines, l);
          if NamedOn(NodeName(l, i), last, |byLine[last]|) {
            var j :| 0 <= j < |byLine[last]| && NodeName(l, i) == NodeName(last, j);
            NodeNameInjective(l, i, last, j);
          }
        }
      }
    }
  }

  /**
   * After all lines the edges are exactly the links between consecutive
   * points of a line, each in its own line's colour: no edge joins two
   * lines, and no line recolours another's edge.
   */
  lemma {:induction false} AllEdgesSpec(lines: seq<string>, byLine: map<string, seq<Position>>)
    requires forall l :: l in lines ==> l in byLine
    ensures forall e :: e in AllEdges(lines, byLine) <==> LinkedOnSome(e, lines, byLine)
    ensures forall l, i :: l in lines && 1 <= i < |byLine[l]| ==>
      Link(l, i) in AllEdges(lines, byLine) && AllEdges(lines, byLine)[Link(l, i)] == LineColour(l)
    decreases |lines|
  {
    if lines != [] {
      var n := |lines| - 1;
      var init := lines[..n];
      var last := lines[n];
      assert forall k :: 0 <= k < n ==> init[k] == lines[k];
      AllEdgesSpec(init, byLine);
      LineEdgesDomain(AllEdges(init, byLine), last, |byLine[last]|, LineColour(last));
      LineEdgesValues(AllEdges(init, byLine), last, |byLine[last]|, LineColour(last));
      var after := AllEdges(lines, byLine);
      forall e ensures e in after <==> LinkedOnSome(e, lines, byLine) {
        LinkedOnSomeSnoc(e, lines, byLine);
      }
      forall l, i | l in lines && 1 <= i < |byLine[l]|
        ensures Link(l, i) in after && after[Link(l, i)] == LineColour(l)
      {
        if l != last {
          NotLastInInit(lines, l);
          if LinkedOn(Link(l, i), last, |byLine[last]|) {
            var j :| 1 <= j < |byLine[last]| && Link(l, i) == Link(last, j);
            LinkInjective(l, i, last, j);
          }
        }
      }
    }
  }

  /**
   * The nodes of a redesign graph: the id `<line>_<i>` of the `i`-th
   * accepted row of every line, and nothing else.
   */
  lemma RedesignNodes(rows: seq<RawRow>)
    ensures var points := Points(rows);
      forall x :: x in RedesignSpec(rows).nodes <==>
        exists l, i :: l in Lines(points) && 0 <= i < |FiledOn(points, l)| && x == NodeName(l, i)
  {
    var points := Points(rows);
    var lines := FirstSeen(Lines(points));
    var byLine := GroupByLine(points);
    GroupByLineIsFilter(points);
    AllNodesSpec(lines, byLine);
    forall x ensures NamedOnSome(x, lines, byLine) <==>
      exists l, i :: l in Lines(points) && 0 <= i < |FiledOn(points, l)| && x == NodeName(l, i)
    {
      if exists l, i :: l in Lines(points) && 0 <= i < |FiledOn(points, l)| && x == NodeName(l, i) {
        var l, i :| l in Lines(points) && 0 <= i < |FiledOn(points, l)| && x == NodeName(l, i);
        var k := IndexIn(lines, l);
        assert NamedOn(x, lines[k], |byLine[lines[k]]|);
      }
    }
  }

  /** The node of the `i`-th accepted row of a line sits at that row's position. */
  lemma RedesignNodePositions(rows: seq<RawRow>)
    ensures var points := Points(rows);
      forall l, i :: l in Lines(points) && 0 <= i < |FiledOn(points, l)| ==>
        NodeName(l, i) in RedesignSpec(rows).nodes && RedesignSpec(rows).nodes[NodeName(l, i)] == FiledOn(points, l)[i]
  {
    var points := Points(rows);
    GroupByLineIsFilter(points);
    AllNodesSpec(FirstSeen(Lines(points)), GroupByLine(points));
  }

  /**
   * The edges of a redesign graph: exactly the links between the
   * `(i - 1)`-th and the `i`-th accepted row of every line; none joins two
   * lines.
   */
  lemma RedesignEdges(rows: seq<RawRow>)
    ensures var points := Points(rows);
      forall e :: e in RedesignSpec(rows).edges <==>
        exists l, i :: l in Lines(points) && 1 <= i < |FiledOn(points, l)| && e == Link(l, i)
  {
    var points := Points(rows);
    var lines := FirstSeen(Lines(points));
    var byLine := GroupByLine(points);
    GroupByLineIsFilter(points);
    AllEdgesSpec(lines, byLine);
    forall e ensures LinkedOnSome(e, lines, byLine) <==>
      exists l, i :: l in Lines(points) && 1 <= i < |FiledOn(points, l)| && e == Link(l, i)
    {
      if exists l, i :: l in Lines(points) && 1 <= i < |FiledOn(points, l)| && e == Link(l, i) {
        var l, i :| l in Lines(points) && 1 <= i < |FiledOn(points, l)| && e == Link(l, i);
        var k := IndexIn(lines, l);
        assert LinkedOn(e, lines[k], |byLine[lines[k]]|);
      }
    }
  }

  /** Every link of a line carries that line's colour. */
  lemma RedesignEdgeColours(rows: seq<RawRow>)
    ensures var points := Points(rows);
      forall l, i :: l in Lines(points) && 1 <= i < |FiledOn(points, l)| ==>
        Link(l, i) in RedesignSpec(rows).edges && RedesignSpec(rows).edges[Link(l, i)] == LineColour(l)
  {
    var points := Points(rows);
    GroupByLineIsFilter(points);
    AllEdgesSpec(FirstSeen(Lines(points)), GroupByLine(points));
  }
}
