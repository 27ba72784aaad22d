/**
 * The graph of the current metro: one node per station (placed where the
 * station was last seen), and along every line an edge between each two
 * consecutive stations, coloured by the line.
 */
module MetroGraph {
  import opened Wrappers
  import opened MetroData

  /** An accepted row: its line, its station and the position stored for it. */
  datatype Stop = Stop(line: string, station: string, pos: Position)

  /**
   * What a row contributes: nothing when one of its four fields failed or
   * when it lies outside the Montreal box, else its stop, with the
   * longitude made negative.
   */
  function MetroStop(r: RawRow): (s: Option<Stop>)
    ensures s.Some? <==>
      && r.line.Some? && r.station.Some? && r.latitude.Some? && r.longitude.Some?
      && InBox(r.latitude.value, NegAbs(r.longitude.value))
    ensures s.Some? ==> InBox(s.value.pos.lat, s.value.pos.lon) && s.value.pos.lon <= 0.0
    ensures s.Some? ==> s.value.line == r.line.value && s.value.station == r.station.value
    ensures s.Some? ==> s.value.pos.lat == r.latitude.value && (s.value.pos.lon == r.longitude.value || s.value.pos.lon == -r.longitude.value)
  {
    if r.line.Some? && r.station.Some? && r.latitude.Some? && r.longitude.Some? then
      var lat := r.latitude.value;
      var lon := NegAbs(r.longitude.value);
      if InBox(lat, lon) then Some(Stop(r.line.value, r.station.value, Position(lon, lat))) else None
    else None
  }

  /** The accepted rows, in file order. Rejected rows leave no trace. */
  function MetroStops(rows: seq<RawRow>): (stops: seq<Stop>)
    ensures |stops| <= |rows|
    decreases |rows|
  {
    if rows == [] then []
    else
      var init := rows[..|rows| - 1];
      match MetroStop(rows[|rows| - 1])
      case None => MetroStops(init)
      case Some(s) => MetroStops(init) + [s]
  }

  /** A stop is kept exactly when some row yields it. */
  lemma {:induction false} StopsAccepted(rows: seq<RawRow>)
    ensures forall s :: s in MetroStops(rows) <==> exists r :: r in rows && MetroStop(r) == Some(s)
    decreases |rows|
  {
    if rows != [] {
      var init := rows[..|rows| - 1];
      StopsAccepted(init);
      assert forall r :: r in rows <==> r in init || r == rows[|rows| - 1];
    }
  }

  /** Each stop's station filed under its line: what `stations_by_line` is filled from. */
  function Filing(stops: seq<Stop>): (filed: seq<Filed<string>>)
    ensures |filed| == |stops|
  {
    seq(|stops|, i requires 0 <= i < |stops| => Filed(stops[i].line, stops[i].station))
  }

  /** Every station with the position of its last accepted row: `station_positions`. */
  function LastPositions(stops: seq<Stop>): map<string, Position>
    decreases |stops|
  {
    if stops == [] then map[]
    else
      var last := stops[|stops| - 1];
      LastPositions(stops[..|stops| - 1])[last.station := last.pos]
  }

  /** The number of consecutive pairs in `p`: the iterations of `range(len(p) - 1)`. */
  function PairCount(p: seq<string>): nat {
    if |p| == 0 then 0 else |p| - 1
  }

  /** `e` joins `p[i]` and `p[i + 1]` for some `i < n`. */
  predicate PairBefore(e: Edge, p: seq<string>, n: nat)
    requires n <= PairCount(p)
  {
    exists i :: 0 <= i < n && e == EdgeOf(p[i], p[i + 1])
  }

  /** `e` joins two consecutive stations of `p`. */
  predicate OnPath(e: Edge, p: seq<string>) {
    PairBefore(e, p, PairCount(p))
  }

  /** `edges` after adding, in order, the edges between `p[i]` and `p[i + 1]` for `i < n`, coloured `c`. */
  function AddPairs(edges: map<Edge, Colour>, p: seq<string>, n: nat, c: Colour): map<Edge, Colour>
    requires n <= PairCount(p)
  {
    if n == 0 then edges else AddPairs(edges, p, n - 1, c)[EdgeOf(p[n - 1], p[n]) := c]
  }

  /** `edges` after adding, line by line in the order of `lines`, the edges along each line's stations. */
  function AddLines(edges: map<Edge, Colour>, lines: seq<string>, byLine: map<string, seq<string>>): map<Edge, Colour>
    requires forall l :: l in lines ==> l in byLine
    decreases |lines|
  {
    if lines == [] then edges
    else
      var last := lines[|lines| - 1];
      var p := byLine[last];
      AddPairs(AddLines(edges, lines[..|lines| - 1], byLine), p, PairCount(p), LineColour(last))
  }

  /** The graph `build_metro_graph` returns for `rows`. */
  function MetroSpec(rows: seq<RawRow>): StationGraph {
    var stops := MetroStops(rows);
    var filed := Filing(stops);
    StationGraph(LastPositions(stops), AddLines(map[], FirstSeen(Lines(filed)), GroupByLine(filed)))
  }

  /** The index of the last stop at `station`, if any. */
  function LastAt(stops: seq<Stop>, station: string): (r: Option<nat>)
    ensures r.Some? ==> r.value < |stops| && stops[r.value].station == station
    ensures r.Some? ==> forall k :: r.value < k < |stops| ==> stops[k].station != station
    ensures r.None? <==> forall k :: 0 <= k < |stops| ==> stops[k].station != station
    decreases |stops|
  {
    if stops == [] then None
    else if stops[|stops| - 1].station == station then Some(|stops| - 1)
    else LastAt(stops[..|stops| - 1], station)
  }

  /** The index of the last line in `lines` along which `e` joins two consecutive stations, if any. */
  function LastLineWith(e: Edge, lines: seq<string>, byLine: map<string, seq<string>>): (r: Option<nat>)
    requires forall l :: l in lines ==> l in byLine
    ensures r.Some? ==> r.value < |lines| && OnPath(e, byLine[lines[r.value]])
    ensures r.Some? ==> forall k :: r.value < k < |lines| ==> !OnPath(e, byLine[lines[k]])
    ensures r.None? <==> forall k :: 0 <= k < |lines| ==> !OnPath(e, byLine[lines[k]])
    decreases |lines|
  {
    if lines == [] then None
    else if OnPath(e, byLine[lines[|lines| - 1]]) then Some(|lines| - 1)
    else LastLineWith(e, lines[..|lines| - 1], byLine)
  }

  /** What one more accepted row does to the positions and to the filing of its station. */
  lemma StopAppended(stops: seq<Stop>, s: Stop)
    ensures LastPositions(stops + [s]) == LastPositions(stops)[s.station := s.pos]
    ensures Filing(stops + [s]) == Filing(stops) + [Filed(s.line, s.station)]
  {
    assert (stops + [s])[..|stops|] == stops;
  }

  /**
   * One pass of the row loop: a row that yields a stop records its
   * station's position and appends the station to its line's list; any
   * other row changes nothing.
   */
  method GroupRow(row: RawRow, stationPositions: map<string, Position>, lineOrder: seq<string>, stationsByLine: map<string, seq<string>>, ghost stops: seq<Stop>)
    returns (stationPositions': map<string, Position>, lineOrder': seq<string>, stationsByLine': map<string, seq<string>>)
    requires stationPositions == LastPositions(stops)
    requires lineOrder == FirstSeen(Lines(Filing(stops)))
    requires stationsByLine == GroupByLine(Filing(stops))
    ensures var stops' := if MetroStop(row).Some? then stops + [MetroStop(row).value] else stops;
      && stationPositions' == LastPositions(stops')
      && lineOrder' == FirstSeen(Lines(Filing(stops')))
      && stationsByLine' == GroupByLine(Filing(stops'))
  {
    stationPositions', lineOrder', stationsByLine' := stationPositions, lineOrder, stationsByLine;
    if row.line.Some? && row.station.Some? && row.latitude.Some? && row.longitude.Some? {
      var line := row.line.value;
      var station := row.station.value;
      var lat := row.latitude.value;
      var lon := NegAbs(row.longitude.value);
      if InBox(lat, lon) {
        StopAppended(stops, Stop(line, station, Position(lon, lat)));
        FiledAppended(Filing(stops), Filed(line, station));
        stationPositions' := stationPositions[station := Position(lon, lat)];
        // setdefault(line, []).append(station); a new key goes last in the key order
        var stationList := if line in stationsByLine then stationsByLine[line] else [];
        if line !in stationsByLine {
          lineOrder' := lineOrder + [line];
        }
        stationsByLine' := stationsByLine[line := stationList + [station]];
      }
    }
  }

  /**
   * The row loop: fills `station_positions` and `stations_by_line` (with
   * its key order) from the accepted rows.
   */
  method GroupRows(rows: seq<RawRow>) returns (stationPositions: map<string, Position>, lineOrder: seq<string>, stationsByLine: map<string, seq<string>>)
    ensures stationPositions == LastPositions(MetroStops(rows))
    ensures lineOrder == FirstSeen(Lines(Filing(MetroStops(rows))))
    ensures stationsByLine == GroupByLine(Filing(MetroStops(rows)))
  {
    stationsByLine := map[];
    lineOrder := [];
    stationPositions := map[];
    var i := 0;
    while i < |rows|
      invariant 0 <= i <= |rows|
      invariant stationPositions == LastPositions(MetroStops(rows[..i]))
      invariant lineOrder == FirstSeen(Lines(Filing(MetroStops(rows[..i]))))
      invariant stationsByLine == GroupByLine(Filing(MetroStops(rows[..i])))
    {
      assert rows[..i + 1][..i] == rows[..i];
      stationPositions, lineOrder, stationsByLine := GroupRow(rows[i], stationPositions, lineOrder, stationsByLine, MetroStops(rows[..i]));
      i := i + 1;
    }
    assert rows[..i] == rows;
  }

  /** The node loop: one node per entry of `station_positions`, at its position. */
  method PlaceNodes(stationPositions: map<string, Position>) returns (nodes: map<string, Position>)
    ensures nodes == stationPositions
  {
    nodes := map[];
    var remaining := stationPositions.Keys;
    while remaining != {}
      invariant remaining <= stationPositions.Keys
      invariant forall s :: s in nodes <==> s in stationPositions && s !in remaining
      invariant forall s :: s in nodes ==> nodes[s] == stationPositions[s]
      decreases remaining
    {
      var station :| station in remaining;
      nodes := nodes[station := stationPositions[station]];
      remaining := remaining - {station};
    }
  }

  /**
   * The edge loops: for every line in key order, an edge between each two
   * consecutive stations that are both nodes, coloured by the line.
   */
  method JoinStations(nodes: map<string, Position>, lineOrder: seq<string>, stationsByLine: map<string, seq<string>>)
    returns (edges: map<Edge, Colour>)
    requires forall l :: l in lineOrder ==> l in stationsByLine
    requires forall l, s :: l in stationsByLine && s in stationsByLine[l] ==> s in nodes
    ensures edges == AddLines(map[], lineOrder, stationsByLine)
  {
    edges := map[];
    var k := 0;
    while k < |lineOrder|
      invariant 0 <= k <= |lineOrder|
      invariant edges == AddLines(map[], lineOrder[..k], stationsByLine)
    {
      var line := lineOrder[k];
      var stationList := stationsByLine[line];
      var colour := LineColour(line);
      ghost var before := edges;
      var j := 0;
      while j < |stationList| - 1
        invariant 0 <= j <= PairCount(stationList)
        invariant edges == AddPairs(before, stationList, j, colour)
      {
        if stationList[j] in nodes && stationList[j + 1] in nodes {
          edges := edges[EdgeOf(stationList[j], stationList[j + 1]) := colour];
        }
        j := j + 1;
      }
      assert lineOrder[..k + 1][..k] == lineOrder[..k];
      k := k + 1;
    }
    assert lineOrder[..k] == lineOrder;
  }

  /** `build_metro_graph`, once the CSV has been read into rows. */
  method BuildMetroGraph(rows: seq<RawRow>) returns (g: StationGraph)
    ensures g == MetroSpec(rows)
  {
    var stationPositions, lineOrder, stationsByLine := GroupRows(rows);
    var nodes := PlaceNodes(stationPositions);
    GroupByLineIsFilter(Filing(MetroStops(rows)));
    forall l | l in stationsByLine
      ensures forall s :: s in stationsByLine[l] ==> s in nodes
    {
      GroupedStationsArePlaced(MetroStops(rows), l);
    }
    var edges := JoinStations(nodes, lineOrder, stationsByLine);
    g := StationGraph(nodes, edges);
  }

  /** `station_positions` holds exactly the stations of the stops, each at its last stop. */
  lemma {:induction false} LastPositionsAt(stops: seq<Stop>)
    ensures forall s :: s in LastPositions(stops) <==> LastAt(stops, s).Some?
    ensures forall s :: s in LastPositions(stops) ==> LastPositions(stops)[s] == stops[LastAt(stops, s).value].pos
    decreases |stops|
  {
    if stops != [] {
      var init := stops[..|stops| - 1];
      LastPositionsAt(init);
      assert forall s :: LastAt(init, s).Some? ==> init[LastAt(init, s).value] == stops[LastAt(init, s).value];
    }
  }

  /**
   * The nodes of the metro graph are exactly the accepted stations, each
   * one node however often it appears, positioned at its last accepted row
   * (`LastAt` is the last index naming the station).
   */
  lemma MetroNodes(rows: seq<RawRow>)
    ensures forall s :: s in MetroSpec(rows).nodes <==> LastAt(MetroStops(rows), s).Some?
    ensures forall s :: s in MetroSpec(rows).nodes ==>
      MetroSpec(rows).nodes[s] == MetroStops(rows)[LastAt(MetroStops(rows), s).value].pos
  {
    LastPositionsAt(MetroStops(rows));
  }

  /** Every station filed under a line also has a position. */
  lemma {:induction false} GroupedStationsArePlaced(stops: seq<Stop>, line: string)
    ensures forall s :: s in FiledOn(Filing(stops), line) ==> s in LastPositions(stops)
    decreases |stops|
  {
    if stops != [] {
      var init := stops[..|stops| - 1];
      GroupedStationsArePlaced(init, line);
      assert Filing(stops)[..|init|] == Filing(init);
    }
  }

  /**
   * The membership test before each `add_edge` always passes: both
   * stations of every consecutive pair on a line are nodes.
   */
  lemma MembershipCheckHolds(rows: seq<RawRow>)
    ensures var byLine := GroupByLine(Filing(MetroStops(rows)));
      forall l, s :: l in byLine && s in byLine[l] ==> s in MetroSpec(rows).nodes
  {
    var byLine := GroupByLine(Filing(MetroStops(rows)));
    GroupByLineIsFilter(Filing(MetroStops(rows)));
    forall l | l in byLine
      ensures forall s :: s in byLine[l] ==> s in MetroSpec(rows).nodes
    {
      GroupedStationsArePlaced(MetroStops(rows), l);
    }
  }

  /** The pairs before index `n` are those before `n - 1` and the pair ending at `p[n]`. */
  lemma PairBeforeSnoc(e: Edge, p: seq<string>, n: nat)
    requires 0 < n <= PairCount(p)
    ensures PairBefore(e, p, n) <==> PairBefore(e, p, n - 1) || e == EdgeOf(p[n - 1], p[n])
  {
    if PairBefore(e, p, n) {
      var i :| 0 <= i < n && e == EdgeOf(p[i], p[i + 1]);
      if i < n - 1 {
        assert PairBefore(e, p, n - 1);
      }
    }
    if e == EdgeOf(p[n - 1], p[n]) {
      assert PairBefore(e, p, n);
    }
    if PairBefore(e, p, n - 1) {
      var i :| 0 <= i < n - 1 && e == EdgeOf(p[i], p[i + 1]);
      assert PairBefore(e, p, n);
    }
  }

  /**
   * Adding the pairs of `p` before index `n`, seen from one edge `e`: it is
   * new exactly when it is such a pair, and then it has colour `c`;
   * otherwise it keeps its colour.
   */
  lemma {:induction false} AddPairsAt(edges: map<Edge, Colour>, p: seq<string>, n: nat, c: Colour, e: Edge)
    requires n <= PairCount(p)
    ensures e in AddPairs(edges, p, n, c) <==> e in edges || PairBefore(e, p, n)
    ensures e in AddPairs(edges, p, n, c) ==> AddPairs(edges, p, n, c)[e] == if PairBefore(e, p, n) then c else edges[e]
    decreases n
  {
    if n > 0 {
      AddPairsAt(edges, p, n - 1, c, e);
      PairBeforeSnoc(e, p, n);
    }
  }

  /**
   * Adding the lines in order, seen from one edge `e`: it is new exactly
   * when it joins consecutive stations of some line, and then it has the
   * colour of the last such line in that order; otherwise it keeps its
   * colour.
   */
  lemma {:induction false} AddLinesAt(edges: map<Edge, Colour>, lines: seq<string>, byLine: map<string, seq<string>>, e: Edge)
    requires forall l :: l in lines ==> l in byLine
    ensures e in AddLines(edges, lines, byLine) <==> e in edges || LastLineWith(e, lines, byLine).Some?
    ensures e in AddLines(edges, lines, byLine) ==>
      AddLines(edges, lines, byLine)[e] ==
        match LastLineWith(e, lines, byLine)
        case Some(k) => LineColour(lines[k])
        case None => edges[e]
    decreases |lines|
  {
    if lines != [] {
      var n := |lines| - 1;
      var init := lines[..n];
      var p := byLine[lines[n]];
      AddLinesAt(edges, init, byLine, e);
      AddPairsAt(AddLines(edges, init, byLine), p, PairCount(p), LineColour(lines[n]), e);
      match LastLineWith(e, init, byLine)
      case Some(k) => assert init[k] == lines[k];
      case None =>
    }
  }

  /**
   * The edges of the metro graph are exactly the pairs of consecutive
   * stations along the lines.
   */
  lemma MetroEdges(rows: seq<RawRow>)
    ensures var filed := Filing(MetroStops(rows));
      forall e :: e in MetroSpec(rows).edges <==> exists l :: l in Lines(filed) && OnPath(e, FiledOn(filed, l))
  {
    var filed := Filing(MetroStops(rows));
    var lines := FirstSeen(Lines(filed));
    var byLine := GroupByLine(filed);
    var edges := MetroSpec(rows).edges;
    assert edges == AddLines(map[], lines, byLine);
    forall e ensures e in edges <==> exists l :: l in Lines(filed) && OnPath(e, FiledOn(filed, l)) {
      AddLinesAt(map[], lines, byLine, e);
      LastLineOnSomeLine(filed, e);
    }
  }

  /** Some line of the file joins the two stations of `e` exactly when one of the grouped lines does. */
  lemma LastLineOnSomeLine(filed: seq<Filed<string>>, e: Edge)
    ensures var lines := FirstSeen(Lines(filed));
      LastLineWith(e, lines, GroupByLine(filed)).Some? <==> exists l :: l in Lines(filed) && OnPath(e, FiledOn(filed, l))
  {
    var lines := FirstSeen(Lines(filed));
    var byLine := GroupByLine(filed);
    GroupByLineIsFilter(filed);
    if exists l :: l in Lines(filed) && OnPath(e, FiledOn(filed, l)) {
      var l :| l in Lines(filed) && OnPath(e, FiledOn(filed, l));
      var k := IndexIn(lines, l);
      assert OnPath(e, byLine[lines[k]]);
    }
    if LastLineWith(e, lines, byLine).Some? {
      var k := LastLineWith(e, lines, byLine).value;
      assert lines[k] in Lines(filed) && OnPath(e, FiledOn(filed, lines[k]));
    }
  }

  /**
   * Each edge has the colour of the last line, in order of first
   * appearance in the file, that joins its two stations: a later line
   * recolours an edge an earlier one added.
   */
  lemma MetroEdgeColours(rows: seq<RawRow>)
    ensures var filed := Filing(MetroStops(rows)); var lines := FirstSeen(Lines(filed));
      forall e :: e in MetroSpec(rows).edges ==>
        LastLineWith(e, lines, GroupByLine(filed)).Some? &&
        MetroSpec(rows).edges[e] == LineColour(lines[LastLineWith(e, lines, GroupByLine(filed)).value])
  {
    var filed := Filing(MetroStops(rows));
    var lines := FirstSeen(Lines(filed));
    var byLine := GroupByLine(filed);
    var edges := MetroSpec(rows).edges;
    assert edges == AddLines(map[], lines, byLine);
    forall e | e in edges
      ensures LastLineWith(e, lines, byLine).Some? && edges[e] == LineColour(lines[LastLineWith(e, lines, byLine).value])
    {
      AddLinesAt(map[], lines, byLine, e);
    }
  }
}
