/**
 * What the two metro-graph builders share: the rows they read, the
 * acceptance test every row passes through, the line colour table, the
 * graph they produce and the bookkeeping of a dict filled line by line.
 */
module MetroData {
  import opened Wrappers

  /**
   * One CSV row after its fields have been read. A field is `None` when
   * reading or converting it raised (a missing column, a number that does
   * not parse); such a row is skipped. Line names are already stripped and
   * title-cased, station names stripped, decimal commas replaced.
   */
  datatype RawRow = RawRow(line: Option<string>, station: Option<string>, latitude: Option<real>, longitude: Option<real>)

  /** A node position, stored as `(lon, lat)`. */
  datatype Position = Position(lon: real, lat: real)

  /** `-abs(x)`: the stored longitude is west whatever sign the file gives. */
  function NegAbs(x: real): (r: real)
    ensures r <= 0.0
    ensures r == x || r == -x
  {
    if x < 0.0 then x else -x
  }

  /** The Montreal box every accepted row lies in. */
  predicate InBox(lat: real, lon: real) {
    45.0 <= lat <= 46.0 && -74.0 <= lon <= -73.0
  }

  datatype Colour = Green | Orange | Blue | Yellow | Gray

  /** `line_colors.get(line, 'gray')`. */
  function LineColour(line: string): (c: Colour)
    ensures c == Gray <==> line !in {"Green Line", "Orange Line", "Blue Line", "Yellow Line"}
  {
    if line == "Green Line" then Green
    else if line == "Orange Line" then Orange
    else if line == "Blue Line" then Blue
    else if line == "Yellow Line" then Yellow
    else Gray
  }

  /** An undirected edge, as the set of its end points (a single one for a loop). */
  type Edge = set<string>

  function EdgeOf(a: string, b: string): Edge {
    {a, b}
  }

  /** An undirected graph: every node with its position, every edge with its colour. */
  datatype StationGraph = StationGraph(nodes: map<string, Position>, edges: map<Edge, Colour>)

  /**
   * The distinct names of `lines` in order of first appearance: the key
   * order of a dict filled with `setdefault(line, [])` for each of them.
   */
  function FirstSeen(lines: seq<string>): (r: seq<string>)
    ensures forall l :: l in r <==> l in lines
    ensures forall j, k :: 0 <= j < k < |r| ==> r[j] != r[k]
    decreases |lines|
  {
    if lines == [] then []
    else
      var seen := FirstSeen(lines[..|lines| - 1]);
      var l := lines[|lines| - 1];
      if l in seen then seen else seen + [l]
  }

  /** A position at which `l` occurs in `lines`. */
  lemma IndexIn(lines: seq<string>, l: string) returns (k: nat)
    requires l in lines
    ensures k < |lines| && lines[k] == l
  {
    k :| 0 <= k < |lines| && lines[k] == l;
  }

  /**
   * A value filed under a line: one `setdefault(line, []).append(value)`.
   * The builders file station names and positions respectively.
   */
  datatype Filed<V> = Filed(line: string, value: V)

  /** The line of every entry, in file order. */
  function Lines<V>(fs: seq<Filed<V>>): (lines: seq<string>)
    ensures |lines| == |fs|
  {
    seq(|fs|, i requires 0 <= i < |fs| => fs[i].line)
  }

  /** The values filed under `line`, in file order. */
  function FiledOn<V>(fs: seq<Filed<V>>, line: string): seq<V>
    decreases |fs|
  {
    if fs == [] then []
    else
      var last := fs[|fs| - 1];
      FiledOn(fs[..|fs| - 1], line) + if last.line == line then [last.value] else []
  }

  /** The dict the appends fill: each value appended to its line's list, the list created on first use. */
  function GroupByLine<V>(fs: seq<Filed<V>>): (byLine: map<string, seq<V>>)
    ensures forall l :: l in byLine <==> l in Lines(fs)
    decreases |fs|
  {
    if fs == [] then map[]
    else
      var init := fs[..|fs| - 1];
      var last := fs[|fs| - 1];
      var byLine := GroupByLine(init);
      assert Lines(fs) == Lines(init) + [last.line];
      byLine[last.line := (if last.line in byLine then byLine[last.line] else []) + [last.value]]
  }

  /** A line no entry names has nothing filed under it. */
  lemma {:induction false} FiledOnAbsent<V>(fs: seq<Filed<V>>, line: string)
    requires line !in Lines(fs)
    ensures FiledOn(fs, line) == []
    decreases |fs|
  {
    if fs != [] {
      var init := fs[..|fs| - 1];
      assert Lines(init) == Lines(fs)[..|init|];
      FiledOnAbsent(init, line);
      assert fs[|fs| - 1].line == Lines(fs)[|fs| - 1];
    }
  }

  /** Each line's list holds the values filed under that line, in file order. */
  lemma {:induction false} GroupByLineIsFilter<V>(fs: seq<Filed<V>>)
    ensures forall l :: l in GroupByLine(fs) ==> GroupByLine(fs)[l] == FiledOn(fs, l)
    decreases |fs|
  {
    if fs != [] {
      var init := fs[..|fs| - 1];
      var last := fs[|fs| - 1];
      GroupByLineIsFilter(init);
      assert Lines(fs) == Lines(init) + [last.line];
      if last.line !in GroupByLine(init) {
        FiledOnAbsent(init, last.line);
      }
    }
  }

  /**
   * What one more append does to the dict and its key order: the value goes
   * at the end of its line's list, and a new line goes last in the key order.
   */
  lemma FiledAppended<V>(fs: seq<Filed<V>>, f: Filed<V>)
    ensures FirstSeen(Lines(fs + [f])) ==
      if f.line in FirstSeen(Lines(fs)) then FirstSeen(Lines(fs)) else FirstSeen(Lines(fs)) + [f.line]
    ensures GroupByLine(fs + [f]) ==
      GroupByLine(fs)[f.line := (if f.line in GroupByLine(fs) then GroupByLine(fs)[f.line] else []) + [f.value]]
  {
    assert (fs + [f])[..|fs|] == fs;
    assert Lines(fs + [f]) == Lines(fs) + [f.line];
    assert (Lines(fs) + [f.line])[..|fs|] == Lines(fs);
  }
}
