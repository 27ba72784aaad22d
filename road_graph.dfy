/**
 * The road network the simulation walks on: a directed graph handed in by
 * the caller and never changed while the simulation runs.
 */
module RoadGraph {
  /** OpenStreetMap node identifiers. */
  type NodeId = int

  /**
   * `nodes` lists the nodes in the graph's own iteration order (what
   * `list(graph.nodes)` yields); `succ` maps every node to its successors,
   * in adjacency order (what `graph.neighbors(v)` yields).
   */
  datatype Graph = Graph(nodes: seq<NodeId>, succ: map<NodeId, seq<NodeId>>)

  /** What every networkx graph satisfies: each node listed once, and a successor list for exactly the listed nodes. */
  predicate Valid(g: Graph) {
    && (forall v :: v in g.nodes ==> v in g.succ)
    && (forall v :: v in g.succ ==> v in g.nodes)
    && (forall i, j :: 0 <= i < j < |g.nodes| ==> g.nodes[i] != g.nodes[j])
  }

  /** Every successor of a node is itself a node of the graph. */
  predicate Closed(g: Graph) {
    forall v, w :: v in g.succ && w in g.succ[v] ==> w in g.succ
  }

  /** There is an edge from `v` to `w`. */
  predicate IsEdge(g: Graph, v: NodeId, w: NodeId) {
    v in g.succ && w in g.succ[v]
  }
}
