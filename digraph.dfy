/**
 * `removeEdge` of infrastructure/DiGraph/removeEdge.ts. A graph carries its
 * own equality on vertices (it is an `Eq` of its vertex type); two edges
 * are equal when both ends are. The vertex list stands for the rest of the
 * graph record, which `removeEdge` copies unchanged.
 */
module DiGraph {
  import opened Sequences

  datatype Graph<!A> = Graph(vertices: seq<A>, edges: seq<(A, A)>, equals: (A, A) -> bool)

  /** `tuple(graph, graph).equals`: both ends equal under the graph's equality. */
  predicate EdgeEquals<A>(equals: (A, A) -> bool, x: (A, A), y: (A, A)) {
    equals(x.0, y.0) && equals(x.1, y.1)
  }

  /** The filter test of `removeEdge`: not equal to `edge`. */
  function Other<A>(equals: (A, A) -> bool, edge: (A, A)): ((A, A)) -> bool {
    e => !EdgeEquals(equals, edge, e)
  }

  /** The graph without every edge equal to `edge`; vertices and equality untouched. */
  function RemoveEdge<A>(edge: (A, A), graph: Graph<A>): (r: Graph<A>)
    ensures r.vertices == graph.vertices && r.equals == graph.equals
    ensures |r.edges| <= |graph.edges|
  {
    graph.(edges := Filter(graph.edges, Other(graph.equals, edge)))
  }

  /**
   * An edge remains exactly when it was there and is not equal to the one
   * removed; the remaining edges keep their order.
   */
  lemma RemoveEdgeExact<A>(edge: (A, A), graph: Graph<A>)
    ensures forall e :: e in RemoveEdge(edge, graph).edges <==> e in graph.edges && !EdgeEquals(graph.equals, edge, e)
  {
    FilterMembers(graph.edges, Other(graph.equals, edge));
  }

  /** Removing an edge twice removes no more than once. */
  lemma RemoveEdgeIdempotent<A>(edge: (A, A), graph: Graph<A>)
    ensures RemoveEdge(edge, RemoveEdge(edge, graph)) == RemoveEdge(edge, graph)
  {
    var once := RemoveEdge(edge, graph);
    FilterFilter(graph.edges, Other(graph.equals, edge), Other(graph.equals, edge), Other(graph.equals, edge));
  }

  /** The removals of two edges commute. */
  lemma RemoveEdgeCommutes<A>(e1: (A, A), e2: (A, A), graph: Graph<A>)
    ensures RemoveEdge(e1, RemoveEdge(e2, graph)) == RemoveEdge(e2, RemoveEdge(e1, graph))
  {
    var both := (e: (A, A)) => !EdgeEquals(graph.equals, e1, e) && !EdgeEquals(graph.equals, e2, e);
    FilterFilter(graph.edges, Other(graph.equals, e2), Other(graph.equals, e1), both);
    FilterFilter(graph.edges, Other(graph.equals, e1), Other(graph.equals, e2), both);
  }

  /** With a reflexive equality nothing equal to the edge survives, the edge itself included. */
  lemma RemovedEdgeAbsent<A>(edge: (A, A), graph: Graph<A>)
    requires graph.equals(edge.0, edge.0) && graph.equals(edge.1, edge.1)
    ensures edge !in RemoveEdge(edge, graph).edges
  {
    RemoveEdgeExact(edge, graph);
  }
}
