/** A graph vertex: an identifier and the list of edges incident to it (src/vertex.py). */
module Vertices {
  import opened Edges

  class Vertex {
    /** Assigned once by the constructor and never reassigned. */
    const id: VertexId
    /** Incident edges, in the order they were added; duplicates are kept. */
    var edges: seq<Edge>

    constructor (id: VertexId)
      ensures this.id == id && edges == []
    {
      this.id := id;
      edges := [];
    }

    /** Appends `edge` at the end of the incident list, without deduplication. */
    method AddEdge(edge: Edge)
      modifies this
      ensures edges == old(edges) + [edge]
      ensures |edges| == |old(edges)| + 1 && edges[|edges| - 1] == edge
    {
      edges := edges + [edge];
    }
  }

  /** A client: adding the same edge twice records it twice. */
  method AddEdgeTwice(x: Vertex, e: Edge)
    modifies x
    ensures x.edges == old(x.edges) + [e, e]
  {
    x.AddEdge(e);
    x.AddEdge(e);
  }
}
