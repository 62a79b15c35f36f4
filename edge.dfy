/**
 An undirected weighted edge between two vertex identifiers (src/edge.py).

 An `Edge` is a value: its three fields are set once, when it is built, and
 nothing ever reassigns them, so a datatype models it exactly. The endpoints
 are kept in the order they were given; `(u, v, w)` and `(v, u, w)` are two
 different values that join the same pair of vertices.
 */
module Edges {

  /** Vertex identifiers; the input format produces strings. */
  type VertexId = string

  datatype Edge = Edge(u: VertexId, v: VertexId, weight: int) {

    /** `__lt__`: an edge is smaller than another exactly when its weight is. */
    predicate Less(other: Edge) {
      weight < other.weight
    }

    /** `x` is one of the two endpoints. */
    predicate HasEndpoint(x: VertexId) {
      u == x || v == x
    }

    /** The edge connects `a` and `b`, in either direction. */
    predicate Joins(a: VertexId, b: VertexId) {
      (u == a && v == b) || (u == b && v == a)
    }

    /** The endpoint reached by leaving `x` along this edge: `v` when `u` is `x`, otherwise `u`. */
    function Other(x: VertexId): (y: VertexId)
      ensures HasEndpoint(x) ==> Joins(x, y)
    {
      if u == x then v else u
    }
  }

  /** Building an edge keeps the endpoints as given, without normalising their order. */
  lemma EdgeKeepsEndpointOrder(a: VertexId, b: VertexId, w: int)
    ensures Edge(a, b, w).u == a && Edge(a, b, w).v == b && Edge(a, b, w).weight == w
    ensures a != b ==> Edge(a, b, w) != Edge(b, a, w)
    ensures Edge(a, b, w).Joins(a, b) && Edge(b, a, w).Joins(a, b)
  {
  }

  /** The order looks at the weights only: the endpoints play no part. */
  lemma LessDependsOnlyOnWeight(a: Edge, b: Edge, c: Edge, d: Edge)
    requires a.weight == c.weight && b.weight == d.weight
    ensures a.Less(b) <==> c.Less(d)
  {
  }

  /** No edge is smaller than itself, nor than any edge of the same weight. */
  lemma LessIrreflexive(a: Edge, b: Edge)
    requires a.weight == b.weight
    ensures !a.Less(b) && !b.Less(a) && !a.Less(a)
  {
  }

  /** The order is a strict order: asymmetric and transitive. */
  lemma LessStrictOrder(a: Edge, b: Edge, c: Edge)
    ensures a.Less(b) ==> !b.Less(a)
    ensures a.Less(b) && b.Less(c) ==> a.Less(c)
  {
  }

  /** Two edges of different weight are always comparable. */
  lemma LessTotalOnWeights(a: Edge, b: Edge)
    requires a.weight != b.weight
    ensures a.Less(b) || b.Less(a)
  {
  }
}
