/**
 The abstract value of a `Graph` (src/graph.py) and the pure functions that
 describe how `add_vertex`, `add_edge` and `build_graph` change it.

 A `GraphState` records the vertex ids in the order they were first added
 (a Python dict keeps insertion order), the incident list of every vertex,
 and the global edge list. The class in graph.dfy is proved to follow these
 functions step by step.
 */
module GraphModel {
  import opened Edges

  datatype GraphState = GraphState(order: seq<VertexId>, incident: map<VertexId, seq<Edge>>, edges: seq<Edge>)

  /** The state of a freshly constructed graph. */
  const Empty := GraphState([], map[], [])

  /** The incident list of `x`, or the empty list when `x` is not a vertex yet. */
  function IncidentOf(s: GraphState, x: VertexId): seq<Edge> {
    if x in s.incident then s.incident[x] else []
  }

  /**
   The representation invariant: the key order lists every vertex once; an
   incident list holds only edges that touch its vertex and that appear in
   the global list; and every edge of the global list is recorded at both
   of its endpoints.
   */
  ghost predicate WellFormed(s: GraphState) {
    && (forall i, j :: 0 <= i < j < |s.order| ==> s.order[i] != s.order[j])
    && (forall x :: x in s.incident <==> x in s.order)
    && (forall x, e :: x in s.incident && e in s.incident[x] ==> e.HasEndpoint(x) && e in s.edges)
    && (forall e :: e in s.edges ==> && e.u in s.incident && e.v in s.incident
                                     && e in s.incident[e.u] && e in s.incident[e.v])
  }

  /** `add_vertex`: a no-op for a known id, otherwise one new key with an empty incident list. */
  function WithVertex(s: GraphState, id: VertexId): (r: GraphState)
    ensures r.incident.Keys == s.incident.Keys + {id}
  {
    if id in s.incident then s else GraphState(s.order + [id], s.incident[id := []], s.edges)
  }

  /**
   `add_edge`: both endpoints become vertices, and one new edge is appended
   to the incident list of `u`, to that of `v` (the same list twice for a
   self-loop) and to the global list.
   */
  function WithEdge(s: GraphState, u: VertexId, v: VertexId, weight: int): (r: GraphState)
    ensures r.incident.Keys == s.incident.Keys + {u, v}
  {
    var t := WithVertex(WithVertex(s, u), v);
    var e := Edge(u, v, weight);
    var withU := t.incident[u := t.incident[u] + [e]];
    GraphState(t.order, withU[v := withU[v] + [e]], t.edges + [e])
  }

  /** `build_graph`: `add_edge` for every tuple, in order. */
  function WithEdges(s: GraphState, tuples: seq<(VertexId, VertexId, int)>): GraphState
    decreases |tuples|
  {
    if tuples == [] then s
    else
      var t := tuples[|tuples| - 1];
      WithEdge(WithEdges(s, tuples[..|tuples| - 1]), t.0, t.1, t.2)
  }

  /** Every id that occurs as an endpoint of some tuple. */
  ghost function Endpoints(tuples: seq<(VertexId, VertexId, int)>): set<VertexId> {
    (set i | 0 <= i < |tuples| :: tuples[i].0) + (set i | 0 <= i < |tuples| :: tuples[i].1)
  }

  /** The edges `build_graph` creates, in order. */
  function EdgesOf(tuples: seq<(VertexId, VertexId, int)>): (r: seq<Edge>)
    ensures |r| == |tuples|
    ensures forall i :: 0 <= i < |tuples| ==> r[i] == Edge(tuples[i].0, tuples[i].1, tuples[i].2)
  {
    seq(|tuples|, i requires 0 <= i < |tuples| => Edge(tuples[i].0, tuples[i].1, tuples[i].2))
  }

  /** `add_vertex` only ever adds: a present id changes nothing; an absent one adds exactly one empty entry. */
  lemma WithVertexOnlyAdds(s: GraphState, id: VertexId)
    ensures id in s.incident ==> WithVertex(s, id) == s
    ensures id !in s.incident ==>
      var r := WithVertex(s, id);
      && r.order == s.order + [id]
      && r.incident[id] == []
      && |r.incident| == |s.incident| + 1
      && (forall x :: x in s.incident ==> r.incident[x] == s.incident[x])
      && r.edges == s.edges
  {
  }

  /** Adding a vertex twice is the same as adding it once. */
  lemma WithVertexIdempotent(s: GraphState, id: VertexId)
    ensures WithVertex(WithVertex(s, id), id) == WithVertex(s, id)
  {
  }

  lemma WithVertexWellFormed(s: GraphState, id: VertexId)
    requires WellFormed(s)
    ensures WellFormed(WithVertex(s, id))
  {
  }

  /**
   What `add_edge` does: both endpoints are vertices afterwards; the global
   list gains exactly the new edge, at its end; `u`'s and `v`'s incident
   lists gain it at their ends (twice for a self-loop); every other list is
   untouched; an equal edge already present is kept, so the edge now occurs
   once more than before.
   */
  lemma WithEdgeEffect(s: GraphState, u: VertexId, v: VertexId, weight: int)
    ensures var r, e := WithEdge(s, u, v, weight), Edge(u, v, weight);
      && u in r.incident && v in r.incident
      && r.edges == s.edges + [e]
      && multiset(r.edges)[e] == multiset(s.edges)[e] + 1
      && (u != v ==> r.incident[u] == IncidentOf(s, u) + [e] && r.incident[v] == IncidentOf(s, v) + [e])
      && (u == v ==> r.incident[u] == IncidentOf(s, u) + [e, e])
      && (forall x :: x in s.incident && x != u && x != v ==> r.incident[x] == s.incident[x])
      && r.order == WithVertex(WithVertex(s, u), v).order
  {
    var e := Edge(u, v, weight);
    assert WithEdge(s, u, v, weight).edges == s.edges + [e];
    assert multiset(s.edges + [e]) == multiset(s.edges) + multiset{e};
  }

  /** Recording an edge between two existing vertices at both ends and globally keeps the invariant. */
  lemma AppendEdgeWellFormed(t: GraphState, e: Edge)
    requires WellFormed(t) && e.u in t.incident && e.v in t.incident
    ensures var withU := t.incident[e.u := t.incident[e.u] + [e]];
      WellFormed(GraphState(t.order, withU[e.v := withU[e.v] + [e]], t.edges + [e]))
  {
    var withU := t.incident[e.u := t.incident[e.u] + [e]];
    var r := GraphState(t.order, withU[e.v := withU[e.v] + [e]], t.edges + [e]);
    assert forall x :: x in r.incident <==> x in r.order;
    forall x, f | x in r.incident && f in r.incident[x]
      ensures f.HasEndpoint(x) && f in r.edges
    {
      if f != e {
        assert f in t.incident[x];
      }
    }
    forall f | f in r.edges
      ensures f.u in r.incident && f.v in r.incident && f in r.incident[f.u] && f in r.incident[f.v]
    {
      if f != e {
        assert f in t.edges;
      }
    }
  }

  lemma WithEdgeWellFormed(s: GraphState, u: VertexId, v: VertexId, weight: int)
    requires WellFormed(s)
    ensures WellFormed(WithEdge(s, u, v, weight))
  {
    WithVertexWellFormed(s, u);
    WithVertexWellFormed(WithVertex(s, u), v);
    AppendEdgeWellFormed(WithVertex(WithVertex(s, u), v), Edge(u, v, weight));
  }

  /** `build_graph` keeps the representation invariant. */
  lemma {:induction false} WithEdgesWellFormed(s: GraphState, tuples: seq<(VertexId, VertexId, int)>)
    requires WellFormed(s)
    ensures WellFormed(WithEdges(s, tuples))
    decreases |tuples|
  {
    if tuples != [] {
      var t := tuples[|tuples| - 1];
      WithEdgesWellFormed(s, tuples[..|tuples| - 1]);
      WithEdgeWellFormed(WithEdges(s, tuples[..|tuples| - 1]), t.0, t.1, t.2);
    }
  }

  lemma EndpointsSnoc(tuples: seq<(VertexId, VertexId, int)>)
    requires tuples != []
    ensures var n := |tuples| - 1;
      Endpoints(tuples) == Endpoints(tuples[..n]) + {tuples[n].0, tuples[n].1}
  {
    var n := |tuples| - 1;
    var init := tuples[..n];
    assert forall i :: 0 <= i < n ==> init[i] == tuples[i];
    assert (set i | 0 <= i < |tuples| :: tuples[i].0) == (set i | 0 <= i < n :: init[i].0) + {tuples[n].0};
    assert (set i | 0 <= i < |tuples| :: tuples[i].1) == (set i | 0 <= i < n :: init[i].1) + {tuples[n].1};
  }

  /**
   After `build_graph` the vertices are the old ones plus exactly the
   endpoints of the tuples: the vertex list it is given plays no part.
   */
  lemma {:induction false} WithEdgesVertices(s: GraphState, tuples: seq<(VertexId, VertexId, int)>)
    ensures WithEdges(s, tuples).incident.Keys == s.incident.Keys + Endpoints(tuples)
    decreases |tuples|
  {
    if tuples != [] {
      var n := |tuples| - 1;
      WithEdgesVertices(s, tuples[..n]);
      EndpointsSnoc(tuples);
    }
  }

  /** After `build_graph` the global list has gained one edge per tuple, in order. */
  lemma {:induction false} WithEdgesEdges(s: GraphState, tuples: seq<(VertexId, VertexId, int)>)
    ensures WithEdges(s, tuples).edges == s.edges + EdgesOf(tuples)
    decreases |tuples|
  {
    if tuples != [] {
      var n := |tuples| - 1;
      var t, e := tuples[n], Edge(tuples[n].0, tuples[n].1, tuples[n].2);
      var prev := WithEdges(s, tuples[..n]);
      assert WithEdges(s, tuples) == WithEdge(prev, t.0, t.1, t.2);
      WithEdgesEdges(s, tuples[..n]);
      WithEdgeAppends(prev, t.0, t.1, t.2);
      EdgesOfSnoc(tuples);
      assert s.edges + EdgesOf(tuples[..n]) + [e] == s.edges + (EdgesOf(tuples[..n]) + [e]);
    }
  }

  lemma EdgesOfSnoc(tuples: seq<(VertexId, VertexId, int)>)
    requires tuples != []
    ensures var n := |tuples| - 1;
      EdgesOf(tuples) == EdgesOf(tuples[..n]) + [Edge(tuples[n].0, tuples[n].1, tuples[n].2)]
  {
    var n := |tuples| - 1;
    assert forall i :: 0 <= i < n ==> tuples[..n][i] == tuples[i];
  }

  /** `add_edge` appends exactly its new edge to the global list. */
  lemma WithEdgeAppends(s: GraphState, u: VertexId, v: VertexId, weight: int)
    ensures WithEdge(s, u, v, weight).edges == s.edges + [Edge(u, v, weight)]
  {
    assert WithVertex(WithVertex(s, u), v).edges == s.edges;
  }

  /** Calls `add_vertex` for every id, in order. */
  function WithVertices(s: GraphState, ids: seq<VertexId>): GraphState
    decreases |ids|
  {
    if ids == [] then s else WithVertex(WithVertices(s, ids[..|ids| - 1]), ids[|ids| - 1])
  }

  /** After adding every id of `ids`, each of them is a vertex, and every earlier vertex still is. */
  lemma {:induction false} WithVerticesHasIds(s: GraphState, ids: seq<VertexId>)
    ensures WithVertices(s, ids).incident.Keys == s.incident.Keys + set id | id in ids
    decreases |ids|
  {
    if ids != [] {
      var n := |ids| - 1;
      WithVerticesHasIds(s, ids[..n]);
      assert (set id | id in ids) == (set id | id in ids[..n]) + {ids[n]} by {
        assert ids == ids[..n] + [ids[n]];
      }
    }
  }

  lemma {:induction false} WithVerticesWellFormed(s: GraphState, ids: seq<VertexId>)
    requires WellFormed(s)
    ensures WellFormed(WithVertices(s, ids))
    decreases |ids|
  {
    if ids != [] {
      WithVerticesWellFormed(s, ids[..|ids| - 1]);
      WithVertexWellFormed(WithVertices(s, ids[..|ids| - 1]), ids[|ids| - 1]);
    }
  }

  /** The number of incident-list entries of the ids in `xs` (a self-loop counts twice). */
  function DegreeSum(s: GraphState, xs: seq<VertexId>): nat
    decreases |xs|
  {
    if xs == [] then 0 else DegreeSum(s, xs[..|xs| - 1]) + |IncidentOf(s, xs[|xs| - 1])|
  }

  /** A sequence without repetitions has as many distinct elements as it is long. */
  lemma {:induction false} DistinctCard(xs: seq<VertexId>)
    requires forall i, j :: 0 <= i < j < |xs| ==> xs[i] != xs[j]
    ensures |set x | x in xs| == |xs|
    decreases |xs|
  {
    if xs != [] {
      var n := |xs| - 1;
      DistinctCard(xs[..n]);
      assert (set x | x in xs) == (set x | x in xs[..n]) + {xs[n]} by {
        assert xs == xs[..n] + [xs[n]];
      }
      assert xs[n] !in xs[..n];
    }
  }

  /** The key order of a well-formed state lists each vertex exactly once. */
  lemma OrderSize(s: GraphState)
    requires WellFormed(s)
    ensures |s.order| == |s.incident|
  {
    DistinctCard(s.order);
    assert (set x | x in s.order) == s.incident.Keys;
  }
}
