/**
 The graph itself (src/graph.py): a map from vertex id to `Vertex` object and
 a global edge list, grown by `add_vertex` and `add_edge`, with Prim's
 algorithm (`prim_mst`) and the spanning forest built from it (`find_mwsf`).
 */
module Graphs {
  import opened Edges
  import opened Vertices
  import opened GraphModel
  import opened Connectivity
  import opened Spanning
  import opened PrimSteps
  import opened Minimality

  /**
   The outcome of an operation that looks vertices up. `VertexNotFound(id)`
   stands for the fault the source runs into when it asks a missing vertex
   for its incident list.
   */
  datatype Outcome<T> = Success(value: T) | VertexNotFound(id: VertexId)

  /** A set missing an element of a superset is strictly smaller: the loop of `find_mwsf` terminates. */
  lemma {:induction false} SubsetSmaller(a: set<VertexId>, b: set<VertexId>, x: VertexId)
    requires a <= b && x in b && x !in a
    ensures |a| < |b|
    decreases |a|
  {
    if a != {} {
      var y :| y in a;
      SubsetSmaller(a - {y}, b - {y}, x);
    }
  }

  /** The loop of `find_mwsf` that discards the child of every triple of a tree from the working set. */
  method DiscardChildren(remaining: set<VertexId>, t: seq<MstEdge>) returns (r: set<VertexId>)
    ensures r == remaining - set i | 0 <= i < |t| :: t[i].child
  {
    r := remaining;
    var j := 0;
    while j < |t|
      invariant 0 <= j <= |t|
      invariant r == remaining - set i | 0 <= i < j :: t[i].child
    {
      r := r - {t[j].child};
      assert (set i | 0 <= i < j + 1 :: t[i].child) == (set i | 0 <= i < j :: t[i].child) + {t[j].child};
      j := j + 1;
    }
  }

  /**
   The inner loop of `prim_mst`: queue one candidate for every incident edge
   of `u` whose far end is not yet visited, in list order.
   */
  method QueueEdges(heap: seq<Candidate>, visited: set<VertexId>, u: VertexId, incident: seq<Edge>)
    returns (r: seq<Candidate>)
    ensures r == heap + Pushes(visited, u, incident)
  {
    r := heap;
    var k := 0;
    while k < |incident|
      invariant 0 <= k <= |incident|
      invariant r == heap + Pushes(visited, u, incident[..k])
    {
      var e := incident[k];
      var w := e.Other(u);
      PushesSnoc(visited, u, incident, k);
      if w !in visited {
        r := r + [Candidate(e.weight, w, Some(u))];
      }
      k := k + 1;
    }
    assert incident[..|incident|] == incident;
  }

  /**
   The inner loop of `prim_mst` after visiting `u`: it re-establishes the
   outer invariant, with one push per queued candidate.
   */
  method PushNeighbours(ghost s: GraphState, ghost start: VertexId, visited: set<VertexId>, ghost mst: seq<MstEdge>,
                        heap: seq<Candidate>, ghost pushes: nat, u: VertexId, incident: seq<Edge>)
    returns (r: seq<Candidate>, ghost pushes': nat)
    requires Visiting(s, start, visited, mst, heap, pushes, u) && incident == s.incident[u]
    ensures r == heap + Pushes(visited, u, incident)
    ensures pushes' == pushes + |Pushes(visited, u, incident)|
    ensures Inv(s, start, visited, mst, r, pushes') && pushes' <= pushes + |incident|
  {
    r := QueueEdges(heap, visited, u, incident);
    pushes' := pushes + |Pushes(visited, u, incident)|;
    VisitDone(s, start, visited, mst, heap, pushes, u);
  }

  class Graph {
    var vertices: map<VertexId, Vertex>
    /** The keys of `vertices` in insertion order: a Python dict iterates in that order. */
    var order: seq<VertexId>
    var edges: seq<Edge>
    /** The `Vertex` objects the graph owns. */
    ghost var Repr: set<Vertex>
    /** The abstract value: key order, incident list of every vertex, global edge list. */
    ghost var state: GraphState

    /**
     Each stored vertex is owned and carries its own key as id (so distinct
     keys hold distinct objects); the fields agree with `state`, and `state`
     is well formed.
     */
    ghost predicate Valid()
      reads this, Repr
    {
      && (forall x :: x in vertices ==> vertices[x] in Repr && vertices[x].id == x)
      && (forall x :: x in vertices <==> x in state.incident)
      && (forall x :: x in vertices ==> vertices[x].edges == state.incident[x])
      && order == state.order
      && edges == state.edges
      && WellFormed(state)
    }

    constructor ()
      ensures Valid() && state == Empty && fresh(Repr)
    {
      vertices := map[];
      order := [];
      edges := [];
      Repr := {};
      state := Empty;
    }

    /** `add_vertex`. */
    method AddVertex(id: VertexId)
      requires Valid()
      modifies this
      ensures Valid() && fresh(Repr - old(Repr))
      ensures state == WithVertex(old(state), id)
    {
      if id !in vertices {
        var x := new Vertex(id);
        vertices := vertices[id := x];
        order := order + [id];
        Repr := Repr + {x};
      }
      WithVertexWellFormed(state, id);
      state := WithVertex(state, id);
    }

    /** `add_edge`. */
    method AddEdge(u: VertexId, v: VertexId, weight: int)
      requires Valid()
      modifies this, Repr
      ensures Valid() && fresh(Repr - old(Repr))
      ensures state == WithEdge(old(state), u, v, weight)
    {
      AddVertex(u);
      ghost var r1 := Repr;
      AddVertex(v);
      assert fresh(Repr - old(Repr)) by {
        assert Repr - old(Repr) <= (Repr - r1) + (r1 - old(Repr));
      }
      Attach(Edge(u, v, weight));
    }

    /**
     The rest of `add_edge`, once both endpoints are vertices: the edge is
     appended to the incident list of each endpoint and to the global list.
     */
    method Attach(e: Edge)
      requires Valid() && e.u in vertices && e.v in vertices
      modifies Repr, this
      ensures Valid() && Repr == old(Repr)
      ensures var withU := old(state).incident[e.u := old(state).incident[e.u] + [e]];
        state == GraphState(old(state).order, withU[e.v := withU[e.v] + [e]], old(state).edges + [e])
    {
      ghost var t := state;
      var xu, xv := vertices[e.u], vertices[e.v];
      xu.AddEdge(e);
      xv.AddEdge(e);
      edges := edges + [e];
      ghost var withU := t.incident[e.u := t.incident[e.u] + [e]];
      state := GraphState(t.order, withU[e.v := withU[e.v] + [e]], t.edges + [e]);
      forall x | x in vertices
        ensures vertices[x].edges == state.incident[x]
      {
        if x != e.u && x != e.v {
          assert vertices[x] != xu && vertices[x] != xv;
          assert vertices[x].edges == t.incident[x];
        } else if x == e.u && e.u != e.v {
          assert xu.edges == t.incident[e.u] + [e];
        } else if x == e.v && e.u != e.v {
          assert xv.edges == t.incident[e.v] + [e];
        } else {
          assert xu.edges == t.incident[e.u] + [e] + [e];
        }
      }
      assert WellFormed(state) by {
        AppendEdgeWellFormed(t, e);
      }
    }

    /** `get_vertex`: the vertex of that id, or none; it reads and never changes the map. */
    function GetVertex(id: VertexId): (r: Option<Vertex>)
      reads this, Repr
      requires Valid()
      ensures r.Some? <==> id in state.incident
      ensures r.Some? ==> r.value.id == id && r.value.edges == state.incident[id]
    {
      if id in vertices then Some(vertices[id]) else None
    }

    /** `get_vertices`: every stored vertex once, in insertion order. */
    function GetVertices(): (r: seq<Vertex>)
      reads this, Repr
      requires Valid()
      ensures |r| == |state.order| == |state.incident|
      ensures forall i :: 0 <= i < |r| ==> r[i].id == state.order[i] && r[i].edges == state.incident[state.order[i]]
      ensures forall x :: x in state.incident ==> exists i :: 0 <= i < |r| && r[i].id == x
    {
      OrderSize(state);
      var m, ks := vertices, order;
      assert forall x :: x in state.incident ==> exists i :: 0 <= i < |ks| && ks[i] == x;
      seq(|ks|, i requires 0 <= i < |ks| => m[ks[i]])
    }

    /** `build_graph`: adds every edge tuple in order. The vertex list is accepted and not used. */
    method BuildGraph(ids: seq<VertexId>, tuples: seq<(VertexId, VertexId, int)>)
      requires Valid()
      modifies this, Repr
      ensures Valid() && fresh(Repr - old(Repr))
      ensures state == WithEdges(old(state), tuples)
    {
      var i := 0;
      while i < |tuples|
        invariant 0 <= i <= |tuples|
        invariant Valid()
        invariant state == WithEdges(old(state), tuples[..i])
        invariant fresh(Repr - old(Repr))
      {
        var t := tuples[i];
        AddEdge(t.0, t.1, t.2);
        assert tuples[..i + 1][..i] == tuples[..i];
        i := i + 1;
      }
      assert tuples[..i] == tuples;
    }

    /** `add_vertex` for every listed id, in order. */
    method AddVertices(ids: seq<VertexId>)
      requires Valid()
      modifies this
      ensures Valid() && fresh(Repr - old(Repr))
      ensures state == WithVertices(old(state), ids)
      ensures forall id :: id in ids ==> id in vertices
    {
      var i := 0;
      while i < |ids|
        invariant 0 <= i <= |ids|
        invariant Valid()
        invariant state == WithVertices(old(state), ids[..i])
        invariant fresh(Repr - old(Repr))
      {
        AddVertex(ids[i]);
        assert ids[..i + 1][..i] == ids[..i];
        i := i + 1;
      }
      assert ids[..i] == ids;
      WithVerticesHasIds(old(state), ids);
    }

    /**
     `build_graph` as evidently intended: every listed id becomes a vertex,
     isolated ones included, before the edge tuples are added.
     */
    method BuildGraphWithIsolated(ids: seq<VertexId>, tuples: seq<(VertexId, VertexId, int)>)
      requires Valid()
      modifies this, Repr
      ensures Valid() && fresh(Repr - old(Repr))
      ensures state == WithEdges(WithVertices(old(state), ids), tuples)
      ensures forall id :: id in ids ==> id in vertices
    {
      AddVertices(ids);
      ghost var mid, r1 := state, Repr;
      BuildGraph(ids, tuples);
      assert fresh(Repr - old(Repr)) by {
        assert Repr - old(Repr) <= (Repr - r1) + (r1 - old(Repr));
      }
      WithEdgesVertices(mid, tuples);
    }

    /**
     `prim_mst`: Prim's algorithm from `start`. It faults when `start` is
     not a vertex; otherwise it returns a tree rooted at `start` that spans
     its component (see `PrimResult` and `PrimSpansComponent`) and weighs no
     more than any spanning tree of that component. `pushes` counts heap
     insertions: at most one per incident-list entry of a visited vertex,
     plus the initial one.
     */
    method PrimMst(start: VertexId) returns (r: Outcome<seq<MstEdge>>, ghost pushes: nat)
      requires Valid()
      ensures r.VertexNotFound? <==> start !in vertices
      ensures r.VertexNotFound? ==> r.id == start
      ensures r.Success? ==> PrimResult(state, start, r.value)
      ensures r.Success? ==> pushes <= 1 + DegreeSum(state, [start] + Children(r.value))
      ensures r.Success? ==> forall q :: SpanningTree(state, start, q) ==> Weight(r.value) <= Weight(q)
    {
      ghost var s := state;
      var mst: seq<MstEdge> := [];
      var visited: set<VertexId> := {};
      var heap := [Candidate(0, start, None)];
      pushes := 1;
      InitInv(s, start);
      while heap != []
        invariant Inv(s, start, visited, mst, heap, pushes)
        decreases |s.incident.Keys - visited|, |heap|
      {
        ghost var least := MinIndex(heap);
        var i :| 0 <= i < |heap| && IsMin(heap, i);
        var c := heap[i];
        ghost var heap0 := heap;
        heap := heap[..i] + heap[i + 1..];
        if c.vertex !in visited {
          ghost var visited0, mst0 := visited, mst;
          var u := c.vertex;
          visited := visited + {u};
          if c.parent.Some? {
            mst := mst + [MstEdge(c.parent.value, u, c.weight)];
          }
          var found := GetVertex(u);
          if found.None? {
            MissingIsStart(s, start, visited0, mst0, heap0, pushes, i);
            return VertexNotFound(u), pushes;
          }
          VisitStep(s, start, visited0, mst0, heap0, pushes, i);
          VisitShrinks(s.incident.Keys, visited0, u);
          heap, pushes := PushNeighbours(s, start, visited, mst, heap, pushes, u, found.value.edges);
        } else {
          PopVisited(s, start, visited, mst, heap0, pushes, i);
        }
      }
      Finished(s, start, visited, mst, pushes);
      forall q | SpanningTree(s, start, q)
        ensures Weight(mst) <= Weight(q)
      {
        PrimMinimal(s, start, mst, q);
      }
      r := Success(mst);
    }

    /**
     `find_mwsf`: pops any remaining id, runs `prim_mst` from it, appends the
     tree and discards the tree's children from the working set, until the
     set is empty. It faults exactly when some listed id is not a vertex.
     */
    method FindMwsf(ids: seq<VertexId>) returns (r: Outcome<seq<MstEdge>>, ghost starts: seq<VertexId>, ghost trees: seq<seq<MstEdge>>)
      requires Valid()
      ensures r.VertexNotFound? <==> exists id :: id in ids && id !in vertices
      ensures r.VertexNotFound? ==> r.id in ids && r.id !in vertices
      ensures r.Success? ==> IsForest(state, ids, starts, trees) && r.value == Flatten(trees)
    {
      ghost var s := state;
      var remaining := set id | id in ids;
      var forest: seq<MstEdge> := [];
      starts, trees := [], [];
      ForestInit(s, ids);
      while remaining != {}
        invariant ForestInv(s, ids, remaining, starts, trees)
        invariant forest == Flatten(trees)
        decreases |remaining|
      {
        var start :| start in remaining;
        ghost var remaining0 := remaining;
        remaining := remaining - {start};
        var tree;
        ghost var pushes;
        tree, pushes := PrimMst(start);
        if tree.VertexNotFound? {
          return VertexNotFound(tree.id), starts, trees;
        }
        var t := tree.value;
        forest := forest + t;
        remaining := DiscardChildren(remaining, t);
        SpanMembers(start, t);
        ForestStep(s, ids, remaining0, starts, trees, start, t);
        SubsetSmaller(remaining, remaining0, start);
        starts, trees := starts + [start], trees + [t];
      }
      ForestDone(s, ids, starts, trees);
      r := Success(forest);
    }
  }
}
