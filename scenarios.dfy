/**
 Concrete runs of the graph: the duplicate-edge case of `prim_mst`, and an
 input whose only vertex has no edge, through `build_graph` as written and
 through the corrected construction.
 */
module Scenarios {
  import opened Edges
  import opened GraphModel
  import opened Connectivity
  import opened Spanning
  import opened Graphs

  /** The graph with the edge ("1", "2", 5) added once. */
  lemma SingleEdgeState()
    ensures var e := Edge("1", "2", 5);
      WithEdge(Empty, "1", "2", 5) == GraphState(["1", "2"], map["1" := [e], "2" := [e]], [e])
  {
    var e := Edge("1", "2", 5);
    var none := GraphState(["1", "2"], map["1" := [], "2" := []], []);
    assert WithVertex(WithVertex(Empty, "1"), "2") == none;
    assert none.incident["1"] + [e] == [e];
    assert none.incident["1" := [e]]["2"] + [e] == [e];
    assert none.incident["1" := [e]]["2" := [e]] == map["1" := [e], "2" := [e]];
  }

  const PairEdge := Edge("1", "2", 5)

  /** The graph with two copies of `PairEdge`. */
  const Doubled := GraphState(["1", "2"], map["1" := [PairEdge, PairEdge], "2" := [PairEdge, PairEdge]],
                              [PairEdge, PairEdge])

  /** Adding the edge ("1", "2", 5) twice builds `Doubled`: both copies are kept everywhere. */
  lemma DuplicateEdgeState()
    ensures WithEdges(Empty, [("1", "2", 5), ("1", "2", 5)]) == Doubled
  {
    var tuples: seq<(VertexId, VertexId, int)> := [("1", "2", 5), ("1", "2", 5)];
    var e := Edge("1", "2", 5);
    var once := GraphState(["1", "2"], map["1" := [e], "2" := [e]], [e]);
    assert WithEdges(Empty, tuples[..1]) == once by {
      assert tuples[..1][..0] == [];
      SingleEdgeState();
    }
    SecondCopyState();
    assert WithEdges(Empty, tuples) == WithEdge(WithEdges(Empty, tuples[..1]), "1", "2", 5);
  }

  /** Adding the edge again, to the graph that already has it. */
  lemma SecondCopyState()
    ensures var e := Edge("1", "2", 5);
      WithEdge(GraphState(["1", "2"], map["1" := [e], "2" := [e]], [e]), "1", "2", 5)
        == GraphState(["1", "2"], map["1" := [e, e], "2" := [e, e]], [e, e])
  {
    var e := Edge("1", "2", 5);
    var once := GraphState(["1", "2"], map["1" := [e], "2" := [e]], [e]);
    assert WithVertex(WithVertex(once, "1"), "2") == once;
    assert once.incident["1"] + [e] == [e, e];
    assert once.incident["1" := [e, e]]["2"] + [e] == [e, e];
    assert once.incident["1" := [e, e]]["2" := [e, e]] == map["1" := [e, e], "2" := [e, e]];
  }

  /** That graph is well formed and connected. */
  lemma DuplicateEdgeComponent()
    ensures WellFormed(Doubled) && Doubled.incident.Keys == {"1", "2"} && Component(Doubled, "1") == {"1", "2"}
  {
    var tuples: seq<(VertexId, VertexId, int)> := [("1", "2", 5), ("1", "2", 5)];
    var s := Doubled;
    var e := PairEdge;
    assert WellFormed(s) by {
      DuplicateEdgeState();
      WithEdgesWellFormed(Empty, tuples);
    }
    assert e in s.edges && e.Joins("1", "2");
    assert IsWalk(s, ["1", "2"], "1", "2");
    ReachableRefl(s, "1");
  }

  /**
   A duplicated edge gives one tree edge, not two: once "2" is visited, the
   second copy of the edge is discarded.
   */
  lemma DuplicateEdgeTree(out: seq<MstEdge>)
    requires PrimResult(Doubled, "1", out)
    ensures out == [MstEdge("1", "2", 5)]
  {
    var s := Doubled;
    assert WellFormed(s) && s.incident.Keys == {"1", "2"} && Component(s, "1") == {"1", "2"} by {
      DuplicateEdgeComponent();
    }
    assert |out| == 1 by {
      PrimEdgeCount(s, "1", out);
    }
    assert Span("1", out) <= {"1", "2"} by {
      TreeInGraph(s, "1", out);
    }
    var m := out[0];
    assert m.parent == "1" && m.child == "2" by {
      assert out[..0] == [];
      assert m.child in Span("1", out);
    }
    assert m.weight == 5 by {
      assert IsGraphEdge(s, m);
    }
    assert out == [m];
  }

  /** Running `prim_mst` from "1" on that graph. */
  method DuplicateEdge() returns (r: Outcome<seq<MstEdge>>)
    ensures r == Success([MstEdge("1", "2", 5)])
  {
    var g := new Graph();
    g.BuildGraph(["1", "2"], [("1", "2", 5), ("1", "2", 5)]);
    DuplicateEdgeState();
    assert "1" in g.state.incident;
    ghost var pushes;
    r, pushes := g.PrimMst("1");
    DuplicateEdgeTree(r.value);
  }

  /**
   `build_graph` as written on the input "vertex A, no edges": A never
   becomes a vertex, so `find_mwsf(["A"])` faults on it.
   */
  method IsolatedAsWritten() returns (r: Outcome<seq<MstEdge>>)
    ensures r == VertexNotFound("A")
  {
    var ids: seq<VertexId> := ["A"];
    var g := new Graph();
    g.BuildGraph(ids, []);
    assert g.state == Empty;
    assert ids[0] == "A" && "A" !in g.vertices;
    ghost var starts, trees;
    r, starts, trees := g.FindMwsf(ids);
  }

  /** Trees grown from vertices without incident edges are empty, and so is the forest. */
  lemma {:induction false} FlattenEmptyTrees(trees: seq<seq<MstEdge>>)
    requires forall k :: 0 <= k < |trees| ==> trees[k] == []
    ensures Flatten(trees) == []
    decreases |trees|
  {
    if trees != [] {
      FlattenEmptyTrees(trees[..|trees| - 1]);
    }
  }

  /** The first incident edge of a vertex, if any, is an edge of the graph. */
  lemma FirstIncidentInEdges(s: GraphState, x: VertexId)
    requires WellFormed(s) && x in s.incident
    ensures s.incident[x] != [] ==> s.incident[x][0] in s.edges
  {
  }

  /** A forest over a graph without edges has no edge. */
  lemma EdgelessForest(s: GraphState, ids: seq<VertexId>, starts: seq<VertexId>, trees: seq<seq<MstEdge>>)
    requires WellFormed(s) && s.edges == [] && IsForest(s, ids, starts, trees)
    ensures Flatten(trees) == []
  {
    forall k | 0 <= k < |trees|
      ensures trees[k] == []
    {
      FirstIncidentInEdges(s, starts[k]);
      PrimIsolated(s, starts[k], trees[k]);
    }
    FlattenEmptyTrees(trees);
  }

  /** The corrected construction on the same input: A is a vertex, and the forest is empty. */
  method IsolatedCorrected() returns (r: Outcome<seq<MstEdge>>)
    ensures r == Success([])
  {
    var ids: seq<VertexId> := ["A"];
    var g := new Graph();
    g.BuildGraphWithIsolated(ids, []);
    assert ids[..0] == [];
    assert g.state == WithVertices(Empty, ids);
    ghost var starts, trees;
    r, starts, trees := g.FindMwsf(["A"]);
    EdgelessForest(g.state, ["A"], starts, trees);
  }
}
