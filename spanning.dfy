/**
 What `prim_mst` and `find_mwsf` (src/graph.py) promise about their output,
 stated on values, and what follows from it.

 `prim_mst(start)` returns triples `(parent, child, weight)`; read in order,
 each one brings a new vertex `child` into the tree grown from `start`,
 hanging it from a vertex already there.
 */
module Spanning {
  import opened Edges
  import opened GraphModel
  import opened Connectivity

  /** One triple of `prim_mst`'s output. */
  datatype MstEdge = MstEdge(parent: VertexId, child: VertexId, weight: int)

  /** The vertices spanned by the tree grown from `start` through `out`. */
  function Span(start: VertexId, out: seq<MstEdge>): set<VertexId>
    decreases |out|
  {
    if out == [] then {start}
    else Span(start, out[..|out| - 1]) + {out[|out| - 1].child}
  }

  /** The children, in the order they were reached. */
  function Children(out: seq<MstEdge>): (r: seq<VertexId>)
    ensures |r| == |out| && forall i :: 0 <= i < |out| ==> r[i] == out[i].child
  {
    seq(|out|, i requires 0 <= i < |out| => out[i].child)
  }

  /** Every triple hangs a vertex not yet spanned from one that is. */
  ghost predicate IsTree(start: VertexId, out: seq<MstEdge>)
    decreases |out|
  {
    out == [] ||
    var init, m := out[..|out| - 1], out[|out| - 1];
    IsTree(start, init) && m.parent in Span(start, init) && m.child !in Span(start, init)
  }

  /** The graph has an edge between `m.parent` and `m.child` of weight `m.weight`. */
  ghost predicate IsGraphEdge(s: GraphState, m: MstEdge) {
    exists e :: e in s.edges && e.Joins(m.parent, m.child) && e.weight == m.weight
  }

  ghost predicate OnGraph(s: GraphState, out: seq<MstEdge>) {
    forall i :: 0 <= i < |out| ==> IsGraphEdge(s, out[i])
  }

  /**
   Every triple is a lightest edge across the cut between the vertices
   spanned before it and the rest of the graph.
   */
  ghost predicate CutLight(s: GraphState, start: VertexId, out: seq<MstEdge>)
    decreases |out|
  {
    out == [] ||
    var init, m := out[..|out| - 1], out[|out| - 1];
    && CutLight(s, start, init)
    && forall e :: e in s.edges && Crosses(e, Span(start, init)) ==> m.weight <= e.weight
  }

  /**
   What `prim_mst(start)` is proved to return: a tree rooted at the vertex
   `start`, made of graph edges, each a lightest edge across its cut, whose
   vertices no graph edge leaves.
   */
  ghost predicate PrimResult(s: GraphState, start: VertexId, out: seq<MstEdge>) {
    && start in s.incident
    && IsTree(start, out)
    && OnGraph(s, out)
    && CutLight(s, start, out)
    && Closed(s, Span(start, out))
  }

  lemma {:induction false} SpanMembers(start: VertexId, out: seq<MstEdge>)
    ensures Span(start, out) == {start} + set i | 0 <= i < |out| :: out[i].child
    decreases |out|
  {
    if out != [] {
      var n := |out| - 1;
      SpanMembers(start, out[..n]);
      assert (set i | 0 <= i < |out| :: out[i].child) == (set i | 0 <= i < n :: out[..n][i].child) + {out[n].child};
    }
  }

  lemma {:induction false} StartInSpan(start: VertexId, out: seq<MstEdge>)
    ensures start in Span(start, out)
    decreases |out|
  {
    if out != [] {
      StartInSpan(start, out[..|out| - 1]);
    }
  }

  /** A tree grows by one new vertex per triple. */
  lemma {:induction false} TreeSize(start: VertexId, out: seq<MstEdge>)
    requires IsTree(start, out)
    ensures |Span(start, out)| == |out| + 1
    decreases |out|
  {
    if out != [] {
      TreeSize(start, out[..|out| - 1]);
    }
  }

  /**
   The tree shape spelled out: no child is `start`, the children are
   pairwise distinct, and every parent is `start` or a child reached earlier.
   */
  lemma {:induction false} TreeOrder(start: VertexId, out: seq<MstEdge>)
    requires IsTree(start, out)
    ensures forall i :: 0 <= i < |out| ==> out[i].child != start
    ensures forall i, j :: 0 <= i < j < |out| ==> out[i].child != out[j].child
    ensures forall i :: 0 <= i < |out| ==>
      out[i].parent == start || exists j :: 0 <= j < i && out[j].child == out[i].parent
    decreases |out|
  {
    if out != [] {
      var n := |out| - 1;
      var init := out[..n];
      var m := out[n];
      TreeOrder(start, init);
      SpanMembers(start, init);
      forall i | 0 <= i < |out|
        ensures out[i].child != start
      {
        if i < n {
          assert out[i] == init[i];
        }
      }
      forall i, j | 0 <= i < j < |out|
        ensures out[i].child != out[j].child
      {
        assert out[i] == init[i];
        if j < n {
          assert out[j] == init[j];
        } else {
          assert init[i].child in Span(start, init);
        }
      }
      forall i | 0 <= i < |out|
        ensures out[i].parent == start || exists j :: 0 <= j < i && out[j].child == out[i].parent
      {
        if i < n {
          assert out[i] == init[i];
          if init[i].parent != start {
            var j :| 0 <= j < i && init[j].child == init[i].parent;
            assert out[j] == init[j];
          }
        } else if m.parent != start {
          var j :| 0 <= j < n && init[j].child == m.parent;
          assert out[j] == init[j];
        }
      }
    }
  }

  /** The lightest-edge property, for every position of the output. */
  lemma {:induction false} CutLightAt(s: GraphState, start: VertexId, out: seq<MstEdge>)
    requires CutLight(s, start, out)
    ensures forall i, e :: 0 <= i < |out| && e in s.edges && Crosses(e, Span(start, out[..i])) ==>
      out[i].weight <= e.weight
    decreases |out|
  {
    if out != [] {
      var n := |out| - 1;
      CutLightAt(s, start, out[..n]);
      forall i, e | 0 <= i < |out| && e in s.edges && Crosses(e, Span(start, out[..i]))
        ensures out[i].weight <= e.weight
      {
        if i < n {
          assert out[..n][..i] == out[..i];
        } else {
          assert out[..i] == out[..n];
        }
      }
    }
  }

  lemma OnGraphPrefix(s: GraphState, out: seq<MstEdge>, k: nat)
    requires OnGraph(s, out) && k <= |out|
    ensures OnGraph(s, out[..k])
  {
    assert forall i :: 0 <= i < k ==> out[..k][i] == out[i];
  }

  /** Every vertex of a tree made of graph edges can be reached from its root. */
  lemma {:induction false} TreeReachable(s: GraphState, start: VertexId, out: seq<MstEdge>)
    requires IsTree(start, out) && OnGraph(s, out)
    ensures forall x :: x in Span(start, out) ==> Reachable(s, start, x)
    decreases |out|
  {
    ReachableRefl(s, start);
    if out != [] {
      var n := |out| - 1;
      OnGraphPrefix(s, out, n);
      TreeReachable(s, start, out[..n]);
      var m := out[n];
      assert IsGraphEdge(s, m);
      ReachableStep(s, start, m.parent, m.child);
    }
  }

  /** The vertices of a tree made of graph edges are vertices of the graph. */
  lemma {:induction false} TreeInGraph(s: GraphState, start: VertexId, out: seq<MstEdge>)
    requires WellFormed(s) && start in s.incident && OnGraph(s, out)
    ensures Span(start, out) <= s.incident.Keys
    decreases |out|
  {
    if out != [] {
      var n := |out| - 1;
      OnGraphPrefix(s, out, n);
      TreeInGraph(s, start, out[..n]);
      assert IsGraphEdge(s, out[n]);
    }
  }

  /** `prim_mst` spans exactly the connected component of `start`. */
  lemma PrimSpansComponent(s: GraphState, start: VertexId, out: seq<MstEdge>)
    requires WellFormed(s) && PrimResult(s, start, out)
    ensures Span(start, out) == Component(s, start)
  {
    TreeReachable(s, start, out);
    TreeInGraph(s, start, out);
    StartInSpan(start, out);
    ClosedHoldsComponent(s, Span(start, out), start);
  }

  /** Hence it returns one edge fewer than the component has vertices. */
  lemma PrimEdgeCount(s: GraphState, start: VertexId, out: seq<MstEdge>)
    requires WellFormed(s) && PrimResult(s, start, out)
    ensures |out| == |Component(s, start)| - 1
  {
    PrimSpansComponent(s, start, out);
    TreeSize(start, out);
  }

  /** A start with no incident edge yields no edge. */
  lemma PrimIsolated(s: GraphState, start: VertexId, out: seq<MstEdge>)
    requires WellFormed(s) && PrimResult(s, start, out) && s.incident[start] == []
    ensures out == []
  {
    assert Closed(s, {start});
    ClosedHoldsComponent(s, {start}, start);
    ReachableRefl(s, start);
    assert Component(s, start) == {start};
    PrimEdgeCount(s, start, out);
  }

  /** `find_mwsf`'s output: the trees of the popped starts, concatenated in pop order. */
  function Flatten(trees: seq<seq<MstEdge>>): seq<MstEdge>
    decreases |trees|
  {
    if trees == [] then [] else Flatten(trees[..|trees| - 1]) + trees[|trees| - 1]
  }

  /** The vertices spanned by all the trees. */
  function Covered(starts: seq<VertexId>, trees: seq<seq<MstEdge>>): set<VertexId>
    requires |starts| == |trees|
    decreases |trees|
  {
    if trees == [] then {}
    else
      var n := |trees| - 1;
      Covered(starts[..n], trees[..n]) + Span(starts[n], trees[n])
  }

  /**
   What `find_mwsf(ids)` is proved to compute, given the starts it popped
   and the tree `prim_mst` returned for each: every start is one of `ids`;
   no start lies in a tree built before it; and every id lies in some tree.
   (`prim_mst` runs on each start: see `PrimResult`.)
   */
  ghost predicate IsForest(s: GraphState, ids: seq<VertexId>, starts: seq<VertexId>, trees: seq<seq<MstEdge>>) {
    && |starts| == |trees|
    && (forall k :: 0 <= k < |starts| ==> starts[k] in ids && PrimResult(s, starts[k], trees[k]))
    && (forall j, k :: 0 <= j < k < |starts| ==> starts[k] !in Span(starts[j], trees[j]))
    && (set id | id in ids) <= Covered(starts, trees)
  }

  /** Two `prim_mst` trees, the second started outside the first, share no vertex. */
  lemma PrimTreesDisjoint(s: GraphState, a: VertexId, ta: seq<MstEdge>, b: VertexId, tb: seq<MstEdge>)
    requires WellFormed(s) && PrimResult(s, a, ta) && PrimResult(s, b, tb) && b !in Span(a, ta)
    ensures Span(a, ta) !! Span(b, tb)
  {
    PrimSpansComponent(s, a, ta);
    PrimSpansComponent(s, b, tb);
    ComponentsDisjoint(s, a, b);
  }

  /** The trees of a forest are vertex-disjoint: each is a different component. */
  lemma ForestTreesDisjoint(s: GraphState, ids: seq<VertexId>, starts: seq<VertexId>, trees: seq<seq<MstEdge>>, j: nat, k: nat)
    requires WellFormed(s) && IsForest(s, ids, starts, trees)
    requires j < |starts| && k < |starts| && j != k
    ensures Span(starts[j], trees[j]) !! Span(starts[k], trees[k])
  {
    if j < k {
      PrimTreesDisjoint(s, starts[j], trees[j], starts[k], trees[k]);
    } else {
      PrimTreesDisjoint(s, starts[k], trees[k], starts[j], trees[j]);
    }
  }

  /** Every id lies in exactly one tree of the forest. */
  lemma ForestPartitionsIds(s: GraphState, ids: seq<VertexId>, starts: seq<VertexId>, trees: seq<seq<MstEdge>>, id: VertexId)
    requires WellFormed(s) && IsForest(s, ids, starts, trees) && id in ids
    ensures exists k :: 0 <= k < |starts| && id in Span(starts[k], trees[k])
    ensures forall j, k ::
      (0 <= j < |starts| && 0 <= k < |starts| && id in Span(starts[j], trees[j]) && id in Span(starts[k], trees[k])) ==> j == k
  {
    assert id in Covered(starts, trees);
    var k0 := CoveredWitness(starts, trees, id);
    forall j, k | 0 <= j < |starts| && 0 <= k < |starts| && id in Span(starts[j], trees[j]) && id in Span(starts[k], trees[k])
      ensures j == k
    {
      if j != k {
        ForestTreesDisjoint(s, ids, starts, trees, j, k);
      }
    }
  }

  lemma IsForestPrefix(s: GraphState, ids: seq<VertexId>, starts: seq<VertexId>, trees: seq<seq<MstEdge>>, n: nat)
    requires |starts| == |trees| && n <= |starts|
    requires forall k :: 0 <= k < |starts| ==> starts[k] in ids && PrimResult(s, starts[k], trees[k])
    requires forall j, k :: 0 <= j < k < |starts| ==> starts[k] !in Span(starts[j], trees[j])
    ensures forall k :: 0 <= k < n ==> starts[..n][k] in ids && PrimResult(s, starts[..n][k], trees[..n][k])
    ensures forall j, k :: 0 <= j < k < n ==> starts[..n][k] !in Span(starts[..n][j], trees[..n][j])
  {
  }

  /**
   The forest has as many edges as the vertices it covers, less one per
   tree: a forest of `|starts|` trees over disjoint components.
   */
  lemma {:induction false} ForestEdgeCount(s: GraphState, ids: seq<VertexId>, starts: seq<VertexId>, trees: seq<seq<MstEdge>>)
    requires WellFormed(s) && |starts| == |trees|
    requires forall k :: 0 <= k < |starts| ==> starts[k] in ids && PrimResult(s, starts[k], trees[k])
    requires forall j, k :: 0 <= j < k < |starts| ==> starts[k] !in Span(starts[j], trees[j])
    ensures |Flatten(trees)| + |starts| == |Covered(starts, trees)|
    decreases |trees|
  {
    if trees != [] {
      var n := |trees| - 1;
      IsForestPrefix(s, ids, starts, trees, n);
      ForestEdgeCount(s, ids, starts[..n], trees[..n]);
      TreeSize(starts[n], trees[n]);
      CoveredDisjoint(s, starts, trees);
    }
  }

  /** The last tree shares no vertex with the earlier ones. */
  lemma CoveredDisjoint(s: GraphState, starts: seq<VertexId>, trees: seq<seq<MstEdge>>)
    requires WellFormed(s) && |starts| == |trees| && trees != []
    requires forall k :: 0 <= k < |starts| ==> PrimResult(s, starts[k], trees[k])
    requires forall j, k :: 0 <= j < k < |starts| ==> starts[k] !in Span(starts[j], trees[j])
    ensures var n := |trees| - 1;
      Covered(starts[..n], trees[..n]) !! Span(starts[n], trees[n])
  {
    var n := |trees| - 1;
    forall x | x in Covered(starts[..n], trees[..n])
      ensures x !in Span(starts[n], trees[n])
    {
      var j := CoveredWitness(starts[..n], trees[..n], x);
      assert starts[..n][j] == starts[j] && trees[..n][j] == trees[j];
      PrimTreesDisjoint(s, starts[j], trees[j], starts[n], trees[n]);
    }
  }

  /** The index of a tree that spans `x`. */
  lemma {:induction false} CoveredWitness(starts: seq<VertexId>, trees: seq<seq<MstEdge>>, x: VertexId) returns (k: nat)
    requires |starts| == |trees| && x in Covered(starts, trees)
    ensures k < |starts| && x in Span(starts[k], trees[k])
    decreases |trees|
  {
    var n := |trees| - 1;
    if x in Span(starts[n], trees[n]) {
      k := n;
    } else {
      k := CoveredWitness(starts[..n], trees[..n], x);
    }
  }

  /** The vertices of every tree are covered. */
  lemma {:induction false} SpanInCovered(starts: seq<VertexId>, trees: seq<seq<MstEdge>>, k: nat)
    requires |starts| == |trees| && k < |starts|
    ensures Span(starts[k], trees[k]) <= Covered(starts, trees)
    decreases |trees|
  {
    var n := |trees| - 1;
    if k < n {
      SpanInCovered(starts[..n], trees[..n], k);
      assert starts[..n][k] == starts[k] && trees[..n][k] == trees[k];
    }
  }

  /**
   The invariant of `find_mwsf`'s loop, given the ids still `remaining`:
   every tree built so far is a `prim_mst` result from a listed id outside
   the earlier trees; the remaining ids are listed ids outside every tree;
   the trees lie in the graph; and every listed id is remaining or covered.
   */
  ghost predicate ForestInv(s: GraphState, ids: seq<VertexId>, remaining: set<VertexId>,
                            starts: seq<VertexId>, trees: seq<seq<MstEdge>>)
  {
    && WellFormed(s)
    && |starts| == |trees|
    && remaining <= (set id | id in ids)
    && (forall k :: 0 <= k < |starts| ==> starts[k] in ids && PrimResult(s, starts[k], trees[k]))
    && (forall j, k :: 0 <= j < k < |starts| ==> starts[k] !in Span(starts[j], trees[j]))
    && remaining !! Covered(starts, trees)
    && Covered(starts, trees) <= s.incident.Keys
    && (set id | id in ids) <= remaining + Covered(starts, trees)
  }

  lemma ForestInit(s: GraphState, ids: seq<VertexId>)
    requires WellFormed(s)
    ensures ForestInv(s, ids, set id | id in ids, [], [])
  {
  }

  /**
   One round of `find_mwsf`: the tree grown from a remaining id joins the
   forest, and its vertices leave the remaining set.
   */
  lemma ForestStep(s: GraphState, ids: seq<VertexId>, remaining: set<VertexId>,
                   starts: seq<VertexId>, trees: seq<seq<MstEdge>>, start: VertexId, t: seq<MstEdge>)
    requires ForestInv(s, ids, remaining, starts, trees)
    requires start in remaining && PrimResult(s, start, t)
    ensures ForestInv(s, ids, remaining - Span(start, t), starts + [start], trees + [t])
    ensures Flatten(trees + [t]) == Flatten(trees) + t
  {
    var starts', trees' := starts + [start], trees + [t];
    var n := |starts|;
    assert starts'[..n] == starts && trees'[..n] == trees;
    assert Covered(starts', trees') == Covered(starts, trees) + Span(start, t);
    forall j | 0 <= j < n
      ensures start !in Span(starts[j], trees[j])
    {
      SpanInCovered(starts, trees, j);
    }
    TreeInGraph(s, start, t);
  }

  /** When nothing remains, the trees form the forest `IsForest` describes, and every listed id is a vertex. */
  lemma ForestDone(s: GraphState, ids: seq<VertexId>, starts: seq<VertexId>, trees: seq<seq<MstEdge>>)
    requires ForestInv(s, ids, {}, starts, trees)
    ensures IsForest(s, ids, starts, trees)
    ensures forall id :: id in ids ==> id in s.incident
  {
  }

  /** A listed id that is not a vertex is covered by no tree, so it is still remaining. */
  lemma MissingRemains(s: GraphState, ids: seq<VertexId>, remaining: set<VertexId>,
                       starts: seq<VertexId>, trees: seq<seq<MstEdge>>, id: VertexId)
    requires ForestInv(s, ids, remaining, starts, trees)
    requires id in ids && id !in s.incident
    ensures id in remaining
  {
  }
}
