/**
 Walks, reachability and connected components of a graph state, over its
 global edge list. Edges are undirected: an edge joins its endpoints in both
 directions.
 */
module Connectivity {
  import opened Edges
  import opened GraphModel

  /** Some edge of the graph joins `a` and `b`. */
  ghost predicate Adjacent(s: GraphState, a: VertexId, b: VertexId) {
    exists e :: e in s.edges && e.Joins(a, b)
  }

  /** `p` is a walk from `a` to `b`: consecutive ids are adjacent. */
  ghost predicate IsWalk(s: GraphState, p: seq<VertexId>, a: VertexId, b: VertexId) {
    && |p| > 0 && p[0] == a && p[|p| - 1] == b
    && forall i :: 0 <= i < |p| - 1 ==> Adjacent(s, p[i], p[i + 1])
  }

  ghost predicate Reachable(s: GraphState, a: VertexId, b: VertexId) {
    exists p :: IsWalk(s, p, a, b)
  }

  /** The connected component of `a`: every vertex reachable from it. */
  ghost function Component(s: GraphState, a: VertexId): set<VertexId> {
    set b | b in s.incident && Reachable(s, a, b)
  }

  /** The edge has exactly one endpoint in `S`: it crosses the cut between `S` and the rest. */
  predicate Crosses(e: Edge, S: set<VertexId>) {
    (e.u in S) != (e.v in S)
  }

  /** No edge of the graph leaves `S`. */
  ghost predicate Closed(s: GraphState, S: set<VertexId>) {
    forall e :: e in s.edges ==> !Crosses(e, S)
  }

  lemma ReachableRefl(s: GraphState, a: VertexId)
    ensures Reachable(s, a, a)
  {
    assert IsWalk(s, [a], a, a);
  }

  /** A walk to `b` followed by an edge from `b` to `c` is a walk to `c`. */
  lemma ReachableStep(s: GraphState, a: VertexId, b: VertexId, c: VertexId)
    requires Reachable(s, a, b) && Adjacent(s, b, c)
    ensures Reachable(s, a, c)
  {
    var p :| IsWalk(s, p, a, b);
    var q := p + [c];
    forall i | 0 <= i < |q| - 1
      ensures Adjacent(s, q[i], q[i + 1])
    {
      if i < |p| - 1 {
        assert q[i] == p[i] && q[i + 1] == p[i + 1];
      }
    }
    assert IsWalk(s, q, a, c);
  }

  lemma AdjacentSymmetric(s: GraphState, a: VertexId, b: VertexId)
    requires Adjacent(s, a, b)
    ensures Adjacent(s, b, a)
  {
    var e :| e in s.edges && e.Joins(a, b);
    assert e.Joins(b, a);
  }

  /** Edges are undirected, so a walk read backwards is a walk. */
  lemma ReachableSymmetric(s: GraphState, a: VertexId, b: VertexId)
    requires Reachable(s, a, b)
    ensures Reachable(s, b, a)
  {
    var p :| IsWalk(s, p, a, b);
    var n := |p|;
    var q := seq(n, i requires 0 <= i < n => p[n - 1 - i]);
    forall i | 0 <= i < n - 1
      ensures Adjacent(s, q[i], q[i + 1])
    {
      AdjacentSymmetric(s, p[n - 2 - i], p[n - 1 - i]);
    }
    assert IsWalk(s, q, b, a);
  }

  lemma ReachableTransitive(s: GraphState, a: VertexId, b: VertexId, c: VertexId)
    requires Reachable(s, a, b) && Reachable(s, b, c)
    ensures Reachable(s, a, c)
  {
    var p :| IsWalk(s, p, a, b);
    var q :| IsWalk(s, q, b, c);
    var w := p + q[1..];
    forall i | 0 <= i < |w| - 1
      ensures Adjacent(s, w[i], w[i + 1])
    {
      if i < |p| - 1 {
        assert w[i] == p[i] && w[i + 1] == p[i + 1];
      } else {
        var j := i - (|p| - 1);
        assert w[i] == q[j] && w[i + 1] == q[j + 1];
      }
    }
    assert IsWalk(s, w, a, c);
  }

  /** A walk that starts inside a closed set never leaves it. */
  lemma {:induction false} WalkStaysInClosed(s: GraphState, S: set<VertexId>, p: seq<VertexId>, a: VertexId, b: VertexId)
    requires Closed(s, S) && a in S && IsWalk(s, p, a, b)
    ensures b in S
    decreases |p|
  {
    if |p| > 1 {
      var n := |p| - 1;
      assert IsWalk(s, p[..n], a, p[n - 1]) by {
        forall i | 0 <= i < n - 1 ensures Adjacent(s, p[..n][i], p[..n][i + 1]) {
          assert p[..n][i] == p[i] && p[..n][i + 1] == p[i + 1];
        }
      }
      WalkStaysInClosed(s, S, p[..n], a, p[n - 1]);
      var e :| e in s.edges && e.Joins(p[n - 1], p[n]);
      assert !Crosses(e, S);
    }
  }

  /** A closed set that holds `a` holds all of `a`'s component. */
  lemma ClosedHoldsComponent(s: GraphState, S: set<VertexId>, a: VertexId)
    requires Closed(s, S) && a in S
    ensures Component(s, a) <= S
  {
    forall b | b in Component(s, a)
      ensures b in S
    {
      var p :| IsWalk(s, p, a, b);
      WalkStaysInClosed(s, S, p, a, b);
    }
  }

  /** If `b` lies outside the component of `a`, the two components share no vertex. */
  lemma ComponentsDisjoint(s: GraphState, a: VertexId, b: VertexId)
    requires b in s.incident && b !in Component(s, a)
    ensures Component(s, a) !! Component(s, b)
  {
    forall x | x in Component(s, a) && x in Component(s, b)
      ensures false
    {
      ReachableSymmetric(s, b, x);
      ReachableTransitive(s, a, x, b);
    }
  }
}
