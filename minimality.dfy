/**
 Total-weight minimality of `prim_mst` (src/graph.py): no spanning tree of
 the start's component weighs less than the tree Prim's algorithm returns,
 and so every tree of `find_mwsf`'s forest is a minimum spanning tree of its
 component.

 The proof fixes a weight threshold `t` and counts the edges heavier than
 `t`. Numbering the heavy edges of Prim's output gives every reached vertex a
 level; the lightest-edge property makes every light graph edge join two
 vertices of the same level, so any spanning tree needs one heavy edge per
 level beyond the first. A spanning tree therefore has at least as many heavy
 edges as Prim's output for every threshold, and summing over the thresholds
 compares the total weights.
 */
module Minimality {
  import opened Edges
  import opened GraphModel
  import opened Connectivity
  import opened Spanning

  /** The sum of the weights of the triples. */
  function Weight(out: seq<MstEdge>): int
    decreases |out|
  {
    if out == [] then 0 else Weight(out[..|out| - 1]) + out[|out| - 1].weight
  }

  /**
   A spanning tree of the component of `start`, made of graph edges and
   listed so that every triple hangs a new vertex from one already reached
   (any spanning tree can be listed so, for instance in breadth-first order
   from `start`).
   */
  ghost predicate SpanningTree(s: GraphState, start: VertexId, q: seq<MstEdge>) {
    && start in s.incident
    && IsTree(start, q)
    && OnGraph(s, q)
    && Span(start, q) == Component(s, start)
  }

  /** The number of triples heavier than `t`. */
  function Heavy(out: seq<MstEdge>, t: int): nat
    decreases |out|
  {
    if out == [] then 0
    else Heavy(out[..|out| - 1], t) + (if out[|out| - 1].weight > t then 1 else 0)
  }

  /**
   The level of `x` in the tree `p` for threshold `t`: the number of heavy
   triples up to and including the one that reached `x`; 0 for the root.
   */
  function Level(p: seq<MstEdge>, t: int, x: VertexId): nat
    decreases |p|
  {
    if p == [] then 0
    else if p[|p| - 1].child == x then Heavy(p, t)
    else Level(p[..|p| - 1], t, x)
  }

  /** The levels taken by the vertices of `S`. */
  ghost function Levels(p: seq<MstEdge>, t: int, S: set<VertexId>): set<int> {
    set x | x in S :: Level(p, t, x) as int
  }

  lemma HeavySnoc(out: seq<MstEdge>, m: MstEdge, t: int)
    ensures Heavy(out + [m], t) == Heavy(out, t) + (if m.weight > t then 1 else 0)
  {
    assert (out + [m])[..|out|] == out;
  }

  lemma WeightSnoc(out: seq<MstEdge>, m: MstEdge)
    ensures Weight(out + [m]) == Weight(out) + m.weight
  {
    assert (out + [m])[..|out|] == out;
  }

  /** The weight of a concatenation is the sum of the weights. */
  lemma {:induction false} WeightAppend(a: seq<MstEdge>, b: seq<MstEdge>)
    ensures Weight(a + b) == Weight(a) + Weight(b)
    decreases |b|
  {
    if b == [] {
      assert a + b == a;
    } else {
      var n := |b| - 1;
      WeightAppend(a, b[..n]);
      assert a + b == (a + b[..n]) + [b[n]];
      WeightSnoc(a + b[..n], b[n]);
    }
  }

  /**
   Once `a` is reached and a light edge leads from it to a vertex not reached
   yet, every later triple is light: the level of `a` is the final count.
   */
  lemma {:induction false} LightExitLevel(s: GraphState, start: VertexId, p: seq<MstEdge>, t: int,
                                          a: VertexId, b: VertexId, e: Edge)
    requires IsTree(start, p) && CutLight(s, start, p)
    requires e in s.edges && e.Joins(a, b) && e.weight <= t
    requires a in Span(start, p) && b !in Span(start, p)
    ensures Level(p, t, a) == Heavy(p, t)
    decreases |p|
  {
    if p != [] {
      var n := |p| - 1;
      var init, m := p[..n], p[n];
      if m.child != a {
        assert a in Span(start, init) && b !in Span(start, init);
        assert Crosses(e, Span(start, init));
        LightExitLevel(s, start, init, t, a, b, e);
      }
    }
  }

  /** A light graph edge joins two vertices of the same level. */
  lemma {:induction false} LightSameLevel(s: GraphState, start: VertexId, p: seq<MstEdge>, t: int,
                                          a: VertexId, b: VertexId, e: Edge)
    requires IsTree(start, p) && CutLight(s, start, p)
    requires e in s.edges && e.Joins(a, b) && e.weight <= t
    requires a in Span(start, p) && b in Span(start, p)
    ensures Level(p, t, a) == Level(p, t, b)
    decreases |p|
  {
    if p != [] {
      var n := |p| - 1;
      var init, m := p[..n], p[n];
      if a != m.child && b != m.child {
        LightSameLevel(s, start, init, t, a, b, e);
      } else if a != m.child {
        assert Crosses(e, Span(start, init));
        LightExitLevel(s, start, init, t, a, b, e);
      } else if b != m.child {
        assert Crosses(e, Span(start, init));
        LightExitLevel(s, start, init, t, b, a, e);
      }
    }
  }

  /** Every level from 0 to the number of heavy triples is taken by a reached vertex. */
  lemma {:induction false} LevelsTaken(start: VertexId, p: seq<MstEdge>, t: int, j: int)
    requires IsTree(start, p) && 0 <= j <= Heavy(p, t)
    ensures j in Levels(p, t, Span(start, p))
    decreases |p|
  {
    if p == [] {
      assert start in Span(start, p) && Level(p, t, start) == 0;
    } else {
      var n := |p| - 1;
      var init, m := p[..n], p[n];
      if j <= Heavy(init, t) {
        LevelsTaken(start, init, t, j);
        var x :| x in Span(start, init) && Level(init, t, x) == j;
        assert x != m.child && Level(p, t, x) == j;
        assert x in Span(start, p);
      } else {
        assert Level(p, t, m.child) == j;
        assert m.child in Span(start, p);
      }
    }
  }

  /** The integers 0 to `h`. */
  function Upto(h: nat): (r: set<int>)
    ensures forall j :: j in r <==> 0 <= j <= h
    ensures |r| == h + 1
    decreases h
  {
    if h == 0 then {0} else Upto(h - 1) + {h}
  }

  lemma SubsetCard(a: set<int>, b: set<int>)
    requires a <= b
    ensures |a| <= |b|
  {
    assert b == a + (b - a);
    assert a * (b - a) == {};
  }

  /**
   A tree of graph edges over vertices Prim reaches needs one heavy triple for
   every level its vertices take beyond the root's.
   */
  lemma {:induction false} HeavyPerLevel(s: GraphState, start: VertexId, p: seq<MstEdge>, t: int, q: seq<MstEdge>)
    requires IsTree(start, p) && CutLight(s, start, p)
    requires IsTree(start, q) && OnGraph(s, q) && Span(start, q) <= Span(start, p)
    ensures |Levels(p, t, Span(start, q))| <= Heavy(q, t) + 1
    decreases |q|
  {
    if q == [] {
      assert Levels(p, t, Span(start, q)) == {Level(p, t, start) as int};
    } else {
      var n := |q| - 1;
      var init, m := q[..n], q[n];
      OnGraphPrefix(s, q, n);
      HeavyPerLevel(s, start, p, t, init);
      var before := Levels(p, t, Span(start, init));
      var c := Level(p, t, m.child) as int;
      assert Levels(p, t, Span(start, q)) == before + {c};
      if c !in before {
        assert Level(p, t, m.parent) as int in before;
        assert IsGraphEdge(s, q[n]);
        var e :| e in s.edges && e.Joins(m.parent, m.child) && e.weight == m.weight;
        if m.weight <= t {
          LightSameLevel(s, start, p, t, m.parent, m.child, e);
          assert false;
        }
      }
    }
  }

  /** For every threshold, a spanning tree has at least as many heavy triples as Prim's output. */
  lemma HeavyAtLeastPrim(s: GraphState, start: VertexId, p: seq<MstEdge>, q: seq<MstEdge>, t: int)
    requires WellFormed(s) && PrimResult(s, start, p) && SpanningTree(s, start, q)
    ensures Heavy(p, t) <= Heavy(q, t)
  {
    PrimSpansComponent(s, start, p);
    HeavyPerLevel(s, start, p, t, q);
    var h := Heavy(p, t);
    forall j | j in Upto(h)
      ensures j in Levels(p, t, Span(start, q))
    {
      LevelsTaken(start, p, t, j);
    }
    SubsetCard(Upto(h), Levels(p, t, Span(start, q)));
  }

  /** The sum over the thresholds `lo` to `hi - 1` of the number of heavy triples. */
  function HeavySum(out: seq<MstEdge>, lo: int, hi: int): int
    requires lo <= hi
    decreases hi - lo
  {
    if lo == hi then 0 else HeavySum(out, lo, hi - 1) + Heavy(out, hi - 1)
  }

  lemma {:induction false} HeavySumEmpty(lo: int, hi: int)
    requires lo <= hi
    ensures HeavySum([], lo, hi) == 0
    decreases hi - lo
  {
    if lo < hi {
      HeavySumEmpty(lo, hi - 1);
    }
  }

  /** A triple of weight `w >= lo` is heavy for exactly the thresholds `lo` up to `min(w, hi) - 1`. */
  lemma {:induction false} HeavySumSnoc(out: seq<MstEdge>, m: MstEdge, lo: int, hi: int)
    requires lo <= hi && lo <= m.weight
    ensures HeavySum(out + [m], lo, hi) == HeavySum(out, lo, hi) + (if m.weight < hi then m.weight else hi) - lo
    decreases hi - lo
  {
    if lo < hi {
      HeavySumSnoc(out, m, lo, hi - 1);
      HeavySnoc(out, m, hi - 1);
    }
  }

  ghost predicate WeightsIn(out: seq<MstEdge>, lo: int, hi: int) {
    forall i :: 0 <= i < |out| ==> lo <= out[i].weight <= hi
  }

  /** A weight is its lower bound plus the number of thresholds above the bound it exceeds. */
  lemma {:induction false} WeightByThresholds(out: seq<MstEdge>, lo: int, hi: int)
    requires lo <= hi && WeightsIn(out, lo, hi)
    ensures Weight(out) == |out| * lo + HeavySum(out, lo, hi)
    decreases |out|
  {
    if out == [] {
      HeavySumEmpty(lo, hi);
    } else {
      var n := |out| - 1;
      var init := out[..n];
      assert WeightsIn(init, lo, hi) by {
        assert forall i :: 0 <= i < n ==> init[i] == out[i];
      }
      WeightByThresholds(init, lo, hi);
      assert lo <= out[n].weight <= hi;
      HeavySumSnoc(init, out[n], lo, hi);
      assert init + [out[n]] == out;
      assert |out| * lo == n * lo + lo;
    }
  }

  lemma {:induction false} HeavySumMono(p: seq<MstEdge>, q: seq<MstEdge>, lo: int, hi: int)
    requires lo <= hi && forall t :: Heavy(p, t) <= Heavy(q, t)
    ensures HeavySum(p, lo, hi) <= HeavySum(q, lo, hi)
    decreases hi - lo
  {
    if lo < hi {
      HeavySumMono(p, q, lo, hi - 1);
    }
  }

  /** A lower bound on the weights. */
  function MinWeight(out: seq<MstEdge>): (r: int)
    ensures forall i :: 0 <= i < |out| ==> r <= out[i].weight
    decreases |out|
  {
    if out == [] then 0
    else
      var n := |out| - 1;
      var r := MinWeight(out[..n]);
      assert forall i :: 0 <= i < n ==> out[..n][i] == out[i];
      if out[n].weight < r then out[n].weight else r
  }

  /** An upper bound on the weights. */
  function MaxWeight(out: seq<MstEdge>): (r: int)
    ensures forall i :: 0 <= i < |out| ==> out[i].weight <= r
    decreases |out|
  {
    if out == [] then 0
    else
      var n := |out| - 1;
      var r := MaxWeight(out[..n]);
      assert forall i :: 0 <= i < n ==> out[..n][i] == out[i];
      if out[n].weight > r then out[n].weight else r
  }

  /** Prim's output is itself a spanning tree of the component of `start`. */
  lemma PrimIsSpanningTree(s: GraphState, start: VertexId, p: seq<MstEdge>)
    requires WellFormed(s) && PrimResult(s, start, p)
    ensures SpanningTree(s, start, p)
  {
    PrimSpansComponent(s, start, p);
  }

  /**
   Two lists of equally many triples, the second with at least as many
   heavy triples as the first for every threshold: the first weighs no more.
   */
  lemma WeightFromHeavy(p: seq<MstEdge>, q: seq<MstEdge>)
    requires |p| == |q| && forall t :: Heavy(p, t) <= Heavy(q, t)
    ensures Weight(p) <= Weight(q)
  {
    var lo := if MinWeight(p) < MinWeight(q) then MinWeight(p) else MinWeight(q);
    var top := if MaxWeight(p) > MaxWeight(q) then MaxWeight(p) else MaxWeight(q);
    var hi := if top > lo then top else lo;
    WeightByThresholds(p, lo, hi);
    WeightByThresholds(q, lo, hi);
    HeavySumMono(p, q, lo, hi);
  }

  /** `prim_mst` returns a minimum spanning tree: no spanning tree of the component weighs less. */
  lemma PrimMinimal(s: GraphState, start: VertexId, p: seq<MstEdge>, q: seq<MstEdge>)
    requires WellFormed(s) && PrimResult(s, start, p) && SpanningTree(s, start, q)
    ensures Weight(p) <= Weight(q)
  {
    assert |p| == |q| by {
      PrimSpansComponent(s, start, p);
      TreeSize(start, p);
      TreeSize(start, q);
    }
    forall t
      ensures Heavy(p, t) <= Heavy(q, t)
    {
      HeavyAtLeastPrim(s, start, p, q, t);
    }
    WeightFromHeavy(p, q);
  }

  /** However `heappop` breaks ties between equal weights, the total weight is the same. */
  lemma PrimWeightDeterministic(s: GraphState, start: VertexId, p1: seq<MstEdge>, p2: seq<MstEdge>)
    requires WellFormed(s) && PrimResult(s, start, p1) && PrimResult(s, start, p2)
    ensures Weight(p1) == Weight(p2)
  {
    PrimIsSpanningTree(s, start, p1);
    PrimIsSpanningTree(s, start, p2);
    PrimMinimal(s, start, p1, p2);
    PrimMinimal(s, start, p2, p1);
  }

  /** Trees returned by `prim_mst` weigh, together, no more than any spanning trees of the same components. */
  lemma {:induction false} TreesMinimal(s: GraphState, starts: seq<VertexId>, trees: seq<seq<MstEdge>>,
                                        others: seq<seq<MstEdge>>)
    requires WellFormed(s) && |starts| == |trees| == |others|
    requires forall k :: 0 <= k < |trees| ==> PrimResult(s, starts[k], trees[k]) && SpanningTree(s, starts[k], others[k])
    ensures Weight(Flatten(trees)) <= Weight(Flatten(others))
    decreases |trees|
  {
    if trees != [] {
      var n := |trees| - 1;
      var st, tr, ot := starts[..n], trees[..n], others[..n];
      forall k | 0 <= k < n
        ensures PrimResult(s, st[k], tr[k]) && SpanningTree(s, st[k], ot[k])
      {
        assert st[k] == starts[k] && tr[k] == trees[k] && ot[k] == others[k];
      }
      TreesMinimal(s, st, tr, ot);
      PrimMinimal(s, starts[n], trees[n], others[n]);
      WeightAppend(Flatten(tr), trees[n]);
      WeightAppend(Flatten(ot), others[n]);
    }
  }

  /**
   `find_mwsf` returns a minimum spanning forest: for any choice of spanning
   trees of the same components, one per popped start, the forest weighs no
   more than their concatenation.
   */
  lemma ForestMinimal(s: GraphState, ids: seq<VertexId>, starts: seq<VertexId>,
                      trees: seq<seq<MstEdge>>, others: seq<seq<MstEdge>>)
    requires WellFormed(s) && IsForest(s, ids, starts, trees) && |others| == |trees|
    requires forall k :: 0 <= k < |others| ==> SpanningTree(s, starts[k], others[k])
    ensures Weight(Flatten(trees)) <= Weight(Flatten(others))
  {
    TreesMinimal(s, starts, trees, others);
  }
}
