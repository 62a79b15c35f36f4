/**
 The working state of `prim_mst` (src/graph.py): the heap of candidate
 entries, the visited set and the output so far, with the invariant the
 loop keeps and one lemma per kind of step. The method itself lives in
 `Graphs.Graph.PrimMst`.
 */
module PrimSteps {
  import opened Edges
  import opened GraphModel
  import opened Connectivity
  import opened Spanning

  datatype Option<T> = None | Some(value: T)

  /** A heap entry: reach `vertex` from `parent` by an edge of `weight`; no parent for the start. */
  datatype Candidate = Candidate(weight: int, vertex: VertexId, parent: Option<VertexId>)

  /** Entry `i` has minimum weight: `heappop` may return it. */
  predicate IsMin(heap: seq<Candidate>, i: nat)
    requires i < |heap|
  {
    forall j :: 0 <= j < |heap| ==> heap[i].weight <= heap[j].weight
  }

  /** The position of a minimum-weight entry; it shows that a non-empty heap has one. */
  function MinIndex(heap: seq<Candidate>): (i: nat)
    requires heap != []
    ensures i < |heap| && IsMin(heap, i)
  {
    if |heap| == 1 then 0
    else
      var k := MinIndex(heap[1..]);
      if heap[0].weight <= heap[k + 1].weight then 0 else k + 1
  }

  /** The heap without entry `i`: nothing new, and every value other than the removed one is kept. */
  function Remove(heap: seq<Candidate>, i: nat): (r: seq<Candidate>)
    requires i < |heap|
    ensures |r| == |heap| - 1
    ensures forall d :: d in r ==> d in heap
    ensures forall d :: d in heap && d != heap[i] ==> d in r
    ensures multiset(r) == multiset(heap) - multiset{heap[i]}
  {
    var r := heap[..i] + heap[i + 1..];
    assert forall j :: 0 <= j < |heap| && j != i ==> heap[j] == r[if j < i then j else j - 1];
    assert heap == heap[..i] + [heap[i]] + heap[i + 1..];
    r
  }

  /** The output after visiting the vertex of entry `c`: one more triple, unless `c` is the start entry. */
  function Grow(mst: seq<MstEdge>, c: Candidate): (r: seq<MstEdge>)
    ensures c.parent.None? ==> r == mst
    ensures c.parent.Some? ==> r == mst + [MstEdge(c.parent.value, c.vertex, c.weight)]
  {
    if c.parent.Some? then mst + [MstEdge(c.parent.value, c.vertex, c.weight)] else mst
  }

  /** Every entry with a parent stands for a graph edge from an already visited vertex. */
  ghost predicate EntryOk(s: GraphState, visited: set<VertexId>, c: Candidate) {
    match c.parent
    case None => visited == {}
    case Some(p) => p in visited && c.vertex in s.incident && IsGraphEdge(s, MstEdge(p, c.vertex, c.weight))
  }

  /** Every edge from `x` to an unvisited vertex is waiting in the heap. */
  ghost predicate Frontier(s: GraphState, visited: set<VertexId>, heap: seq<Candidate>, x: VertexId)
    requires x in s.incident
  {
    forall e :: e in s.incident[x] && e.Other(x) !in visited ==> Candidate(e.weight, e.Other(x), Some(x)) in heap
  }

  /**
   The invariant of the outer loop of `prim_mst`. Before the first visit
   the heap holds only the start entry. Afterwards the visited set is what
   the output spans, the output is a tree of lightest cut edges, every
   entry is a graph edge out of the visited set, and every edge leaving the
   visited set is queued. `pushes` counts heap insertions.
   */
  ghost predicate Inv(s: GraphState, start: VertexId, visited: set<VertexId>, mst: seq<MstEdge>,
                      heap: seq<Candidate>, pushes: nat)
  {
    && WellFormed(s)
    && visited <= s.incident.Keys
    && (visited == {} ==> mst == [] && heap == [Candidate(0, start, None)] && pushes == 1)
    && (visited != {} ==> && start in s.incident && visited == Span(start, mst)
                          && pushes <= 1 + DegreeSum(s, [start] + Children(mst)))
    && IsTree(start, mst) && OnGraph(s, mst) && CutLight(s, start, mst)
    && (forall c :: c in heap ==> EntryOk(s, visited, c))
    && (forall x :: x in visited ==> Frontier(s, visited, heap, x))
  }

  /**
   The invariant while the incident edges of the newly visited `u` are
   being pushed: as `Inv`, except that `u`'s own edges need not be queued
   yet, and `pushes` leaves room for one push per incident edge of `u`.
   */
  ghost predicate Visiting(s: GraphState, start: VertexId, visited: set<VertexId>, mst: seq<MstEdge>,
                           heap: seq<Candidate>, pushes: nat, u: VertexId)
  {
    && WellFormed(s)
    && visited <= s.incident.Keys && u in visited
    && start in s.incident && visited == Span(start, mst)
    && pushes + |s.incident[u]| <= 1 + DegreeSum(s, [start] + Children(mst))
    && IsTree(start, mst) && OnGraph(s, mst) && CutLight(s, start, mst)
    && (forall c :: c in heap ==> EntryOk(s, visited, c))
    && (forall x :: x in visited && x != u ==> Frontier(s, visited, heap, x))
  }

  /** An edge crossing the visited set has an entry of its weight in the heap. */
  lemma CrossingEdgeQueued(s: GraphState, visited: set<VertexId>, heap: seq<Candidate>, e: Edge)
    requires WellFormed(s) && visited <= s.incident.Keys
    requires forall x :: x in visited ==> Frontier(s, visited, heap, x)
    requires e in s.edges && Crosses(e, visited)
    ensures exists c :: c in heap && c.weight == e.weight
  {
    if e.u in visited {
      assert e in s.incident[e.u] && e.Other(e.u) == e.v;
      assert Frontier(s, visited, heap, e.u);
    } else {
      assert e in s.incident[e.v] && e.Other(e.v) == e.u;
      assert Frontier(s, visited, heap, e.v);
    }
  }

  /** The state before the loop satisfies the invariant. */
  lemma InitInv(s: GraphState, start: VertexId)
    requires WellFormed(s)
    ensures Inv(s, start, {}, [], [Candidate(0, start, None)], 1)
  {
  }

  /** Popping an entry whose vertex is already visited keeps the invariant. */
  lemma PopVisited(s: GraphState, start: VertexId, visited: set<VertexId>, mst: seq<MstEdge>,
                   heap: seq<Candidate>, pushes: nat, i: nat)
    requires Inv(s, start, visited, mst, heap, pushes)
    requires i < |heap| && heap[i].vertex in visited
    ensures Inv(s, start, visited, mst, Remove(heap, i), pushes)
  {
    var r := Remove(heap, i);
    forall x | x in visited
      ensures Frontier(s, visited, r, x)
    {
      forall e | e in s.incident[x] && e.Other(x) !in visited
        ensures Candidate(e.weight, e.Other(x), Some(x)) in r
      {
        assert Frontier(s, visited, heap, x);
      }
    }
  }

  /** A popped vertex that the graph does not have can only be the start, popped first. */
  lemma MissingIsStart(s: GraphState, start: VertexId, visited: set<VertexId>, mst: seq<MstEdge>,
                       heap: seq<Candidate>, pushes: nat, i: nat)
    requires Inv(s, start, visited, mst, heap, pushes)
    requires i < |heap| && heap[i].vertex !in s.incident
    ensures heap[i].vertex == start && start !in s.incident
  {
    assert EntryOk(s, visited, heap[i]);
  }

  /**
   Visiting the unvisited vertex of a minimum entry: the output grows by a
   lightest edge across the cut, and the visited set by one vertex of the
   graph.
   */
  lemma VisitStep(s: GraphState, start: VertexId, visited: set<VertexId>, mst: seq<MstEdge>,
                  heap: seq<Candidate>, pushes: nat, i: nat)
    requires Inv(s, start, visited, mst, heap, pushes)
    requires i < |heap| && IsMin(heap, i)
    requires heap[i].vertex !in visited && heap[i].vertex in s.incident
    ensures var u := heap[i].vertex;
      Visiting(s, start, visited + {u}, Grow(mst, heap[i]), Remove(heap, i), pushes, u)
  {
    var c, u := heap[i], heap[i].vertex;
    var mst' := Grow(mst, c);
    assert EntryOk(s, visited, c);
    assert && visited + {u} == Span(start, mst')
           && IsTree(start, mst') && OnGraph(s, mst') && CutLight(s, start, mst')
           && pushes + |s.incident[u]| <= 1 + DegreeSum(s, [start] + Children(mst')) by {
      if c.parent.Some? {
        forall e | e in s.edges && Crosses(e, visited)
          ensures c.weight <= e.weight
        {
          CrossingEdgeQueued(s, visited, heap, e);
        }
        GrowTree(s, start, visited, mst, pushes, c);
      } else {
        assert [start][..0] == [];
      }
    }
    VisitHeap(s, visited, heap, i);
  }

  /** Visiting a vertex of the graph not yet visited leaves fewer to visit: the outer loop terminates. */
  lemma VisitShrinks(keys: set<VertexId>, visited: set<VertexId>, u: VertexId)
    requires u in keys && u !in visited
    ensures |keys - (visited + {u})| < |keys - visited|
  {
    assert keys - visited == (keys - (visited + {u})) + {u};
  }

  /** Hanging a new vertex from a visited one by a lightest crossing edge extends the tree. */
  lemma GrowTree(s: GraphState, start: VertexId, visited: set<VertexId>, mst: seq<MstEdge>, pushes: nat, c: Candidate)
    requires start in s.incident && visited == Span(start, mst)
    requires pushes <= 1 + DegreeSum(s, [start] + Children(mst))
    requires IsTree(start, mst) && OnGraph(s, mst) && CutLight(s, start, mst)
    requires c.parent.Some? && EntryOk(s, visited, c) && c.vertex !in visited
    requires forall e :: e in s.edges && Crosses(e, visited) ==> c.weight <= e.weight
    ensures var mst' := Grow(mst, c);
      && visited + {c.vertex} == Span(start, mst')
      && IsTree(start, mst') && OnGraph(s, mst') && CutLight(s, start, mst')
      && pushes + |s.incident[c.vertex]| <= 1 + DegreeSum(s, [start] + Children(mst'))
  {
    var u := c.vertex;
    var mst' := Grow(mst, c);
    assert mst'[..|mst'| - 1] == mst;
    assert forall k :: 0 <= k < |mst| ==> mst'[k] == mst[k];
    var L := [start] + Children(mst);
    assert [start] + Children(mst') == L + [u];
    assert (L + [u])[..|L|] == L;
  }

  /** Removing the entry of the newly visited vertex keeps every other entry valid and every old frontier queued. */
  lemma VisitHeap(s: GraphState, visited: set<VertexId>, heap: seq<Candidate>, i: nat)
    requires WellFormed(s) && visited <= s.incident.Keys
    requires i < |heap| && heap[i].vertex !in visited && (visited == {} ==> |heap| == 1)
    requires forall c :: c in heap ==> EntryOk(s, visited, c)
    requires forall x :: x in visited ==> Frontier(s, visited, heap, x)
    ensures var visited', r := visited + {heap[i].vertex}, Remove(heap, i);
      && (forall c :: c in r ==> EntryOk(s, visited', c))
      && (forall x :: x in visited ==> Frontier(s, visited', r, x))
  {
    var visited', r := visited + {heap[i].vertex}, Remove(heap, i);
    if visited == {} {
      assert r == [];
    }
    forall x | x in visited
      ensures Frontier(s, visited', r, x)
    {
      forall e | e in s.incident[x] && e.Other(x) !in visited'
        ensures Candidate(e.weight, e.Other(x), Some(x)) in r
      {
        assert Frontier(s, visited, heap, x);
      }
    }
  }

  /** The candidate of an edge from the visited `u` to an unvisited vertex is a valid entry. */
  lemma PushStep(s: GraphState, visited: set<VertexId>, u: VertexId, e: Edge)
    requires WellFormed(s) && u in visited && u in s.incident
    requires e in s.incident[u] && e.Other(u) !in visited
    ensures EntryOk(s, visited, Candidate(e.weight, e.Other(u), Some(u)))
  {
    assert e in s.edges && e.Joins(u, e.Other(u));
  }

  /**
   The candidates the inner loop pushes for the incident edges of `u`, in
   list order: one per edge whose far end is not visited, and no other.
   */
  function Pushes(visited: set<VertexId>, u: VertexId, incident: seq<Edge>): (r: seq<Candidate>)
    ensures |r| <= |incident|
    decreases |incident|
  {
    if incident == [] then []
    else
      var n := |incident| - 1;
      var e := incident[n];
      Pushes(visited, u, incident[..n]) + (if e.Other(u) !in visited then [Candidate(e.weight, e.Other(u), Some(u))] else [])
  }

  /**
   `Pushes` holds the candidate of every incident edge leading to an
   unvisited vertex, and nothing else.
   */
  lemma {:induction false} PushesExactly(visited: set<VertexId>, u: VertexId, incident: seq<Edge>)
    ensures forall e :: e in incident && e.Other(u) !in visited ==>
      Candidate(e.weight, e.Other(u), Some(u)) in Pushes(visited, u, incident)
    ensures forall c :: c in Pushes(visited, u, incident) ==>
      (c.parent == Some(u) && c.vertex !in visited &&
       exists e :: e in incident && c == Candidate(e.weight, e.Other(u), Some(u)))
    decreases |incident|
  {
    if incident != [] {
      var n := |incident| - 1;
      PushesExactly(visited, u, incident[..n]);
      assert forall d :: d in incident[..n] ==> d in incident;
      assert incident == incident[..n] + [incident[n]];
    }
  }

  /** One more incident edge adds its candidate, if any, at the end. */
  lemma PushesSnoc(visited: set<VertexId>, u: VertexId, incident: seq<Edge>, k: nat)
    requires k < |incident|
    ensures var e := incident[k];
      Pushes(visited, u, incident[..k + 1]) == Pushes(visited, u, incident[..k]) +
        (if e.Other(u) !in visited then [Candidate(e.weight, e.Other(u), Some(u))] else [])
  {
    assert incident[..k + 1][..k] == incident[..k];
  }

  /**
   Appending the candidates pushed for the edges of `u` restores the outer
   invariant, with the push count raised by their number.
   */
  lemma VisitDone(s: GraphState, start: VertexId, visited: set<VertexId>, mst: seq<MstEdge>,
                  heap: seq<Candidate>, pushes: nat, u: VertexId)
    requires Visiting(s, start, visited, mst, heap, pushes, u)
    ensures var pushed := Pushes(visited, u, s.incident[u]);
      Inv(s, start, visited, mst, heap + pushed, pushes + |pushed|)
  {
    var pushed := Pushes(visited, u, s.incident[u]);
    var r := heap + pushed;
    PushesExactly(visited, u, s.incident[u]);
    forall c | c in r
      ensures EntryOk(s, visited, c)
    {
      if c in pushed {
        var e :| e in s.incident[u] && c == Candidate(e.weight, e.Other(u), Some(u));
        PushStep(s, visited, u, e);
      }
    }
    forall x | x in visited
      ensures Frontier(s, visited, r, x)
    {
      if x != u {
        forall e | e in s.incident[x] && e.Other(x) !in visited
          ensures Candidate(e.weight, e.Other(x), Some(x)) in r
        {
          assert Frontier(s, visited, heap, x);
        }
      }
    }
  }

  /** When the heap runs empty the output is a full `PrimResult`, within the push bound. */
  lemma Finished(s: GraphState, start: VertexId, visited: set<VertexId>, mst: seq<MstEdge>, pushes: nat)
    requires Inv(s, start, visited, mst, [], pushes)
    ensures PrimResult(s, start, mst)
    ensures pushes <= 1 + DegreeSum(s, [start] + Children(mst))
  {
    forall e | e in s.edges
      ensures !Crosses(e, visited)
    {
      if Crosses(e, visited) {
        CrossingEdgeQueued(s, visited, [], e);
      }
    }
  }
}
