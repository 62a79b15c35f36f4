# Minimum spanning forests on an adjacency-list multigraph

This project models, in Dafny, the graph core of a small Python program that
computes minimum spanning forests with Prim's algorithm:

- `Edge` (src/edge.py) is an immutable triple `(u, v, weight)` ordered by weight
  alone. It is modelled as the datatype `Edges.Edge`, with `Less` for `__lt__`.
- `Vertex` (src/vertex.py) is an id and a mutable list of incident edges. It is
  modelled as the class `Vertices.Vertex`.
- `Graph` (src/graph.py) is a dict from id to `Vertex` plus a global edge list.
  It is modelled as the class `Graphs.Graph`. Its fields are `vertices` (a map),
  `order` (the dict's key insertion order), `edges` and a ghost footprint `Repr`.
  A ghost field `state` holds the abstract value: a `GraphModel.GraphState`
  with the key order, every incident list and the global list. `Valid()` ties
  the fields to `state`, and `WellFormed(state)` is the representation
  invariant. That invariant says every incident edge has its own vertex as an
  endpoint and is in the global list, and every global edge is in the lists of
  both its endpoints.

The methods `AddVertex`, `AddEdge` and `BuildGraph` are each proved to follow a
pure function on `GraphState` (`WithVertex`, `WithEdge`, `WithEdges`). The
properties of `add_vertex`, `add_edge` and `build_graph` are lemmas about those
functions.

`PrimMst` keeps the source's loop structure:

- the heap is a sequence of `(weight, vertex, parent)` candidates;
- each round pops any minimum-weight entry;
- a popped vertex not yet visited is visited, and its incident edges to
  unvisited vertices are pushed.

Its contract is `Spanning.PrimResult`: the output is a tree rooted at the start,
made of graph edges. Each output edge is a lightest edge across the cut between
the vertices spanned before it and the rest. No graph edge leaves the spanned
set. From this, lemmas derive that the tree spans exactly the start's connected
component and has one edge fewer than it has vertices. They also derive that no
spanning tree of that component has a smaller total weight.

`FindMwsf` keeps the source's working-set loop. Its contract is
`Spanning.IsForest`. Lemmas show that the trees are vertex-disjoint, that every
listed id lies in exactly one tree, and that the forest's edge count is
"covered vertices minus trees". The forest weighs no more than any choice of
spanning trees for the same components.

The minimality proof (module `Minimality`) uses no exchange argument. It fixes a
weight threshold and counts the edges heavier than the threshold. Numbering the
heavy edges of Prim's output gives each reached vertex a level. By the cut
property, every lighter graph edge joins two vertices of the same level. So any
spanning tree needs a heavy edge for each level beyond the start's, and has at
least as many heavy edges as Prim's output. Summing these counts over all
thresholds compares the total weights.

A missing vertex ends the Python program with an exception. The model returns
the result `VertexNotFound(id)` instead.

## Model

| member | source | states |
|---|---|---|
| Edges.EdgeKeepsEndpointOrder | src/edge.py:4-15 | The constructor stores `u`, `v` and the weight as given, self-loops included. For distinct endpoints, `(a, b, w)` and `(b, a, w)` are different values that join the same pair. |
| Edges.LessDependsOnlyOnWeight | src/edge.py:17-27 | `__lt__` looks only at weights: edges with equal weights compare alike whatever their endpoints. |
| Edges.LessIrreflexive | src/edge.py:27 | No edge is smaller than itself or than any edge of equal weight. |
| Edges.LessStrictOrder | src/edge.py:27 | `__lt__` is asymmetric and transitive. |
| Edges.LessTotalOnWeights | src/edge.py:27 | Edges of different weights are always comparable. |
| Edges.Edge.Other | src/graph.py:123 | The far endpoint read off an edge from one of its endpoints: the edge joins the two. |
| Vertices.Vertex.constructor | src/vertex.py:5-13 | A new vertex has the given id and an empty incident list. |
| Vertices.Vertex.AddEdge | src/vertex.py:15-22 | The incident list becomes the old list followed by the edge, one entry longer, ending with the edge. |
| Vertices.AddEdgeTwice | src/vertex.py:22 | No deduplication: adding an edge twice appends it twice. |
| Graphs.Graph.constructor | src/graph.py:8-13 | A new graph is valid and its abstract value is the empty state. |
| Graphs.Graph.AddVertex | src/graph.py:15-23 | The invariant is kept, and the new state is `WithVertex(old state, id)`. |
| GraphModel.WithVertexOnlyAdds | src/graph.py:22-23 | A present id changes nothing. An absent one adds exactly one key, with an empty list, at the end of the key order; every other list and the edge list are untouched. |
| GraphModel.WithVertexIdempotent | src/graph.py:22-23 | Adding a vertex twice is the same as adding it once. |
| GraphModel.WithVertexWellFormed | src/graph.py:22-23 | `add_vertex` keeps the representation invariant. |
| Graphs.Graph.AddEdge | src/graph.py:25-39 | The invariant is kept, and the new state is `WithEdge(old state, u, v, weight)`. |
| Graphs.Graph.Attach | src/graph.py:36-39 | With both endpoints present, the edge is appended to each endpoint's `Vertex` list and to the global list, and no vertex object is added. |
| GraphModel.WithEdgeEffect | src/graph.py:34-39 | Both endpoints are vertices afterwards. The edge is appended to the global list and to the ends of u's and v's lists (twice for a self-loop). No other list changes. An equal edge already present is kept, so its count grows by one. |
| GraphModel.WithEdgeWellFormed | src/graph.py:34-39 | `add_edge` keeps the representation invariant: incident edges touch their vertex, and global edges are in both endpoints' lists. |
| Graphs.Graph.GetVertex | src/graph.py:41-51 | The result is present exactly when the id is a vertex. It is then that vertex, with that id and that incident list. Being a function, it changes nothing. |
| Graphs.Graph.GetVertices | src/graph.py:53-60 | One vertex per key, in key-insertion order, each with its id and incident list. Every vertex appears. |
| GraphModel.OrderSize | src/graph.py:60 | The key order lists each vertex exactly once. |
| Graphs.Graph.BuildGraph | src/graph.py:90-99 | One `add_edge` per tuple, in order: the new state is `WithEdges(old state, tuples)`, and the vertex list is not used. |
| GraphModel.WithEdgeAppends | src/graph.py:39 | `add_edge` appends exactly its new edge to the global list. |
| GraphModel.WithEdgesWellFormed | src/graph.py:98-99 | `build_graph` keeps the representation invariant. |
| GraphModel.WithEdgesVertices | src/graph.py:98-99 | After `build_graph` the vertices are the old ones plus exactly the tuples' endpoints. |
| GraphModel.WithEdgesEdges | src/graph.py:98-99 | After `build_graph` the global list has gained one edge per tuple, in tuple order. |
| GraphModel.WithVerticesWellFormed | src/graph.py:90-99 | The corrected construction keeps the representation invariant. |
| Graphs.Graph.AddVertices | src/graph.py:15-23 | `add_vertex` for every listed id, in order. Afterwards every listed id is a vertex. |
| Graphs.Graph.BuildGraphWithIsolated | src/graph.py:90-99 | Corrected `build_graph`: every listed id becomes a vertex, then the tuples are added. |
| GraphModel.WithVerticesHasIds | src/graph.py:90-99 | After the corrected construction, every listed id is a vertex. |
| PrimSteps.MinIndex | src/graph.py:117 | A non-empty heap has a minimum-weight entry, which `heappop` may return. |
| PrimSteps.Remove | src/graph.py:117 | Popping removes exactly one occurrence of the popped entry: the multiset of entries loses that one entry, so equal copies stay. Nothing new appears. |
| Graphs.Graph.PrimMst | src/graph.py:101-130 | Faults exactly when `start` is not a vertex, reporting `start`. Otherwise the output is a `PrimResult` that weighs no more than any spanning tree of the component, after at most 1 + (sum of the visited vertices' degrees) heap pushes. |
| PrimSteps.InitInv | src/graph.py:111-113 | The initial state, with nothing visited, no edge output and the one entry `(0, start, None)`, satisfies the loop invariant. |
| PrimSteps.PopVisited | src/graph.py:117-118 | Popping an entry whose vertex is already visited changes nothing but the heap, and keeps the invariant. |
| PrimSteps.CrossingEdgeQueued | src/graph.py:123-126 | Every graph edge leaving the visited set has a queued entry of its weight. This is what makes the popped minimum a lightest crossing edge. |
| PrimSteps.VisitStep | src/graph.py:118-121 | Visiting the vertex of a minimum entry adds one new vertex, hung by a graph edge from a visited one that is lightest across the cut. Every other queued entry stays valid. |
| PrimSteps.VisitShrinks | src/graph.py:118-119 | Visiting a vertex of the graph that is not yet visited shrinks the set of unvisited vertices: the outer loop terminates. |
| PrimSteps.PushStep | src/graph.py:123-126 | The candidate pushed for an edge from the visited vertex to an unvisited one is a valid entry: a graph edge hanging from a visited vertex. |
| PrimSteps.PushesExactly | src/graph.py:122-126 | The candidates pushed for an incident list are exactly those of its edges whose far end is unvisited, each as `(weight, far end, u)`. |
| PrimSteps.PushesSnoc | src/graph.py:122-126 | One more incident edge adds its candidate, if it has one, at the end. |
| PrimSteps.VisitDone | src/graph.py:122-126 | Appending the pushed candidates of the visited vertex restores the loop invariant, with the push count raised by their number. |
| Graphs.QueueEdges | src/graph.py:122-126 | The inner loop leaves the old heap followed by the pushed candidates, in incident-list order. |
| Graphs.PushNeighbours | src/graph.py:122-126 | After a visit, the heap is the old heap followed by the pushed candidates, with one push each. The loop invariant holds again, with at most one push per incident-list entry. |
| PrimSteps.MissingIsStart | src/graph.py:113-123 | The only vertex that can fail the lookup is `start`, on the first round. |
| PrimSteps.Finished | src/graph.py:116-130 | When the heap is empty, no graph edge leaves the visited set, and the output is a `PrimResult`. |
| Spanning.TreeSize | src/graph.py:116-121 | The output has one edge fewer than the vertices it spans. |
| Spanning.TreeOrder | src/graph.py:116-121 | No child is `start`; the children are pairwise distinct; each parent is `start` or an earlier child. |
| Spanning.CutLightAt | src/graph.py:116-121 | Each output edge weighs no more than any graph edge crossing the cut between the vertices spanned before it and the rest. |
| Spanning.TreeReachable | src/graph.py:116-126 | Every spanned vertex is reachable from `start`. |
| Spanning.TreeInGraph | src/graph.py:116-126 | Every spanned vertex is a vertex of the graph. |
| Spanning.PrimSpansComponent | src/graph.py:101-130 | The output spans exactly the connected component of `start`. |
| Spanning.PrimEdgeCount | src/graph.py:101-130 | The output has |component| - 1 edges. |
| Spanning.PrimIsolated | src/graph.py:123 | A start with no incident edge yields no edge. |
| Minimality.LightExitLevel | src/graph.py:116-126 | A light edge from a reached vertex to one not yet reached makes every later output edge light as well. |
| Minimality.LightSameLevel | src/graph.py:116-126 | For any threshold, a graph edge no heavier than the threshold joins two vertices of the same level. |
| Minimality.LevelsTaken | src/graph.py:116-121 | Every level from 0 up to the number of heavy output edges is taken by some reached vertex. |
| Minimality.HeavyPerLevel | src/graph.py:101-130 | A tree of graph edges over the reached vertices has a heavy edge for every level beyond the root's. |
| Minimality.HeavyAtLeastPrim | src/graph.py:101-130 | For every threshold, a spanning tree of the component has at least as many edges above it as the output. |
| Minimality.WeightByThresholds | src/graph.py:101-130 | A list's total weight is its length times a lower bound, plus the number of (threshold, edge) pairs where the edge exceeds the threshold. |
| Minimality.WeightFromHeavy | src/graph.py:101-130 | Of two lists of equal length, the one with no more heavy edges at any threshold weighs no more. |
| Minimality.PrimIsSpanningTree | src/graph.py:101-130 | The output of `prim_mst` is a spanning tree of the component of `start`. |
| Minimality.PrimMinimal | src/graph.py:101-110 | The output of `prim_mst` is a minimum spanning tree: no spanning tree of the component weighs less. |
| Minimality.PrimWeightDeterministic | src/graph.py:116-117 | However `heappop` breaks ties between equal weights, the output's total weight is the same. |
| Minimality.WeightAppend | src/graph.py:148 | Extending the forest with a tree adds the tree's weight. |
| Minimality.TreesMinimal | src/graph.py:145-150 | Trees returned by `prim_mst` weigh, together, no more than any spanning trees of the same components. |
| Minimality.ForestMinimal | src/graph.py:132-152 | `find_mwsf` returns a minimum spanning forest: it weighs no more than any spanning trees, one per popped start, of the same components. |
| Graphs.Graph.FindMwsf | src/graph.py:132-152 | Faults exactly when some listed id is not a vertex, and reports such an id. Otherwise the output is the concatenation, in pop order, of the `prim_mst` trees of the popped starts, which form an `IsForest`. |
| Graphs.DiscardChildren | src/graph.py:149-150 | The working set loses exactly the children of the tree. |
| Graphs.SubsetSmaller | src/graph.py:146-150 | Each round removes its start for good, so the working set shrinks and the loop terminates. |
| Spanning.ForestStep | src/graph.py:145-150 | One round keeps the forest invariant: starts are listed ids outside earlier trees; the working set is disjoint from every tree; every id is remaining or covered. |
| Spanning.ForestDone | src/graph.py:145-152 | An empty working set leaves an `IsForest`, and every listed id is a vertex. |
| Spanning.MissingRemains | src/graph.py:145-150 | A listed id that is not a vertex is never covered, so it is still waiting when popped. |
| Spanning.PrimTreesDisjoint | src/graph.py:145-150 | Two `prim_mst` trees, the second started outside the first, share no vertex. |
| Spanning.ForestTreesDisjoint | src/graph.py:132-152 | Different trees of the forest share no vertex. |
| Spanning.ForestPartitionsIds | src/graph.py:132-152 | Every listed id lies in exactly one tree. |
| Spanning.ForestEdgeCount | src/graph.py:132-152 | The forest has as many edges as covered vertices, less one per tree. |
| Connectivity.ReachableSymmetric | src/graph.py:36-38 | Edges are undirected: reachability is symmetric. |
| Connectivity.ReachableTransitive | src/graph.py:36-38 | Reachability is transitive. |
| Connectivity.ClosedHoldsComponent | src/graph.py:116-126 | A vertex set that no edge leaves holds the whole component of each of its members. |
| Connectivity.ComponentsDisjoint | src/graph.py:132-152 | Two distinct components share no vertex. |
| Scenarios.DuplicateEdgeState | src/graph.py:34-39 | Adding the edge ("1", "2", 5) twice keeps both copies in both lists and in the global list. |
| Scenarios.DuplicateEdgeTree | src/graph.py:116-126 | On that graph, `prim_mst("1")` yields exactly `[("1", "2", 5)]`: the second copy is skipped. |
| Scenarios.DuplicateEdge | src/graph.py:101-130 | The same, end to end through `build_graph` and `prim_mst`. |
| Scenarios.IsolatedAsWritten | src/graph.py:98-99 | With `build_graph` as written, vertex list ["A"] and no edges make `find_mwsf(["A"])` fault on "A". |
| Scenarios.IsolatedCorrected | src/graph.py:90-99 | With the corrected construction, the same input gives the empty forest. |

## Left out

- `parse_input` (file reading, `int()` parsing, diagnostic printing) and all of
  src/main.py (argument check, driver, console output) are not part of this
  model. Their output is taken as given sequences of ids and
  `(u, v, weight)` tuples.
- Weights are integers. The type hints say `float`, but the only producer of
  weights parses them with `int()`.
- Vertex ids are strings, which is what the input parser produces. Python's
  `Any`-typed ids are not modelled.
- `heapq` internals and Python's tuple tie-breaking are not modelled. The heap
  is a sequence, and a pop takes any minimum-weight entry. Everything proved
  holds for every such choice, and so for the one `heapq` makes.
- `set.pop()` is modelled as an arbitrary choice of a member, so the proofs
  hold for every pop order.
- The `edge_map` dictionary of `prim_mst` is omitted. It is read only to
  decide its own updates, and it never affects the output.
- A missing vertex makes the Python code raise `AttributeError`, on
  `None.edges`. The model returns `VertexNotFound(id)` instead. The tree
  edges already appended to `mwsf_edges` are dropped, as the exception drops
  them.
- Minimality.PrimMinimal: compares the output with spanning trees given as
  `Minimality.SpanningTree` lists. In such a list each edge hangs a new vertex
  from one reached earlier. Any spanning tree can be listed this way, for
  instance breadth-first from `start`, but the model does not prove that. The
  same restriction applies to `Graphs.Graph.PrimMst`,
  `Minimality.HeavyAtLeastPrim`, `Minimality.TreesMinimal` and
  `Minimality.ForestMinimal`.
- Vertices.Vertex.AddEdge: "the id does not change" is not stated as an
  `ensures`. `id` is a `const` field, which no method can assign.
- Python's identity of `Vertex` objects is represented by the `Repr` footprint
  and the fact that every key maps to the vertex carrying that key as its id.
  `get_vertices` returns the stored objects themselves.

## Findings

`build_graph` accepts a list of vertex ids and never uses it. Its docstring
(src/graph.py:91-96) says it builds the graph from the vertex list and the
edge list. The driver (src/main.py:33-34) passes that same list to
`find_mwsf`, so every listed id is expected to be a vertex. As written, an id
that occurs in no edge tuple never becomes a vertex, and `find_mwsf` on it
then fails.

| source | as written | input that shows it | evidently intended | confidence | as-written member | corrected member |
|---|---|---|---|---|---|---|
| src/graph.py:90-99 | `build_graph` only adds the edge tuples, so a listed id without edges is not a vertex | vertex list ["A"], no edges, then `find_mwsf(["A"])` | every listed id becomes a vertex, so the forest is empty and nothing fails | not executed | Scenarios.IsolatedAsWritten | Scenarios.IsolatedCorrected |
