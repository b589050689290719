# AStarGraph in Dafny

A model of the logic in `AStarGraph.py`. The script loads a road-network graph, asks
for a start node and a goal node, and runs networkx's A* search on them. It then
animates the path over the network, edge by edge. The model covers the script's own
rules, not the search:

- **Distances** (`Distances`): `manhattan_distance` and `euclidean_distance` over the
  position table. A node missing from the table raises `KeyError`, modelled as
  `Failure(MissingPosition(node))`. Euclidean distance is modelled by its square.
- **Heuristics** (`Heuristics`): the zero heuristic `astar_path` uses when the caller
  supplies none, and the Manhattan heuristic the script passes. networkx's
  `astar_path` is a parameter `search` of `AStarPath`.
- **Position table** (`PositionTable`): the three dictionary comprehensions that build
  `node_positions`:
  - read `x` and `-y`, with 0 for a missing attribute;
  - keep the positions whose two coordinates are both truthy;
  - key the table by `str(node)`.
  The first two dictionaries are modelled as their item sequences, in graph order. The
  string conversion is a parameter `str`.
- **Edge styles** (`EdgeStyles`, with `Seqs.Filter`): the split of `G.edges()` into
  `dotted_edges` and `solid_edges`.
- **Path edges** (`Path`): `path_edges` derived from the node path, and its inverse.
- **Animation** (`Animation`): the `edge_colors` dictionary that `update(frame)`
  builds. The method `Update` has the source's loop and is proved equal to the
  declarative `FrameColours`. Lemmas state what each frame shows, and that the last
  of the `len(path_edges) + 1` frames shows the whole path green.

In two places the code does something other than what its comments or callers
suggest. The model follows the code in both:

- The comment on line 30 says that nodes without `x` and `y` attributes are filtered
  out. The filter on line 31, `all(pos)`, also drops every node that has a coordinate
  equal to 0 (see Findings).
- `nx.astar_path` (line 21) never returns an empty list: without a path it raises.
  Line 50 still handles an empty path, and turns it into an empty edge list. The
  search is a parameter here, so `Path.PathEdges` models that case too.

## Model

| member | source | states |
|---|---|---|
| Distances.LookupPair | AStarGraph.py:7-8 | both lookups succeed iff u and v are keys; otherwise the error names u if u is missing, else v |
| Distances.Manhattan | AStarGraph.py:11-14 | succeeds iff u and v have positions; the value is abs(x2-x1)+abs(y2-y1) and non-negative; a missing node raises its KeyError, u first |
| Distances.SquaredEuclidean | AStarGraph.py:6-9 | succeeds iff u and v have positions; the value (the square of the returned distance) is (x2-x1)^2 + (y2-y1)^2 and non-negative; a missing node raises its KeyError, u first |
| Distances.Taxicab | AStarGraph.py:14 | abs(x2-x1)+abs(y2-y1) is non-negative |
| Distances.SquaredDistance | AStarGraph.py:9 | (x2-x1)^2 + (y2-y1)^2 is non-negative |
| Distances.TaxicabIsMetric | AStarGraph.py:14 | the Manhattan formula is non-negative, zero exactly for equal points, symmetric, and obeys the triangle inequality |
| Distances.ManhattanSymmetricAndZero | AStarGraph.py:11-14 | manhattan_distance(u, v) == manhattan_distance(v, u), and manhattan_distance(u, u) == 0, for nodes with positions |
| Distances.EuclideanBelowManhattan | AStarGraph.py:6-14 | every non-negative square root e of the squared Euclidean distance satisfies e <= Manhattan <= sqrt(2)*e |
| Distances.EuclideanDistanceBelowManhattan | AStarGraph.py:6-14 | for two nodes with positions, every non-negative square root e of the squared euclidean_distance satisfies e <= manhattan_distance <= sqrt(2)*e |
| Distances.DistancesOfThreeFourFive | AStarGraph.py:6-14 | between (0, 0) and (3, 4) the squared Euclidean distance is 5*5 and the Manhattan distance 7 |
| Heuristics.ZeroHeuristic | AStarGraph.py:17-19 | the default heuristic returns 0 for every pair of nodes |
| Heuristics.Effective | AStarGraph.py:16-19 | a supplied heuristic is used unchanged; without one, the heuristic is 0 everywhere |
| Heuristics.AStarPath | AStarGraph.py:16-22 | astar_path hands the search the zero heuristic when none is given, otherwise the given one |
| Heuristics.ManhattanHeuristic | AStarGraph.py:47 | the script's heuristic returns manhattan_distance(u, v, node_positions) for every pair: it fails exactly when a node has no position, is non-negative otherwise, a missing u raises u's KeyError and a missing v (with u present) raises v's |
| PositionTable.Attr | AStarGraph.py:28 | data.get(key, 0): the attribute's value when the node has it, 0 otherwise |
| PositionTable.RawPosition | AStarGraph.py:28-31 | the position is (x, -y) of the node's attributes when it has both; all(pos) holds for it exactly when x and y are both nonzero |
| PositionTable.Extract | AStarGraph.py:28 | one item per graph node, in graph order, at (x, -y) with 0 for a missing attribute |
| PositionTable.KeepPlaced | AStarGraph.py:31 | every kept item comes from the input and has both coordinates truthy, and every such input item is kept |
| PositionTable.Rekey | AStarGraph.py:34 | the keys are exactly the string forms of the items' nodes; with unique string forms each key maps to its item's position |
| PositionTable.NodePositions | AStarGraph.py:28-34 | every key of node_positions is the string form of a graph node with both coordinates nonzero |
| PositionTable.NodePositionsExact | AStarGraph.py:28-34 | with unique string forms, a node is in node_positions iff x and y are both nonzero, and then it sits at (x, -y) |
| PositionTable.KeepPresent | AStarGraph.py:30 | every kept node comes from the input and has both attributes, and every such node is kept |
| PositionTable.IntendedNodePositions | AStarGraph.py:30-31 | with the filter the comment describes, every key is the string form of a node that has both attributes |
| PositionTable.IntendedNodePositionsExact | AStarGraph.py:30-31 | with that filter, a node is in the table iff it has both attributes, at (x, -y), whatever their values |
| PositionTable.IntendedNodePositionAt | AStarGraph.py:30-31 | the same statement for one node |
| PositionTable.ZeroCoordinateDropped | AStarGraph.py:28-31 | a node with x = 0 and y = 2 has both attributes, yet the line-31 filter drops it; the intended filter keeps it at (0, -2) |
| Seqs.Filter | AStarGraph.py:39-40 | the comprehension keeps exactly the elements satisfying the condition, in their original order (a subsequence) |
| Seqs.FilterSplits | AStarGraph.py:39-40 | two comprehensions with complementary conditions split a list, element multiplicities included |
| EdgeStyles.DottedEdges | AStarGraph.py:38-39 | every element of dotted_edges is an edge with a truthy dotted attribute; an edge is in dotted_edges iff its attribute is truthy |
| EdgeStyles.SolidEdges | AStarGraph.py:40 | every element of solid_edges is an edge not in dotted_edges; an edge is in solid_edges iff it is not in dotted_edges |
| EdgeStyles.EdgesPartitioned | AStarGraph.py:38-40 | an edge is in dotted_edges iff its dotted attribute is truthy, and in solid_edges iff not; the lists are disjoint; together they hold exactly the edges of G.edges(); both keep G.edges() order |
| Path.PathEdges | AStarGraph.py:50 | a path of n >= 1 nodes gives n-1 edges, an empty path none; edge i is (path[i], path[i+1]) |
| Path.PathNodes | AStarGraph.py:50 | the inverse of path_edges: start, then the second node of every edge |
| Path.PathEdgesChained | AStarGraph.py:50 | the first edge leaves path[0]; the second node of edge i is the first node of edge i+1; the last edge ends at the goal |
| Path.NodesOfPathEdges | AStarGraph.py:50 | round trip: the nodes that path_edges visits are the path |
| Path.EdgesOfPathNodes | AStarGraph.py:50 | round trip: a chained edge list is the path_edges of the nodes it visits |
| Path.WalkIffEdgesInGraph | AStarGraph.py:47-50 | every consecutive node pair is a graph edge iff every element of path_edges is a graph edge |
| Path.DistinctPathEdges | AStarGraph.py:50 | a path without repeated nodes has no repeated edges |
| Animation.BaseColours | AStarGraph.py:64 | every graph edge gets a colour, only graph edges do; each colour is orange or blue, and orange exactly for the edges in dotted_edges |
| Animation.FrameColours | AStarGraph.py:64-72 | every edge coloured at line 64 keeps a colour in every frame (what the colours are: the lemmas below) |
| Animation.FrameColoursStep | AStarGraph.py:66-72 | one loop iteration paints path edge i green if i < frame, red if i == frame, and otherwise changes nothing |
| Animation.Update | AStarGraph.py:61-72 | the dictionary built by update(frame) equals FrameColours of the base colours, the path edges and the frame |
| Animation.FrameColoursOnPath | AStarGraph.py:66-72 | without repeated edges: path edges before the frame are green, the current one red, later ones and every off-path edge keep their base colour |
| Animation.OffPathKeepsBase | AStarGraph.py:64-72 | in every frame, even when the path repeats an edge, an edge off the path keeps its line-64 colour |
| Animation.FrameColoursKeys | AStarGraph.py:64-72 | the coloured edges are the graph's edges plus the painted path edges; they are exactly the graph's edges when every path edge is one |
| Animation.OneCurrentEdge | AStarGraph.py:64-72 | in every frame before the last, exactly one edge is red: path edge number frame |
| Animation.FrameCount | AStarGraph.py:87 | the animation has len(path_edges)+1 frames, so its last frame is number len(path_edges) |
| Animation.LastFrameCovered | AStarGraph.py:66-72 | in the last of the len(path_edges)+1 frames, every path edge is green and no edge is red |
| Animation.FrameOfSimplePath | AStarGraph.py:38-72 | for a path without repeated nodes: edges before the frame are green, the current edge is red, and each off-path graph edge is orange if dotted and blue otherwise |

## Left out

- `nx.astar_path` (line 21) is networkx's code, which is not part of this model. It is
  the parameter `search`. Nothing is claimed about optimality, termination or its
  error cases (`NodeNotFound`, no path). Its errors only appear as the datatype
  `SearchError`.
- `nx.read_graphml` and the hard-coded file path (line 25) are file I/O. The graph is
  given as a node list, an edge list and a map from edge to `dotted` attribute.
- The `float(...)` parsing on line 28 is library parsing. Attribute values are given as
  reals.
- The truthiness of a `dotted` value read from a file (a string "False" is truthy) is
  not modelled. The attribute is a `bool`.
- Floating point is not modelled: coordinates are exact reals. So there is no NaN,
  which `all(pos)` would keep because NaN is truthy, and no distinction between -0.0
  and 0.0.
- Distances.SquaredEuclidean: returns the square of `euclidean_distance`, because
  `math.sqrt` is floating point. `Distances.EuclideanBelowManhattan` speaks of any
  non-negative square root instead.
- `str(node)` on line 34 is a parameter `str`. The exactness lemmas require distinct
  string forms. Without that, a later node overwrites an earlier one, as in Python, and
  only the key set is characterised.
- The `input()` prompts (lines 43-44) are interactive I/O. Start and goal are
  arguments.
- All drawing is rendering: `plt.subplots`, `draw_networkx_*`, `plt.clf`, `plt.axis`,
  `FuncAnimation`'s interval and repeat options, and `plt.show` (lines 53-59, 62,
  73-88). This includes the draw calls' `if e in edge_colors` filters. Of line 87 only
  the frame count is modelled: frames 0 to `len(path_edges)`.
- A path edge that is not a key of `G.edges()` is added to `edge_colors` and never
  drawn, because the draw calls iterate `solid_edges` and `dotted_edges`. That happens
  on an undirected graph when the path crosses an edge against its stored
  orientation. The model records the extra key (`Animation.FrameColoursKeys`) but not
  the drawing.
- Heuristics: no lemma states that the default heuristic equals every other
  zero-everywhere heuristic as a function value, because Dafny has no function
  extensionality. `Heuristics.Effective` states it pointwise.

## Findings

| source | as written | input that shows it | evidently intended | confidence | as-written member | corrected member |
|---|---|---|---|---|---|---|
| AStarGraph.py:31 | `all(pos)` drops every node with a coordinate equal to 0, not only nodes without an `x` or `y` attribute | a node "n" with attributes x = 0.0 and y = 2.0 is missing from node_positions, so a heuristic call on it raises KeyError | drop exactly the nodes lacking an `x` or a `y` attribute, as the comment on line 30 says | medium; not executed | PositionTable.ZeroCoordinateDropped | PositionTable.IntendedNodePositionsExact |
