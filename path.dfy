/** The conversion of the node path returned by the search into the list
    of edges it traverses (AStarGraph.py, line 50). */
module Path {
  import opened Seqs

  /** Line 50: `[(path[i], path[i + 1]) for i in range(len(path) - 1)]`.
      `range` of a negative bound is empty, so an empty path gives []. */
  function PathEdges<N>(path: seq<N>): (edges: seq<(N, N)>)
    ensures |edges| == if path == [] then 0 else |path| - 1
    ensures forall i :: 0 <= i < |edges| ==> edges[i] == (path[i], path[i + 1])
  {
    if |path| <= 1 then []
    else seq(|path| - 1, i requires 0 <= i < |path| - 1 => (path[i], path[i + 1]))
  }

  /** Consecutive edges share a node, the first edge leaves `start`. */
  predicate Chained<N(==)>(start: N, edges: seq<(N, N)>)
  {
    && (edges != [] ==> edges[0].0 == start)
    && (forall i :: 0 <= i < |edges| - 1 ==> edges[i].1 == edges[i + 1].0)
  }

  /** The nodes an edge list visits, from `start` on: the inverse of `PathEdges`. */
  function PathNodes<N>(start: N, edges: seq<(N, N)>): (path: seq<N>)
    ensures |path| == |edges| + 1 && path[0] == start
    ensures forall i :: 0 <= i < |edges| ==> path[i + 1] == edges[i].1
  {
    [start] + seq(|edges|, i requires 0 <= i < |edges| => edges[i].1)
  }

  /** Every consecutive pair of nodes is an edge of the graph. */
  predicate IsWalk<N(==)>(path: seq<N>, graphEdges: seq<(N, N)>)
  {
    forall i :: 0 <= i < |path| - 1 ==> (path[i], path[i + 1]) in graphEdges
  }

  /** The edges of a path chain from its first node to its last one. */
  lemma PathEdgesChained<N>(path: seq<N>)
    requires path != []
    ensures Chained(path[0], PathEdges(path))
    ensures |path| > 1 ==> PathEdges(path)[|path| - 2].1 == path[|path| - 1]
  {
  }

  /** Round trip: the nodes visited by a path's edges are the path. */
  lemma NodesOfPathEdges<N>(path: seq<N>)
    requires path != []
    ensures PathNodes(path[0], PathEdges(path)) == path
  {
    var nodes := PathNodes(path[0], PathEdges(path));
    forall i | 0 < i < |path|
      ensures nodes[i] == path[i]
    {
      assert nodes[i] == PathEdges(path)[i - 1].1;
    }
  }

  /** Round trip the other way: a chained edge list is the list of edges
      of the nodes it visits. */
  lemma EdgesOfPathNodes<N>(start: N, edges: seq<(N, N)>)
    requires Chained(start, edges)
    ensures PathEdges(PathNodes(start, edges)) == edges
  {
    var nodes := PathNodes(start, edges);
    forall i | 0 <= i < |edges|
      ensures PathEdges(nodes)[i] == edges[i]
    {
      if i == 0 {
        assert edges[0].0 == start;
      } else {
        assert edges[i - 1].1 == edges[i].0;
      }
    }
  }

  /** A path is a walk in the graph exactly when every edge `PathEdges`
      lists is an edge of the graph. */
  lemma WalkIffEdgesInGraph<N>(path: seq<N>, graphEdges: seq<(N, N)>)
    ensures IsWalk(path, graphEdges) <==>
      forall i :: 0 <= i < |PathEdges(path)| ==> PathEdges(path)[i] in graphEdges
  {
    var edges := PathEdges(path);
    if forall i :: 0 <= i < |edges| ==> edges[i] in graphEdges {
      forall i | 0 <= i < |path| - 1
        ensures (path[i], path[i + 1]) in graphEdges
      {
        assert edges[i] == (path[i], path[i + 1]);
      }
    }
  }

  /** The edges of a simple path are pairwise distinct. */
  lemma DistinctPathEdges<N>(path: seq<N>)
    requires Distinct(path)
    ensures Distinct(PathEdges(path))
  {
  }
}
