/** The split of the graph's edges into dotted and solid ones
    (AStarGraph.py, lines 38-40). Edges are kept in the order of
    `G.edges()`; the `dotted` attribute of an edge, where it has one, is
    given by the map `dotted` (an edge without the attribute is absent). */
module EdgeStyles {
  import opened Seqs

  /** The edge has a truthy `dotted` attribute. */
  predicate IsDotted<E>(e: E, dotted: map<E, bool>)
  {
    e in dotted && dotted[e]
  }

  /** Lines 38-39: `[edge for edge, dotted in get_edge_attributes(G, 'dotted').items() if dotted]`. */
  function DottedEdges<E(==)>(edges: seq<E>, dotted: map<E, bool>): (dottedEdges: seq<E>)
    ensures forall i :: 0 <= i < |dottedEdges| ==> dottedEdges[i] in edges && IsDotted(dottedEdges[i], dotted)
    ensures forall i :: 0 <= i < |edges| ==> (edges[i] in dottedEdges <==> IsDotted(edges[i], dotted))
  {
    Filter(edges, (e: E) => IsDotted(e, dotted))
  }

  /** Line 40: `[edge for edge in G.edges() if edge not in dotted_edges]`. */
  function SolidEdges<E(==)>(edges: seq<E>, dottedEdges: seq<E>): (solidEdges: seq<E>)
    ensures forall i :: 0 <= i < |solidEdges| ==> solidEdges[i] in edges && solidEdges[i] !in dottedEdges
    ensures forall i :: 0 <= i < |edges| ==> (edges[i] in solidEdges <==> edges[i] !in dottedEdges)
  {
    Filter(edges, (e: E) => e !in dottedEdges)
  }

  /** `dotted_edges` and `solid_edges` partition `G.edges()`: every edge
      is in exactly one of them, chosen by its attribute, each edge keeps
      its multiplicity, and both lists keep the order of `G.edges()`. */
  lemma {:induction false} EdgesPartitioned<E>(edges: seq<E>, dotted: map<E, bool>)
    ensures var dottedEdges := DottedEdges(edges, dotted);
      var solidEdges := SolidEdges(edges, dottedEdges);
      && (forall i :: 0 <= i < |edges| ==> (edges[i] in dottedEdges <==> IsDotted(edges[i], dotted)))
      && (forall i :: 0 <= i < |edges| ==> (edges[i] in solidEdges <==> !IsDotted(edges[i], dotted)))
      && (forall i :: 0 <= i < |solidEdges| ==> solidEdges[i] !in dottedEdges)
      && multiset(dottedEdges) + multiset(solidEdges) == multiset(edges)
      && IsSubsequence(dottedEdges, edges)
      && IsSubsequence(solidEdges, edges)
  {
    var dottedEdges := DottedEdges(edges, dotted);
    FilterSplits(edges, (e: E) => IsDotted(e, dotted), (e: E) => e !in dottedEdges);
  }
}
