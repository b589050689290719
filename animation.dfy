/** The edge colours of one animation frame: the dictionary `update(frame)`
    builds (AStarGraph.py, lines 64-72) before drawing it, and the number
    of frames the animation plays (line 87). */
module Animation {
  import opened EdgeStyles
  import opened Path
  import opened Seqs

  datatype Colour = Orange | Blue | Green | Red

  /** Line 64: `{edge: 'orange' if edge in dotted_edges else 'blue' for edge in G.edges()}`. */
  function BaseColours<E(==)>(edges: seq<E>, dottedEdges: seq<E>): (colours: map<E, Colour>)
    ensures forall i :: 0 <= i < |edges| ==> edges[i] in colours
    ensures forall e :: e in colours ==> e in edges && colours[e] in {Orange, Blue}
    ensures forall e :: e in colours ==> (colours[e] == Orange <==> e in dottedEdges)
  {
    map e | e in edges :: if e in dottedEdges then Orange else Blue
  }

  function Min(a: int, b: int): int
  {
    if a < b then a else b
  }

  /** The colours frame `frame` shows, edge by edge: the path edge with
      index `frame` is red; a path edge with a smaller index is green;
      any other edge keeps its base colour. An edge of the path that is
      not a key of `base` is added once it is coloured. */
  ghost function FrameColours<E>(base: map<E, Colour>, pathEdges: seq<E>, frame: nat): (colours: map<E, Colour>)
    ensures base.Keys <= colours.Keys
  {
    var shown := pathEdges[..Min(frame + 1, |pathEdges|)];
    var painted := set e | e in shown;
    map e | e in base.Keys + painted ::
      if frame < |pathEdges| && e == pathEdges[frame] then Red
      else if e in pathEdges[..Min(frame, |pathEdges|)] then Green
      else base[e]
  }

  /** Colouring one more path edge (`edge_colors[path_edges[i]] = ...`)
      moves the frame's colours from the first i path edges to i + 1. */
  lemma FrameColoursStep<E>(base: map<E, Colour>, pathEdges: seq<E>, i: nat, frame: nat)
    requires i < |pathEdges|
    ensures FrameColours(base, pathEdges[..i + 1], frame) ==
      if i < frame then FrameColours(base, pathEdges[..i], frame)[pathEdges[i] := Green]
      else if i == frame then FrameColours(base, pathEdges[..i], frame)[pathEdges[i] := Red]
      else FrameColours(base, pathEdges[..i], frame)
  {
    var before, after := pathEdges[..i], pathEdges[..i + 1];
    assert after == before + [pathEdges[i]];
    var next, prev := FrameColours(base, after, frame), FrameColours(base, before, frame);
    var expected := if i < frame then prev[pathEdges[i] := Green]
      else if i == frame then prev[pathEdges[i] := Red]
      else prev;
    var passedAfter, passedBefore := after[..Min(frame, |after|)], before[..Min(frame, |before|)];
    assert passedAfter == if i < frame then after else passedBefore;
    forall e
      ensures e in next <==> e in expected
    {
      if i <= frame {
        assert after[i] == pathEdges[i];
      }
    }
    forall e | e in next
      ensures next[e] == expected[e]
    {
      if i < frame && e != pathEdges[i] {
        assert e in passedAfter <==> e in passedBefore;
      }
    }
    assert next == expected;
  }

  /** `update(frame)` up to the drawing: the base colours, then the loop
      over the path edges that paints passed edges green and the current
      one red. */
  method Update<E(==)>(edges: seq<E>, dottedEdges: seq<E>, pathEdges: seq<E>, frame: nat)
    returns (edgeColours: map<E, Colour>)
    ensures edgeColours == FrameColours(BaseColours(edges, dottedEdges), pathEdges, frame)
  {
    ghost var base := BaseColours(edges, dottedEdges);
    edgeColours := BaseColours(edges, dottedEdges);
    assert pathEdges[..0] == [];
    for i := 0 to |pathEdges|
      invariant edgeColours == FrameColours(base, pathEdges[..i], frame)
    {
      FrameColoursStep(base, pathEdges, i, frame);
      if i < frame {
        edgeColours := edgeColours[pathEdges[i] := Green];
      } else if i == frame {
        edgeColours := edgeColours[pathEdges[i] := Red];
      }
    }
    assert pathEdges[..|pathEdges|] == pathEdges;
  }

  /** Line 87: `frames=len(path_edges) + 1`, played as frames 0 .. len(path_edges). */
  function FrameCount<E>(pathEdges: seq<E>): (frames: nat)
    ensures frames > 0 && frames - 1 == |pathEdges|
  {
    |pathEdges| + 1
  }

  /** On a path without repeated edges, frame `frame` shows the path
      edges before index `frame` green, the one at `frame` red, the later
      ones in their base colour, and every edge off the path in its base
      colour. */
  lemma {:induction false} FrameColoursOnPath<E>(base: map<E, Colour>, pathEdges: seq<E>, frame: nat)
    requires Distinct(pathEdges)
    ensures forall i :: 0 <= i < |pathEdges| && i < frame ==>
      FrameColours(base, pathEdges, frame)[pathEdges[i]] == Green
    ensures frame < |pathEdges| ==> FrameColours(base, pathEdges, frame)[pathEdges[frame]] == Red
    ensures forall i :: frame < i < |pathEdges| ==>
      (pathEdges[i] in base ==> FrameColours(base, pathEdges, frame)[pathEdges[i]] == base[pathEdges[i]]) &&
      (pathEdges[i] !in base ==> pathEdges[i] !in FrameColours(base, pathEdges, frame))
    ensures forall e :: e in base && e !in pathEdges ==> FrameColours(base, pathEdges, frame)[e] == base[e]
  {
    OffPathKeepsBase(base, pathEdges, frame);
    var colours := FrameColours(base, pathEdges, frame);
    forall i | 0 <= i < |pathEdges| && i < frame
      ensures colours[pathEdges[i]] == Green
    {
      assert pathEdges[i] == pathEdges[..Min(frame, |pathEdges|)][i];
    }
    forall i | frame < i < |pathEdges|
      ensures pathEdges[i] in base ==> colours[pathEdges[i]] == base[pathEdges[i]]
      ensures pathEdges[i] !in base ==> pathEdges[i] !in colours
    {
      assert pathEdges[i] != pathEdges[frame];
      assert pathEdges[i] !in pathEdges[..Min(frame, |pathEdges|)];
    }
  }

  /** An edge off the path keeps its base colour in every frame, whether
      or not the path repeats an edge. */
  lemma OffPathKeepsBase<E>(base: map<E, Colour>, pathEdges: seq<E>, frame: nat)
    ensures forall e :: e in base && e !in pathEdges ==> FrameColours(base, pathEdges, frame)[e] == base[e]
  {
    forall e | e in base && e !in pathEdges
      ensures FrameColours(base, pathEdges, frame)[e] == base[e]
    {
      assert e !in pathEdges[..Min(frame, |pathEdges|)];
    }
  }

  /** The keys of a frame's colours are the graph's edges, plus any
      painted path edge that is not among them. When every path edge is
      a graph edge, the keys are exactly the graph's edges. */
  lemma FrameColoursKeys<E>(edges: seq<E>, dottedEdges: seq<E>, pathEdges: seq<E>, frame: nat)
    ensures forall e :: e in FrameColours(BaseColours(edges, dottedEdges), pathEdges, frame) <==>
      e in edges || e in pathEdges[..Min(frame + 1, |pathEdges|)]
    ensures (forall i :: 0 <= i < |pathEdges| ==> pathEdges[i] in edges) ==>
      forall e :: e in FrameColours(BaseColours(edges, dottedEdges), pathEdges, frame) <==> e in edges
  {
    var painted := pathEdges[..Min(frame + 1, |pathEdges|)];
    assert forall e :: e in painted <==> exists j :: 0 <= j < |painted| && painted[j] == e;
  }

  /** Every frame but the last has exactly one red edge, the current one. */
  lemma OneCurrentEdge<E>(edges: seq<E>, dottedEdges: seq<E>, pathEdges: seq<E>, frame: nat)
    requires frame < |pathEdges|
    ensures forall e :: e in FrameColours(BaseColours(edges, dottedEdges), pathEdges, frame) ==>
      (FrameColours(BaseColours(edges, dottedEdges), pathEdges, frame)[e] == Red <==> e == pathEdges[frame])
  {
  }

  /** The last of the `FrameCount` frames shows every path edge green and
      no edge red: the whole path has been covered. */
  lemma LastFrameCovered<E>(edges: seq<E>, dottedEdges: seq<E>, pathEdges: seq<E>)
    ensures var colours := FrameColours(BaseColours(edges, dottedEdges), pathEdges, FrameCount(pathEdges) - 1);
      && (forall i :: 0 <= i < |pathEdges| ==> colours[pathEdges[i]] == Green)
      && (forall e :: e in colours ==> colours[e] != Red)
  {
    var colours := FrameColours(BaseColours(edges, dottedEdges), pathEdges, FrameCount(pathEdges) - 1);
    forall i | 0 <= i < |pathEdges|
      ensures colours[pathEdges[i]] == Green
    {
      assert pathEdges[..|pathEdges|] == pathEdges;
    }
  }

  /** The script's frame for a simple path: path edges before `frame`
      are green, the current one is red, and every graph edge off the
      path is orange if its `dotted` attribute is set and blue otherwise. */
  lemma FrameOfSimplePath<N>(edges: seq<(N, N)>, dotted: map<(N, N), bool>, path: seq<N>, frame: nat)
    requires Distinct(path)
    ensures var pathEdges := PathEdges(path);
      var colours := FrameColours(BaseColours(edges, DottedEdges(edges, dotted)), pathEdges, frame);
      && (forall i :: 0 <= i < |pathEdges| && i < frame ==> colours[pathEdges[i]] == Green)
      && (frame < |pathEdges| ==> colours[pathEdges[frame]] == Red)
      && (forall i :: 0 <= i < |edges| && edges[i] !in pathEdges ==>
            colours[edges[i]] == if IsDotted(edges[i], dotted) then Orange else Blue)
  {
    var pathEdges := PathEdges(path);
    var dottedEdges := DottedEdges(edges, dotted);
    var base := BaseColours(edges, dottedEdges);
    DistinctPathEdges(path);
    FrameColoursOnPath(base, pathEdges, frame);
    EdgesPartitioned(edges, dotted);
    forall i | 0 <= i < |edges| && edges[i] !in pathEdges
      ensures base[edges[i]] == if IsDotted(edges[i], dotted) then Orange else Blue
    {
    }
  }
}
