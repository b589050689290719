/** The construction of `node_positions` (AStarGraph.py, lines 28-34):
    read each node's `x` and `y`, negate `y`, drop the nodes whose
    position tuple is falsy, and key the table by the node's string form.

    Python dictionaries keep insertion order, so the two intermediate
    dictionaries are modelled as their item sequences, in the order of
    `G.nodes(data=True)`; the last step builds a map, in which a later
    item overwrites an earlier one with the same string key. */
module PositionTable {
  import opened Distances
  import opened Seqs

  /** A node's GraphML data, with the attribute values already parsed. */
  type Attributes = map<string, real>

  /** `float(data.get(key, 0))`. */
  function Attr(data: Attributes, key: string): (a: real)
    ensures key in data ==> a == data[key]
    ensures key !in data ==> a == 0.0
  {
    if key in data then data[key] else 0.0
  }

  /** `all(pos)`: both coordinates are truthy, i.e. nonzero. */
  predicate AllTruthy(pos: Point)
  {
    pos.0 != 0.0 && pos.1 != 0.0
  }

  /** The nodes line 31 keeps: both coordinates nonzero. */
  predicate Placed(data: Attributes)
  {
    Attr(data, "x") != 0.0 && Attr(data, "y") != 0.0
  }

  /** The position computed on line 28: `(x, -y)`, 0 for a missing attribute. */
  function RawPosition(data: Attributes): (pos: Point)
    ensures AllTruthy(pos) <==> Placed(data)
    ensures Present(data) ==> pos == (data["x"], -data["y"])
  {
    (Attr(data, "x"), -Attr(data, "y"))
  }

  /** No two items share a string key unless they are the same item. */
  ghost predicate UniqueNames<N, V>(items: seq<(N, V)>, str: N -> string)
  {
    forall i, j :: 0 <= i < |items| && 0 <= j < |items| && str(items[i].0) == str(items[j].0) ==>
      items[i] == items[j]
  }

  /** Line 28: `{node: (x, -y) for node, data in G.nodes(data=True)}`. */
  function Extract<N>(nodes: seq<(N, Attributes)>): (r: seq<(N, Point)>)
    ensures |r| == |nodes|
    ensures forall i :: 0 <= i < |nodes| ==> r[i] == (nodes[i].0, RawPosition(nodes[i].1))
  {
    seq(|nodes|, i requires 0 <= i < |nodes| => (nodes[i].0, RawPosition(nodes[i].1)))
  }

  /** Line 31: `{node: pos for node, pos in ... if all(pos)}`. */
  function KeepPlaced<N(==)>(items: seq<(N, Point)>): (kept: seq<(N, Point)>)
    ensures forall i :: 0 <= i < |kept| ==> kept[i] in items && AllTruthy(kept[i].1)
    ensures forall i :: 0 <= i < |items| && AllTruthy(items[i].1) ==> items[i] in kept
  {
    Filter(items, (item: (N, Point)) => AllTruthy(item.1))
  }

  /** Line 34: `{str(node): pos for node, pos in ...}`; a later item wins. */
  function Rekey<N>(items: seq<(N, Point)>, str: N -> string): (m: map<string, Point>)
    ensures forall i :: 0 <= i < |items| ==> str(items[i].0) in m
    ensures forall k :: k in m ==> exists i :: 0 <= i < |items| && str(items[i].0) == k
    ensures UniqueNames(items, str) ==>
      forall i :: 0 <= i < |items| ==> m[str(items[i].0)] == items[i].1
  {
    if items == [] then map[]
    else
      var init, last := items[..|items| - 1], items[|items| - 1];
      assert forall i :: 0 <= i < |init| ==> init[i] == items[i];
      Rekey(init, str)[str(last.0) := last.1]
  }

  /** `node_positions` as the script leaves it after line 34. */
  function NodePositions<N(==)>(nodes: seq<(N, Attributes)>, str: N -> string): (table: Positions)
    ensures forall k :: k in table ==>
      exists i :: 0 <= i < |nodes| && str(nodes[i].0) == k && Placed(nodes[i].1)
  {
    var placed := KeepPlaced(Extract(nodes));
    assert forall k :: k in Rekey(placed, str) ==>
      exists i :: 0 <= i < |nodes| && str(nodes[i].0) == k && Placed(nodes[i].1) by {
      forall k | k in Rekey(placed, str)
        ensures exists i :: 0 <= i < |nodes| && str(nodes[i].0) == k && Placed(nodes[i].1)
      {
        var j :| 0 <= j < |placed| && str(placed[j].0) == k;
        var i :| 0 <= i < |Extract(nodes)| && Extract(nodes)[i] == placed[j];
      }
    }
    Rekey(placed, str)
  }

  /** Items drawn from a list with unique names have unique names. */
  lemma UniqueNamesOfSublist<N, V>(items: seq<(N, V)>, r: seq<(N, V)>, str: N -> string)
    requires UniqueNames(items, str)
    requires forall i :: 0 <= i < |r| ==> r[i] in items
    ensures UniqueNames(r, str)
  {
    forall i, j | 0 <= i < |r| && 0 <= j < |r| && str(r[i].0) == str(r[j].0)
      ensures r[i] == r[j]
    {
      var a :| 0 <= a < |items| && items[a] == r[i];
      var b :| 0 <= b < |items| && items[b] == r[j];
    }
  }

  /** Computing positions keeps names unique. */
  lemma UniqueNamesOfExtract<N>(nodes: seq<(N, Attributes)>, str: N -> string)
    requires UniqueNames(nodes, str)
    ensures UniqueNames(Extract(nodes), str)
  {
    var extracted := Extract(nodes);
    forall a, b | 0 <= a < |extracted| && 0 <= b < |extracted| && str(extracted[a].0) == str(extracted[b].0)
      ensures extracted[a] == extracted[b]
    {
      assert nodes[a] == nodes[b];
    }
  }

  /** The finished table holds exactly the nodes whose `x` and `y` are
      both nonzero, each at `(x, -y)`, provided no two nodes have the
      same string form. */
  lemma NodePositionsExact<N>(nodes: seq<(N, Attributes)>, str: N -> string)
    requires UniqueNames(nodes, str)
    ensures forall i :: 0 <= i < |nodes| ==>
      (str(nodes[i].0) in NodePositions(nodes, str) <==> Placed(nodes[i].1))
    ensures forall i :: 0 <= i < |nodes| && Placed(nodes[i].1) ==>
      NodePositions(nodes, str)[str(nodes[i].0)] == RawPosition(nodes[i].1)
  {
    var extracted := Extract(nodes);
    var placed := KeepPlaced(extracted);
    UniqueNamesOfSublist(extracted, placed, str);
    forall i | 0 <= i < |nodes|
      ensures str(nodes[i].0) in NodePositions(nodes, str) <==> Placed(nodes[i].1)
      ensures Placed(nodes[i].1) ==> NodePositions(nodes, str)[str(nodes[i].0)] == RawPosition(nodes[i].1)
    {
      if Placed(nodes[i].1) {
        assert extracted[i] in placed;
        var j :| 0 <= j < |placed| && placed[j] == extracted[i];
      }
    }
  }

  /** What the comment on line 30 announces: drop the nodes that lack an
      `x` or a `y` attribute (and only those). */
  predicate Present(data: Attributes)
  {
    "x" in data && "y" in data
  }

  /** The filter of line 31 as the comment on line 30 describes it. */
  function KeepPresent<N(==)>(nodes: seq<(N, Attributes)>): (kept: seq<(N, Attributes)>)
    ensures forall i :: 0 <= i < |kept| ==> kept[i] in nodes && Present(kept[i].1)
    ensures forall i :: 0 <= i < |nodes| && Present(nodes[i].1) ==> nodes[i] in kept
  {
    Filter(nodes, (node: (N, Attributes)) => Present(node.1))
  }

  /** `node_positions` with the filter of line 31 replaced by `KeepPresent`. */
  function IntendedNodePositions<N(==)>(nodes: seq<(N, Attributes)>, str: N -> string): (table: Positions)
    ensures forall k :: k in table ==>
      exists i :: 0 <= i < |nodes| && str(nodes[i].0) == k && Present(nodes[i].1)
  {
    var present := KeepPresent(nodes);
    assert forall k :: k in Rekey(Extract(present), str) ==>
      exists i :: 0 <= i < |nodes| && str(nodes[i].0) == k && Present(nodes[i].1) by {
      forall k | k in Rekey(Extract(present), str)
        ensures exists i :: 0 <= i < |nodes| && str(nodes[i].0) == k && Present(nodes[i].1)
      {
        var j :| 0 <= j < |present| && str(present[j].0) == k;
        var i :| 0 <= i < |nodes| && nodes[i] == present[j];
      }
    }
    Rekey(Extract(present), str)
  }

  /** The intended table holds exactly the nodes that have both
      attributes, each at `(x, -y)`, whatever the coordinate values. */
  lemma IntendedNodePositionsExact<N>(nodes: seq<(N, Attributes)>, str: N -> string)
    requires UniqueNames(nodes, str)
    ensures forall i :: 0 <= i < |nodes| ==>
      (str(nodes[i].0) in IntendedNodePositions(nodes, str) <==> Present(nodes[i].1))
    ensures forall i :: 0 <= i < |nodes| && Present(nodes[i].1) ==>
      IntendedNodePositions(nodes, str)[str(nodes[i].0)] == RawPosition(nodes[i].1)
  {
    var present := KeepPresent(nodes);
    UniqueNamesOfSublist(nodes, present, str);
    UniqueNamesOfExtract(present, str);
    forall i | 0 <= i < |nodes|
      ensures str(nodes[i].0) in IntendedNodePositions(nodes, str) <==> Present(nodes[i].1)
      ensures Present(nodes[i].1) ==>
        IntendedNodePositions(nodes, str)[str(nodes[i].0)] == RawPosition(nodes[i].1)
    {
      IntendedNodePositionAt(nodes, str, present, i);
    }
  }

  /** One node of `IntendedNodePositionsExact`. */
  lemma IntendedNodePositionAt<N>(nodes: seq<(N, Attributes)>, str: N -> string,
                                  present: seq<(N, Attributes)>, i: nat)
    requires UniqueNames(nodes, str) && UniqueNames(Extract(present), str)
    requires present == KeepPresent(nodes)
    requires i < |nodes|
    ensures str(nodes[i].0) in IntendedNodePositions(nodes, str) <==> Present(nodes[i].1)
    ensures Present(nodes[i].1) ==>
      IntendedNodePositions(nodes, str)[str(nodes[i].0)] == RawPosition(nodes[i].1)
  {
    var extracted := Extract(present);
    var table := Rekey(extracted, str);
    assert table == IntendedNodePositions(nodes, str);
    if str(nodes[i].0) in table {
      var j :| 0 <= j < |extracted| && str(extracted[j].0) == str(nodes[i].0);
      assert present[j] in nodes;
      var a :| 0 <= a < |nodes| && nodes[a] == present[j];
      assert nodes[a] == nodes[i];
    }
    if Present(nodes[i].1) {
      assert nodes[i] in present;
      var j :| 0 <= j < |present| && present[j] == nodes[i];
      assert extracted[j] == (nodes[i].0, RawPosition(nodes[i].1));
      assert table[str(extracted[j].0)] == extracted[j].1;
    }
  }

  /** A node at x = 0 has both attributes, yet line 31 drops it from the
      table while the intended filter keeps it. */
  lemma ZeroCoordinateDropped()
    ensures var nodes := [("n", map["x" := 0.0, "y" := 2.0])];
      && Present(nodes[0].1)
      && "n" !in NodePositions(nodes, (s: string) => s)
      && IntendedNodePositions(nodes, (s: string) => s) == map["n" := (0.0, -2.0)]
  {
    var nodes := [("n", map["x" := 0.0, "y" := 2.0])];
    var name := (s: string) => s;
    assert !AllTruthy(Extract(nodes)[0].1);
    assert KeepPlaced(Extract(nodes)) == [];
    var present := KeepPresent(nodes);
    assert present == nodes;
    assert Extract(present) == [("n", (0.0, -2.0))];
  }
}
