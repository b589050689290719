/** The two distance functions of the script (`euclidean_distance`,
    `manhattan_distance`): both look up the two nodes in a position table
    and combine the coordinate differences. A missing node is a `KeyError`,
    modelled as `Failure(MissingPosition(node))`. */
module Distances {
  import opened Wrappers

  /** A drawing position `(x, y)`. */
  type Point = (real, real)

  /** The `node_positions` dictionary: node name to position. */
  type Positions = map<string, Point>

  /** The `KeyError` raised by `node_positions[node]`. */
  datatype LookupError = MissingPosition(node: string)

  function Abs(x: real): (r: real)
    ensures r >= 0.0 && (r == x || r == -x)
  {
    if x < 0.0 then -x else x
  }

  /** `abs(x2 - x1) + abs(y2 - y1)` for p = (x1, y1), q = (x2, y2). */
  function Taxicab(p: Point, q: Point): (d: real)
    ensures d >= 0.0
  {
    Abs(q.0 - p.0) + Abs(q.1 - p.1)
  }

  /** `(x2 - x1)**2 + (y2 - y1)**2`: the Euclidean distance before `math.sqrt`. */
  function SquaredDistance(p: Point, q: Point): (d: real)
    ensures d >= 0.0
  {
    var dx, dy := q.0 - p.0, q.1 - p.1;
    dx * dx + dy * dy
  }

  /** `x1, y1 = node_positions[u]` then `x2, y2 = node_positions[v]`:
      u is looked up first, so when both are missing the error names u. */
  function LookupPair(u: string, v: string, pos: Positions): (r: Result<(Point, Point), LookupError>)
    ensures r.Success? <==> u in pos && v in pos
    ensures r.Success? ==> r.value == (pos[u], pos[v])
    ensures u !in pos ==> r == Failure(MissingPosition(u))
    ensures u in pos && v !in pos ==> r == Failure(MissingPosition(v))
  {
    if u !in pos then Failure(MissingPosition(u))
    else if v !in pos then Failure(MissingPosition(v))
    else Success((pos[u], pos[v]))
  }

  /** `manhattan_distance(u, v, node_positions)`. */
  function Manhattan(u: string, v: string, pos: Positions): (r: Result<real, LookupError>)
    ensures r.Success? <==> u in pos && v in pos
    ensures r.Success? ==> r.value >= 0.0
    ensures r.Success? ==>
      r.value == Abs(pos[v].0 - pos[u].0) + Abs(pos[v].1 - pos[u].1)
    ensures u !in pos ==> r == Failure(MissingPosition(u))
    ensures u in pos && v !in pos ==> r == Failure(MissingPosition(v))
  {
    match LookupPair(u, v, pos)
    case Success((p, q)) => Success(Taxicab(p, q))
    case Failure(e) => Failure(e)
  }

  /** `euclidean_distance(u, v, node_positions)` squared: the `math.sqrt`
      is left out, so the result is the square of the script's value. */
  function SquaredEuclidean(u: string, v: string, pos: Positions): (r: Result<real, LookupError>)
    ensures r.Success? <==> u in pos && v in pos
    ensures r.Success? ==> r.value >= 0.0
    ensures r.Success? ==>
      r.value == (pos[v].0 - pos[u].0) * (pos[v].0 - pos[u].0) + (pos[v].1 - pos[u].1) * (pos[v].1 - pos[u].1)
    ensures u !in pos ==> r == Failure(MissingPosition(u))
    ensures u in pos && v !in pos ==> r == Failure(MissingPosition(v))
  {
    match LookupPair(u, v, pos)
    case Success((p, q)) => Success(SquaredDistance(p, q))
    case Failure(e) => Failure(e)
  }

  /** The taxicab distance is a metric: non-negative, zero exactly on
      equal points, symmetric, and it obeys the triangle inequality. */
  lemma TaxicabIsMetric(p: Point, q: Point, s: Point)
    ensures Taxicab(p, q) >= 0.0
    ensures Taxicab(p, q) == 0.0 <==> p == q
    ensures Taxicab(p, q) == Taxicab(q, p)
    ensures Taxicab(p, s) <= Taxicab(p, q) + Taxicab(q, s)
  {
  }

  /** Manhattan distance is symmetric in u and v, and 0 from a node to
      itself, whenever both nodes have a position. */
  lemma ManhattanSymmetricAndZero(u: string, v: string, pos: Positions)
    requires u in pos && v in pos
    ensures Manhattan(u, v, pos) == Manhattan(v, u, pos)
    ensures Manhattan(u, u, pos) == Success(0.0)
  {
    TaxicabIsMetric(pos[u], pos[v], pos[v]);
  }

  /** Any square root e of the squared Euclidean distance (the value
      `math.sqrt` returns) is at most the Manhattan distance, and the
      Manhattan distance is at most sqrt(2) times e. */
  lemma EuclideanBelowManhattan(p: Point, q: Point, e: real)
    requires e >= 0.0 && e * e == SquaredDistance(p, q)
    ensures e <= Taxicab(p, q)
    ensures Taxicab(p, q) * Taxicab(p, q) <= 2.0 * e * e
  {
    var a, b := Abs(q.0 - p.0), Abs(q.1 - p.1);
    var t := Taxicab(p, q);
    assert a * a == (q.0 - p.0) * (q.0 - p.0);
    assert b * b == (q.1 - p.1) * (q.1 - p.1);
    assert t * t == a * a + 2.0 * a * b + b * b;
    assert a * b >= 0.0;
    assert e * e <= t * t;
    if e > t {
      assert t >= 0.0;
      calc {
        t * t;
      <= { assert t * (e - t) >= 0.0; }
        t * e;
      < { assert (e - t) * e > 0.0; }
        e * e;
      <=
        t * t;
      }
    }
    assert e <= t;
    assert (a - b) * (a - b) >= 0.0;
  }

  /** The same bound between the two script functions: where both
      succeed, any non-negative square root e of `SquaredEuclidean`'s
      value (what `euclidean_distance` returns) is at most `Manhattan`'s
      value, and `Manhattan`'s value is at most sqrt(2) times e. */
  lemma EuclideanDistanceBelowManhattan(u: string, v: string, pos: Positions, e: real)
    requires u in pos && v in pos
    requires e >= 0.0 && e * e == SquaredEuclidean(u, v, pos).value
    ensures e <= Manhattan(u, v, pos).value
    ensures Manhattan(u, v, pos).value * Manhattan(u, v, pos).value <= 2.0 * e * e
  {
    EuclideanBelowManhattan(pos[u], pos[v], e);
  }

  /** The distances between (0, 0) and (3, 4): 5 (squared: 25) and 7. */
  lemma DistancesOfThreeFourFive()
    ensures SquaredEuclidean("a", "b", map["a" := (0.0, 0.0), "b" := (3.0, 4.0)]) == Success(5.0 * 5.0)
    ensures Manhattan("a", "b", map["a" := (0.0, 0.0), "b" := (3.0, 4.0)]) == Success(7.0)
  {
  }
}
