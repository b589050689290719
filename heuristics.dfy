/** `astar_path` (AStarGraph.py) and the heuristics handed to it. The
    search itself is networkx's `astar_path`, whose code is not part of
    this model: it is the parameter `search`. */
module Heuristics {
  import opened Wrappers
  import opened Distances

  /** A heuristic `h(u, v)`: a cost estimate, or the error it raises. */
  type Heuristic = (string, string) -> Result<real, LookupError>

  /** The exceptions networkx's search raises; `HeuristicFailed` carries
      an error raised by the heuristic while the search evaluates it. */
  datatype SearchError =
    | NodeNotFound(node: string)
    | NoPath
    | HeuristicFailed(cause: LookupError)

  /** networkx's `astar_path(graph, start, goal, heuristic=...)`. */
  type Search<-G> = (G, string, string, Heuristic) -> Result<seq<string>, SearchError>

  /** The heuristic defined inside `astar_path` when none is supplied. */
  function ZeroHeuristic(): (h: Heuristic)
    ensures forall u, v :: h(u, v) == Success(0.0)
  {
    (u: string, v: string) => Success(0.0)
  }

  /** The heuristic `astar_path` actually passes on: the caller's, or the
      zero heuristic when the argument is `None`. */
  function Effective(heuristic: Option<Heuristic>): (h: Heuristic)
    ensures heuristic.Some? ==> h == heuristic.value
    ensures heuristic.None? ==> forall u, v :: h(u, v) == Success(0.0)
  {
    match heuristic
    case Some(given) => given
    case None => ZeroHeuristic()
  }

  /** `astar_path(graph, start, goal, heuristic)`. */
  function AStarPath<G>(search: Search<G>, graph: G, start: string, goal: string,
                        heuristic: Option<Heuristic>): (r: Result<seq<string>, SearchError>)
    ensures heuristic.None? ==> r == search(graph, start, goal, ZeroHeuristic())
    ensures heuristic.Some? ==> r == search(graph, start, goal, heuristic.value)
  {
    search(graph, start, goal, Effective(heuristic))
  }

  /** The heuristic the script passes (AStarGraph.py, line 47):
      `lambda u, v: manhattan_distance(u, v, node_positions)`. */
  function ManhattanHeuristic(pos: Positions): (h: Heuristic)
    ensures forall u, v :: h(u, v).Success? <==> u in pos && v in pos
    ensures forall u, v :: h(u, v).Success? ==> h(u, v).value >= 0.0
    ensures forall u, v :: u !in pos ==> h(u, v) == Failure(MissingPosition(u))
    ensures forall u, v :: u in pos && v !in pos ==> h(u, v) == Failure(MissingPosition(v))
    ensures forall u, v :: h(u, v) == Manhattan(u, v, pos)
  {
    (u: string, v: string) => Manhattan(u, v, pos)
  }
}
