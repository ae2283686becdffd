/**
 * What the built matrices and their shortest-path results mean in terms of
 * city names alone, independent of the order in which the nodes are listed.
 */
module Routes {
  import opened Weights
  import opened Matrices
  import opened Schemas
  import opened Adjacency
  import opened ShortestPaths

  /** The weight a locality contributes to the matrix of the given kind. */
  function LocalityWeight(l: Locality, kind: Kind): (w: W)
    ensures kind == Time ==> w == l.min
    ensures kind == Distance ==> w == DistanceOf(l)
    ensures Valid(l) ==> NonNeg(w)
  {
    match kind
    case Time => l.min
    case Distance => DistanceOf(l)
  }

  /**
   * The direct weight between cities x and y, read from the localities in
   * the order they were given: the last locality between them wins; with
   * none, 0 from a city to itself and Inf between different cities.
   */
  function Link(locs: seq<Locality>, kind: Kind, x: string, y: string): W
    decreases |locs|
  {
    if locs == [] then (if x == y then Zero else Inf)
    else if Names(locs[|locs| - 1], x, y) then LocalityWeight(locs[|locs| - 1], kind)
    else Link(locs[..|locs| - 1], kind, x, y)
  }

  /** With no locality naming the pair, `Link` is the initial cell value. */
  lemma {:induction false} LinkUnnamed(locs: seq<Locality>, kind: Kind, x: string, y: string)
    requires forall t | 0 <= t < |locs| :: !Names(locs[t], x, y)
    ensures Link(locs, kind, x, y) == (if x == y then Zero else Inf)
    decreases |locs|
  {
    if locs != [] {
      var prefix := locs[..|locs| - 1];
      assert forall t | 0 <= t < |prefix| :: prefix[t] == locs[t];
      LinkUnnamed(prefix, kind, x, y);
    }
  }

  /** Otherwise `Link` is the weight of the last locality naming the pair. */
  lemma {:induction false} LinkLastNaming(locs: seq<Locality>, kind: Kind, x: string, y: string, t: int)
    requires LastNaming(locs, t, x, y)
    ensures Link(locs, kind, x, y) == LocalityWeight(locs[t], kind)
    decreases |locs|
  {
    var last := |locs| - 1;
    if t < last {
      var prefix := locs[..last];
      assert !Names(locs[last], x, y);
      assert LastNaming(prefix, t, x, y) by {
        assert forall u | 0 <= u < last :: prefix[u] == locs[u];
      }
      LinkLastNaming(prefix, kind, x, y, t);
    }
  }

  /** Some locality names the pair, so a last one does. */
  lemma LastNamingExists(locs: seq<Locality>, x: string, y: string) returns (t: int)
    requires exists u | 0 <= u < |locs| :: Names(locs[u], x, y)
    ensures LastNaming(locs, t, x, y)
  {
    t := |locs| - 1;
    while !Names(locs[t], x, y)
      invariant 0 <= t < |locs|
      invariant exists u | 0 <= u <= t :: Names(locs[u], x, y)
      invariant forall u | t < u < |locs| :: !Names(locs[u], x, y)
      decreases t
    {
      t := t - 1;
    }
  }

  /** `Link` gives the same weight whichever way round the cities are named. */
  lemma {:induction false} LinkSymmetric(locs: seq<Locality>, kind: Kind, x: string, y: string)
    ensures Link(locs, kind, x, y) == Link(locs, kind, y, x)
    decreases |locs|
  {
    if locs != [] {
      LinkSymmetric(locs[..|locs| - 1], kind, x, y);
    }
  }

  /** The matrix of the given kind that `build_adjacency_matrices` returns. */
  function Adjacent(locs: seq<Locality>, nodes: seq<string>, kind: Kind): (m: Matrix)
    requires Covers(nodes, locs)
    ensures IsSquare(m, |nodes|) && Symmetric(m)
    ensures AllValid(locs) ==> NonNegMatrix(m)
  {
    match kind
    case Time => BuildAdjacencyMatrices(locs, nodes).value.0
    case Distance => BuildAdjacencyMatrices(locs, nodes).value.1
  }

  /** With distinct node names, each cell of a built matrix is the direct weight between its two cities. */
  lemma AdjacentIsLink(locs: seq<Locality>, nodes: seq<string>, kind: Kind, a: int, b: int)
    requires Distinct(nodes) && Covers(nodes, locs)
    requires 0 <= a < |nodes| && 0 <= b < |nodes|
    ensures Adjacent(locs, nodes, kind)[a][b] == Link(locs, kind, nodes[a], nodes[b])
  {
    BuildCells(locs, nodes, a, b);
    if exists u | 0 <= u < |locs| :: Names(locs[u], nodes[a], nodes[b]) {
      var t := LastNamingExists(locs, nodes[a], nodes[b]);
      LinkLastNaming(locs, kind, nodes[a], nodes[b], t);
    } else {
      LinkUnnamed(locs, kind, nodes[a], nodes[b]);
    }
  }

  /** The names in a node list, as a set. */
  function Listed(nodes: seq<string>): (s: set<string>)
    ensures forall c :: c in s <==> c in nodes
  {
    set c | c in nodes
  }

  /** A route from x to y: a sequence of at least two of the given cities, repeats allowed. */
  predicate IsRoute(route: seq<string>, cities: set<string>, x: string, y: string) {
    && |route| >= 2
    && route[0] == x
    && route[|route| - 1] == y
    && forall t | 0 <= t < |route| :: route[t] in cities
  }

  /** The sum of the direct weights along a route. */
  function RouteWeight(locs: seq<Locality>, kind: Kind, route: seq<string>): W
    requires |route| >= 1
    decreases |route|
  {
    if |route| == 1 then Zero else Add(Link(locs, kind, route[0], route[1]), RouteWeight(locs, kind, route[1..]))
  }

  /** The names along a walk of node positions. */
  function NamesOf(nodes: seq<string>, p: seq<int>): (route: seq<string>)
    requires OnNodes(p, |nodes|)
    ensures |route| == |p|
    ensures forall t | 0 <= t < |p| :: route[t] == nodes[p[t]]
  {
    seq(|p|, t requires 0 <= t < |p| => nodes[p[t]])
  }

  /** The position `node_index` gives a listed name. */
  function Position(nodes: seq<string>, c: string): (t: nat)
    requires c in nodes
    ensures t < |nodes| && nodes[t] == c
  {
    NodeIndex(nodes)[c]
  }

  /** The node positions along a route of listed names. */
  function PositionsOf(nodes: seq<string>, route: seq<string>): (p: seq<int>)
    requires forall t | 0 <= t < |route| :: route[t] in nodes
    ensures |p| == |route| && OnNodes(p, |nodes|)
    ensures forall t | 0 <= t < |route| :: nodes[p[t]] == route[t]
  {
    seq(|route|, t requires 0 <= t < |route| => Position(nodes, route[t]))
  }

  /** A walk through the built matrix weighs what the route through the same cities weighs. */
  lemma WalkIsRoute(locs: seq<Locality>, nodes: seq<string>, kind: Kind, p: seq<int>)
    requires Distinct(nodes) && Covers(nodes, locs)
    requires |p| >= 1 && OnNodes(p, |nodes|)
    ensures WalkWeight(Adjacent(locs, nodes, kind), p) == RouteWeight(locs, kind, NamesOf(nodes, p))
  {
    var m := Adjacent(locs, nodes, kind);
    forall t | 0 <= t < |p| - 1
      ensures m[p[t]][p[t + 1]] == Link(locs, kind, nodes[p[t]], nodes[p[t + 1]])
    {
      AdjacentIsLink(locs, nodes, kind, p[t], p[t + 1]);
    }
    HopsAgree(m, locs, kind, nodes, p);
  }

  /** A walk and the route of its names weigh the same when every hop's cell holds the hop's link. */
  lemma {:induction false} HopsAgree(m: Matrix, locs: seq<Locality>, kind: Kind, nodes: seq<string>, p: seq<int>)
    requires IsSquare(m, |nodes|) && |p| >= 1 && OnNodes(p, |nodes|)
    requires forall t | 0 <= t < |p| - 1 :: m[p[t]][p[t + 1]] == Link(locs, kind, nodes[p[t]], nodes[p[t + 1]])
    ensures WalkWeight(m, p) == RouteWeight(locs, kind, NamesOf(nodes, p))
    decreases |p|
  {
    if |p| > 1 {
      var route := NamesOf(nodes, p);
      var tail := p[1..];
      assert forall t | 0 <= t < |tail| :: tail[t] == p[t + 1];
      HopsAgree(m, locs, kind, nodes, tail);
      assert route[1..] == NamesOf(nodes, tail);
    }
  }


  /** Looking up the positions of a route's names and reading the names back gives the route. */
  lemma NamesOfPositions(nodes: seq<string>, route: seq<string>)
    requires forall t | 0 <= t < |route| :: route[t] in nodes
    ensures NamesOf(nodes, PositionsOf(nodes, route)) == route
  {
    var names := NamesOf(nodes, PositionsOf(nodes, route));
    assert |names| == |route|;
    assert forall t | 0 <= t < |route| :: names[t] == route[t];
  }

  /** With distinct names, the name at position a is looked up at position a. */
  lemma PositionAt(nodes: seq<string>, route: seq<string>, t: int, a: int)
    requires Distinct(nodes) && 0 <= a < |nodes| && 0 <= t < |route|
    requires forall u | 0 <= u < |route| :: route[u] in nodes
    requires route[t] == nodes[a]
    ensures PositionsOf(nodes, route)[t] == a
  {
    SamePosition(nodes, PositionsOf(nodes, route)[t], a);
  }

  /** A route between the names at positions a and b is a walk between a and b through the same names. */
  lemma RouteIsWalk(nodes: seq<string>, route: seq<string>, a: int, b: int)
    requires Distinct(nodes) && 0 <= a < |nodes| && 0 <= b < |nodes|
    requires IsRoute(route, Listed(nodes), nodes[a], nodes[b])
    ensures IsWalk(PositionsOf(nodes, route), |nodes|, a, b)
    ensures NamesOf(nodes, PositionsOf(nodes, route)) == route
  {
    var p := PositionsOf(nodes, route);
    PositionAt(nodes, route, 0, a);
    PositionAt(nodes, route, |route| - 1, b);
    NamesOfPositions(nodes, route);
  }

  /** In a list of distinct names, equal names sit at equal positions. */
  lemma SamePosition(nodes: seq<string>, s: int, t: int)
    requires Distinct(nodes) && 0 <= s < |nodes| && 0 <= t < |nodes|
    requires nodes[s] == nodes[t]
    ensures s == t
  {
  }

  /** No route between the cities of positions a and b weighs less than the shortest-path result. */
  lemma NoLighterRoute(locs: seq<Locality>, nodes: seq<string>, kind: Kind, a: int, b: int, route: seq<string>)
    requires Distinct(nodes) && Covers(nodes, locs) && AllValid(locs)
    requires 0 <= a < |nodes| && 0 <= b < |nodes|
    requires IsRoute(route, Listed(nodes), nodes[a], nodes[b])
    ensures Le(Relaxation(Adjacent(locs, nodes, kind))[a][b], RouteWeight(locs, kind, route))
  {
    var p := PositionsOf(nodes, route);
    RouteIsWalk(nodes, route, a, b);
    WalkIsRoute(locs, nodes, kind, p);
    NoShorterWalk(Adjacent(locs, nodes, kind), p, a, b);
  }

  /** The names along a walk between positions a and b form a route between their cities. */
  lemma WalkGivesRoute(nodes: seq<string>, p: seq<int>, a: int, b: int)
    requires 0 <= a < |nodes| && 0 <= b < |nodes| && IsWalk(p, |nodes|, a, b)
    ensures IsRoute(NamesOf(nodes, p), Listed(nodes), nodes[a], nodes[b])
  {
  }

  /** A route between the cities of positions a and b that weighs exactly the shortest-path result. */
  lemma AchievingRoute(locs: seq<Locality>, nodes: seq<string>, kind: Kind, a: int, b: int) returns (route: seq<string>)
    requires Distinct(nodes) && Covers(nodes, locs) && AllValid(locs)
    requires 0 <= a < |nodes| && 0 <= b < |nodes|
    ensures IsRoute(route, Listed(nodes), nodes[a], nodes[b])
    ensures RouteWeight(locs, kind, route) == Relaxation(Adjacent(locs, nodes, kind))[a][b]
  {
    var m := Adjacent(locs, nodes, kind);
    var p := AchievingWalk(m, a, b);
    WalkIsRoute(locs, nodes, kind, p);
    WalkGivesRoute(nodes, p, a, b);
    route := NamesOf(nodes, p);
  }

  /**
   * With distinct node names and valid localities, the shortest-path result
   * for positions a and b is the weight of a lightest route between their
   * cities through the listed cities: no route weighs less and one weighs
   * exactly that.
   */
  lemma ShortestRoute(locs: seq<Locality>, nodes: seq<string>, kind: Kind, a: int, b: int)
    requires Distinct(nodes) && Covers(nodes, locs) && AllValid(locs)
    requires 0 <= a < |nodes| && 0 <= b < |nodes|
    ensures forall route | IsRoute(route, Listed(nodes), nodes[a], nodes[b]) ::
              Le(Relaxation(Adjacent(locs, nodes, kind))[a][b], RouteWeight(locs, kind, route))
    ensures exists route :: IsRoute(route, Listed(nodes), nodes[a], nodes[b]) &&
              RouteWeight(locs, kind, route) == Relaxation(Adjacent(locs, nodes, kind))[a][b]
  {
    forall route | IsRoute(route, Listed(nodes), nodes[a], nodes[b])
      ensures Le(Relaxation(Adjacent(locs, nodes, kind))[a][b], RouteWeight(locs, kind, route))
    {
      NoLighterRoute(locs, nodes, kind, a, b, route);
    }
    var route := AchievingRoute(locs, nodes, kind, a, b);
  }
}
