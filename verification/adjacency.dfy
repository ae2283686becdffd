/**
 * The graph builder, `build_adjacency_matrices`: undirected weighted edges
 * become a time matrix and a distance matrix indexed by node position.
 */
module Adjacency {
  import opened Wrappers
  import opened Weights
  import opened Matrices
  import opened Schemas

  predicate Distinct(nodes: seq<string>) {
    forall a, b | 0 <= a < b < |nodes| :: nodes[a] != nodes[b]
  }

  /**
   * The dictionary `{node: i for i, node in enumerate(nodes)}`. Every listed
   * name is a key, and a name listed twice keeps its last position.
   */
  function NodeIndex(nodes: seq<string>): (idx: map<string, nat>)
    ensures idx.Keys == set c | c in nodes
    ensures forall c | c in idx :: idx[c] < |nodes| && nodes[idx[c]] == c
    ensures forall c, t | c in idx && idx[c] < t < |nodes| :: nodes[t] != c
  {
    if nodes == [] then map[]
    else NodeIndex(nodes[..|nodes| - 1])[nodes[|nodes| - 1] := |nodes| - 1]
  }

  /** With no repeated names, the index of the name at position t is t. */
  lemma IndexOfDistinct(nodes: seq<string>, t: int)
    requires Distinct(nodes) && 0 <= t < |nodes|
    ensures nodes[t] in NodeIndex(nodes) && NodeIndex(nodes)[nodes[t]] == t
  {
    assert nodes[t] in NodeIndex(nodes);
  }

  /** Every city some locality names is listed. */
  predicate Covers(nodes: seq<string>, locs: seq<Locality>) {
    forall t | 0 <= t < |locs| :: locs[t].city1 in nodes && locs[t].city2 in nodes
  }

  /** The node list covers the localities exactly when every lookup in `node_index` succeeds. */
  lemma CoversIffKnown(nodes: seq<string>, locs: seq<Locality>)
    ensures Covers(nodes, locs) <==> forall t | 0 <= t < |locs| :: Known(locs[t], NodeIndex(nodes))
  {
    var idx := NodeIndex(nodes);
    forall t | 0 <= t < |locs|
      ensures (locs[t].city1 in nodes && locs[t].city2 in nodes) <==> Known(locs[t], idx)
    {
    }
  }

  /** Every locality has passed `check_positive`. */
  predicate AllValid(locs: seq<Locality>) {
    forall t | 0 <= t < |locs| :: Valid(locs[t])
  }

  /** An edge after its city names have been looked up. */
  datatype Edge = Edge(i: nat, j: nat, time: W, dist: W)

  /** The distance a locality contributes: its `km`, or its `min` when `km` is absent. */
  function DistanceOf(l: Locality): (w: W)
    ensures l.km.Some? ==> w == l.km.value
    ensures l.km.None? ==> w == l.min
    ensures Valid(l) ==> NonNeg(w)
  {
    match l.km
    case Some(k) => k
    case None => l.min
  }

  /**
   * The edge the loop body writes for one locality: from the position of
   * `city1` to the position of `city2`, with the locality's time and
   * distance, both non-negative for a valid locality.
   */
  function EdgeOf(l: Locality, idx: map<string, nat>): (e: Edge)
    requires l.city1 in idx && l.city2 in idx
    ensures e.i == idx[l.city1] && e.j == idx[l.city2]
    ensures e.time == l.min
    ensures l.km.Some? ==> e.dist == l.km.value
    ensures l.km.None? ==> e.dist == l.min
    ensures Valid(l) ==> NonNeg(e.time) && NonNeg(e.dist)
  {
    Edge(idx[l.city1], idx[l.city2], l.min, DistanceOf(l))
  }

  predicate Known(l: Locality, idx: map<string, nat>) {
    l.city1 in idx && l.city2 in idx
  }

  /** The city whose lookup raises `KeyError` first: `city1` is looked up before `city2`. */
  function MissingCity(l: Locality, idx: map<string, nat>): (c: string)
    requires !Known(l, idx)
    ensures c !in idx
    ensures c == l.city1 || c == l.city2
    ensures l.city1 !in idx ==> c == l.city1
  {
    if l.city1 !in idx then l.city1 else l.city2
  }

  /**
   * The lookups `node_index[locality.city1]` and `node_index[locality.city2]`
   * for every locality in turn. They all succeed exactly when every city is a
   * key, giving one edge per locality in order; otherwise the error names the
   * missing city of the first locality that has one.
   */
  function Resolve(locs: seq<Locality>, idx: map<string, nat>): (r: Result<seq<Edge>, string>)
    ensures r.Ok? <==> forall t | 0 <= t < |locs| :: Known(locs[t], idx)
    ensures r.Ok? ==> |r.value| == |locs|
    ensures r.Ok? ==> forall t | 0 <= t < |locs| :: Known(locs[t], idx) && r.value[t] == EdgeOf(locs[t], idx)
    ensures r.Err? ==> exists t | 0 <= t < |locs| ::
              && !Known(locs[t], idx)
              && r.error == MissingCity(locs[t], idx)
              && r.error !in idx
              && forall u | 0 <= u < t :: Known(locs[u], idx)
  {
    if locs == [] then Ok([])
    else if !Known(locs[0], idx) then Err(MissingCity(locs[0], idx))
    else
      match Resolve(locs[1..], idx)
      case Err(c) =>
        assert forall u | 1 <= u < |locs| :: locs[1..][u - 1] == locs[u];
        Err(c)
      case Ok(rest) => Ok([EdgeOf(locs[0], idx)] + rest)
  }

  /** Which of the two matrices is being filled. */
  datatype Kind = Time | Distance

  function WeightOf(e: Edge, kind: Kind): W {
    match kind
    case Time => e.time
    case Distance => e.dist
  }

  /** The edge writes cell (a, b): it runs between a and b in either direction. */
  predicate Joins(e: Edge, a: int, b: int) {
    (e.i == a && e.j == b) || (e.i == b && e.j == a)
  }

  predicate InRange(edges: seq<Edge>, n: nat) {
    forall t | 0 <= t < |edges| :: edges[t].i < n && edges[t].j < n
  }

  /** No edge writes cell (a, b). */
  predicate Untouched(edges: seq<Edge>, a: int, b: int) {
    forall t | 0 <= t < |edges| :: !Joins(edges[t], a, b)
  }

  /** Edge t is the last one that writes cell (a, b). */
  predicate LastWriter(edges: seq<Edge>, t: int, a: int, b: int) {
    && 0 <= t < |edges|
    && Joins(edges[t], a, b)
    && forall u | t < u < |edges| :: !Joins(edges[u], a, b)
  }

  /** The loop over the edges, filling one matrix: each edge writes `[i][j]` and then `[j][i]`. */
  function Fill(n: nat, edges: seq<Edge>, kind: Kind): (m: Matrix)
    requires InRange(edges, n)
    ensures IsSquare(m, n)
    decreases |edges|
  {
    if edges == [] then Init(n)
    else
      var e := edges[|edges| - 1];
      var prev := Fill(n, edges[..|edges| - 1], kind);
      Update(Update(prev, e.i, e.j, WeightOf(e, kind)), e.j, e.i, WeightOf(e, kind))
  }

  /**
   * What the loop leaves in cell (a, b). A cell no edge writes keeps its
   * initial value; any other cell holds the weight of the LAST edge that
   * writes it: a later duplicate overwrites an earlier one, no minimum is
   * taken, and a self-loop overwrites the diagonal zero.
   */
  lemma FillCell(n: nat, edges: seq<Edge>, kind: Kind, a: int, b: int)
    requires InRange(edges, n) && 0 <= a < n && 0 <= b < n
    ensures Untouched(edges, a, b) ==> Fill(n, edges, kind)[a][b] == InitCell(a, b)
    ensures forall t | LastWriter(edges, t, a, b) :: Fill(n, edges, kind)[a][b] == WeightOf(edges[t], kind)
  {
    if Untouched(edges, a, b) {
      FillUntouched(n, edges, kind, a, b);
    }
    forall t | LastWriter(edges, t, a, b)
      ensures Fill(n, edges, kind)[a][b] == WeightOf(edges[t], kind)
    {
      FillLastWriter(n, edges, kind, a, b, t);
    }
  }

  /** A cell no edge writes keeps its initial value. */
  lemma {:induction false} FillUntouched(n: nat, edges: seq<Edge>, kind: Kind, a: int, b: int)
    requires InRange(edges, n) && 0 <= a < n && 0 <= b < n && Untouched(edges, a, b)
    ensures Fill(n, edges, kind)[a][b] == InitCell(a, b)
    decreases |edges|
  {
    if edges != [] {
      var prefix := edges[..|edges| - 1];
      FillStep(n, edges, kind, a, b);
      assert Untouched(prefix, a, b) by {
        forall t | 0 <= t < |prefix|
          ensures !Joins(prefix[t], a, b)
        {
          assert prefix[t] == edges[t];
        }
      }
      FillUntouched(n, prefix, kind, a, b);
    }
  }

  /** A cell holds the weight of the last edge that writes it. */
  lemma {:induction false} FillLastWriter(n: nat, edges: seq<Edge>, kind: Kind, a: int, b: int, t: int)
    requires InRange(edges, n) && 0 <= a < n && 0 <= b < n && LastWriter(edges, t, a, b)
    ensures Fill(n, edges, kind)[a][b] == WeightOf(edges[t], kind)
    decreases |edges|
  {
    var last := |edges| - 1;
    var prefix := edges[..last];
    FillStep(n, edges, kind, a, b);
    if t < last {
      assert !Joins(edges[last], a, b);
      assert prefix[t] == edges[t];
      assert LastWriter(prefix, t, a, b) by {
        forall u | t < u < |prefix|
          ensures !Joins(prefix[u], a, b)
        {
          assert prefix[u] == edges[u];
        }
      }
      FillLastWriter(n, prefix, kind, a, b, t);
    }
  }

  /** One iteration of the loop: the last edge writes cell (a, b) exactly when it joins a and b. */
  lemma FillStep(n: nat, edges: seq<Edge>, kind: Kind, a: int, b: int)
    requires InRange(edges, n) && edges != [] && 0 <= a < n && 0 <= b < n
    ensures InRange(edges[..|edges| - 1], n)
    ensures Fill(n, edges, kind)[a][b] ==
              if Joins(edges[|edges| - 1], a, b) then WeightOf(edges[|edges| - 1], kind)
              else Fill(n, edges[..|edges| - 1], kind)[a][b]
  {
    var last := |edges| - 1;
    var e := edges[last];
    var w := WeightOf(e, kind);
    var prev := Fill(n, edges[..last], kind);
    var mid := Update(prev, e.i, e.j, w);
    var m := Update(mid, e.j, e.i, w);
    assert m == Fill(n, edges, kind);
    if Joins(e, a, b) {
      if a == e.j && b == e.i {
        assert m[a][b] == w;
      } else {
        assert mid[a][b] == w;
        assert m[a][b] == mid[a][b];
      }
    } else {
      assert m[a][b] == mid[a][b] == prev[a][b];
    }
  }


  /**
   * `build_adjacency_matrices(localities, nodes)`. It fails with the missing
   * name (Python's `KeyError`) exactly when some locality names a city that is
   * not in `nodes`; otherwise both matrices are n by n, symmetric, and hold
   * non-negative weights.
   */
  function BuildAdjacencyMatrices(locs: seq<Locality>, nodes: seq<string>): (r: Result<(Matrix, Matrix), string>)
    ensures r.Ok? <==> Covers(nodes, locs)
    ensures r.Err? ==> exists t | 0 <= t < |locs| ::
              !Known(locs[t], NodeIndex(nodes)) && r.error == MissingCity(locs[t], NodeIndex(nodes)) && r.error !in nodes
    ensures r.Ok? ==> IsSquare(r.value.0, |nodes|) && IsSquare(r.value.1, |nodes|)
    ensures r.Ok? ==> Symmetric(r.value.0) && Symmetric(r.value.1)
    ensures r.Ok? && AllValid(locs) ==> NonNegMatrix(r.value.0) && NonNegMatrix(r.value.1)
  {
    var idx := NodeIndex(nodes);
    CoversIffKnown(nodes, locs);
    match Resolve(locs, idx)
    case Err(c) => Err(c)
    case Ok(edges) =>
      assert InRange(edges, |nodes|);
      assert AllValid(locs) ==> NonNegEdges(edges);
      Ok(FillBoth(|nodes|, edges))
  }

  /** Every edge carries a non-negative time and distance. */
  predicate NonNegEdges(edges: seq<Edge>) {
    forall t | 0 <= t < |edges| :: NonNeg(edges[t].time) && NonNeg(edges[t].dist)
  }

  /** The time matrix and the distance matrix, both filled from the same edges. */
  function FillBoth(n: nat, edges: seq<Edge>): (r: (Matrix, Matrix))
    requires InRange(edges, n)
    ensures r.0 == Fill(n, edges, Time) && r.1 == Fill(n, edges, Distance)
    ensures IsSquare(r.0, n) && IsSquare(r.1, n)
    ensures Symmetric(r.0) && Symmetric(r.1)
    ensures NonNegEdges(edges) ==> NonNegMatrix(r.0) && NonNegMatrix(r.1)
  {
    FillSymmetric(n, edges, Time);
    FillSymmetric(n, edges, Distance);
    FillNonNeg(n, edges, Time);
    FillNonNeg(n, edges, Distance);
    (Fill(n, edges, Time), Fill(n, edges, Distance))
  }

  /** Every edge writes both orientations, so a filled matrix is symmetric. */
  lemma FillSymmetric(n: nat, edges: seq<Edge>, kind: Kind)
    requires InRange(edges, n)
    ensures Symmetric(Fill(n, edges, kind))
  {
    var m := Fill(n, edges, kind);
    forall a, b | 0 <= a < n && 0 <= b < n
      ensures m[a][b] == m[b][a]
    {
      FillCell(n, edges, kind, a, b);
      FillCell(n, edges, kind, b, a);
      if Untouched(edges, a, b) {
        assert Untouched(edges, b, a);
      } else {
        var t := LastJoiningEdge(edges, a, b);
        assert LastWriter(edges, t, b, a);
      }
    }
  }

  /** A cell that some edge writes has a last writer. */
  lemma LastJoiningEdge(edges: seq<Edge>, a: int, b: int) returns (t: int)
    requires !Untouched(edges, a, b)
    ensures LastWriter(edges, t, a, b)
  {
    t := |edges| - 1;
    while !Joins(edges[t], a, b)
      invariant 0 <= t < |edges|
      invariant exists u | 0 <= u <= t :: Joins(edges[u], a, b)
      invariant forall u | t < u < |edges| :: !Joins(edges[u], a, b)
      decreases t
    {
      t := t - 1;
    }
  }

  /** Edges with non-negative weights fill a matrix with non-negative cells. */
  lemma FillNonNeg(n: nat, edges: seq<Edge>, kind: Kind)
    requires InRange(edges, n)
    ensures (forall t | 0 <= t < |edges| :: NonNeg(WeightOf(edges[t], kind))) ==> NonNegMatrix(Fill(n, edges, kind))
  {
    var m := Fill(n, edges, kind);
    if forall t | 0 <= t < |edges| :: NonNeg(WeightOf(edges[t], kind)) {
      forall a, b | 0 <= a < n && 0 <= b < n
        ensures NonNeg(m[a][b])
      {
        FillCell(n, edges, kind, a, b);
        if !Untouched(edges, a, b) {
          var t := LastJoiningEdge(edges, a, b);
        }
      }
    }
  }

  /** The locality runs between cities x and y, in either direction. */
  predicate Names(l: Locality, x: string, y: string) {
    (l.city1 == x && l.city2 == y) || (l.city1 == y && l.city2 == x)
  }

  /** Locality t is the last one that runs between x and y. */
  predicate LastNaming(locs: seq<Locality>, t: int, x: string, y: string) {
    && 0 <= t < |locs|
    && Names(locs[t], x, y)
    && forall u | t < u < |locs| :: !Names(locs[u], x, y)
  }

  /** On a list of distinct names, an edge joins positions a and b exactly when its locality names those cities. */
  lemma JoinsIffNames(locs: seq<Locality>, nodes: seq<string>, t: int, a: int, b: int)
    requires Distinct(nodes) && 0 <= a < |nodes| && 0 <= b < |nodes|
    requires Resolve(locs, NodeIndex(nodes)).Ok? && 0 <= t < |locs|
    ensures Joins(Resolve(locs, NodeIndex(nodes)).value[t], a, b) <==> Names(locs[t], nodes[a], nodes[b])
  {
    IndexOfDistinct(nodes, a);
    IndexOfDistinct(nodes, b);
  }

  /** When the node list covers the localities, the two matrices are filled from the resolved edges. */
  lemma BuiltFrom(locs: seq<Locality>, nodes: seq<string>)
    requires Covers(nodes, locs)
    ensures Resolve(locs, NodeIndex(nodes)).Ok?
    ensures InRange(Resolve(locs, NodeIndex(nodes)).value, |nodes|)
    ensures BuildAdjacencyMatrices(locs, nodes).Ok?
    ensures BuildAdjacencyMatrices(locs, nodes).value.0 == Fill(|nodes|, Resolve(locs, NodeIndex(nodes)).value, Time)
    ensures BuildAdjacencyMatrices(locs, nodes).value.1 == Fill(|nodes|, Resolve(locs, NodeIndex(nodes)).value, Distance)
  {
    CoversIffKnown(nodes, locs);
  }

  /**
   * The cells of the built matrices in terms of the localities, for a list of
   * distinct names: a pair of cities no locality connects keeps the initial
   * value; otherwise the time cell holds the `min` of the last locality that
   * connects them, and the distance cell its `km`, or its `min` when `km` is
   * absent.
   */
  lemma BuildCells(locs: seq<Locality>, nodes: seq<string>, a: int, b: int)
    requires Distinct(nodes) && 0 <= a < |nodes| && 0 <= b < |nodes|
    requires Covers(nodes, locs)
    ensures (forall t | 0 <= t < |locs| :: !Names(locs[t], nodes[a], nodes[b])) ==>
              && BuildAdjacencyMatrices(locs, nodes).value.0[a][b] == InitCell(a, b)
              && BuildAdjacencyMatrices(locs, nodes).value.1[a][b] == InitCell(a, b)
    ensures forall t | LastNaming(locs, t, nodes[a], nodes[b]) ::
              && BuildAdjacencyMatrices(locs, nodes).value.0[a][b] == locs[t].min
              && BuildAdjacencyMatrices(locs, nodes).value.1[a][b] == DistanceOf(locs[t])
  {
    BuiltFrom(locs, nodes);
    var edges := Resolve(locs, NodeIndex(nodes)).value;
    forall t | 0 <= t < |locs|
      ensures Joins(edges[t], a, b) <==> Names(locs[t], nodes[a], nodes[b])
    {
      JoinsIffNames(locs, nodes, t, a, b);
    }
    forall t | LastNaming(locs, t, nodes[a], nodes[b])
      ensures LastWriter(edges, t, a, b)
    {
    }
    FillCell(|nodes|, edges, Time, a, b);
    FillCell(|nodes|, edges, Distance, a, b);
  }
}
