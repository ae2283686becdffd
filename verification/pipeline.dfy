/**
 * The driver: `parse_localities`, `compute_all_pairs_shortest_paths` and the
 * assembly loop of `main_response`.
 */
module Pipeline {
  import opened Wrappers
  import opened Weights
  import opened Matrices
  import opened Schemas
  import opened Adjacency
  import opened ShortestPaths
  import opened Routes

  // ---------------------------------------------------------------------------
  // parse_localities

  /** Every item that validates becomes a locality, in order; every other item is skipped. */
  function ParseLocalities(raw: seq<RawItem>): (r: seq<Locality>)
    ensures |r| <= |raw|
    ensures AllValid(r)
    ensures |r| == |raw| <==> forall q | 0 <= q < |raw| :: Acceptable(raw[q])
    decreases |raw|
  {
    if raw == [] then []
    else
      var prefix := raw[..|raw| - 1];
      assert forall q | 0 <= q < |prefix| :: prefix[q] == raw[q];
      match Validate(raw[|raw| - 1])
      case Ok(l) => ParseLocalities(prefix) + [l]
      case Err(_) => ParseLocalities(prefix)
  }

  /** The positions of the items that validate, in increasing order. */
  function AcceptedPositions(raw: seq<RawItem>): (idx: seq<nat>)
    ensures forall t | 0 <= t < |idx| :: idx[t] < |raw| && Acceptable(raw[idx[t]])
    ensures forall q | 0 <= q < |raw| && Acceptable(raw[q]) :: q in idx
    ensures forall s, t | 0 <= s < t < |idx| :: idx[s] < idx[t]
    decreases |raw|
  {
    if raw == [] then []
    else
      var prefix := raw[..|raw| - 1];
      assert forall q | 0 <= q < |prefix| :: prefix[q] == raw[q];
      AcceptedPositions(prefix) + (if Acceptable(raw[|raw| - 1]) then [|raw| - 1] else [])
  }

  /** r lists what validation makes of the items of raw at the positions idx, in the order of idx. */
  predicate Selects(raw: seq<RawItem>, r: seq<Locality>, idx: seq<nat>) {
    && |r| == |idx|
    && forall t | 0 <= t < |r| :: idx[t] < |raw| && Validate(raw[idx[t]]).Ok? && Validate(raw[idx[t]]).value == r[t]
  }

  /** A selection from all but the last item is a selection from all of them, and the last item may join it. */
  lemma SelectsGrow(raw: seq<RawItem>, r: seq<Locality>, idx: seq<nat>)
    requires raw != [] && Selects(raw[..|raw| - 1], r, idx)
    ensures Selects(raw, r, idx)
    ensures Acceptable(raw[|raw| - 1]) ==> Selects(raw, r + [Validate(raw[|raw| - 1]).value], idx + [|raw| - 1])
  {
    var prefix := raw[..|raw| - 1];
    assert forall t | 0 <= t < |idx| :: raw[idx[t]] == prefix[idx[t]];
  }

  /**
   * `parse_localities` keeps exactly the items that validate: its t-th
   * locality is what validation makes of the t-th acceptable item.
   */
  lemma {:induction false} ParseSelects(raw: seq<RawItem>)
    ensures Selects(raw, ParseLocalities(raw), AcceptedPositions(raw))
    decreases |raw|
  {
    if raw != [] {
      var last := |raw| - 1;
      var prefix := raw[..last];
      ParseSelects(prefix);
      SelectsGrow(raw, ParseLocalities(prefix), AcceptedPositions(prefix));
    }
  }

  /** Parsing two lists one after the other is parsing their concatenation. */
  lemma {:induction false} ParseAppend(a: seq<RawItem>, b: seq<RawItem>)
    ensures ParseLocalities(a + b) == ParseLocalities(a) + ParseLocalities(b)
    decreases |b|
  {
    if b == [] {
      assert a + b == a;
    } else {
      var prefix := b[..|b| - 1];
      assert (a + b)[..|a + b| - 1] == a + prefix;
      ParseAppend(a, prefix);
    }
  }

  // ---------------------------------------------------------------------------
  // compute_all_pairs_shortest_paths

  /** The names listed by `[l.city1 for l in localities] + [l.city2 for l in localities]`. */
  function Cities(locs: seq<Locality>): (cs: seq<string>)
    ensures |cs| == 2 * |locs|
    ensures forall t | 0 <= t < |locs| :: cs[t] == locs[t].city1 && cs[|locs| + t] == locs[t].city2
  {
    seq(|locs|, t requires 0 <= t < |locs| => locs[t].city1) + seq(|locs|, t requires 0 <= t < |locs| => locs[t].city2)
  }

  /** The cities the localities mention: the set on line 83. */
  function NodeSet(locs: seq<Locality>): (s: set<string>)
    ensures forall c :: c in s <==> c in Cities(locs)
  {
    set c | c in Cities(locs)
  }

  /** `nodes` lists each city of the set exactly once, in some order. */
  predicate IsEnumeration(nodes: seq<string>, s: set<string>) {
    Distinct(nodes) && Listed(nodes) == s
  }

  /** A list of the distinct names of xs; one of the orders `list(set(...))` may produce. */
  function Dedup(xs: seq<string>): (r: seq<string>)
    ensures Distinct(r)
    ensures forall c :: c in r <==> c in xs
    decreases |xs|
  {
    if xs == [] then []
    else
      var rest := Dedup(xs[..|xs| - 1]);
      var c := xs[|xs| - 1];
      assert forall d :: d in xs <==> d in xs[..|xs| - 1] || d == c;
      if c in rest then rest else rest + [c]
  }

  /** The node list on line 83 always exists: deduplicating the city names enumerates the node set. */
  lemma NodesExist(locs: seq<Locality>)
    ensures IsEnumeration(Dedup(Cities(locs)), NodeSet(locs))
  {
    var nodes := Dedup(Cities(locs));
    assert Listed(nodes) == NodeSet(locs);
  }

  type Pair = (string, string)

  /** The ordered pairs of different cities: the keys both dictionaries receive. */
  function DistinctPairs(cities: set<string>): (ps: set<Pair>)
    ensures forall p :: p in ps <==> p.0 in cities && p.1 in cities && p.0 != p.1
  {
    set x, y | x in cities && y in cities && x != y :: (x, y)
  }

  /** The node list covers every city a locality names, so both matrices can be built. */
  lemma BuildSucceeds(locs: seq<Locality>, nodes: seq<string>)
    requires IsEnumeration(nodes, NodeSet(locs))
    ensures Covers(nodes, locs) && BuildAdjacencyMatrices(locs, nodes).Ok?
  {
    forall t | 0 <= t < |locs| ensures locs[t].city1 in nodes && locs[t].city2 in nodes {
      assert Cities(locs)[t] == locs[t].city1 && Cities(locs)[|locs| + t] == locs[t].city2;
    }
  }

  /** The shortest-path matrix of the given kind. */
  function ShortestMatrix(locs: seq<Locality>, nodes: seq<string>, kind: Kind): (m: Matrix)
    requires IsEnumeration(nodes, NodeSet(locs))
    ensures IsSquare(m, |nodes|)
    ensures AllValid(locs) ==> NonNegMatrix(m)
  {
    BuildSucceeds(locs, nodes);
    RelaxationProperties(Adjacent(locs, nodes, kind));
    Relaxation(Adjacent(locs, nodes, kind))
  }

  /** With distinct names, `node_index` maps the name at position a back to a. */
  lemma PositionOfListed(nodes: seq<string>, a: int)
    requires Distinct(nodes) && 0 <= a < |nodes|
    ensures Position(nodes, nodes[a]) == a
  {
    SamePosition(nodes, Position(nodes, nodes[a]), a);
  }

  /** The dictionary of the given kind, keyed by pairs of different cities. */
  function PairMap(locs: seq<Locality>, nodes: seq<string>, kind: Kind): (d: map<Pair, W>)
    requires IsEnumeration(nodes, NodeSet(locs))
    ensures d.Keys == DistinctPairs(NodeSet(locs))
    ensures forall p | p in d :: p.0 in nodes && p.1 in nodes &&
              d[p] == ShortestMatrix(locs, nodes, kind)[Position(nodes, p.0)][Position(nodes, p.1)]
    ensures AllValid(locs) ==> forall p | p in d :: NonNeg(d[p])
  {
    Tabulate(DistinctPairs(NodeSet(locs)), nodes, ShortestMatrix(locs, nodes, kind))
  }

  /** The cells of m for the given pairs of names, each name looked up in `node_index`. */
  function Tabulate(keys: set<Pair>, nodes: seq<string>, m: Matrix): (d: map<Pair, W>)
    requires IsSquare(m, |nodes|)
    requires forall p | p in keys :: p.0 in nodes && p.1 in nodes
    ensures d.Keys == keys
    ensures forall p | p in d :: d[p] == m[Position(nodes, p.0)][Position(nodes, p.1)]
    ensures NonNegMatrix(m) ==> forall p | p in d :: NonNeg(d[p])
  {
    map p | p in keys :: m[Position(nodes, p.0)][Position(nodes, p.1)]
  }

  /** The entry for the names at positions a and b is the result cell (a, b). */
  lemma PairMapCell(locs: seq<Locality>, nodes: seq<string>, kind: Kind, a: int, b: int)
    requires IsEnumeration(nodes, NodeSet(locs))
    requires 0 <= a < |nodes| && 0 <= b < |nodes| && a != b
    ensures (nodes[a], nodes[b]) in PairMap(locs, nodes, kind)
    ensures PairMap(locs, nodes, kind)[(nodes[a], nodes[b])] == ShortestMatrix(locs, nodes, kind)[a][b]
  {
    PositionOfListed(nodes, a);
    PositionOfListed(nodes, b);
  }

  /**
   * `compute_all_pairs_shortest_paths` for one order of the nodes: the time
   * dictionary and the distance dictionary, both keyed by every ordered pair
   * of different cities.
   */
  function ComputeAllPairs(locs: seq<Locality>, nodes: seq<string>): (r: (map<Pair, W>, map<Pair, W>))
    requires IsEnumeration(nodes, NodeSet(locs))
    ensures r.0.Keys == DistinctPairs(NodeSet(locs)) && r.1.Keys == DistinctPairs(NodeSet(locs))
    ensures locs == [] ==> r.0 == map[] && r.1 == map[]
    ensures AllValid(locs) ==> (forall p | p in r.0 :: NonNeg(r.0[p])) && (forall p | p in r.1 :: NonNeg(r.1[p]))
  {
    (PairMap(locs, nodes, Time), PairMap(locs, nodes, Distance))
  }

  /** The dictionary of the given kind. */
  function Select(r: (map<Pair, W>, map<Pair, W>), kind: Kind): map<Pair, W> {
    match kind
    case Time => r.0
    case Distance => r.1
  }

  lemma SelectEntry(locs: seq<Locality>, nodes: seq<string>, kind: Kind, x: string, y: string)
    requires IsEnumeration(nodes, NodeSet(locs)) && (x, y) in DistinctPairs(NodeSet(locs))
    ensures (x, y) in Select(ComputeAllPairs(locs, nodes), kind)
    ensures Select(ComputeAllPairs(locs, nodes), kind)[(x, y)] == PairMap(locs, nodes, kind)[(x, y)]
  {
    match kind
    case Time =>
    case Distance =>
  }

  /** No route from x to y weighs less than the entry under (x, y). */
  lemma EntryBound(locs: seq<Locality>, nodes: seq<string>, kind: Kind, x: string, y: string, route: seq<string>)
    requires IsEnumeration(nodes, NodeSet(locs)) && AllValid(locs)
    requires x in NodeSet(locs) && y in NodeSet(locs) && x != y
    requires IsRoute(route, NodeSet(locs), x, y)
    ensures Le(PairMap(locs, nodes, kind)[(x, y)], RouteWeight(locs, kind, route))
  {
    BuildSucceeds(locs, nodes);
    NoLighterRoute(locs, nodes, kind, Position(nodes, x), Position(nodes, y), route);
  }

  /** A route from x to y that weighs exactly the entry under (x, y). */
  lemma EntryRoute(locs: seq<Locality>, nodes: seq<string>, kind: Kind, x: string, y: string) returns (route: seq<string>)
    requires IsEnumeration(nodes, NodeSet(locs)) && AllValid(locs)
    requires x in NodeSet(locs) && y in NodeSet(locs) && x != y
    ensures IsRoute(route, NodeSet(locs), x, y)
    ensures RouteWeight(locs, kind, route) == PairMap(locs, nodes, kind)[(x, y)]
  {
    BuildSucceeds(locs, nodes);
    route := AchievingRoute(locs, nodes, kind, Position(nodes, x), Position(nodes, y));
  }

  /**
   * w is the weight of a lightest route from x to y: no route through the
   * named cities is lighter, and some route weighs exactly w.
   */
  ghost predicate Lightest(locs: seq<Locality>, kind: Kind, x: string, y: string, w: W) {
    && (forall route | IsRoute(route, NodeSet(locs), x, y) :: Le(w, RouteWeight(locs, kind, route)))
    && (exists route :: IsRoute(route, NodeSet(locs), x, y) && RouteWeight(locs, kind, route) == w)
  }

  /**
   * With valid localities, the value under key (x, y) is the weight of a
   * lightest route from x to y through the mentioned cities, where each hop
   * weighs what the last locality between its two cities says: no route
   * weighs less, and one weighs exactly that. Inf means no route at all.
   */
  lemma AllPairsShortest(locs: seq<Locality>, nodes: seq<string>, kind: Kind, x: string, y: string)
    requires IsEnumeration(nodes, NodeSet(locs)) && AllValid(locs)
    requires x in NodeSet(locs) && y in NodeSet(locs) && x != y
    ensures (x, y) in Select(ComputeAllPairs(locs, nodes), kind)
    ensures Lightest(locs, kind, x, y, Select(ComputeAllPairs(locs, nodes), kind)[(x, y)])
  {
    SelectEntry(locs, nodes, kind, x, y);
    forall route | IsRoute(route, NodeSet(locs), x, y)
      ensures Le(PairMap(locs, nodes, kind)[(x, y)], RouteWeight(locs, kind, route))
    {
      EntryBound(locs, nodes, kind, x, y, route);
    }
    var route := EntryRoute(locs, nodes, kind, x, y);
  }

  /**
   * With valid localities, the dictionaries do not depend on the order in
   * which `list(set(...))` happens to list the cities.
   */
  lemma OrderIndependent(locs: seq<Locality>, nodes1: seq<string>, nodes2: seq<string>)
    requires IsEnumeration(nodes1, NodeSet(locs)) && IsEnumeration(nodes2, NodeSet(locs)) && AllValid(locs)
    ensures ComputeAllPairs(locs, nodes1) == ComputeAllPairs(locs, nodes2)
  {
    SameMap(locs, nodes1, nodes2, Time);
    SameMap(locs, nodes1, nodes2, Distance);
  }

  lemma MapExtensionality(d1: map<Pair, W>, d2: map<Pair, W>)
    requires d1.Keys == d2.Keys
    requires forall p | p in d1 :: p in d2 && d1[p] == d2[p]
    ensures d1 == d2
  {
  }

  lemma SameMap(locs: seq<Locality>, nodes1: seq<string>, nodes2: seq<string>, kind: Kind)
    requires IsEnumeration(nodes1, NodeSet(locs)) && IsEnumeration(nodes2, NodeSet(locs)) && AllValid(locs)
    ensures PairMap(locs, nodes1, kind) == PairMap(locs, nodes2, kind)
  {
    var d1 := PairMap(locs, nodes1, kind);
    var d2 := PairMap(locs, nodes2, kind);
    forall p | p in d1 ensures p in d2 && d1[p] == d2[p] {
      SameEntry(locs, nodes1, nodes2, kind, p.0, p.1);
    }
    MapExtensionality(d1, d2);
  }

  lemma SameEntry(locs: seq<Locality>, nodes1: seq<string>, nodes2: seq<string>, kind: Kind, x: string, y: string)
    requires IsEnumeration(nodes1, NodeSet(locs)) && IsEnumeration(nodes2, NodeSet(locs)) && AllValid(locs)
    requires x in NodeSet(locs) && y in NodeSet(locs) && x != y
    ensures PairMap(locs, nodes1, kind)[(x, y)] == PairMap(locs, nodes2, kind)[(x, y)]
  {
    var r1 := EntryRoute(locs, nodes1, kind, x, y);
    var r2 := EntryRoute(locs, nodes2, kind, x, y);
    EntryBound(locs, nodes1, kind, x, y, r2);
    EntryBound(locs, nodes2, kind, x, y, r1);
    LeAntisymmetric(PairMap(locs, nodes1, kind)[(x, y)], PairMap(locs, nodes2, kind)[(x, y)]);
  }

  // ---------------------------------------------------------------------------
  // The order of the keys

  /** Pair p of positions comes before pair q in row-by-row order. */
  predicate PairBefore(p: (nat, nat), q: (nat, nat)) {
    p.0 < q.0 || (p.0 == q.0 && p.1 < q.1)
  }

  /** The inner loop on row i after its first j columns, skipping the diagonal. */
  function RowPairs(i: nat, j: nat): (ps: seq<(nat, nat)>)
    ensures forall t | 0 <= t < |ps| :: ps[t].0 == i && ps[t].1 < j && ps[t].1 != i
    ensures forall c | 0 <= c < j && c != i :: (i, c) in ps
    ensures forall s, t | 0 <= s < t < |ps| :: ps[s].1 < ps[t].1
    decreases j
  {
    if j == 0 then [] else RowPairs(i, j - 1) + (if j - 1 != i then [(i, j - 1)] else [])
  }

  /** The double loop after its first i rows: the positions of the keys, in insertion order. */
  function LoopPairs(n: nat, i: nat): (ps: seq<(nat, nat)>)
    requires i <= n
    ensures forall t | 0 <= t < |ps| :: ps[t].0 < i && ps[t].1 < n && ps[t].0 != ps[t].1
    ensures forall a, b | 0 <= a < i && 0 <= b < n && a != b :: (a, b) in ps
    ensures forall s, t | 0 <= s < t < |ps| :: PairBefore(ps[s], ps[t])
    decreases i
  {
    if i == 0 then [] else LoopPairs(n, i - 1) + RowPairs(i - 1, n)
  }

  /** The keys in the order the double loop inserts them, which is the order `for (start, end) in time_shortest` visits them. */
  function KeyOrder(nodes: seq<string>): (keys: seq<Pair>)
    ensures |keys| == |LoopPairs(|nodes|, |nodes|)|
    ensures forall t | 0 <= t < |keys| ::
              var ps := LoopPairs(|nodes|, |nodes|); keys[t] == (nodes[ps[t].0], nodes[ps[t].1])
  {
    var ps := LoopPairs(|nodes|, |nodes|);
    seq(|ps|, t requires 0 <= t < |ps| => (nodes[ps[t].0], nodes[ps[t].1]))
  }

  /**
   * With distinct names, the key order lists every ordered pair of different
   * cities, nothing else, and nothing twice.
   */
  lemma KeyOrderEnumerates(nodes: seq<string>)
    requires Distinct(nodes)
    ensures forall t | 0 <= t < |KeyOrder(nodes)| :: KeyOrder(nodes)[t] in DistinctPairs(Listed(nodes))
    ensures forall p | p in DistinctPairs(Listed(nodes)) :: p in KeyOrder(nodes)
    ensures forall s, t | 0 <= s < t < |KeyOrder(nodes)| :: KeyOrder(nodes)[s] != KeyOrder(nodes)[t]
  {
    KeyOrderCovers(nodes);
    KeyOrderNoRepeats(nodes);
  }

  lemma KeyOrderCovers(nodes: seq<string>)
    requires Distinct(nodes)
    ensures forall p | p in DistinctPairs(Listed(nodes)) :: p in KeyOrder(nodes)
  {
    forall p | p in DistinctPairs(Listed(nodes)) ensures p in KeyOrder(nodes) {
      var t := KeyIndex(nodes, p.0, p.1);
    }
  }

  /** Where the loop meets the pair (x, y) of listed names. */
  lemma KeyIndex(nodes: seq<string>, x: string, y: string) returns (t: int)
    requires Distinct(nodes) && x in nodes && y in nodes && x != y
    ensures 0 <= t < |KeyOrder(nodes)| && KeyOrder(nodes)[t] == (x, y)
  {
    var ps := LoopPairs(|nodes|, |nodes|);
    var a := Position(nodes, x);
    var b := Position(nodes, y);
    assert (a, b) in ps;
    t :| 0 <= t < |ps| && ps[t] == (a, b);
  }

  lemma KeyOrderNoRepeats(nodes: seq<string>)
    requires Distinct(nodes)
    ensures forall s, t | 0 <= s < t < |KeyOrder(nodes)| :: KeyOrder(nodes)[s] != KeyOrder(nodes)[t]
  {
    var n := |nodes|;
    var ps := LoopPairs(n, n);
    var keys := KeyOrder(nodes);
    forall s, t | 0 <= s < t < |keys| ensures keys[s] != keys[t] {
      assert PairBefore(ps[s], ps[t]);
    }
  }

  // ---------------------------------------------------------------------------
  // main_response

  /**
   * The loop of lines 111-117: one record per key, in key order, each built
   * through the `Locality` validator. The first record the validator rejects
   * raises its error; otherwise the records carry the time as `min` and the
   * distance as `km`.
   */
  function Assemble(keys: seq<Pair>, time: map<Pair, W>, dist: map<Pair, W>): (r: Result<seq<Locality>, ValidationError>)
    requires forall t | 0 <= t < |keys| :: keys[t] in time && keys[t] in dist
    ensures r.Ok? <==> forall t | 0 <= t < |keys| :: NonNeg(time[keys[t]]) && NonNeg(dist[keys[t]])
    ensures r.Ok? ==> |r.value| == |keys| && AllValid(r.value)
    ensures r.Ok? ==> forall t | 0 <= t < |keys| ::
              r.value[t] == Locality(keys[t].0, keys[t].1, time[keys[t]], Some(dist[keys[t]]))
    decreases |keys|
  {
    if keys == [] then Ok([])
    else
      var k := keys[0];
      assert forall t | 1 <= t < |keys| :: keys[1..][t - 1] == keys[t];
      match MakeLocality(k.0, k.1, time[k], Some(dist[k]))
      case Err(e) => Err(e)
      case Ok(l) =>
        match Assemble(keys[1..], time, dist)
        case Err(e) => Err(e)
        case Ok(rest) => Ok([l] + rest)
  }

  /** Key k has a time and a distance the validator accepts. */
  predicate KeyAccepted(k: Pair, time: map<Pair, W>, dist: map<Pair, W>)
    requires k in time && k in dist
  {
    NonNeg(time[k]) && NonNeg(dist[k])
  }

  /** The error the validator raises for the record of key k. */
  function RecordError(k: Pair, time: map<Pair, W>, dist: map<Pair, W>): (e: ValidationError)
    requires k in time && k in dist && !KeyAccepted(k, time, dist)
    ensures MakeLocality(k.0, k.1, time[k], Some(dist[k])).Err?
    ensures MakeLocality(k.0, k.1, time[k], Some(dist[k])).error == e
  {
    MakeLocality(k.0, k.1, time[k], Some(dist[k])).error
  }

  /** The position of the key the loop raises on: the first one the validator rejects. */
  lemma {:induction false} FirstRejected(keys: seq<Pair>, time: map<Pair, W>, dist: map<Pair, W>) returns (t: int)
    requires forall u | 0 <= u < |keys| :: keys[u] in time && keys[u] in dist
    requires Assemble(keys, time, dist).Err?
    ensures 0 <= t < |keys| && !KeyAccepted(keys[t], time, dist)
    ensures forall u | 0 <= u < t :: KeyAccepted(keys[u], time, dist)
    ensures Assemble(keys, time, dist).error == RecordError(keys[t], time, dist)
    decreases |keys|
  {
    var k := keys[0];
    if !KeyAccepted(k, time, dist) {
      t := 0;
    } else {
      var rest := keys[1..];
      var s := FirstRejected(rest, time, dist);
      t := s + 1;
      assert keys[t] == rest[s];
      forall u | 0 <= u < t ensures KeyAccepted(keys[u], time, dist) {
        if u > 0 {
          assert keys[u] == rest[u - 1];
        }
      }
    }
  }

  /**
   * When the loop raises, it raises the validator's error for the first key
   * whose time or distance is negative.
   */
  lemma AssembleFirstError(keys: seq<Pair>, time: map<Pair, W>, dist: map<Pair, W>)
    requires forall t | 0 <= t < |keys| :: keys[t] in time && keys[t] in dist
    requires Assemble(keys, time, dist).Err?
    ensures exists t | 0 <= t < |keys| ::
              && !KeyAccepted(keys[t], time, dist)
              && (forall u | 0 <= u < t :: KeyAccepted(keys[u], time, dist))
              && Assemble(keys, time, dist).error == RecordError(keys[t], time, dist)
  {
    var t := FirstRejected(keys, time, dist);
  }

  /** With valid localities and a node list for them, every key is in both dictionaries with a non-negative value. */
  lemma KeysInMaps(locs: seq<Locality>, nodes: seq<string>)
    requires AllValid(locs) && IsEnumeration(nodes, NodeSet(locs))
    ensures forall t | 0 <= t < |KeyOrder(nodes)| ::
              && KeyOrder(nodes)[t] in ComputeAllPairs(locs, nodes).0
              && KeyOrder(nodes)[t] in ComputeAllPairs(locs, nodes).1
              && NonNeg(ComputeAllPairs(locs, nodes).0[KeyOrder(nodes)[t]])
              && NonNeg(ComputeAllPairs(locs, nodes).1[KeyOrder(nodes)[t]])
  {
    KeyOrderEnumerates(nodes);
    var keys := KeyOrder(nodes);
    var pairs := ComputeAllPairs(locs, nodes);
    assert Listed(nodes) == NodeSet(locs);
    forall t | 0 <= t < |keys|
      ensures keys[t] in pairs.0 && keys[t] in pairs.1 && NonNeg(pairs.0[keys[t]]) && NonNeg(pairs.1[keys[t]])
    {
      assert keys[t] in DistinctPairs(NodeSet(locs));
    }
  }

  /** The records of a loop that raises nothing: one per key, valid, in key order. */
  function AssembleRecords(keys: seq<Pair>, time: map<Pair, W>, dist: map<Pair, W>): (recs: seq<Locality>)
    requires forall t | 0 <= t < |keys| :: keys[t] in time && keys[t] in dist && NonNeg(time[keys[t]]) && NonNeg(dist[keys[t]])
    ensures |recs| == |keys| && AllValid(recs)
    ensures forall t | 0 <= t < |keys| :: recs[t] == Locality(keys[t].0, keys[t].1, time[keys[t]], Some(dist[keys[t]]))
  {
    Assemble(keys, time, dist).value
  }

  /**
   * The records the loop of lines 111-117 returns for valid localities: one
   * per key, in key order, from the first city of the key to the second,
   * with the time as `min` and the distance as `km`.
   */
  function Answer(locs: seq<Locality>, nodes: seq<string>): (recs: seq<Locality>)
    requires AllValid(locs) && IsEnumeration(nodes, NodeSet(locs))
    ensures |recs| == |KeyOrder(nodes)| && AllValid(recs)
    ensures forall t | 0 <= t < |recs| ::
              && KeyOrder(nodes)[t] in ComputeAllPairs(locs, nodes).0
              && KeyOrder(nodes)[t] in ComputeAllPairs(locs, nodes).1
              && recs[t] == Locality(KeyOrder(nodes)[t].0, KeyOrder(nodes)[t].1,
                                     ComputeAllPairs(locs, nodes).0[KeyOrder(nodes)[t]],
                                     Some(ComputeAllPairs(locs, nodes).1[KeyOrder(nodes)[t]]))
  {
    var keys := KeyOrder(nodes);
    var pairs := ComputeAllPairs(locs, nodes);
    KeysInMaps(locs, nodes);
    AssembleRecords(keys, pairs.0, pairs.1)
  }

  /**
   * `main_response` for one order of the nodes: nothing when the response
   * carries a non-empty error, the assembled records otherwise. The
   * localities of a response have all passed the validator, which makes the
   * validation on line 115 succeed.
   */
  function MainResponse(resp: LocalityResponse, nodes: seq<string>): (r: Option<seq<Locality>>)
    requires AllValid(resp.data)
    requires !IsError(resp) ==> IsEnumeration(nodes, NodeSet(resp.data))
    ensures r.None? <==> IsError(resp)
    ensures r.Some? ==> |r.value| == |KeyOrder(nodes)| && AllValid(r.value)
  {
    if IsError(resp) then None else Some(Answer(resp.data, nodes))
  }

  /**
   * Every record of the answer joins two different mentioned cities, and its
   * `min` and `km` are the weights of a lightest route between them by time
   * and by distance: no route weighs less, and one weighs exactly that.
   */
  lemma RecordIsShortest(resp: LocalityResponse, nodes: seq<string>)
    requires AllValid(resp.data) && !IsError(resp) && IsEnumeration(nodes, NodeSet(resp.data))
    ensures forall t | 0 <= t < |MainResponse(resp, nodes).value| ::
      var rec := MainResponse(resp, nodes).value[t];
      && rec.city1 in NodeSet(resp.data) && rec.city2 in NodeSet(resp.data) && rec.city1 != rec.city2
      && Lightest(resp.data, Time, rec.city1, rec.city2, rec.min)
      && Lightest(resp.data, Distance, rec.city1, rec.city2, rec.km.value)
  {
    var recs := MainResponse(resp, nodes).value;
    forall t | 0 <= t < |recs|
      ensures && recs[t].city1 in NodeSet(resp.data) && recs[t].city2 in NodeSet(resp.data) && recs[t].city1 != recs[t].city2
              && Lightest(resp.data, Time, recs[t].city1, recs[t].city2, recs[t].min)
              && Lightest(resp.data, Distance, recs[t].city1, recs[t].city2, recs[t].km.value)
    {
      RecordAt(resp.data, nodes, t);
    }
  }

  /** Record t of the answer, for the key the loop inserted t-th. */
  lemma RecordAt(locs: seq<Locality>, nodes: seq<string>, t: int)
    requires AllValid(locs) && IsEnumeration(nodes, NodeSet(locs))
    requires 0 <= t < |KeyOrder(nodes)|
    ensures var rec := Answer(locs, nodes)[t];
      && rec.city1 in NodeSet(locs) && rec.city2 in NodeSet(locs) && rec.city1 != rec.city2
      && Lightest(locs, Time, rec.city1, rec.city2, rec.min)
      && Lightest(locs, Distance, rec.city1, rec.city2, rec.km.value)
  {
    var key := KeyOrder(nodes)[t];
    var pairs := ComputeAllPairs(locs, nodes);
    KeyOrderEnumerates(nodes);
    assert key in DistinctPairs(NodeSet(locs));
    assert Answer(locs, nodes)[t] == Locality(key.0, key.1, pairs.0[key], Some(pairs.1[key]));
    AllPairsShortest(locs, nodes, Time, key.0, key.1);
    AllPairsShortest(locs, nodes, Distance, key.0, key.1);
  }

  /** Every ordered pair of different mentioned cities has a record in the answer. */
  lemma EveryPairAnswered(resp: LocalityResponse, nodes: seq<string>, x: string, y: string)
    requires AllValid(resp.data) && !IsError(resp) && IsEnumeration(nodes, NodeSet(resp.data))
    requires x in NodeSet(resp.data) && y in NodeSet(resp.data) && x != y
    ensures exists t | 0 <= t < |MainResponse(resp, nodes).value| ::
              MainResponse(resp, nodes).value[t].city1 == x && MainResponse(resp, nodes).value[t].city2 == y
  {
    var recs := MainResponse(resp, nodes).value;
    var t := KeyIndex(nodes, x, y);
    assert recs[t].city1 == x && recs[t].city2 == y;
  }

  /** No ordered pair of cities has two records in the answer. */
  lemma NoPairTwice(resp: LocalityResponse, nodes: seq<string>)
    requires AllValid(resp.data) && !IsError(resp) && IsEnumeration(nodes, NodeSet(resp.data))
    ensures forall s, t | 0 <= s < t < |MainResponse(resp, nodes).value| ::
              var recs := MainResponse(resp, nodes).value;
              !(recs[s].city1 == recs[t].city1 && recs[s].city2 == recs[t].city2)
  {
    var recs := MainResponse(resp, nodes).value;
    var keys := KeyOrder(nodes);
    KeyOrderNoRepeats(nodes);
    forall s, t | 0 <= s < t < |recs|
      ensures !(recs[s].city1 == recs[t].city1 && recs[s].city2 == recs[t].city2)
    {
      assert recs[s].city1 == keys[s].0 && recs[s].city2 == keys[s].1;
      assert recs[t].city1 == keys[t].0 && recs[t].city2 == keys[t].1;
    }
  }

}
