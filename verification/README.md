# All-pairs shortest travel times and distances between localities

This project is a Dafny model of a small routing service. The service fetches
a list of *localities*. Each locality is an undirected road between two
cities `city1` and `city2`. It carries a travel time `min` and an optional
length `km`. The service then answers with one record per ordered pair of
different cities, holding the shortest time and the shortest distance
between them.

The model covers the following steps:

- **Validation** (`schemas.py`, module `Schemas`).
  - A `Locality` has three required fields (`city1`, `city2`, `min`) and an optional `km`.
  - The `check_positive` validator rejects negative weights.
  - The `LocalityResponse` envelope defaults to empty data and no error.
  - A raw JSON item is modelled field by field: missing, unreadable, or given.
- **Record filtering** (`parse_localities`, module `Pipeline`). Valid items are kept in order, and items that validation rejects are skipped.
- **Matrix building** (`build_adjacency_matrices`, module `Adjacency`).
  - The node index dictionary is built first.
  - A city missing from the index raises `KeyError`.
  - The matrices start with 0 on the diagonal and infinity elsewhere.
  - Each edge writes both orientations. The last write wins, and a self-loop overwrites the diagonal.
  - A distance cell holds `km`, or `min` when `km` is absent.
- **Floyd–Warshall** (`floyd_warshall`, module `ShortestPaths`). The triple loop is modelled in two ways:
  - a cell-by-cell replay, in exactly the order the loops visit the cells, which the imperative `array2` method is proved equal to;
  - a round-at-a-time reference definition, which the replay matches when weights are non-negative.
- **Result flattening** (`compute_all_pairs_shortest_paths` and the loop of `main_response`, module `Pipeline`).
  - Two dictionaries are built, each keyed by the ordered pairs of distinct cities.
  - The keys are inserted in row-major loop order, and the records are assembled in that order.
- **Route semantics** (module `Routes`). This gives the answer its meaning.
  - A route is a sequence of mentioned cities.
  - Each hop weighs what the *last* locality joining its two cities says. A hop between cities no locality joins weighs infinity.
  - Every answered value is the weight of a lightest route: no route weighs less, and some route weighs exactly that.

Weights are `W = Fin(r: real) | Inf`:
- `Inf` absorbs addition.
- The comparison `<` is strict, and `Inf < Inf` is false.

Python's iteration order over `set(...)` is not modelled. The node list is a parameter, and any duplicate-free list of the mentioned cities is allowed. `Pipeline.OrderIndependent` proves that the resulting dictionaries do not depend on that choice.

Files:
- `wrappers.dfy`: `Option`, `Result`.
- `weights.dfy`: extended weights.
- `matrices.dfy`: square matrices.
- `schemas.dfy`: validation.
- `adjacency.dfy`: matrix building.
- `shortest_paths.dfy`: Floyd–Warshall.
- `routes.dfy`: route semantics.
- `pipeline.dfy`: parsing, dictionaries and assembly.

## Model

| member | source | states |
|---|---|---|
| Schemas.CheckPositive | schemas.py:11-15 | accepts a weight exactly when it is not negative; an accepted value comes back unchanged; a rejected one gives the message "Distance cannot be negative" |
| Schemas.Required | schemas.py:6-8 | a required field yields its value exactly when it is present and readable |
| Schemas.RequiredWeight | schemas.py:8-15 | `min` is accepted exactly when present, readable and non-negative, and keeps its value |
| Schemas.OptionalWeight | schemas.py:9-15 | `km` is accepted when absent (becoming None) or present and non-negative (kept); an unreadable or negative `km` is rejected |
| Schemas.Validate | schemas.py:5-15 | `Locality(**item)` succeeds exactly for acceptable items; the result is valid (non-negative weights) and keeps the item's cities and weights, with absent `km` as None |
| Schemas.MakeLocality | schemas.py:5-15 | constructing a locality in code succeeds exactly when both weights are non-negative, and then yields a valid record with the given fields |
| Schemas.DefaultResponse | schemas.py:17-19 | `LocalityResponse()` has empty data and no error |
| Schemas.DataResponse | schemas.py:17-19 | a response built from data has that data and no error |
| Schemas.ErrorResponse | schemas.py:17-19 | a response built from an error message has empty data and that error |
| Schemas.IsError | floyd_warshall.py:104 | the truth test on the error field: no message and the empty message are false, any non-empty message is true |
| Schemas.ErrorDistinctFromEmpty | floyd_warshall.py:104-106 | an empty result is not an error, a non-empty message is, and the two have the same data: only the error field tells them apart |
| Weights.Add | floyd_warshall.py:73 | the float `+` on weights: infinity plus anything is infinity, and two finite weights add as reals |
| Weights.Less | floyd_warshall.py:73 | the strict float `<`: finite weights compare as reals, a finite weight is below infinity, and infinity is below nothing, itself included |
| Matrices.Init | floyd_warshall.py:47-51 | the starting matrix is n by n with 0 on the diagonal and infinity elsewhere |
| Matrices.Update | floyd_warshall.py:58-61 | one cell assignment sets that cell and keeps every other cell and the shape |
| Adjacency.NodeIndex | floyd_warshall.py:53 | `node_index` has exactly the listed names as keys, maps each to a position holding that name, and for a repeated name keeps the last position |
| Adjacency.IndexOfDistinct | floyd_warshall.py:53 | with no repeated names, the name at position t is indexed as t |
| Adjacency.DistanceOf | floyd_warshall.py:60-61 | the distance of a locality is its `km` when present and its `min` otherwise, and is non-negative for a valid locality |
| Adjacency.EdgeOf | floyd_warshall.py:56-61 | the edge one loop iteration writes runs from the position of `city1` to that of `city2`, with time `min` and distance `km` (or `min` when `km` is absent), both non-negative for a valid locality |
| Adjacency.MissingCity | floyd_warshall.py:56-57 | for a locality with an unknown city, the city whose lookup raises: it is not a key, it is one of the two cities, and it is `city1` whenever `city1` is unknown |
| Adjacency.Resolve | floyd_warshall.py:55-57 | the index lookups all succeed exactly when every city is a key, giving one edge per locality in order; otherwise the error is the unknown city of the first locality that has one (`city1` before `city2`) |
| Adjacency.Fill | floyd_warshall.py:55-61 | the edge loop on one matrix leaves an n by n matrix |
| Adjacency.FillStep | floyd_warshall.py:58-61 | one loop iteration changes cell (a, b) exactly when the edge joins a and b in either direction, to that edge's weight |
| Adjacency.FillUntouched | floyd_warshall.py:47-51 | a cell no edge writes keeps its initial value |
| Adjacency.FillLastWriter | floyd_warshall.py:55-61 | a cell holds the weight of the last edge that writes it: later duplicates overwrite earlier ones and no minimum is taken |
| Adjacency.FillCell | floyd_warshall.py:47-61 | both cases together: untouched cells keep 0 or infinity, written cells hold their last writer's weight (a self-loop overwrites the diagonal) |
| Adjacency.FillSymmetric | floyd_warshall.py:58-61 | a filled matrix is symmetric |
| Adjacency.FillNonNeg | floyd_warshall.py:55-61 | edges with non-negative weights give a matrix with non-negative cells |
| Adjacency.CoversIffKnown | floyd_warshall.py:53-57 | every `node_index` lookup succeeds exactly when the node list names every city of every locality |
| Adjacency.BuiltFrom | floyd_warshall.py:45-63 | when the node list names every city, building succeeds and both matrices are the edge loop's result on the resolved edges |
| Adjacency.BuildAdjacencyMatrices | floyd_warshall.py:45-63 | succeeds exactly when every city of every locality is listed, otherwise fails with an unlisted city; both matrices are n by n and symmetric, and non-negative when the localities are valid |
| Adjacency.JoinsIffNames | floyd_warshall.py:53-57 | on distinct names, a locality's edge joins positions a and b exactly when the locality names those two cities |
| Adjacency.BuildCells | floyd_warshall.py:47-61 | in terms of localities: a pair no locality names keeps its initial cell; otherwise the time cell is the last naming locality's `min` and the distance cell its `km`, or `min` when `km` is absent |
| ShortestPaths.Relaxed | floyd_warshall.py:73-74 | the relaxed cell is the old value or the sum through k, and is no greater than either |
| ShortestPaths.RelaxCell | floyd_warshall.py:73-74 | one run of the loop body writes only cell (i, j), setting it to the relaxed value, which is never above the old one |
| ShortestPaths.RelaxPrefix | floyd_warshall.py:72-74 | the innermost loop after j iterations has written only row i, and there only the columns below j |
| ShortestPaths.RelaxRows | floyd_warshall.py:71-74 | the middle loop after i rows leaves an n by n matrix |
| ShortestPaths.Rounds | floyd_warshall.py:70-74 | the outer loop after k rounds leaves an n by n matrix |
| ShortestPaths.Relaxation | floyd_warshall.py:65-76 | the matrix the function returns after all n rounds is n by n |
| ShortestPaths.Step | floyd_warshall.py:70-74 | the round-at-a-time reference: every cell becomes the smaller of its value and the sum through the pivot |
| ShortestPaths.PrefixBelow | floyd_warshall.py:72-74 | relaxing part of a row never raises a cell |
| ShortestPaths.RowsBelow | floyd_warshall.py:71-74 | relaxing a round's first rows never raises a cell |
| ShortestPaths.RoundsBelow | floyd_warshall.py:70-74 | after any number of rounds every cell is at most its input value |
| ShortestPaths.PivotStable | floyd_warshall.py:73-74 | with a non-negative pivot diagonal, a round leaves the pivot's row and column unchanged |
| ShortestPaths.PrefixPartial | floyd_warshall.py:72-74 | part-way through a row, the cells already visited hold the reference value and the rest hold the round's starting value |
| ShortestPaths.RowsPartial | floyd_warshall.py:71-74 | part-way through a round, the visited rows hold the reference values and the rest are untouched |
| ShortestPaths.RoundIsStep | floyd_warshall.py:71-74 | a whole in-place round equals the reference round when the pivot's diagonal is non-negative |
| ShortestPaths.RoundsStep | floyd_warshall.py:70-74 | if the loop agrees with the reference before round k, it agrees after it |
| ShortestPaths.RoundsIsLayer | floyd_warshall.py:70-74 | on a non-negative matrix, the in-place loop equals the reference rounds after every round |
| ShortestPaths.LayerNonNeg | floyd_warshall.py:70-74 | rounds keep a non-negative matrix non-negative |
| ShortestPaths.StepTriangleCell | floyd_warshall.py:73-74 | after round k, one cell satisfies the triangle inequality through every node up to k |
| ShortestPaths.StepTriangle | floyd_warshall.py:73-74 | a round extends the triangle inequality from the earlier pivots to its own pivot |
| ShortestPaths.LayerTriangle | floyd_warshall.py:70-74 | after k rounds on a non-negative matrix, `dist[i][j] <= dist[i][c] + dist[c][j]` for every c below k |
| ShortestPaths.LayerOfClosed | floyd_warshall.py:70-74 | a matrix that already satisfies the triangle inequality is left unchanged by every round |
| ShortestPaths.LayerSymmetric | floyd_warshall.py:70-74 | rounds keep a symmetric matrix symmetric |
| ShortestPaths.LayerZeroDiagonal | floyd_warshall.py:70-74 | rounds keep a zero diagonal of a non-negative matrix at zero |
| ShortestPaths.LayerBelow | floyd_warshall.py:70-74 | the reference rounds never raise a cell |
| ShortestPaths.RelaxRow | floyd_warshall.py:72-74 | the innermost loop on the array leaves exactly the replayed row |
| ShortestPaths.RelaxRound | floyd_warshall.py:71-74 | the middle loop on the array leaves exactly the replayed round |
| ShortestPaths.RelaxAll | floyd_warshall.py:70-74 | the outer loop on the array leaves exactly the replayed relaxation |
| ShortestPaths.RelaxationProperties | floyd_warshall.py:65-76 | the result has the input's shape and no cell above the input (direct-edge dominance); for non-negative input it is non-negative, satisfies the triangle inequality, keeps symmetry and a zero diagonal, and a second run returns it unchanged |
| ShortestPaths.WalkConcat | floyd_warshall.py:73 | the weight of two joined walks is the sum of their weights |
| ShortestPaths.LayerWalk | floyd_warshall.py:70-74 | every cell after k rounds is the weight of some walk between its two nodes |
| ShortestPaths.WalkBound | floyd_warshall.py:70-74 | a matrix below the input that satisfies the triangle inequality is below the weight of every walk |
| ShortestPaths.NoShorterWalk | floyd_warshall.py:65-76 | for non-negative input, no walk from i to j weighs less than result cell (i, j) |
| ShortestPaths.AchievingWalk | floyd_warshall.py:65-76 | for non-negative input, some walk from i to j weighs exactly result cell (i, j) |
| ShortestPaths.ShortestWalk | floyd_warshall.py:65-76 | for non-negative input, result cell (i, j) is the weight of a lightest walk from i to j |
| ShortestPaths.FloydWarshall | floyd_warshall.py:65-76 | the array loop over a copy returns the replayed relaxation of its input (which a value parameter cannot change), of the same shape and below it; for non-negative input the result is non-negative, satisfies the triangle inequality, is at most every walk's weight, and keeps symmetry and a zero diagonal |
| Routes.LocalityWeight | floyd_warshall.py:58-61 | a locality weighs its `min` by time and its distance (`km` or `min`) by distance, non-negative when valid |
| Routes.LinkUnnamed | floyd_warshall.py:47-51 | a hop between two cities no locality names weighs 0 from a city to itself and infinity otherwise |
| Routes.LinkLastNaming | floyd_warshall.py:55-61 | a hop between two named cities weighs what the last locality naming them says |
| Routes.LinkSymmetric | floyd_warshall.py:58-61 | a hop weighs the same in both directions |
| Routes.Adjacent | floyd_warshall.py:45-63 | a built matrix is n by n and symmetric, and non-negative for valid localities |
| Routes.AdjacentIsLink | floyd_warshall.py:45-63 | on distinct names, built cell (a, b) is the weight of the hop between the cities at positions a and b |
| Routes.HopsAgree | floyd_warshall.py:73 | a walk and the route through its names weigh the same when every hop's cell holds the hop's weight |
| Routes.WalkIsRoute | floyd_warshall.py:45-76 | a walk over the built matrix weighs what the route through the same cities weighs |
| Routes.RouteIsWalk | floyd_warshall.py:53 | a route through listed cities corresponds to a walk over their positions, from which the route is recovered |
| Routes.NoLighterRoute | floyd_warshall.py:84-87 | no route between two cities weighs less than their result cell |
| Routes.AchievingRoute | floyd_warshall.py:84-87 | some route between two cities weighs exactly their result cell |
| Routes.ShortestRoute | floyd_warshall.py:84-87 | for valid localities, result cell (a, b) is the weight of a lightest route between the two cities |
| Pipeline.ParseLocalities | floyd_warshall.py:35-43 | the output is never longer than the input, every output locality is valid, and nothing is dropped exactly when every item is acceptable |
| Pipeline.AcceptedPositions | floyd_warshall.py:37-43 | the positions of exactly the acceptable items, in increasing order |
| Pipeline.ParseSelects | floyd_warshall.py:37-43 | the t-th parsed locality is what validation makes of the t-th acceptable item: exactly the valid items, in input order |
| Pipeline.ParseAppend | floyd_warshall.py:37-43 | parsing a concatenation is concatenating the parses, so an item that validation rejects never aborts the batch |
| Pipeline.Cities | floyd_warshall.py:83 | the list of all `city1` values followed by all `city2` values |
| Pipeline.NodeSet | floyd_warshall.py:83 | the node set holds exactly the cities some locality mentions |
| Pipeline.Dedup | floyd_warshall.py:83 | a duplicate-free list of exactly the given names, one possible `list(set(...))` |
| Pipeline.NodesExist | floyd_warshall.py:83 | every locality list has a node list of the kind the model assumes |
| Pipeline.DistinctPairs | floyd_warshall.py:94-96 | exactly the ordered pairs of two different cities of the set |
| Pipeline.BuildSucceeds | floyd_warshall.py:83-84 | with nodes taken from the localities themselves, matrix building never raises |
| Pipeline.ShortestMatrix | floyd_warshall.py:84-87 | the result matrices are n by n, and non-negative for valid localities |
| Pipeline.Tabulate | floyd_warshall.py:89-98 | a dictionary with exactly the given keys, each holding the matrix cell at the positions of its two names |
| Pipeline.PairMap | floyd_warshall.py:89-98 | keyed by exactly the ordered pairs of different mentioned cities, each value taken from the matching result cell |
| Pipeline.PairMapCell | floyd_warshall.py:94-98 | the entry for the names at positions a and b (a not b) is result cell (a, b) |
| Pipeline.ComputeAllPairs | floyd_warshall.py:78-100 | both dictionaries are keyed by exactly the ordered pairs of different mentioned cities, are empty for empty input, and hold non-negative values for valid input |
| Pipeline.EntryBound | floyd_warshall.py:83-100 | no route between x and y weighs less than the entry for (x, y) |
| Pipeline.EntryRoute | floyd_warshall.py:83-100 | some route between x and y weighs exactly the entry for (x, y) |
| Pipeline.AllPairsShortest | floyd_warshall.py:78-100 | for valid localities, every entry (x, y) is the weight of a lightest route from x to y |
| Pipeline.OrderIndependent | floyd_warshall.py:83-100 | any two duplicate-free orders of the node set give the same two dictionaries |
| Pipeline.SameEntry | floyd_warshall.py:83-100 | two node orders give the same entry for every pair |
| Pipeline.SameMap | floyd_warshall.py:83-100 | two node orders give the same dictionary of each kind |
| Pipeline.RowPairs | floyd_warshall.py:95-96 | the inner loop visits every column of row i except i, in increasing order |
| Pipeline.LoopPairs | floyd_warshall.py:94-96 | the two loops visit every pair of different positions exactly once, in row-major order |
| Pipeline.KeyOrder | floyd_warshall.py:94-98 | the dictionary keys in insertion order: the names at the positions the loops visit |
| Pipeline.KeyIndex | floyd_warshall.py:94-98 | every ordered pair of different listed names is inserted at some step |
| Pipeline.KeyOrderCovers | floyd_warshall.py:94-98 | every ordered pair of different listed names is a key |
| Pipeline.KeyOrderNoRepeats | floyd_warshall.py:94-98 | no key is inserted twice |
| Pipeline.KeyOrderEnumerates | floyd_warshall.py:94-98 | the insertion order lists every ordered pair of different cities exactly once |
| Pipeline.Assemble | floyd_warshall.py:111-117 | the loop succeeds exactly when every time and distance is non-negative; it then emits one valid record per key, in key order, with `min` from the time dictionary and `km` from the distance dictionary |
| Pipeline.RecordError | floyd_warshall.py:115 | the validation error a record with a negative weight raises |
| Pipeline.FirstRejected | floyd_warshall.py:111-117 | when the loop raises, it raises the error of the first key whose record is rejected, and every earlier key is accepted |
| Pipeline.AssembleFirstError | floyd_warshall.py:111-117 | a raising loop raises the error of its first rejected record |
| Pipeline.KeysInMaps | floyd_warshall.py:111-115 | with valid localities, every key the loop reads is in both dictionaries with non-negative values |
| Pipeline.AssembleRecords | floyd_warshall.py:111-117 | with every key present and non-negative, the loop emits one valid record per key built from the two dictionaries |
| Pipeline.Answer | floyd_warshall.py:108-117 | for valid localities, one valid record per ordered pair of different cities, in insertion order, holding the two dictionaries' values |
| Pipeline.MainResponse | floyd_warshall.py:102-117 | returns nothing exactly when the response carries an error, and otherwise one valid record per key |
| Pipeline.RecordAt | floyd_warshall.py:108-117 | the record for the t-th inserted key joins two different mentioned cities, with a lightest route's time as `min` and a lightest route's distance as `km` |
| Pipeline.RecordIsShortest | floyd_warshall.py:102-117 | every record of the response joins two different mentioned cities; its `min` is a lightest route's time and its `km` a lightest route's distance |
| Pipeline.EveryPairAnswered | floyd_warshall.py:111-117 | every ordered pair of different mentioned cities has a record |
| Pipeline.NoPairTwice | floyd_warshall.py:111-117 | no ordered pair of cities has two records |

## Left out

- `get_localities` (HTTP fetch, timeout, JSON decoding, mapping exceptions to error messages) is network I/O. The model takes its result, a `LocalityResponse`, as an input to `MainResponse`. The raw item list is an input to `ParseLocalities`.
- `main.py` (web routing, CORS, server start-up) is plumbing and is not part of this model. The `Ural` schema is unused by the core.
- Logging and the `print` of the error message in `main_response` are output only.
- Floats: weights are exact reals plus `Inf`. NaN, negative infinity and rounding are not modelled. The sum of two finite weights never overflows to infinity.
- Pydantic's coercion of field types (a numeric string read as a float, and so on) is folded into the three-way `Field` (`Missing`, `BadType`, `Given`). The error message texts of pydantic are reduced to the field name and kind.
- Pipeline.ParseLocalities: every raw item is taken to be a JSON object whose `km` is absent or a number. Two other kinds of item raise a `TypeError`, which the `except ValidationError` does not catch, so the whole batch aborts and `get_localities` turns it into an error response. They are an item that is not an object (`Locality(**item)` fails before validation runs) and an explicit `"km": null` (it reaches `check_positive`, where `None < 0` raises). The model's item type cannot express either.
- Python's set iteration order on line 83 is the parameter `nodes`, constrained to be a duplicate-free list of the mentioned cities.
- Pipeline.MainResponse: requires every locality of the response to be valid. Pydantic runs `check_positive` on every construction, so no other `Locality` object can exist.
- Pipeline.MainResponse: the Python function returns `None` on an error; the model returns `None` of `Option`. The `ValidationError` that the `Locality(...)` call on line 115 could raise is modelled in `Pipeline.Assemble` and `Pipeline.AssembleFirstError`. `Pipeline.Answer` shows it cannot happen for valid localities.
- ShortestPaths.FloydWarshall: requires a square matrix. Its callers only pass the n by n matrices of `build_adjacency_matrices`; a ragged array would make numpy index out of range.
- The shortest-path properties (triangle inequality, idempotence, symmetry, zero diagonal, lightest walk or route) are stated for non-negative weights only, the precondition validation supplies. For negative cycles the loop's result is not a shortest path, and the model proves nothing about it beyond dominance and shape.
- Adjacency.Fill: its own contract states only the shape. The cell contents are stated by `Adjacency.FillCell`, symmetry by `Adjacency.FillSymmetric` and non-negativity by `Adjacency.FillNonNeg`.
- ShortestPaths.RelaxRows: its own contract states only the shape. That no cell rises is stated by `ShortestPaths.RowsBelow`, and which cells hold reference values by `ShortestPaths.RowsPartial`.
- ShortestPaths.Rounds: its own contract states only the shape. That no cell rises is stated by `ShortestPaths.RoundsBelow`, and agreement with the reference rounds by `ShortestPaths.RoundsIsLayer`.
- ShortestPaths.Relaxation: its own contract states only the shape. Dominance, the triangle inequality, symmetry, the zero diagonal and idempotence are stated by `ShortestPaths.RelaxationProperties`, and the lightest-walk property by `ShortestPaths.ShortestWalk`.
- Adjacency.BuildAdjacencyMatrices: its error case states that the error is a missing city of some locality. `Adjacency.Resolve` states that it is the first one.
- The `KeyError` raised on an unknown city is modelled as an `Err` carrying the city name. The code raises Python's `KeyError` from the dictionary lookup, and the model follows the code. It cannot occur in the pipeline, where the node list comes from the localities (`Pipeline.BuildSucceeds`).
