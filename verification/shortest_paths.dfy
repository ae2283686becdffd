/**
 * The shortest-path engine, `floyd_warshall`: the triple-loop relaxation over
 * a copy of a square weight matrix.
 *
 * The loop is modelled twice. `RelaxPrefix`, `RelaxRows` and `Rounds` replay
 * it cell by cell in the order the loops visit the cells, so that a cell read
 * late in a round already sees the writes made earlier in the same round; the
 * method `FloydWarshall` runs it on an `array2` and is proved equal to that
 * replay. `Step` and `Layer` relax every cell of a round from the matrix the
 * round started with; the two agree whenever the diagonal is non-negative,
 * and the shortest-path properties are proved about `Layer`.
 */
module ShortestPaths {
  import opened Weights
  import opened Matrices

  predicate InBounds(s: Matrix, k: int, i: int, j: int) {
    Square(s) && 0 <= k < |s| && 0 <= i < |s| && 0 <= j < |s|
  }

  /** The candidate `dist[i][k] + dist[k][j]`: go from i to k, then from k to j. */
  function Via(s: Matrix, k: int, i: int, j: int): W
    requires InBounds(s, k, i, j)
  {
    Add(s[i][k], s[k][j])
  }

  /**
   * What cell (i, j) holds after the `if`: the candidate when it is strictly
   * smaller, the old value otherwise. It is the smaller of the two.
   */
  function Relaxed(s: Matrix, k: int, i: int, j: int): (w: W)
    requires InBounds(s, k, i, j)
    ensures w == s[i][j] || w == Via(s, k, i, j)
    ensures Le(w, s[i][j]) && Le(w, Via(s, k, i, j))
  {
    if Less(Via(s, k, i, j), s[i][j]) then Via(s, k, i, j) else s[i][j]
  }

  /**
   * One run of the loop body, for the cell (i, j) and the intermediate node k:
   * it writes that one cell, never raising it, and leaves every other cell.
   */
  function RelaxCell(s: Matrix, k: int, i: int, j: int): (t: Matrix)
    requires InBounds(s, k, i, j)
    ensures IsSquare(t, |s|)
    ensures t[i][j] == Relaxed(s, k, i, j) && Le(t[i][j], s[i][j])
    ensures forall a, b | 0 <= a < |s| && 0 <= b < |s| && (a != i || b != j) :: t[a][b] == s[a][b]
  {
    Update(s, i, j, Relaxed(s, k, i, j))
  }

  /**
   * The innermost loop after its first j iterations, for row i and
   * intermediate node k. It writes only row i, and there only the first j
   * columns.
   */
  function RelaxPrefix(s: Matrix, k: int, i: int, j: int): (t: Matrix)
    requires Square(s) && 0 <= k < |s| && 0 <= i < |s| && 0 <= j <= |s|
    ensures IsSquare(t, |s|)
    ensures forall a, b | 0 <= a < |s| && 0 <= b < |s| && (a != i || b >= j) :: t[a][b] == s[a][b]
    decreases j
  {
    if j == 0 then s else RelaxCell(RelaxPrefix(s, k, i, j - 1), k, i, j - 1)
  }

  /** The middle loop after its first i rows, for intermediate node k. */
  function RelaxRows(s: Matrix, k: int, i: int): (t: Matrix)
    requires Square(s) && 0 <= k < |s| && 0 <= i <= |s|
    ensures IsSquare(t, |s|)
    decreases i
  {
    if i == 0 then s else RelaxPrefix(RelaxRows(s, k, i - 1), k, i - 1, |s|)
  }

  /** The outer loop after its first k rounds. */
  function Rounds(s: Matrix, k: int): (t: Matrix)
    requires Square(s) && 0 <= k <= |s|
    ensures IsSquare(t, |s|)
    decreases k
  {
    if k == 0 then s else RelaxRows(Rounds(s, k - 1), k - 1, |s|)
  }

  /** The matrix `floyd_warshall` returns: all n rounds of the loop. No cell ends above its input value. */
  function Relaxation(m: Matrix): (r: Matrix)
    requires Square(m)
    ensures IsSquare(r, |m|)
  {
    Rounds(m, |m|)
  }

  // ---------------------------------------------------------------------------
  // Dominance: the loop only ever lowers a cell

  lemma BelowTransitive(t: Matrix, u: Matrix, s: Matrix)
    requires Square(t) && Square(u) && Square(s) && |t| == |u| == |s|
    requires Below(t, u) && Below(u, s)
    ensures Below(t, s)
  {
    forall i, j | 0 <= i < |s| && 0 <= j < |s| ensures Le(t[i][j], s[i][j]) {
      LeTransitive(t[i][j], u[i][j], s[i][j]);
    }
  }

  lemma {:induction false} PrefixBelow(s: Matrix, k: int, i: int, j: int)
    requires Square(s) && 0 <= k < |s| && 0 <= i < |s| && 0 <= j <= |s|
    ensures Below(RelaxPrefix(s, k, i, j), s)
    decreases j
  {
    if j > 0 {
      PrefixBelow(s, k, i, j - 1);
      var p := RelaxPrefix(s, k, i, j - 1);
      var q := RelaxPrefix(s, k, i, j);
      assert q == Update(p, i, j - 1, Relaxed(p, k, i, j - 1));
      forall a, b | 0 <= a < |s| && 0 <= b < |s| ensures Le(q[a][b], p[a][b]) {
        if a != i || b != j - 1 {
          assert q[a][b] == p[a][b];
        }
      }
      BelowTransitive(q, p, s);
    }
  }

  lemma {:induction false} RowsBelow(s: Matrix, k: int, i: int)
    requires Square(s) && 0 <= k < |s| && 0 <= i <= |s|
    ensures Below(RelaxRows(s, k, i), s)
    decreases i
  {
    if i > 0 {
      RowsBelow(s, k, i - 1);
      var p := RelaxRows(s, k, i - 1);
      PrefixBelow(p, k, i - 1, |s|);
      BelowTransitive(RelaxRows(s, k, i), p, s);
    }
  }

  /** After any number of rounds, no cell is above the direct weight it started from. */
  lemma {:induction false} RoundsBelow(m: Matrix, k: int)
    requires Square(m) && 0 <= k <= |m|
    ensures Below(Rounds(m, k), m)
    decreases k
  {
    if k > 0 {
      RoundsBelow(m, k - 1);
      var p := Rounds(m, k - 1);
      var q := Rounds(m, k);
      assert q == RelaxRows(p, k - 1, |m|);
      RowsBelow(p, k - 1, |m|);
      BelowTransitive(q, p, m);
    }
  }

  /** One round done all at once: every cell relaxed through k from the matrix the round starts with. */
  function Step(s: Matrix, k: int): (t: Matrix)
    requires Square(s) && 0 <= k < |s|
    ensures IsSquare(t, |s|)
    ensures forall i, j | 0 <= i < |s| && 0 <= j < |s| :: t[i][j] == Relaxed(s, k, i, j)
  {
    seq(|s|, i requires 0 <= i < |s| => seq(|s|, j requires 0 <= j < |s| => Relaxed(s, k, i, j)))
  }

  /** The first k rounds done all at once. */
  function Layer(m: Matrix, k: int): (t: Matrix)
    requires Square(m) && 0 <= k <= |m|
    ensures IsSquare(t, |m|)
    decreases k
  {
    if k == 0 then m else Step(Layer(m, k - 1), k - 1)
  }

  /** The triangle inequality through every intermediate node below k. */
  predicate TriangleBelow(s: Matrix, k: int)
    requires Square(s)
  {
    forall i, j, c | 0 <= i < |s| && 0 <= j < |s| && 0 <= c < k && c < |s| :: Le(s[i][j], Add(s[i][c], s[c][j]))
  }

  /** `dist[i][j] <= dist[i][k] + dist[k][j]` for all i, j, k. */
  predicate Triangle(s: Matrix)
    requires Square(s)
  {
    TriangleBelow(s, |s|)
  }

  // ---------------------------------------------------------------------------
  // Facts about weights the proofs use

  /** Adding a non-negative weight never makes a weight strictly smaller. */
  lemma NoGainFromNonNeg(x: W, c: W)
    requires NonNeg(c)
    ensures !Less(Add(x, c), x) && !Less(Add(c, x), x)
  {
  }

  lemma AddMonotone(a: W, b: W, c: W, d: W)
    requires Le(a, b) && Le(c, d)
    ensures Le(Add(a, c), Add(b, d))
  {
  }

  /**
   * The arithmetic of one round of the triangle proof. The new cells are the
   * relaxations through k of the old ones, the old ones satisfy the triangle
   * inequality through c, and weights are non-negative.
   */
  lemma TriangleRound(sij: W, sic: W, scj: W, sik: W, skj: W, sck: W, skc: W, tij: W, tic: W, tcj: W)
    requires NonNeg(sck) && NonNeg(skc)
    requires Le(tij, sij) && Le(tij, Add(sik, skj))
    requires tic == sic || tic == Add(sik, skc)
    requires tcj == scj || tcj == Add(sck, skj)
    requires Le(sij, Add(sic, scj))
    requires Le(skj, Add(skc, scj))
    requires Le(sik, Add(sic, sck))
    ensures Le(tij, Add(tic, tcj))
  {
  }

  // ---------------------------------------------------------------------------
  // The cell-by-cell replay equals the all-at-once round

  /** Cell (a, b) comes before cell (i, j) in the order the two inner loops visit cells. */
  predicate Before(a: int, b: int, i: int, j: int) {
    a < i || (a == i && b < j)
  }

  /** t is s part-way through round k: the cells before (i, j) are relaxed, the rest untouched. */
  predicate Partial(t: Matrix, s: Matrix, k: int, i: int, j: int)
    requires Square(s) && 0 <= k < |s|
  {
    && IsSquare(t, |s|)
    && forall a, b | 0 <= a < |s| && 0 <= b < |s| ::
         t[a][b] == (if Before(a, b, i, j) then Relaxed(s, k, a, b) else s[a][b])
  }

  /** With a non-negative diagonal entry at k, row k and column k do not change in round k. */
  lemma PivotStable(s: Matrix, k: int)
    requires Square(s) && 0 <= k < |s| && NonNeg(s[k][k])
    ensures forall a | 0 <= a < |s| :: Relaxed(s, k, a, k) == s[a][k] && Relaxed(s, k, k, a) == s[k][a]
  {
    forall a | 0 <= a < |s|
      ensures Relaxed(s, k, a, k) == s[a][k] && Relaxed(s, k, k, a) == s[k][a]
    {
      NoGainFromNonNeg(s[a][k], s[k][k]);
      NoGainFromNonNeg(s[k][a], s[k][k]);
    }
  }

  lemma {:induction false} PrefixPartial(s: Matrix, t: Matrix, k: int, i: int, j: int)
    requires Square(s) && 0 <= k < |s| && 0 <= i < |s| && 0 <= j <= |s| && NonNeg(s[k][k])
    requires Partial(t, s, k, i, 0)
    ensures Partial(RelaxPrefix(t, k, i, j), s, k, i, j)
    decreases j
  {
    if j > 0 {
      var c := j - 1;
      PrefixPartial(s, t, k, i, c);
      var p := RelaxPrefix(t, k, i, c);
      var q := RelaxPrefix(t, k, i, j);
      PivotStable(s, k);
      assert p[i][k] == s[i][k] && p[k][c] == s[k][c] && p[i][c] == s[i][c];
      var v := Relaxed(p, k, i, c);
      assert v == Relaxed(s, k, i, c);
      assert q == Update(p, i, c, v);
      forall a, b | 0 <= a < |s| && 0 <= b < |s|
        ensures q[a][b] == (if Before(a, b, i, j) then Relaxed(s, k, a, b) else s[a][b])
      {
        if a != i || b != c {
          assert q[a][b] == p[a][b];
        }
      }
    }
  }

  lemma {:induction false} RowsPartial(s: Matrix, k: int, i: int)
    requires Square(s) && 0 <= k < |s| && 0 <= i <= |s| && NonNeg(s[k][k])
    ensures Partial(RelaxRows(s, k, i), s, k, i, 0)
    decreases i
  {
    if i > 0 {
      RowsPartial(s, k, i - 1);
      PrefixPartial(s, RelaxRows(s, k, i - 1), k, i - 1, |s|);
    }
  }

  /**
   * When the pivot's own diagonal entry is non-negative, the in-place round,
   * which may read cells it has already rewritten, gives the same matrix as
   * relaxing every cell from the matrix the round starts with.
   */
  lemma RoundIsStep(s: Matrix, k: int)
    requires Square(s) && 0 <= k < |s| && NonNeg(s[k][k])
    ensures RelaxRows(s, k, |s|) == Step(s, k)
  {
    RowsPartial(s, k, |s|);
    Extensionality(RelaxRows(s, k, |s|), Step(s, k));
  }

  /** Relaxing non-negative weights keeps them non-negative. */
  lemma {:induction false} LayerNonNeg(m: Matrix, k: int)
    requires Square(m) && NonNegMatrix(m) && 0 <= k <= |m|
    ensures NonNegMatrix(Layer(m, k))
    decreases k
  {
    if k > 0 {
      LayerNonNeg(m, k - 1);
    }
  }

  /** With non-negative weights, the loop as written computes the all-at-once rounds. */
  lemma {:induction false} RoundsIsLayer(m: Matrix, k: int)
    requires Square(m) && NonNegMatrix(m) && 0 <= k <= |m|
    ensures Rounds(m, k) == Layer(m, k)
    decreases k
  {
    if k > 0 {
      var p := k - 1;
      RoundsIsLayer(m, p);
      LayerNonNeg(m, p);
      RoundsStep(m, p);
    }
  }

  /** If the loop agrees with the all-at-once rounds before round k, it agrees after it. */
  lemma RoundsStep(m: Matrix, k: int)
    requires Square(m) && 0 <= k < |m|
    requires Rounds(m, k) == Layer(m, k) && NonNeg(Layer(m, k)[k][k])
    ensures Rounds(m, k + 1) == Layer(m, k + 1)
  {
    var s := Layer(m, k);
    RoundIsStep(s, k);
    assert Rounds(m, k + 1) == RelaxRows(s, k, |s|);
  }

  // ---------------------------------------------------------------------------
  // Properties of the result

  /** After k rounds over non-negative weights, the triangle inequality holds through every node below k. */
  lemma {:induction false} LayerTriangle(m: Matrix, k: int)
    requires Square(m) && NonNegMatrix(m) && 0 <= k <= |m|
    ensures TriangleBelow(Layer(m, k), k)
    decreases k
  {
    if k > 0 {
      var p := k - 1;
      LayerTriangle(m, p);
      LayerNonNeg(m, p);
      StepTriangle(Layer(m, p), p);
    }
  }

  /** One round keeps the triangle inequality through every earlier pivot and adds it through the round's own pivot. */
  lemma StepTriangle(s: Matrix, k: int)
    requires Square(s) && NonNegMatrix(s) && 0 <= k < |s| && TriangleBelow(s, k)
    ensures TriangleBelow(Step(s, k), k + 1)
  {
    var t := Step(s, k);
    forall i, j, c | 0 <= i < |t| && 0 <= j < |t| && 0 <= c < k + 1
      ensures Le(t[i][j], Add(t[i][c], t[c][j]))
    {
      StepTriangleCell(s, k, i, j, c);
    }
  }

  /** The triangle inequality for one cell and one intermediate node after a round. */
  lemma StepTriangleCell(s: Matrix, k: int, i: int, j: int, c: int)
    requires Square(s) && NonNegMatrix(s) && 0 <= k < |s| && TriangleBelow(s, k)
    requires 0 <= i < |s| && 0 <= j < |s| && 0 <= c <= k
    ensures Le(Step(s, k)[i][j], Add(Step(s, k)[i][c], Step(s, k)[c][j]))
  {
    var t := Step(s, k);
    PivotStable(s, k);
    if c == k {
      assert t[i][k] == s[i][k] && t[k][j] == s[k][j];
    } else {
      TriangleRound(s[i][j], s[i][c], s[c][j], s[i][k], s[k][j], s[c][k], s[k][c], t[i][j], t[i][c], t[c][j]);
    }
  }

  /** A matrix that already satisfies the triangle inequality is left unchanged by every round. */
  lemma {:induction false} LayerOfClosed(r: Matrix, k: int)
    requires Square(r) && Triangle(r) && 0 <= k <= |r|
    ensures Layer(r, k) == r
    decreases k
  {
    if k > 0 {
      LayerOfClosed(r, k - 1);
      Extensionality(Step(r, k - 1), r);
    }
  }

  /** Rounds over a symmetric non-negative matrix keep it symmetric. */
  lemma {:induction false} LayerSymmetric(m: Matrix, k: int)
    requires Square(m) && Symmetric(m) && 0 <= k <= |m|
    ensures Symmetric(Layer(m, k))
    decreases k
  {
    if k > 0 {
      var p := k - 1;
      LayerSymmetric(m, p);
      var s := Layer(m, p);
      var t := Layer(m, k);
      assert t == Step(s, p);
      forall i, j | 0 <= i < |m| && 0 <= j < |m|
        ensures t[i][j] == t[j][i]
      {
        assert s[i][j] == s[j][i] && s[i][p] == s[p][i] && s[p][j] == s[j][p];
        AddCommutes(s[i][p], s[p][j]);
        assert Via(s, p, i, j) == Via(s, p, j, i);
        assert t[i][j] == Relaxed(s, p, i, j) && t[j][i] == Relaxed(s, p, j, i);
      }
    }
  }

  /** Rounds over non-negative weights keep a zero diagonal at zero. */
  lemma {:induction false} LayerZeroDiagonal(m: Matrix, k: int)
    requires Square(m) && NonNegMatrix(m) && ZeroDiagonal(m) && 0 <= k <= |m|
    ensures ZeroDiagonal(Layer(m, k))
    decreases k
  {
    if k > 0 {
      LayerZeroDiagonal(m, k - 1);
      LayerNonNeg(m, k - 1);
    }
  }

  /** The innermost loop: relax row i through node k, in column order. */
  method RelaxRow(dist: array2<W>, ghost s: Matrix, k: int, i: int)
    modifies dist
    requires Holds(dist, s) && 0 <= k < |s| && 0 <= i < |s|
    ensures Holds(dist, RelaxPrefix(s, k, i, |s|))
  {
    var n := dist.Length0;
    var j := 0;
    while j < n
      invariant 0 <= j <= n
      invariant Holds(dist, RelaxPrefix(s, k, i, j))
    {
      var via := Add(dist[i, k], dist[k, j]);
      if Less(via, dist[i, j]) {
        dist[i, j] := via;
      }
      j := j + 1;
    }
  }

  /** The middle loop: relax every row through node k, in row order. */
  method RelaxRound(dist: array2<W>, ghost s: Matrix, k: int)
    modifies dist
    requires Holds(dist, s) && 0 <= k < |s|
    ensures Holds(dist, RelaxRows(s, k, |s|))
  {
    var n := dist.Length0;
    var i := 0;
    while i < n
      invariant 0 <= i <= n
      invariant Holds(dist, RelaxRows(s, k, i))
    {
      RelaxRow(dist, RelaxRows(s, k, i), k, i);
      i := i + 1;
    }
  }

  /** The outer loop: one round per intermediate node, in node order. */
  method RelaxAll(dist: array2<W>, ghost m: Matrix)
    modifies dist
    requires Holds(dist, m)
    ensures Holds(dist, Relaxation(m))
  {
    var n := dist.Length0;
    var k := 0;
    while k < n
      invariant 0 <= k <= n
      invariant Holds(dist, Rounds(m, k))
    {
      ghost var before := Rounds(m, k);
      RelaxRound(dist, before, k);
      assert Rounds(m, k + 1) == RelaxRows(before, k, n);
      k := k + 1;
    }
  }

  /**
   * `floyd_warshall` never increases a cell, since it writes a cell only with
   * a strictly smaller sum: each result cell is at most the direct weight.
   * With non-negative weights the result is non-negative, satisfies the
   * triangle inequality, stays symmetric and keeps a zero diagonal, and a
   * second run returns it unchanged.
   */
  lemma RelaxationProperties(m: Matrix)
    requires Square(m)
    ensures IsSquare(Relaxation(m), |m|)
    ensures Below(Relaxation(m), m)
    ensures NonNegMatrix(m) ==> NonNegMatrix(Relaxation(m)) && Triangle(Relaxation(m))
    ensures NonNegMatrix(m) && Symmetric(m) ==> Symmetric(Relaxation(m))
    ensures NonNegMatrix(m) && ZeroDiagonal(m) ==> ZeroDiagonal(Relaxation(m))
    ensures NonNegMatrix(m) ==> Relaxation(Relaxation(m)) == Relaxation(m)
  {
    RoundsBelow(m, |m|);
    if NonNegMatrix(m) {
      var n := |m|;
      RoundsIsLayer(m, n);
      LayerNonNeg(m, n);
      LayerTriangle(m, n);
      var r := Relaxation(m);
      RoundsIsLayer(r, n);
      LayerOfClosed(r, n);
      if Symmetric(m) {
        LayerSymmetric(m, n);
      }
      if ZeroDiagonal(m) {
        LayerZeroDiagonal(m, n);
      }
    }
  }

  // ---------------------------------------------------------------------------
  // Walks: what the result cells mean

  /** Every entry of p names a node of an n-node graph. */
  predicate OnNodes(p: seq<int>, n: int) {
    forall t | 0 <= t < |p| :: 0 <= p[t] < n
  }

  /** p is a walk from i to j of at least one hop, any node may repeat. */
  predicate IsWalk(p: seq<int>, n: int, i: int, j: int) {
    |p| >= 2 && p[0] == i && p[|p| - 1] == j && OnNodes(p, n)
  }

  /** The sum of the direct weights along p; Inf as soon as one hop has no edge. */
  function WalkWeight(m: Matrix, p: seq<int>): W
    requires Square(m) && |p| >= 1 && OnNodes(p, |m|)
    decreases |p|
  {
    if |p| == 1 then Zero else Add(m[p[0]][p[1]], WalkWeight(m, p[1..]))
  }

  lemma GlueOnNodes(p: seq<int>, q: seq<int>, n: int)
    requires |q| >= 1 && OnNodes(p, n) && OnNodes(q, n)
    ensures OnNodes(p + q[1..], n)
  {
    var pq := p + q[1..];
    forall t | 0 <= t < |pq| ensures 0 <= pq[t] < n {
      if t >= |p| {
        assert pq[t] == q[t - |p| + 1];
      } else {
        assert pq[t] == p[t];
      }
    }
  }

  /** Gluing a walk ending at some node to one starting there adds their weights. */
  lemma {:induction false} WalkConcat(m: Matrix, p: seq<int>, q: seq<int>)
    requires Square(m) && |p| >= 1 && |q| >= 1 && OnNodes(p, |m|) && OnNodes(q, |m|)
    requires p[|p| - 1] == q[0]
    ensures OnNodes(p + q[1..], |m|)
    ensures WalkWeight(m, p + q[1..]) == Add(WalkWeight(m, p), WalkWeight(m, q))
    decreases |p|
  {
    GlueOnNodes(p, q, |m|);
    var pq := p + q[1..];
    if |p| == 1 {
      assert pq == q;
      assert WalkWeight(m, p) == Zero;
    } else {
      var tail := p[1..];
      assert OnNodes(tail, |m|);
      WalkConcat(m, tail, q);
      assert pq[1..] == tail + q[1..];
      assert pq[0] == p[0] && pq[1] == p[1];
      var hop := m[p[0]][p[1]];
      assert WalkWeight(m, p) == Add(hop, WalkWeight(m, tail));
      assert WalkWeight(m, pq) == Add(hop, WalkWeight(m, tail + q[1..]));
      AddAssociates(hop, WalkWeight(m, tail), WalkWeight(m, q));
    }
  }

  /** Each round only lowers cells: the all-at-once rounds stay below the input. */
  lemma {:induction false} LayerBelow(m: Matrix, k: int)
    requires Square(m) && 0 <= k <= |m|
    ensures Below(Layer(m, k), m)
    decreases k
  {
    if k > 0 {
      LayerBelow(m, k - 1);
      var s := Layer(m, k - 1);
      var t := Layer(m, k);
      forall i, j | 0 <= i < |m| && 0 <= j < |m| ensures Le(t[i][j], m[i][j]) {
        LeTransitive(t[i][j], s[i][j], m[i][j]);
      }
    }
  }

  /** A walk from i to c followed by a walk from c to j is a walk from i to j of their summed weight. */
  lemma Glue(m: Matrix, p1: seq<int>, p2: seq<int>, i: int, c: int, j: int) returns (p: seq<int>)
    requires Square(m) && IsWalk(p1, |m|, i, c) && IsWalk(p2, |m|, c, j)
    ensures IsWalk(p, |m|, i, j) && WalkWeight(m, p) == Add(WalkWeight(m, p1), WalkWeight(m, p2))
  {
    WalkConcat(m, p1, p2);
    p := p1 + p2[1..];
    assert p[|p| - 1] == p2[|p2| - 1];
  }

  /** Every cell of the all-at-once rounds is the weight of some walk: here is one. */
  lemma {:induction false} LayerWalk(m: Matrix, k: int, i: int, j: int) returns (p: seq<int>)
    requires Square(m) && 0 <= k <= |m| && 0 <= i < |m| && 0 <= j < |m|
    ensures IsWalk(p, |m|, i, j) && WalkWeight(m, p) == Layer(m, k)[i][j]
    decreases k
  {
    if k == 0 {
      p := [i, j];
      assert p[1..] == [j];
      assert WalkWeight(m, p) == Add(m[i][j], Zero);
    } else {
      var c := k - 1;
      var s := Layer(m, c);
      assert Layer(m, k)[i][j] == Relaxed(s, c, i, j);
      if Less(Via(s, c, i, j), s[i][j]) {
        var p1 := LayerWalk(m, c, i, c);
        var p2 := LayerWalk(m, c, c, j);
        p := Glue(m, p1, p2, i, c, j);
        assert Layer(m, k)[i][j] == Via(s, c, i, j);
      } else {
        p := LayerWalk(m, c, i, j);
        assert Layer(m, k)[i][j] == s[i][j];
      }
    }
  }

  /**
   * A matrix r that is at most the direct weights and satisfies the triangle
   * inequality is at most the weight of every walk.
   */
  lemma {:induction false} WalkBound(m: Matrix, r: Matrix, p: seq<int>, i: int, j: int)
    requires Square(m) && IsSquare(r, |m|) && Below(r, m) && Triangle(r)
    requires IsWalk(p, |m|, i, j)
    ensures Le(r[i][j], WalkWeight(m, p))
    decreases |p|
  {
    var rest := p[1..];
    assert WalkWeight(m, p) == Add(m[i][p[1]], WalkWeight(m, rest));
    if |p| == 2 {
      assert WalkWeight(m, rest) == Zero;
    } else {
      var c := p[1];
      assert IsWalk(rest, |m|, c, j);
      WalkBound(m, r, rest, c, j);
      AddMonotone(r[i][c], m[i][c], r[c][j], WalkWeight(m, rest));
      LeTransitive(r[i][j], Add(r[i][c], r[c][j]), WalkWeight(m, p));
    }
  }

  /** With non-negative weights, no walk from i to j is lighter than the result cell. */
  lemma NoShorterWalk(m: Matrix, p: seq<int>, i: int, j: int)
    requires Square(m) && NonNegMatrix(m) && IsWalk(p, |m|, i, j)
    ensures Le(Relaxation(m)[i][j], WalkWeight(m, p))
  {
    RelaxationProperties(m);
    WalkBound(m, Relaxation(m), p, i, j);
  }

  /** With non-negative weights, a walk whose weight is the result cell. */
  lemma AchievingWalk(m: Matrix, i: int, j: int) returns (p: seq<int>)
    requires Square(m) && NonNegMatrix(m) && 0 <= i < |m| && 0 <= j < |m|
    ensures IsWalk(p, |m|, i, j) && WalkWeight(m, p) == Relaxation(m)[i][j]
  {
    RoundsIsLayer(m, |m|);
    p := LayerWalk(m, |m|, i, j);
  }

  /**
   * With non-negative weights, each result cell is the weight of a lightest
   * walk: some walk from i to j weighs exactly that much, none weighs less,
   * and the cell is Inf exactly when every walk is.
   */
  lemma ShortestWalk(m: Matrix, i: int, j: int)
    requires Square(m) && NonNegMatrix(m) && 0 <= i < |m| && 0 <= j < |m|
    ensures forall p | IsWalk(p, |m|, i, j) :: Le(Relaxation(m)[i][j], WalkWeight(m, p))
    ensures exists p :: IsWalk(p, |m|, i, j) && WalkWeight(m, p) == Relaxation(m)[i][j]
  {
    forall p | IsWalk(p, |m|, i, j) ensures Le(Relaxation(m)[i][j], WalkWeight(m, p)) {
      NoShorterWalk(m, p, i, j);
    }
    var p := AchievingWalk(m, i, j);
  }

  // ---------------------------------------------------------------------------
  // The procedure

  /** The array holds exactly the matrix s. */
  predicate Holds(a: array2<W>, s: Matrix)
    reads a
  {
    && IsSquare(s, a.Length0)
    && a.Length1 == a.Length0
    && forall i, j | 0 <= i < a.Length0 && 0 <= j < a.Length1 :: a[i, j] == s[i][j]
  }

  /**
   * `floyd_warshall`: relaxes a copy of m through every intermediate node in
   * turn, leaving m itself unchanged. The result is what the loop computes
   * cell by cell, is never above the direct weights, and with non-negative
   * weights holds the weight of a lightest walk in every cell.
   */
  method FloydWarshall(m: Matrix) returns (r: Matrix)
    requires Square(m)
    ensures r == Relaxation(m)
    ensures IsSquare(r, |m|) && Below(r, m)
    ensures NonNegMatrix(m) ==> NonNegMatrix(r) && Triangle(r)
    ensures NonNegMatrix(m) ==> forall i, j, p | 0 <= i < |m| && 0 <= j < |m| && IsWalk(p, |m|, i, j) :: Le(r[i][j], WalkWeight(m, p))
    ensures NonNegMatrix(m) && Symmetric(m) ==> Symmetric(r)
    ensures NonNegMatrix(m) && ZeroDiagonal(m) ==> ZeroDiagonal(r)
  {
    var n := |m|;
    var dist := new W[n, n];
    forall i, j | 0 <= i < n && 0 <= j < n {
      dist[i, j] := m[i][j];
    }
    RelaxAll(dist, m);
    r := seq(n, i requires 0 <= i < n reads dist => seq(n, j requires 0 <= j < n reads dist => dist[i, j]));
    Extensionality(r, Relaxation(m));
    RelaxationProperties(m);
    if NonNegMatrix(m) {
      forall i, j, p | 0 <= i < |m| && 0 <= j < |m| && IsWalk(p, |m|, i, j) ensures Le(r[i][j], WalkWeight(m, p)) {
        NoShorterWalk(m, p, i, j);
      }
    }
  }
}
