/** Dense square weight matrices, the `np.ndarray` values of the core, as nested sequences. */
module Matrices {
  import opened Weights

  type Matrix = seq<seq<W>>

  /** `m` has shape (n, n). */
  predicate IsSquare(m: Matrix, n: nat) {
    |m| == n && forall i | 0 <= i < n :: |m[i]| == n
  }

  predicate Square(m: Matrix) {
    IsSquare(m, |m|)
  }

  /** The value `np.full((n, n), inf)` followed by `np.fill_diagonal(.., 0)` leaves in cell (i, j). */
  function InitCell(i: int, j: int): W {
    if i == j then Zero else Inf
  }

  /** The starting matrix of `build_adjacency_matrices`: 0 on the diagonal, infinity elsewhere. */
  function Init(n: nat): (m: Matrix)
    ensures IsSquare(m, n)
    ensures forall i, j | 0 <= i < n && 0 <= j < n :: m[i][j] == InitCell(i, j)
  {
    seq(n, i => seq(n, j => InitCell(i, j)))
  }

  /** The assignment `m[i][j] = v`: cell (i, j) becomes `v`, every other cell is kept. */
  function Update(m: Matrix, i: nat, j: nat, v: W): (r: Matrix)
    requires Square(m) && i < |m| && j < |m|
    ensures IsSquare(r, |m|)
    ensures r[i][j] == v
    ensures forall a, b | 0 <= a < |m| && 0 <= b < |m| && (a != i || b != j) :: r[a][b] == m[a][b]
  {
    m[i := m[i][j := v]]
  }

  predicate Symmetric(m: Matrix)
    requires Square(m)
  {
    forall i, j | 0 <= i < |m| && 0 <= j < |m| :: m[i][j] == m[j][i]
  }

  predicate NonNegMatrix(m: Matrix)
    requires Square(m)
  {
    forall i, j | 0 <= i < |m| && 0 <= j < |m| :: NonNeg(m[i][j])
  }

  predicate ZeroDiagonal(m: Matrix)
    requires Square(m)
  {
    forall i | 0 <= i < |m| :: m[i][i] == Zero
  }

  /** Every cell of `t` is at most the same cell of `s`. */
  predicate Below(t: Matrix, s: Matrix)
    requires Square(t) && Square(s) && |t| == |s|
  {
    forall i, j | 0 <= i < |s| && 0 <= j < |s| :: Le(t[i][j], s[i][j])
  }

  /** Two square matrices with the same cells are the same matrix. */
  lemma Extensionality(t: Matrix, s: Matrix)
    requires Square(t) && Square(s) && |t| == |s|
    requires forall i, j | 0 <= i < |s| && 0 <= j < |s| :: t[i][j] == s[i][j]
    ensures t == s
  {
    forall i | 0 <= i < |s|
      ensures t[i] == s[i]
    {
    }
  }
}
