/**
 * The deterministic part of `generate_random_graph` and the fixed example
 * matrix `get_example_graph_6`.
 */
module Graphs {
  import opened Tours

  function Min(a: int, b: int): int { if a <= b then a else b }
  function Max(a: int, b: int): int { if a <= b then b else a }

  /**
   * `(matrix + matrix.T) // 2` followed by `np.fill_diagonal(matrix, 0)`. Floor
   * division by the positive 2 agrees with Dafny's `/` on every integer.
   */
  function Symmetrise(m: Matrix): (r: Matrix)
    ensures |r| == |m|
    ensures IsSymmetric(r) && ZeroDiagonal(r)
    ensures forall i, j | 0 <= i < |m| && 0 <= j < |m| && i != j ::
      Min(m[i][j], m[j][i]) <= r[i][j] <= Max(m[i][j], m[j][i])
  {
    var n := |m|;
    seq(n, i requires 0 <= i < n =>
      seq(n, j requires 0 <= j < n => if i == j then 0 else (m[i][j] + m[j][i]) / 2))
  }

  /** Every entry of `m` lies in `[lo, hi)`: the range `np.random.randint(lo, hi)` draws from. */
  predicate EntriesIn(m: Matrix, lo: int, hi: int)
  {
    forall i, j | 0 <= i < |m| && 0 <= j < |m| :: lo <= m[i][j] < hi
  }

  /** Off the diagonal the symmetrised matrix stays in the range the entries were drawn from. */
  lemma SymmetriseRange(m: Matrix, lo: int, hi: int)
    ensures EntriesIn(m, lo, hi) ==> forall i, j | 0 <= i < |m| && 0 <= j < |m| && i != j :: lo <= Symmetrise(m)[i][j] < hi
  {
  }

  /** A symmetric matrix with a zero diagonal is left unchanged. */
  lemma SymmetriseFixes(m: Matrix)
    requires IsSymmetric(m) && ZeroDiagonal(m)
    ensures Symmetrise(m) == m
  {
    var r := Symmetrise(m);
    forall i | 0 <= i < |m| ensures r[i] == m[i] {
      forall j | 0 <= j < |m| ensures r[i][j] == m[i][j] {
        if i != j {
          assert m[i][j] + m[j][i] == 2 * m[i][j];
        }
      }
    }
  }

  /** Symmetrising twice is symmetrising once. */
  lemma SymmetriseIdempotent(m: Matrix)
    ensures Symmetrise(Symmetrise(m)) == Symmetrise(m)
  {
    SymmetriseFixes(Symmetrise(m));
  }

  /** `get_example_graph_6`: six cities, symmetric, zero diagonal. */
  function ExampleGraph6(): (m: Matrix)
    ensures |m| == 6 && IsSymmetric(m) && ZeroDiagonal(m)
    ensures EntriesIn(m, 0, 36)
  {
    [
      [0, 10, 15, 20, 25, 30],
      [10, 0, 35, 25, 20, 15],
      [15, 35, 0, 30, 18, 12],
      [20, 25, 30, 0, 15, 28],
      [25, 20, 18, 15, 0, 10],
      [30, 15, 12, 28, 10, 0]
    ]
  }

  /** The example is already in the shape `generate_random_graph` produces. */
  lemma ExampleIsSymmetrised()
    ensures Symmetrise(ExampleGraph6()) == ExampleGraph6()
  {
    SymmetriseFixes(ExampleGraph6());
  }
}
