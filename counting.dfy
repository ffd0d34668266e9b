/**
 * The closed forms behind the two work counters: `(n-1)!` permutations for the
 * exhaustive search and `(n-1) * 2^(n-2)` (subset, endpoint) states for the
 * dynamic programme.
 */
module Counting {

  function Factorial(n: nat): (r: nat)
    ensures r >= 1
  {
    if n == 0 then 1 else n * Factorial(n - 1)
  }

  function Pow2(n: nat): (r: nat)
    ensures r >= 1
  {
    if n == 0 then 1 else 2 * Pow2(n - 1)
  }

  /** Binomial coefficient by Pascal's rule: the number of `k`-subsets of an `m`-set. */
  function Binom(m: nat, k: nat): nat
  {
    if k == 0 then 1 else if m == 0 then 0 else Binom(m - 1, k - 1) + Binom(m - 1, k)
  }

  /** Sum of `Binom(m, t)` for `t` in `0..j`. */
  function RowSum(m: nat, j: nat): nat
  {
    Binom(m, j) + if j == 0 then 0 else RowSum(m, j - 1)
  }

  /**
   * Number of (subset, endpoint) pairs with a subset of size `1..k` of an
   * `m`-set: the sum of `t * Binom(m, t)` for `t` in `1..k`.
   */
  function StateCount(m: nat, k: nat): nat
  {
    if k == 0 then 0 else StateCount(m, k - 1) + k * Binom(m, k)
  }

  lemma {:induction false} BinomAbove(m: nat, k: nat)
    requires k > m
    ensures Binom(m, k) == 0
  {
    if m > 0 {
      BinomAbove(m - 1, k - 1);
      BinomAbove(m - 1, k);
    }
  }

  lemma {:induction false} BinomOne(m: nat)
    ensures Binom(m, 1) == m
  {
    if m > 0 {
      BinomOne(m - 1);
    }
  }

  /** Absorption identity: `k * C(m, k) == m * C(m-1, k-1)`. */
  lemma {:induction false} Absorption(m: nat, k: nat)
    requires m >= 1 && k >= 1
    ensures k * Binom(m, k) == m * Binom(m - 1, k - 1)
  {
    if k == 1 {
      BinomOne(m);
    } else if m == 1 {
      BinomAbove(0, k - 1);
      BinomAbove(0, k);
    } else {
      Absorption(m - 1, k - 1);
      Absorption(m - 1, k);
      var a, b := Binom(m - 1, k - 1), Binom(m - 1, k);
      var a1, a2 := Binom(m - 2, k - 2), Binom(m - 2, k - 1);
      assert Binom(m, k) == a + b;
      assert a == a1 + a2;
      assert (k - 1) * a == (m - 1) * a1;
      assert k * b == (m - 1) * a2;
      MulAdd(k, a, b);
      MulAdd(k - 1, a,  0);
      assert k * a == (k - 1) * a + a;
      MulAdd(m - 1, a1, a2);
      assert (m - 1) * a == (m - 1) * a1 + (m - 1) * a2;
      assert k * Binom(m, k) == (m - 1) * a + a;
      assert m * a == (m - 1) * a + a;
    }
  }

  lemma MulAdd(x: int, a: int, b: int)
    ensures x * (a + b) == x * a + x * b
    ensures (x + 1) * a == x * a + a
  {
  }

  lemma MulComm(a: int, b: int)
    ensures a * b == b * a
  {
  }

  lemma {:induction false} RowSumPascal(m: nat, j: nat)
    requires m >= 1 && j >= 1
    ensures RowSum(m, j) == RowSum(m - 1, j - 1) + RowSum(m - 1, j)
  {
    if j == 1 {
      BinomOne(m);
      BinomOne(m - 1);
    } else {
      RowSumPascal(m, j - 1);
    }
  }

  /** The `m`-th row of Pascal's triangle sums to `2^m`. */
  lemma {:induction false} RowSumFull(m: nat)
    ensures RowSum(m, m) == Pow2(m)
  {
    if m > 0 {
      RowSumPascal(m, m);
      RowSumFull(m - 1);
      BinomAbove(m - 1, m);
      assert RowSum(m - 1, m) == RowSum(m - 1, m - 1);
    }
  }

  lemma {:induction false} StateCountRowSum(m: nat, k: nat)
    requires m >= 1 && k >= 1
    ensures StateCount(m, k) == m * RowSum(m - 1, k - 1)
  {
    if k == 1 {
      BinomOne(m);
    } else {
      StateCountRowSum(m, k - 1);
      Absorption(m, k);
      MulAdd(m, RowSum(m - 1, k - 2), Binom(m - 1, k - 1));
    }
  }

  /** Every non-empty subset of an `m`-set times its members: `m * 2^(m-1)`. */
  lemma StateCountClosedForm(m: nat)
    requires m >= 1
    ensures StateCount(m, m) == m * Pow2(m - 1)
  {
    StateCountRowSum(m, m);
    RowSumFull(m - 1);
  }
}
