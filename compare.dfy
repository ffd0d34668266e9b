/**
 * `TSPSolver.compare_methods`: both solvers on one matrix, the brute force
 * first, each behind its own size cap.
 */
module Compare {
  import opened Tours
  import opened BruteForce
  import opened BellmanHeldKarp

  /** Why an entry holds an error instead of a result. */
  datatype Failure =
    | TooLarge  // the size cap of the method was exceeded
    | Raised    // the solver raised and the exception was caught

  /** One element of the returned list: a solver's result dictionary or its error dictionary. */
  datatype Entry = Solved(tour: Tour) | Failed(solver: Solver, failure: Failure)

  /** Largest graph the brute force is run on. */
  const BruteForceCap := 15

  /** Largest graph the dynamic programme is run on. */
  const HeldKarpCap := 20

  /**
   * What `compare_methods` returns: two entries, brute force first. On an empty
   * matrix `brute_force` indexes `distance_matrix[0][0]` and raises `IndexError`.
   */
  ghost predicate IsComparison(d: Matrix, results: seq<Entry>)
  {
    var n := |d|;
    && |results| == 2
    && (if n > BruteForceCap then results[0] == Failed(BruteForceSolver, TooLarge)
        else if n == 0 then results[0] == Failed(BruteForceSolver, Raised)
        else results[0].Solved? && IsBruteForceResult(d, results[0].tour))
    && (if n > HeldKarpCap then results[1] == Failed(BellmanHeldKarpSolver, TooLarge)
        else results[1].Solved? && IsHeldKarpResult(d, results[1].tour))
  }

  method CompareMethods(d: Matrix) returns (results: seq<Entry>)
    ensures IsComparison(d, results)
    ensures 2 <= |d| <= BruteForceCap ==> results[0].tour.cost == results[1].tour.cost
  {
    var n := |d|;
    results := [];
    if n <= BruteForceCap {
      if n == 0 {
        results := results + [Failed(BruteForceSolver, Raised)];
      } else {
        var bf := BruteForce.BruteForce(d);
        results := results + [Solved(bf)];
      }
    } else {
      results := results + [Failed(BruteForceSolver, TooLarge)];
    }
    if n <= HeldKarpCap {
      var bhk := BellmanHeldKarp.BellmanHeldKarp(d);
      results := results + [Solved(bhk)];
    } else {
      results := results + [Failed(BellmanHeldKarpSolver, TooLarge)];
    }
    if 2 <= n <= BruteForceCap {
      SolversAgree(d, results[0].tour, results[1].tour);
    }
  }

  /** Two optimal cycles of the same matrix cost the same. */
  lemma OptimalCostUnique(d: Matrix, p1: seq<nat>, c1: int, p2: seq<nat>, c2: int)
    requires IsOptimalTour(d, p1, c1) && IsOptimalTour(d, p2, c2)
    ensures c1 == c2
  {
    var n := |d|;
    TourInRange(p1[1..n], n);
    TourInRange(p2[1..n], n);
    assert c1 <= CycleCost(d, p2[1..n]) == c2;
    assert c2 <= CycleCost(d, p1[1..n]) == c1;
  }

  /** From two cities on, both exact methods find the same optimal cost. */
  lemma SolversAgree(d: Matrix, bf: Tour, bhk: Tour)
    requires |d| >= 2 && IsBruteForceResult(d, bf) && IsHeldKarpResult(d, bhk)
    ensures bf.cost.Finite? && bhk.cost.Finite? && bf.cost == bhk.cost
  {
    OptimalCostUnique(d, bf.path, bf.cost.value, bhk.path, bhk.cost.value);
  }

  /**
   * With a single city the two disagree: the brute force prices the cycle
   * `[0, 0]` at `d[0][0]`, while the programme has no state to close and
   * reports an infinite cost.
   */
  lemma SingleCityDisagreement(d: Matrix, bf: Tour, bhk: Tour)
    requires |d| == 1 && IsBruteForceResult(d, bf) && IsHeldKarpResult(d, bhk)
    ensures bf.cost == Finite(d[0][0]) && bf.path == [0, 0] && bhk.cost == Infinite && bhk.path == [0, 0]
  {
    var q: seq<nat> := [];
    assert bf.path[1..1] == q;
    assert [0] + q + [0] == [0, 0];
    assert Weight(d, [0, 0]) == Weight(d, [0]) + d[0][0];
  }
}
