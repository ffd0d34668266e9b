/**
 * `TSPSolver.brute_force`: anchor city 0, walk through every permutation of
 * the other cities and keep the first cycle of strictly smallest cost.
 */
module BruteForce {
  import opened Seqs
  import opened Counting
  import opened Tours
  import opened Itertools

  /**
   * What `brute_force` promises: an optimal cycle, `(n-1)!` permutations
   * explored, and among optimal tours the lexicographically first one.
   */
  ghost predicate IsBruteForceResult(d: Matrix, r: Tour)
  {
    var n := |d|;
    && r.solver == BruteForceSolver
    && r.cost.Finite?
    && IsOptimalTour(d, r.path, r.cost.value)
    && r.work == Factorial(n - 1)
    && forall q | IsTour(q, n) && q != r.path[1..n] ::
         TourInRange(q, n); CycleCost(d, q) == r.cost.value ==> LexLess(r.path[1..n], q)
  }

  /** The inner cost loop: sums `d[path[i]][path[i+1]]` over consecutive positions. */
  method PathCost(d: Matrix, path: seq<nat>) returns (cost: int)
    requires InRange(path, |d|)
    ensures cost == Weight(d, path)
  {
    cost := 0;
    var i := 0;
    while i < |path| - 1
      invariant 0 <= i <= if |path| == 0 then 0 else |path| - 1
      invariant cost == Weight(d, path[..if |path| == 0 then 0 else i + 1])
    {
      WeightSnoc(d, path[..i + 1], path[i + 1]);
      assert path[..i + 2] == path[..i + 1] + [path[i + 1]];
      cost := cost + d[path[i]][path[i + 1]];
      i := i + 1;
    }
    assert path[..if |path| == 0 then 0 else i + 1] == path;
  }

  /**
   * `perms` is a strictly ascending list of all tours of the cities `1..n-1`,
   * so each tour occurs exactly once.
   */
  ghost predicate EnumeratesTours(perms: seq<seq<nat>>, n: nat)
  {
    && LexSorted(perms)
    && (forall x | 0 <= x < |perms| :: IsTour(perms[x], n) && InRange(perms[x], n) && |perms[x]| == |CitySet(n)|)
    && (forall q | IsTour(q, n) :: q in perms)
  }

  /** `itertools.permutations(range(1, n))`: exactly the tours, `(n-1)!` of them, ascending. */
  function CityPermutations(n: nat): (perms: seq<seq<nat>>)
    requires n >= 1
    ensures perms == Permutations(CityRange(n))
    ensures |perms| == Factorial(n - 1)
    ensures EnumeratesTours(perms, n)
  {
    PermutationsEnumerateTours(n);
    Permutations(CityRange(n))
  }

  lemma PermutationsEnumerateTours(n: nat)
    requires n >= 1
    ensures |Permutations(CityRange(n))| == Factorial(n - 1)
    ensures EnumeratesTours(Permutations(CityRange(n)), n)
  {
    var cities := CityRange(n);
    var perms := Permutations(cities);
    IncreasingIsDistinct(cities);
    PermutationsCount(cities);
    PermutationsSound(cities);
    PermutationsSorted(cities);
    CityRangeElems(n);
    forall x | 0 <= x < |perms| ensures IsTour(perms[x], n) && InRange(perms[x], n) && |perms[x]| == |CitySet(n)| {
      assert perms[x] in perms;
      TourInRange(perms[x], n);
    }
    forall q | IsTour(q, n) ensures q in perms {
      PermutationsComplete(cities, q);
    }
  }

  /** A cycle no dearer than any enumerated tour is an optimal tour. */
  lemma MinimumIsOptimal(d: Matrix, perms: seq<seq<nat>>, best: nat, c: int)
    requires |d| >= 1 && EnumeratesTours(perms, |d|) && best < |perms|
    requires c == CycleCost(d, perms[best])
    requires forall x | 0 <= x < |perms| :: c <= CycleCost(d, perms[x])
    ensures IsOptimalTour(d, [0] + perms[best] + [0], c)
  {
    var n := |d|;
    var bp := perms[best];
    var path := [0] + bp + [0];
    CityRangeElems(n);
    assert |bp| == n - 1;
    assert path[1..n] == bp;
    assert IsTour(path[1..n], n);
    forall q | IsTour(q, n) ensures (TourInRange(q, n); c <= CycleCost(d, q)) {
      var x :| 0 <= x < |perms| && perms[x] == q;
    }
  }

  /** Replacing the minimum only on a strict improvement keeps the lexicographically first optimal tour. */
  lemma FirstMinimumIsLexFirst(d: Matrix, perms: seq<seq<nat>>, best: nat, c: int)
    requires |d| >= 1 && EnumeratesTours(perms, |d|) && best < |perms|
    requires forall x | 0 <= x < best :: c < CycleCost(d, perms[x])
    ensures forall q | IsTour(q, |d|) && q != perms[best] && (TourInRange(q, |d|); CycleCost(d, q) == c) ::
      LexLess(perms[best], q)
  {
    var n := |d|;
    var bp := perms[best];
    forall q | IsTour(q, n) && q != bp && (TourInRange(q, n); CycleCost(d, q) == c)
      ensures LexLess(bp, q)
    {
      var x :| 0 <= x < |perms| && perms[x] == q;
      assert best < x;
    }
  }

  /**
   * Keeping the first strict minimum over an enumeration of the tours yields
   * the least cost over all tours, and the lexicographically first tour among ties.
   */
  lemma FirstMinimumIsOptimal(d: Matrix, perms: seq<seq<nat>>, best: nat, c: int)
    requires |d| >= 1 && EnumeratesTours(perms, |d|) && best < |perms|
    requires c == CycleCost(d, perms[best])
    requires forall x | 0 <= x < |perms| :: c <= CycleCost(d, perms[x])
    requires forall x | 0 <= x < best :: c < CycleCost(d, perms[x])
    ensures IsBruteForceResult(d, Tour(BruteForceSolver, Finite(c), [0] + perms[best] + [0], Factorial(|d| - 1)))
  {
    var n := |d|;
    var path := [0] + perms[best] + [0];
    MinimumIsOptimal(d, perms, best, c);
    FirstMinimumIsLexFirst(d, perms, best, c);
    assert path[1..n] == perms[best];
  }

  /**
   * The running minimum after the first `k` permutations: none before the
   * first one; afterwards `best` is the first position of least cycle cost
   * so far, `minCost` its cost and `bestPath` its closed cycle.
   */
  ghost predicate ScanState(d: Matrix, perms: seq<seq<nat>>, k: nat, minCost: Cost, bestPath: Option<seq<nat>>, best: nat)
    requires |d| >= 1 && k <= |perms| && forall x | 0 <= x < |perms| :: InRange(perms[x], |d|)
  {
    && (minCost.Infinite? <==> k == 0)
    && (minCost.Finite? ==>
      && best < k && bestPath == Some([0] + perms[best] + [0])
      && minCost.value == CycleCost(d, perms[best])
      && (forall x | 0 <= x < k :: minCost.value <= CycleCost(d, perms[x]))
      && (forall x | 0 <= x < best :: minCost.value < CycleCost(d, perms[x])))
  }

  /** One more permutation: replacing the minimum exactly on a strict improvement keeps `ScanState`. */
  lemma ScanStep(d: Matrix, perms: seq<seq<nat>>, k: nat, minCost: Cost, bestPath: Option<seq<nat>>, best: nat, cost: int)
    requires |d| >= 1 && k < |perms| && forall x | 0 <= x < |perms| :: InRange(perms[x], |d|)
    requires ScanState(d, perms, k, minCost, bestPath, best) && cost == CycleCost(d, perms[k])
    ensures minCost.Infinite? || cost < minCost.value ==>
      ScanState(d, perms, k + 1, Finite(cost), Some([0] + perms[k] + [0]), k)
    ensures !(minCost.Infinite? || cost < minCost.value) ==>
      ScanState(d, perms, k + 1, minCost, bestPath, best)
  {
  }

  /**
   * `brute_force`: the cycle `[0] + perm + [0]` of every permutation in turn,
   * keeping the first of strictly least cost. Needs one city at least: on an
   * empty matrix the cost loop indexes `distance_matrix[0][0]` and raises.
   */
  method BruteForce(d: Matrix) returns (r: Tour)
    requires |d| >= 1
    ensures IsBruteForceResult(d, r)
  {
    var n := |d|;
    var perms := CityPermutations(n);

    var minCost: Cost := Infinite;
    var bestPath: Option<seq<nat>> := None;
    var totalPaths: nat := 0;
    ghost var best: nat := 0;
    for k := 0 to |perms|
      invariant totalPaths == k
      invariant ScanState(d, perms, k, minCost, bestPath, best)
    {
      var perm := perms[k];
      totalPaths := totalPaths + 1;
      var path := [0] + perm + [0];
      var cost := PathCost(d, path);
      ScanStep(d, perms, k, minCost, bestPath, best, cost);
      if minCost.Infinite? || cost < minCost.value {
        minCost := Finite(cost);
        bestPath := Some(path);
        best := k;
      }
    }
    r := Tour(BruteForceSolver, minCost, bestPath.value, totalPaths);
    FirstMinimumIsOptimal(d, perms, best, minCost.value);
  }
}
