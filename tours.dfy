/**
 * Distance matrices, tours through city 0 and their costs: the common
 * vocabulary of both solvers of `TSPSolver`.
 */
module Tours {
  import opened Seqs

  predicate IsSquare(d: seq<seq<int>>)
  {
    forall i | 0 <= i < |d| :: |d[i]| == |d|
  }

  /**
   * An n x n table of integer distances. The solver performs no validation:
   * squareness is the only shape its indexing needs.
   */
  type Matrix = d: seq<seq<int>> | IsSquare(d) witness []

  predicate IsSymmetric(d: Matrix)
  {
    forall i, j | 0 <= i < |d| && 0 <= j < |d| :: d[i][j] == d[j][i]
  }

  predicate ZeroDiagonal(d: Matrix)
  {
    forall i | 0 <= i < |d| :: d[i][i] == 0
  }

  datatype Option<T> = None | Some(value: T)

  /** The `method` field of a result: 'Brute Force' or 'Bellman-Held-Karp'. */
  datatype Solver = BruteForceSolver | BellmanHeldKarpSolver

  /**
   * One solver's result dictionary. `work` is `paths_explored` for the brute
   * force and `states_computed` for Held-Karp; the wall-clock `time` is not modelled.
   */
  datatype Tour = Tour(solver: Solver, cost: Cost, path: seq<nat>, work: nat)

  /** A cycle cost, where Python starts its running minimum at `float('inf')`. */
  datatype Cost = Finite(value: int) | Infinite

  /** `list(range(1, n))`: the cities other than the anchor city 0, ascending. */
  function CityRange(n: nat): (r: seq<nat>)
    ensures |r| == if n == 0 then 0 else n - 1
    ensures Increasing(r)
    ensures forall k | 0 <= k < |r| :: r[k] == k + 1
  {
    if n <= 1 then [] else CityRange(n - 1) + [n - 1]
  }

  /** `frozenset(range(1, n))`: the set every tour must visit besides city 0. */
  function CitySet(n: nat): (s: set<nat>)
    ensures forall i :: i in s <==> 1 <= i < n
  {
    CityRangeMembers(n);
    Elems(CityRange(n))
  }

  lemma CityRangeMembers(n: nat)
    ensures forall i :: i in Elems(CityRange(n)) <==> 1 <= i < n
  {
    var r := CityRange(n);
    forall i | 1 <= i < n ensures i in Elems(r) {
      assert r[i - 1] == i;
    }
  }

  lemma CityRangeElems(n: nat)
    ensures Elems(CityRange(n)) == CitySet(n)
    ensures |CitySet(n)| == |CityRange(n)|
  {
    var r := CityRange(n);
    IncreasingIsDistinct(r);
    DistinctCard(r);
  }

  /** Every city of `p` indexes a row of `d`. */
  predicate InRange(p: seq<nat>, n: nat)
  {
    forall k | 0 <= k < |p| :: p[k] < n
  }

  /** Sum of the distances between consecutive cities of `p` (Python's cost loop). */
  function Weight(d: Matrix, p: seq<nat>): int
    requires InRange(p, |d|)
  {
    if |p| <= 1 then 0 else Weight(d, p[..|p| - 1]) + d[p[|p| - 2]][p[|p| - 1]]
  }

  /** Cost of the closed cycle `0 -> perm -> 0`. */
  function CycleCost(d: Matrix, perm: seq<nat>): int
    requires |d| >= 1 && InRange(perm, |d|)
  {
    Weight(d, [0] + perm + [0])
  }

  /** Cost of the open path `0 -> route`. */
  function RouteCost(d: Matrix, route: seq<nat>): int
    requires |d| >= 1 && InRange(route, |d|)
  {
    Weight(d, [0] + route)
  }

  /** `p` lists every city of `S` exactly once. */
  predicate IsPermutation(p: seq<nat>, S: set<nat>)
  {
    Distinct(p) && Elems(p) == S
  }

  /** An order of the cities `1..n-1`: the inner part of a Hamiltonian cycle through 0. */
  predicate IsTour(p: seq<nat>, n: nat)
  {
    IsPermutation(p, CitySet(n))
  }

  /** A path from 0 that visits exactly the cities of `S` and ends at `j`. */
  predicate IsRoute(r: seq<nat>, S: set<nat>, j: nat)
  {
    IsPermutation(r, S) && |r| > 0 && r[|r| - 1] == j
  }

  /** Strict lexicographic order, the order in which `itertools.permutations` yields. */
  predicate LexLess(p: seq<nat>, q: seq<nat>)
  {
    |p| > 0 && |q| > 0 && (p[0] < q[0] || (p[0] == q[0] && LexLess(p[1..], q[1..])))
  }

  lemma TourInRange(p: seq<nat>, n: nat)
    requires IsTour(p, n)
    ensures InRange(p, n) && |p| == |CitySet(n)| && (n >= 2 ==> |p| == n - 1)
  {
    forall k | 0 <= k < |p| ensures p[k] < n {
      assert p[k] in Elems(p);
    }
    DistinctCard(p);
    CityRangeElems(n);
  }

  lemma RouteInRange(r: seq<nat>, S: set<nat>, j: nat, n: nat)
    requires IsRoute(r, S, j) && S <= CitySet(n)
    ensures InRange(r, n)
  {
    forall k | 0 <= k < |r| ensures r[k] < n {
      assert r[k] in Elems(r);
    }
  }

  /** Appending one city adds exactly one edge. */
  lemma WeightSnoc(d: Matrix, p: seq<nat>, x: nat)
    requires |p| >= 1 && InRange(p, |d|) && x < |d|
    ensures InRange(p + [x], |d|)
    ensures Weight(d, p + [x]) == Weight(d, p) + d[p[|p| - 1]][x]
  {
    assert (p + [x])[..|p|] == p;
  }

  /** Extending a route by a city it has not visited gives a route one edge dearer. */
  lemma RouteSnoc(d: Matrix, r: seq<nat>, S: set<nat>, i: nat, j: nat)
    requires IsRoute(r, S, i) && InRange(r, |d|) && j < |d| && j !in S
    ensures IsRoute(r + [j], S + {j}, j) && InRange(r + [j], |d|)
    ensures RouteCost(d, r + [j]) == RouteCost(d, r) + d[i][j]
  {
    DistinctSnoc(r, j);
    ElemsSnoc(r, j);
    WeightSnoc(d, [0] + r, j);
    assert [0] + (r + [j]) == ([0] + r) + [j];
  }

  /** A one-city route is the single edge from 0. */
  lemma RouteSingle(d: Matrix, r: seq<nat>, S: set<nat>, j: nat)
    requires IsRoute(r, S, j) && InRange(r, |d|) && |r| == 1
    ensures S == {j} && RouteCost(d, r) == d[0][j]
  {
    assert r == [j];
    assert Elems(r) == {j};
    assert [0] + r == [0, j];
    assert [0, j][..1] == [0];
    assert Weight(d, [0, j]) == Weight(d, [0]) + d[0][j];
  }

  /** The route of one city is the single edge from 0. */
  lemma RouteOne(d: Matrix, j: nat)
    requires 1 <= j < |d|
    ensures IsRoute([j], {j}, j) && InRange([j], |d|) && RouteCost(d, [j]) == d[0][j]
  {
    assert [0] + [j] == [0, j];
    assert [0, j][..1] == [0];
    assert Weight(d, [0, j]) == Weight(d, [0]) + d[0][j];
  }

  /** Dropping the last city of a longer route gives a route through one city fewer. */
  lemma RouteInit(d: Matrix, r: seq<nat>, S: set<nat>, j: nat)
    requires IsRoute(r, S, j) && InRange(r, |d|) && |r| >= 2
    ensures S != {j}
    ensures IsRoute(r[..|r| - 1], S - {j}, r[|r| - 2]) && InRange(r[..|r| - 1], |d|)
    ensures RouteCost(d, r) == RouteCost(d, r[..|r| - 1]) + d[r[|r| - 2]][j]
  {
    var r' := r[..|r| - 1];
    assert r[..|r| - 1] + r[|r|..] == r';
    RemoveAtElems(r, |r| - 1);
    DistinctCard(r);
    assert r == r' + [j];
    WeightSnoc(d, [0] + r', j);
    assert [0] + r == ([0] + r') + [j];
  }

  /** A cycle is the route through all its cities plus the edge back to 0. */
  lemma CycleIsRoutePlusReturn(d: Matrix, perm: seq<nat>)
    requires |d| >= 1 && |perm| >= 1 && InRange(perm, |d|)
    ensures CycleCost(d, perm) == RouteCost(d, perm) + d[perm[|perm| - 1]][0]
  {
    assert [0] + perm + [0] == ([0] + perm) + [0];
    WeightSnoc(d, [0] + perm, 0);
  }

  /**
   * `path` is the closed cycle `[0] + perm + [0]` of a tour `perm` of the
   * cities `1..n-1`, its cost is `c`, and no tour costs less.
   */
  ghost predicate IsOptimalTour(d: Matrix, path: seq<nat>, c: int)
  {
    var n := |d|;
    && n >= 1 && |path| == n + 1 && path[0] == 0 && path[n] == 0
    && IsTour(path[1..n], n)
    && (TourInRange(path[1..n], n); CycleCost(d, path[1..n]) == c)
    && forall q | IsTour(q, n) :: TourInRange(q, n); c <= CycleCost(d, q)
  }
}
