/**
 * `TSPSolver.bellman_held_karp` end to end: the table of (subset, last city)
 * states filled layer by layer, the step that closes the cycle back to city 0,
 * and `_reconstruct_path_bhk`.
 */
module BellmanHeldKarp {
  import opened Seqs
  import opened Counting
  import opened Tours
  import opened HeldKarp

  /**
   * What `bellman_held_karp` promises: `len(C)` is `(n-1) * 2^(n-2)`; with two
   * or more cities the cycle is optimal and it closes at the smallest last city
   * any optimal tour can have; otherwise the cost stays infinite and the path is `[0, 0]`.
   */
  ghost predicate IsHeldKarpResult(d: Matrix, r: Tour)
  {
    var n := |d|;
    && r.solver == BellmanHeldKarpSolver
    && r.work == (if n <= 1 then 0 else (n - 1) * Pow2(n - 2))
    && (n <= 1 ==> r.cost == Infinite && r.path == [0, 0])
    && (n >= 2 ==>
          && r.cost.Finite? && IsOptimalTour(d, r.path, r.cost.value)
          && NoCheaperBefore(d, r.cost.value, r.path[n - 1]))
  }

  /** After the first initialisation steps: exactly the singleton states `({i}, i)` with `1 <= i < j`. */
  ghost predicate Singletons(C: Table, j: nat)
  {
    forall key :: key in C <==> key.0 == {key.1} && 1 <= key.1 < j
  }

  /** The invariant of the initialisation loop before city `j`. */
  ghost predicate InitProgress(d: Matrix, C: Table, parent: Parents, j: nat)
  {
    && 1 <= j <= (if |d| == 0 then 1 else |d|)
    && Filled(d, C, parent) && Singletons(C, j) && |C| == j - 1
  }

  /** Storing `C[({j}, j)] = d[0][j]` with parent 0 obeys the recurrence's base case. */
  lemma InitStep(d: Matrix, C: Table, parent: Parents, j: nat)
    requires j < |d| && InitProgress(d, C, parent, j)
    ensures InitProgress(d, C[({j}, j) := d[0][j]], parent[({j}, j) := 0], j + 1)
  {
    SingletonsStep(C, j, d[0][j]);
    InitFilled(d, C, parent, j);
  }

  lemma SingletonsStep(C: Table, j: nat, v: int)
    requires j >= 1 && Singletons(C, j) && |C| == j - 1
    ensures ({j}, j) !in C
    ensures Singletons(C[({j}, j) := v], j + 1) && |C[({j}, j) := v]| == j
  {
    assert ({j}, j) !in C;
  }

  lemma InitFilled(d: Matrix, C: Table, parent: Parents, j: nat)
    requires 1 <= j < |d| && Filled(d, C, parent) && ({j}, j) !in C
    ensures Filled(d, C[({j}, j) := d[0][j]], parent[({j}, j) := 0])
  {
    assert Entry(d, C, {j}, j, d[0][j], 0);
    FilledInsert(d, C, parent, ({j}, j), d[0][j], 0);
  }

  lemma SingletonOf(S: set<nat>, x: nat)
    requires x in S && |S| < 2
    ensures S == {x}
  {
    assert S == (S - {x}) + {x};
    assert |S - {x}| == 0;
  }

  lemma SubsetCard(A: set<nat>, B: set<nat>)
    requires A <= B
    ensures |A| <= |B|
  {
    assert B == A + (B - A);
  }

  /** The singleton states are exactly the first layer: the valid states of fewer than two cities. */
  lemma SingletonLayer(d: Matrix, C: Table, parent: Parents, j: nat)
    requires InitProgress(d, C, parent, j) && j >= |d|
    ensures Grown(d, C, parent, 2)
  {
    SingletonsAreLayer(|d|, C, j);
    BinomOne(if |d| == 0 then 0 else |d| - 1);
  }

  lemma SingletonsAreLayer(n: nat, C: Table, j: nat)
    requires j == (if n == 0 then 1 else n) && Singletons(C, j)
    ensures Layers(n, C, 2)
  {
    forall key: Key ensures key in C <==> ValidKey(n, key) && |key.0| < 2 {
      if ValidKey(n, key) && |key.0| < 2 {
        SingletonOf(key.0, key.1);
      }
    }
  }

  /** Every subset of the cities `1..n-1` has fewer than `n` cities, so layers `< n` are every valid state. */
  lemma AllLayers(n: nat, C: Table, k: nat)
    requires k >= n && Layers(n, C, k)
    ensures forall key :: key in C <==> ValidKey(n, key)
  {
    forall key: Key | ValidKey(n, key) ensures |key.0| < k {
      SubsetCard(key.0, CitySet(n));
      CityRangeElems(n);
    }
  }

  /** The loop over `j in range(1, n)` storing `C[({j}, j)] = d[0][j]` with parent 0. */
  method InitSingletons(d: Matrix) returns (C: Table, parent: Parents)
    ensures Grown(d, C, parent, 2)
  {
    var n := |d|;
    C, parent := map[], map[];
    var j := 1;
    while j < n
      invariant InitProgress(d, C, parent, j)
    {
      InitStep(d, C, parent, j);
      var key := ({j}, j);
      C := C[key := d[0][j]];
      parent := parent[key := 0];
      j := j + 1;
    }
    SingletonLayer(d, C, parent, j);
  }

  /** The table holds exactly the layers of fewer than `k` cities, `StateCount(n-1, k-1)` states. */
  ghost predicate Grown(d: Matrix, C: Table, parent: Parents, k: nat)
  {
    var n := |d|;
    && 2 <= k <= (if n < 2 then 2 else n)
    && Filled(d, C, parent) && Layers(n, C, k)
    && |C| == StateCount(if n == 0 then 0 else n - 1, k - 1)
  }

  /** One more layer adds `k * C(n-1, k)` states: the next term of `StateCount`. */
  lemma GrownStep(d: Matrix, C0: Table, C: Table, parent: Parents, k: nat)
    requires 2 <= k < |d| && |C| == |C0| + k * Binom(|d| - 1, k)
    requires |C0| == StateCount(|d| - 1, k - 1) && Filled(d, C, parent) && Layers(|d|, C, k + 1)
    ensures Grown(d, C, parent, k + 1)
  {
  }

  /**
   * Fills `C` and `parent`: the singleton states first, then one
   * layer per subset size `2..n-1`. Every valid state ends up in the table,
   * which therefore has `(n-1) * 2^(n-2)` entries.
   */
  method FillTable(d: Matrix) returns (C: Table, parent: Parents)
    ensures Filled(d, C, parent)
    ensures forall key :: key in C <==> ValidKey(|d|, key)
    ensures |C| == if |d| <= 1 then 0 else (|d| - 1) * Pow2(|d| - 2)
  {
    var n := |d|;
    C, parent := InitSingletons(d);
    var k := 2;
    while k < n
      invariant Grown(d, C, parent, k)
    {
      ghost var C0 := C;
      C, parent := FillLayer(d, C, parent, k);
      GrownStep(d, C0, C, parent, k);
      k := k + 1;
    }
    AllLayers(n, C, k);
    TableSize(d, C, parent, k);
  }

  /** Layers `1..n-1` hold `(n-1) * 2^(n-2)` states in all. */
  lemma TableSize(d: Matrix, C: Table, parent: Parents, k: nat)
    requires Grown(d, C, parent, k) && k >= |d|
    ensures |C| == if |d| <= 1 then 0 else (|d| - 1) * Pow2(|d| - 2)
  {
    var n := |d|;
    if n >= 2 {
      StateCountClosedForm(n - 1);
    } else {
      assert StateCount(0, 1) == Binom(0, 1) == 0;
    }
  }

  /**
   * After trying the last cities `1..j-1`: `lastCity` is the first of least
   * closed cost `C[(all, i)] + d[i][0]` among those whose state is in `C`,
   * or nothing when none is.
   */
  ghost predicate ClosesBest(d: Matrix, C: Table, all: set<nat>, j: nat, minCost: Cost, lastCity: Option<nat>)
  {
    match lastCity
    case None => minCost == Infinite && forall i | 1 <= i < j && i < |d| :: (all, i) !in C
    case Some(l) =>
      && 1 <= l < j && l < |d| && (all, l) in C
      && minCost == Finite(C[(all, l)] + d[l][0])
      && (forall i | 1 <= i < j && i < |d| && (all, i) in C :: minCost.value <= C[(all, i)] + d[i][0])
      && (forall i | 1 <= i < l && (all, i) in C :: minCost.value < C[(all, i)] + d[i][0])
  }

  /** The loop over `j in range(1, n)` that adds the edge back to 0, keeping a strict running minimum. */
  method CloseTour(d: Matrix, C: Table, all: set<nat>) returns (minCost: Cost, lastCity: Option<nat>)
    ensures ClosesBest(d, C, all, |d|, minCost, lastCity)
  {
    var n := |d|;
    minCost := Infinite;
    lastCity := None;
    var j := 1;
    while j < n
      invariant 1 <= j <= if n == 0 then 1 else n
      invariant ClosesBest(d, C, all, j, minCost, lastCity)
    {
      var key := (all, j);
      if key in C {
        var cost := C[key] + d[j][0];
        if minCost.Infinite? || cost < minCost.value {
          minCost := Finite(cost);
          lastCity := Some(j);
        }
      }
      j := j + 1;
    }
  }

  /**
   * `_reconstruct_path_bhk`: from `(all_cities, last_city)` follow `parent`
   * back, collecting cities until the subset is empty or a state has no
   * parent, then reverse and put city 0 at both ends.
   */
  method ReconstructPath(parent: Parents, lastCity: Option<nat>, allCities: set<nat>) returns (path: seq<nat>)
    requires WellKeyed(parent)
    requires allCities != {} ==> lastCity.Some?
    ensures path == [0] + Walk(parent, allCities, if lastCity.Some? then lastCity.value else 0) + [0]
  {
    var collected: seq<nat> := [];
    var currentSet := allCities;
    var currentCity: nat := if lastCity.Some? then lastCity.value else 0;
    ghost var walk := Walk(parent, allCities, currentCity);
    while currentSet != {}
      invariant walk == Walk(parent, currentSet, currentCity) + Reversed(collected)
      decreases |currentSet|
    {
      ReversedSnoc(collected, currentCity);
      collected := collected + [currentCity];
      var key := (currentSet, currentCity);
      if key !in parent {
        assert walk == Reversed(collected);
        break;
      }
      var prevCity := parent[key];
      currentSet := currentSet - {currentCity};
      currentCity := prevCity;
    }
    assert walk == Reversed(collected);
    ReversedSnoc(collected, 0);
    collected := collected + [0];
    path := Reversed(collected) + [0];
  }

  /** Every city can close the cycle: each state `(all_cities, j)` is in the table. */
  ghost predicate Complete(d: Matrix, C: Table)
  {
    forall i | 1 <= i < |d| :: (CitySet(|d|), i) in C
  }

  lemma FullIsComplete(d: Matrix, C: Table)
    requires forall key :: key in C <==> ValidKey(|d|, key)
    ensures Complete(d, C)
  {
    forall i | 1 <= i < |d| ensures (CitySet(|d|), i) in C {
      assert ValidKey(|d|, (CitySet(|d|), i));
    }
  }

  /** With two or more cities every state of the full subset is in the table, so a last city is found. */
  lemma CloseFindsCity(d: Matrix, C: Table, minCost: Cost, lastCity: Option<nat>)
    requires |d| >= 2 && Complete(d, C)
    requires ClosesBest(d, C, CitySet(|d|), |d|, minCost, lastCity)
    ensures lastCity.Some?
  {
    assert (CitySet(|d|), 1) in C;
  }

  /**
   * One tour `q` against the closing minimum: it costs at least `minCost`, and
   * strictly more when it ends at a city before `l`.
   */
  lemma TourBound(d: Matrix, C: Table, parent: Parents, minCost: Cost, l: nat, q: seq<nat>)
    requires |d| >= 2 && Filled(d, C, parent) && Complete(d, C)
    requires ClosesBest(d, C, CitySet(|d|), |d|, minCost, Some(l))
    requires IsTour(q, |d|)
    ensures InRange(q, |d|) && |q| == |d| - 1
    ensures minCost.value <= CycleCost(d, q)
    ensures q[|q| - 1] < l ==> minCost.value < CycleCost(d, q)
  {
    var n := |d|;
    var all := CitySet(n);
    TourInRange(q, n);
    var last := q[|q| - 1];
    assert last in Elems(q);
    assert (all, last) in C;
    TableLowerBound(d, C, parent, q, all, last);
    CycleIsRoutePlusReturn(d, q);
  }

  /** `path` is the closed cycle `[0] + tour + [0]` of a tour of the cities `1..n-1`, of cost `c`. */
  ghost predicate TourCycle(d: Matrix, path: seq<nat>, c: int)
  {
    var n := |d|;
    && n >= 2 && |path| == n + 1 && path[0] == 0 && path[n] == 0
    && IsTour(path[1..n], n) && InRange(path[1..n], n) && CycleCost(d, path[1..n]) == c
  }

  /** No tour's cycle costs less than `c`. */
  ghost predicate NoCheaperTour(d: Matrix, c: int)
  {
    |d| >= 1 && forall q | IsTour(q, |d|) :: (TourInRange(q, |d|); c <= CycleCost(d, q))
  }

  /** Every tour ending at a city before `l` costs strictly more than `c`. */
  ghost predicate NoCheaperBefore(d: Matrix, c: int, l: nat)
  {
    |d| >= 1 && forall q | IsTour(q, |d|) && |q| > 0 && q[|q| - 1] < l :: (TourInRange(q, |d|); c < CycleCost(d, q))
  }

  /** A route through every city, closed with the edge back to 0, is a tour cycle. */
  lemma RouteIsTour(d: Matrix, w: seq<nat>, l: nat, v: int)
    requires |d| >= 2 && Reaches(d, w, CitySet(|d|), l, v)
    ensures TourCycle(d, [0] + w + [0], v + d[l][0]) && ([0] + w + [0])[|d| - 1] == l
  {
    var n := |d|;
    TourInRange(w, n);
    CycleIsRoutePlusReturn(d, w);
    var path := [0] + w + [0];
    assert path[1..n] == w;
  }

  /** No tour beats `minCost`, and a tour ending before `l` costs strictly more. */
  lemma ToursBound(d: Matrix, C: Table, parent: Parents, minCost: Cost, l: nat)
    requires |d| >= 2 && Filled(d, C, parent) && Complete(d, C)
    requires ClosesBest(d, C, CitySet(|d|), |d|, minCost, Some(l))
    ensures minCost.Finite? && NoCheaperTour(d, minCost.value) && NoCheaperBefore(d, minCost.value, l)
  {
    forall q | IsTour(q, |d|) ensures (TourInRange(q, |d|); minCost.value <= CycleCost(d, q)) {
      TourBound(d, C, parent, minCost, l, q);
    }
    forall q | IsTour(q, |d|) && |q| > 0 && q[|q| - 1] < l
      ensures (TourInRange(q, |d|); minCost.value < CycleCost(d, q))
    {
      TourBound(d, C, parent, minCost, l, q);
    }
  }

  /** A tour cycle of cost `c` that no tour beats is optimal. */
  lemma OptimalFromBound(d: Matrix, path: seq<nat>, c: int)
    requires TourCycle(d, path, c) && NoCheaperTour(d, c)
    ensures IsOptimalTour(d, path, c)
  {
  }

  /** The walk from the chosen last city is an optimal cycle, and no optimal tour ends earlier. */
  lemma HeldKarpOptimal(d: Matrix, C: Table, parent: Parents, minCost: Cost, l: nat)
    requires |d| >= 2 && Filled(d, C, parent) && Complete(d, C)
    requires ClosesBest(d, C, CitySet(|d|), |d|, minCost, Some(l))
    ensures var path := [0] + Walk(parent, CitySet(|d|), l) + [0];
      && minCost.Finite? && |path| == |d| + 1
      && IsOptimalTour(d, path, minCost.value) && NoCheaperBefore(d, minCost.value, path[|d| - 1])
  {
    WalkCycle(d, C, parent, l);
    ToursBound(d, C, parent, minCost, l);
    OptimalFromBound(d, [0] + Walk(parent, CitySet(|d|), l) + [0], minCost.value);
  }

  /** Walking back from `(all_cities, l)` and closing at 0 gives a tour cycle of cost `C[(all, l)] + d[l][0]`. */
  lemma WalkCycle(d: Matrix, C: Table, parent: Parents, l: nat)
    requires |d| >= 2 && Filled(d, C, parent) && (CitySet(|d|), l) in C && 1 <= l < |d|
    ensures var path := [0] + Walk(parent, CitySet(|d|), l) + [0];
      TourCycle(d, path, C[(CitySet(|d|), l)] + d[l][0]) && path[|d| - 1] == l
  {
    var all := CitySet(|d|);
    WalkIsRoute(d, C, parent, all, l);
    RouteIsTour(d, Walk(parent, all, l), l, C[(all, l)]);
  }

  /** `bellman_held_karp`: fill the table, close the cycle, walk back through `parent`. */
  method BellmanHeldKarp(d: Matrix) returns (r: Tour)
    ensures IsHeldKarpResult(d, r)
  {
    var n := |d|;
    var C, parent := FillTable(d);
    var allCities := CitySet(n);
    var minCost, lastCity := CloseTour(d, C, allCities);
    FullIsComplete(d, C);
    if n >= 2 {
      CloseFindsCity(d, C, minCost, lastCity);
    } else {
      assert allCities == {};
    }
    var path := ReconstructPath(parent, lastCity, allCities);
    r := Tour(BellmanHeldKarpSolver, minCost, path, |C|);
    if n >= 2 {
      HeldKarpOptimal(d, C, parent, minCost, lastCity.value);
    } else {
      assert Walk(parent, allCities, 0) == [];
    }
  }
}
