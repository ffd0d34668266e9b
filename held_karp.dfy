/**
 * `TSPSolver.bellman_held_karp`: the dynamic programme over (subset, last city)
 * states, the closing step back to city 0 and the walk back through the
 * `parent` table that `_reconstruct_path_bhk` performs.
 */
module HeldKarp {
  import opened Seqs
  import opened Counting
  import opened Tours
  import opened Itertools

  /** A state `(S, j)`: the path from 0 has visited exactly the cities of `S` and stands at `j`. */
  type Key = (set<nat>, nat)

  /** The dictionary `C`: least known cost of each state. */
  type Table = map<Key, int>

  /** The dictionary `parent`: the city visited just before `j` on that least-cost path. */
  type Parents = map<Key, nat>

  /** A state the programme can compute: `S` is a set of cities `1..n-1` that contains `j`. */
  predicate ValidKey(n: nat, key: Key)
  {
    key.0 <= CitySet(n) && key.1 in key.0
  }

  /** Every entry of `C` is in `C'` with the same value: the programme never overwrites. */
  predicate Submap(C: Table, C': Table)
  {
    forall key | key in C :: key in C' && C'[key] == C[key]
  }

  /** Each parent entry's city belongs to its own subset, so walking back shrinks the subset. */
  predicate WellKeyed(parent: Parents)
  {
    forall key | key in parent :: key.1 in key.0
  }

  /**
   * Bellman's recurrence for state `(S, j)` with value `v` and predecessor `p`:
   * a singleton is reached straight from 0; otherwise `p` is the
   * predecessor of least `C[(S - {j}, p)] + d[p][j]`, over states all present in `C`.
   */
  ghost predicate Entry(d: Matrix, C: Table, S: set<nat>, j: nat, v: int, p: nat)
  {
    && S <= CitySet(|d|) && j in S
    && if S == {j} then v == d[0][j] && p == 0
       else
         && p in S - {j} && (S - {j}, p) in C && v == C[(S - {j}, p)] + d[p][j]
         && forall i | i in S - {j} :: (S - {j}, i) in C && v <= C[(S - {j}, i)] + d[i][j]
  }

  /** The invariant of the two dictionaries: same keys, and every entry obeys the recurrence. */
  ghost predicate Filled(d: Matrix, C: Table, parent: Parents)
  {
    && C.Keys == parent.Keys
    && WellKeyed(parent)
    && forall key {:trigger parent[key]} | key in C ::
         ValidKey(|d|, key) && Entry(d, C, key.0, key.1, C[key], parent[key])
  }

  lemma EntryMono(d: Matrix, C: Table, C': Table, S: set<nat>, j: nat, v: int, p: nat)
    requires Entry(d, C, S, j, v, p) && Submap(C, C')
    ensures Entry(d, C', S, j, v, p)
  {
  }

  /** Adding one new state that obeys the recurrence keeps the invariant. */
  lemma FilledInsert(d: Matrix, C: Table, parent: Parents, key: Key, v: int, p: nat)
    requires Filled(d, C, parent) && key !in C && ValidKey(|d|, key)
    requires Entry(d, C, key.0, key.1, v, p)
    ensures Submap(C, C[key := v])
    ensures Filled(d, C[key := v], parent[key := p])
  {
    var C', parent' := C[key := v], parent[key := p];
    OldEntriesKept(d, C, C', parent);
    EntryMono(d, C, C', key.0, key.1, v, p);
    assert C'.Keys == parent'.Keys;
    assert WellKeyed(parent');
    forall k | k in C' ensures ValidKey(|d|, k) && Entry(d, C', k.0, k.1, C'[k], parent'[k]) {
      if k != key {
        assert k in C && C'[k] == C[k] && parent'[k] == parent[k];
      }
    }
  }

  lemma OldEntriesKept(d: Matrix, C: Table, C': Table, parent: Parents)
    requires Filled(d, C, parent) && Submap(C, C')
    ensures forall k | k in C :: ValidKey(|d|, k) && Entry(d, C', k.0, k.1, C[k], parent[k])
  {
    forall k | k in C ensures ValidKey(|d|, k) && Entry(d, C', k.0, k.1, C[k], parent[k]) {
      EntryMono(d, C, C', k.0, k.1, C[k], parent[k]);
    }
  }

  /** The path `_reconstruct_path_bhk` reads off `parent`, from the first city after 0 up to `c`. */
  ghost function Walk(parent: Parents, S: set<nat>, c: nat): seq<nat>
    requires WellKeyed(parent)
    decreases |S|
  {
    if S == {} then []
    else if (S, c) !in parent then [c]
    else Walk(parent, S - {c}, parent[(S, c)]) + [c]
  }

  /** `w` is a route from 0 through exactly `S`, ending at `j`, of cost `v`. */
  ghost predicate Reaches(d: Matrix, w: seq<nat>, S: set<nat>, j: nat, v: int)
  {
    |d| >= 1 && IsRoute(w, S, j) && InRange(w, |d|) && RouteCost(d, w) == v
  }

  /** Following `parent` from a computed state yields a route through its subset that costs `C`'s value. */
  lemma {:induction false} WalkIsRoute(d: Matrix, C: Table, parent: Parents, S: set<nat>, j: nat)
    requires Filled(d, C, parent) && (S, j) in C
    decreases |S|
    ensures Reaches(d, Walk(parent, S, j), S, j, C[(S, j)])
  {
    EntryFacts(d, C, parent, S, j);
    var p := parent[(S, j)];
    if S == {j} {
      WalkFirst(parent, j);
      RouteOne(d, j);
    } else {
      WalkIsRoute(d, C, parent, S - {j}, p);
      WalkStep(d, parent, S, j, C[(S - {j}, p)]);
    }
  }

  /** What the recurrence says about one state of a filled table. */
  lemma EntryFacts(d: Matrix, C: Table, parent: Parents, S: set<nat>, j: nat)
    requires Filled(d, C, parent) && (S, j) in C
    ensures S <= CitySet(|d|) && j in S && (S, j) in parent && 1 <= j < |d|
    ensures S == {j} ==> C[(S, j)] == d[0][j]
    ensures S != {j} ==> var p := parent[(S, j)];
      p in S - {j} && (S - {j}, p) in C && C[(S, j)] == C[(S - {j}, p)] + d[p][j]
  {
    assert Entry(d, C, S, j, C[(S, j)], parent[(S, j)]);
  }

  /** The state of a single city walks back to the one-city route from 0. */
  lemma WalkFirst(parent: Parents, j: nat)
    requires WellKeyed(parent) && ({j}, j) in parent
    ensures Walk(parent, {j}, j) == [j]
  {
    assert {j} - {j} == {};
  }

  /** One step back through `parent` appends `j` to the walk of the smaller state. */
  lemma WalkStep(d: Matrix, parent: Parents, S: set<nat>, j: nat, v: int)
    requires WellKeyed(parent) && (S, j) in parent && S <= CitySet(|d|) && j in S
    requires var p := parent[(S, j)]; Reaches(d, Walk(parent, S - {j}, p), S - {j}, p, v)
    ensures var p := parent[(S, j)];
      Walk(parent, S, j) == Walk(parent, S - {j}, p) + [j] && Reaches(d, Walk(parent, S, j), S, j, v + d[p][j])
  {
    var p := parent[(S, j)];
    var w := Walk(parent, S - {j}, p);
    assert S != {};
    assert Walk(parent, S, j) == w + [j];
    assert w[|w| - 1] == p && p in Elems(w);
    RouteSnoc(d, w, S - {j}, p, j);
    assert S - {j} + {j} == S;
  }

  /** No route through `S` ending at `j` is cheaper than the table's value for `(S, j)`. */
  lemma {:induction false} TableLowerBound(d: Matrix, C: Table, parent: Parents, r: seq<nat>, S: set<nat>, j: nat)
    requires Filled(d, C, parent) && (S, j) in C && IsRoute(r, S, j)
    decreases |r|
    ensures InRange(r, |d|) && C[(S, j)] <= RouteCost(d, r)
  {
    RouteInRange(r, S, j, |d|);
    assert Entry(d, C, S, j, C[(S, j)], parent[(S, j)]);
    if |r| == 1 {
      RouteSingle(d, r, S, j);
    } else {
      RouteInit(d, r, S, j);
      TableLowerBound(d, C, parent, r[..|r| - 1], S - {j}, r[|r| - 2]);
    }
  }

  /**
   * `minCost` and `minPrev` are the running minimum of `C[(prev, i)] + d[i][j]`
   * over the cities `i` of `seen` whose state is in `C`; none when there is no such city.
   */
  ghost predicate LeastOver(d: Matrix, C: Table, prev: set<nat>, j: nat, seen: set<nat>, minCost: Cost, minPrev: Option<nat>)
    requires (forall i | i in prev :: i < |d|) && j < |d| && seen <= prev
  {
    match minPrev
    case None => minCost.Infinite? && forall i | i in seen :: (prev, i) !in C
    case Some(p) =>
      && p in seen && p in prev && (prev, p) in C
      && minCost == Finite(C[(prev, p)] + d[p][j])
      && forall i | i in seen && (prev, i) in C :: minCost.value <= C[(prev, i)] + d[i][j]
  }

  /**
   * The loop over `i in prev_subset`: the least `C[(prev, i)] + d[i][j]` over
   * the predecessors whose state is in `C`, or nothing when none is. A frozenset
   * is iterated in an unspecified order, so the model picks each next city arbitrarily.
   */
  method BestPredecessor(d: Matrix, C: Table, prev: set<nat>, j: nat) returns (minCost: Cost, minPrev: Option<nat>)
    requires (forall i | i in prev :: i < |d|) && j < |d|
    ensures LeastOver(d, C, prev, j, prev, minCost, minPrev)
  {
    minCost := Infinite;
    minPrev := None;
    var remaining := prev;
    ghost var seen: set<nat> := {};
    while remaining != {}
      invariant remaining <= prev && seen == prev - remaining
      invariant LeastOver(d, C, prev, j, seen, minCost, minPrev)
      decreases |remaining|
    {
      var i :| i in remaining;
      var prevKey := (prev, i);
      if prevKey in C {
        var cost := C[prevKey] + d[i][j];
        if minCost.Infinite? || cost < minCost.value {
          minCost := Finite(cost);
          minPrev := Some(i);
        }
      }
      remaining := remaining - {i};
      seen := seen + {i};
    }
    assert seen == prev;
  }

  /** The best predecessor over a complete smaller layer is the recurrence's value for `(S, j)`. */
  lemma BestIsEntry(d: Matrix, C: Table, S: set<nat>, j: nat, other: nat, minCost: Cost, minPrev: Option<nat>)
    requires S <= CitySet(|d|) && j in S && other in S - {j}
    requires forall i | i in S - {j} :: (S - {j}, i) in C
    requires LeastOver(d, C, S - {j}, j, S - {j}, minCost, minPrev)
    ensures minPrev.Some? && minCost.Finite?
    ensures Entry(d, C, S, j, minCost.value, minPrev.value)
  {
    assert S != {j};
  }

  /**
   * Part way through a subset `S`: `C` extends `C0` by exactly the states
   * `(S, j)` with `j` in `added`.
   */
  ghost predicate Partial(C0: Table, C: Table, S: set<nat>, added: set<nat>)
  {
    && Submap(C0, C) && added <= S
    && (forall key :: key in C <==> key in C0 || (key.0 == S && key.1 in added))
    && |C| == |C0| + |added|
  }

  /** Storing the state of one more city of the subset keeps `Partial`. */
  lemma PartialInsert(C0: Table, C: Table, S: set<nat>, added: set<nat>, j: nat, v: int)
    requires Partial(C0, C, S, added) && j in S && j !in added && (S, j) !in C0
    ensures (S, j) !in C
    ensures Partial(C0, C[(S, j) := v], S, added + {j})
  {
    assert (S, j) !in C;
  }

  /**
   * What the loop over one subset needs: a duplicate-free tuple of at least
   * two cities, every state of the subset minus one city already stored, and
   * no state of the subset itself stored yet.
   */
  ghost predicate SubsetReady(d: Matrix, C: Table, subset: seq<nat>)
  {
    && |subset| >= 2 && Distinct(subset) && Elems(subset) <= CitySet(|d|)
    && (forall j, i | j in Elems(subset) && i in Elems(subset) - {j} :: (Elems(subset) - {j}, i) in C)
    && (forall j | j in Elems(subset) :: (Elems(subset), j) !in C)
  }

  /** `C` is `C0` plus exactly the states `(S, j)` with `j` in `S`. */
  ghost predicate AddsSubset(C0: Table, C: Table, S: set<nat>)
  {
    forall key :: key in C <==> key in C0 || (key.0 == S && key.1 in key.0)
  }

  /** Storing city `j` of the subset `S` from its best predecessor keeps both invariants. */
  lemma SubsetStep(d: Matrix, C0: Table, C: Table, parent: Parents, S: set<nat>, added: set<nat>, j: nat, other: nat,
                   minCost: Cost, minPrev: Option<nat>)
    requires S <= CitySet(|d|) && j in S && j !in added && other in S - {j} && (S, j) !in C0
    requires forall i | i in S - {j} :: (S - {j}, i) in C0
    requires Filled(d, C, parent) && Partial(C0, C, S, added)
    requires LeastOver(d, C, S - {j}, j, S - {j}, minCost, minPrev)
    ensures minPrev.Some? && minCost.Finite?
    ensures Filled(d, C[(S, j) := minCost.value], parent[(S, j) := minPrev.value])
    ensures Partial(C0, C[(S, j) := minCost.value], S, added + {j})
  {
    BestIsEntry(d, C, S, j, other, minCost, minPrev);
    PartialInsert(C0, C, S, added, j, minCost.value);
    FilledInsert(d, C, parent, (S, j), minCost.value, minPrev.value);
  }

  lemma AddedStep(subset: seq<nat>, added: set<nat>, idx: nat)
    requires idx < |subset| && Distinct(subset)
    requires forall b | 0 <= b < |subset| :: subset[b] in added <==> b < idx
    ensures subset[idx] !in added
    ensures forall b | 0 <= b < |subset| :: subset[b] in added + {subset[idx]} <==> b < idx + 1
  {
  }

  /**
   * The loop over `j in subset`: stores the state `(S, j)` for every city `j`
   * of the subset `S`, each from its best predecessor over the states of `S - {j}`.
   */
  method FillSubset(d: Matrix, C0: Table, parent0: Parents, subset: seq<nat>) returns (C: Table, parent: Parents)
    requires Filled(d, C0, parent0) && SubsetReady(d, C0, subset)
    ensures Filled(d, C, parent) && Submap(C0, C)
    ensures AddsSubset(C0, C, Elems(subset))
    ensures |C| == |C0| + |subset|
  {
    C, parent := C0, parent0;
    var subsetSet := Elems(subset);
    ghost var added: set<nat> := {};
    for idx := 0 to |subset|
      invariant Filled(d, C, parent) && Partial(C0, C, subsetSet, added)
      invariant forall b | 0 <= b < |subset| :: subset[b] in added <==> b < idx
    {
      var j := subset[idx];
      assert j in subsetSet;
      var prevSubset := subsetSet - {j};
      var minCost, minPrev := BestPredecessor(d, C, prevSubset, j);
      ghost var other := if idx == 0 then subset[1] else subset[0];
      assert other in prevSubset;
      AddedStep(subset, added, idx);
      SubsetStep(d, C0, C, parent, subsetSet, added, j, other, minCost, minPrev);
      if minPrev.Some? {
        var key := (subsetSet, j);
        C := C[key := minCost.value];
        parent := parent[key := minPrev.value];
      }
      added := added + {j};
    }
    SubsetDone(d, C0, C, parent, subset, added);
  }

  lemma SubsetDone(d: Matrix, C0: Table, C: Table, parent: Parents, subset: seq<nat>, added: set<nat>)
    requires SubsetReady(d, C0, subset) && Filled(d, C, parent) && Partial(C0, C, Elems(subset), added)
    requires forall b | 0 <= b < |subset| :: subset[b] in added
    ensures Filled(d, C, parent) && Submap(C0, C)
    ensures AddsSubset(C0, C, Elems(subset))
    ensures |C| == |C0| + |subset|
  {
    assert added == Elems(subset);
    DistinctCard(subset);
  }

  /** `C` holds exactly the valid states whose subset has fewer than `k` cities. */
  ghost predicate Layers(n: nat, C: Table, k: nat)
  {
    forall key :: key in C <==> ValidKey(n, key) && |key.0| < k
  }

  /** Some tuple of `combos` has exactly the cities of `T`. */
  ghost predicate Lists(combos: seq<seq<nat>>, T: set<nat>)
  {
    exists x :: 0 <= x < |combos| && Elems(combos[x]) == T
  }

  /** `combos` lists each `k`-subset of the cities `1..n-1` exactly once, as ascending tuples. */
  ghost predicate EnumeratesSubsets(combos: seq<seq<nat>>, n: nat, k: nat)
  {
    && (forall x | 0 <= x < |combos| :: |combos[x]| == k && Increasing(combos[x]) && Elems(combos[x]) <= CitySet(n))
    && (forall x, y | 0 <= x < y < |combos| :: Elems(combos[x]) != Elems(combos[y]))
    && (forall T | T <= CitySet(n) && |T| == k :: Lists(combos, T))
  }

  /** `combinations(range(1, n), k)`: each `k`-subset of the cities `1..n-1` once, `C(n-1, k)` of them. */
  function CitySubsets(n: nat, k: nat): (combos: seq<seq<nat>>)
    requires n >= 1
    ensures combos == Combinations(CityRange(n), k)
    ensures |combos| == Binom(n - 1, k)
    ensures EnumeratesSubsets(combos, n, k)
  {
    var cities := CityRange(n);
    CombinationsCount(cities, k);
    CombinationsShape(cities, k);
    CombinationsDistinct(cities, k);
    CityRangeElems(n);
    CombinationsAllSubsets(n, k);
    Combinations(cities, k)
  }

  lemma CombinationsAllSubsets(n: nat, k: nat)
    ensures forall T | T <= CitySet(n) && |T| == k :: Lists(Combinations(CityRange(n), k), T)
  {
    CityRangeElems(n);
    forall T | T <= CitySet(n) && |T| == k ensures Lists(Combinations(CityRange(n), k), T) {
      assert T <= Elems(CityRange(n));
      CombinationsComplete(CityRange(n), k, T);
    }
  }

  /**
   * After the first `idx` subsets of layer `k`: `C` holds the smaller layers and
   * the states of exactly those subsets (`done`), `idx * k` states more than `C0`.
   */
  ghost predicate LayerProgress(n: nat, C0: Table, C: Table, k: nat, combos: seq<seq<nat>>, done: set<set<nat>>, idx: nat)
  {
    && (forall T | T in done :: |T| == k)
    && (forall key :: key in C <==> ValidKey(n, key) && (|key.0| < k || key.0 in done))
    && (forall x | 0 <= x < |combos| :: Elems(combos[x]) in done <==> x < idx)
    && |C| == |C0| + idx * k
  }

  /** Before its loop, subset `idx` is ready to be filled in. */
  lemma LayerStepReady(d: Matrix, C0: Table, C: Table, k: nat, combos: seq<seq<nat>>, done: set<set<nat>>, idx: nat)
    requires k >= 2 && idx < |combos|
    requires EnumeratesSubsets(combos, |d|, k) && LayerProgress(|d|, C0, C, k, combos, done, idx)
    ensures SubsetReady(d, C, combos[idx]) && |combos[idx]| == k
  {
    var n := |d|;
    var subset := combos[idx];
    var S := Elems(subset);
    IncreasingIsDistinct(subset);
    DistinctCard(subset);
    forall j, i | j in S && i in S - {j} ensures (S - {j}, i) in C {
      assert |S - {j}| == k - 1;
      assert ValidKey(n, (S - {j}, i));
    }
  }

  /** After its loop, subset `idx` counts as done. */
  lemma LayerStepDone(n: nat, C0: Table, C1: Table, C: Table, k: nat, combos: seq<seq<nat>>, done: set<set<nat>>, idx: nat)
    requires idx < |combos| && EnumeratesSubsets(combos, n, k) && LayerProgress(n, C0, C1, k, combos, done, idx)
    requires AddsSubset(C1, C, Elems(combos[idx])) && |C| == |C1| + |combos[idx]|
    ensures LayerProgress(n, C0, C, k, combos, done + {Elems(combos[idx])}, idx + 1)
  {
    var S := Elems(combos[idx]);
    IncreasingIsDistinct(combos[idx]);
    DistinctCard(combos[idx]);
    DoneIndex(n, k, combos, done, idx);
    MulAdd(idx, k, 0);
  }

  /** Marking tuple `idx` done marks no other tuple, as the tuples list distinct subsets. */
  lemma DoneIndex(n: nat, k: nat, combos: seq<seq<nat>>, done: set<set<nat>>, idx: nat)
    requires idx < |combos| && EnumeratesSubsets(combos, n, k)
    requires forall x | 0 <= x < |combos| :: Elems(combos[x]) in done <==> x < idx
    ensures forall x | 0 <= x < |combos| :: Elems(combos[x]) in done + {Elems(combos[idx])} <==> x < idx + 1
  {
    forall x | 0 <= x < |combos| && x != idx ensures Elems(combos[x]) != Elems(combos[idx]) {
      if x < idx {
        assert Elems(combos[x]) != Elems(combos[idx]);
      } else {
        assert Elems(combos[idx]) != Elems(combos[x]);
      }
    }
  }

  /** Once every subset of layer `k` is done, the layers below `k + 1` are complete. */
  lemma LayerComplete(n: nat, C0: Table, C: Table, k: nat, combos: seq<seq<nat>>, done: set<set<nat>>)
    requires EnumeratesSubsets(combos, n, k) && LayerProgress(n, C0, C, k, combos, done, |combos|)
    ensures Layers(n, C, k + 1)
    ensures |C| == |C0| + k * |combos|
  {
    forall T | T <= CitySet(n) && |T| == k ensures T in done {
      assert Lists(combos, T);
      var x :| 0 <= x < |combos| && Elems(combos[x]) == T;
    }
    MulComm(|combos|, k);
  }

  /**
   * The loop over `combinations(range(1, n), k)`: fills in every state whose
   * subset has exactly `k` cities, `k * C(n-1, k)` of them.
   */
  method FillLayer(d: Matrix, C0: Table, parent0: Parents, k: nat) returns (C: Table, parent: Parents)
    requires 2 <= k < |d|
    requires Filled(d, C0, parent0) && Layers(|d|, C0, k)
    ensures Filled(d, C, parent) && Layers(|d|, C, k + 1)
    ensures |C| == |C0| + k * Binom(|d| - 1, k)
  {
    var n := |d|;
    C, parent := C0, parent0;
    var combos := CitySubsets(n, k);
    ghost var done: set<set<nat>> := {};
    for idx := 0 to |combos|
      invariant Filled(d, C, parent) && LayerProgress(n, C0, C, k, combos, done, idx)
    {
      var subset := combos[idx];
      LayerStepReady(d, C0, C, k, combos, done, idx);
      ghost var C1 := C;
      C, parent := FillSubset(d, C, parent, subset);
      LayerStepDone(n, C0, C1, C, k, combos, done, idx);
      done := done + {Elems(subset)};
    }
    LayerComplete(n, C0, C, k, combos, done);
  }
}
