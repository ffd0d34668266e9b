# TSP solver core in Dafny

This project models the solving engine of a small travelling-salesman web
application, together with its benchmark driver. The engine is the
`TSPSolver` class of `backend/tsp_solver.py`:

- an exhaustive search (`brute_force`);
- the Bellman-Held-Karp dynamic programme (`bellman_held_karp`, with its path
  reconstruction `_reconstruct_path_bhk`);
- the comparison of the two (`compare_methods`);
- the deterministic part of the random-graph generator;
- the fixed 6-city example graph.

From `backend/app.py`, the model covers the input guards of the `/api/solve`
and `/api/generate` handlers and the loop of `/api/benchmark`.

Every tour starts and ends at city 0. A tour is an order `perm` of the cities
`1..n-1`. Its cycle `[0] + perm + [0]` costs the sum of the distances between
consecutive cities.

What the model proves:

- **Brute force.** It returns an optimal cycle of length `n + 1` and explores
  `(n-1)!` permutations. Among optimal tours it returns the lexicographically
  first.
- **Held-Karp table.** Every entry `C[(S, j)]` obeys Bellman's recurrence and is
  the cost of the route reconstructed from `parent`. No route from 0 through
  exactly `S` that ends at `j` is cheaper. The table ends up with
  `(n-1) * 2^(n-2)` entries.
- **Held-Karp result.** The closing step and the reconstruction give an optimal
  cycle. No tour ending at a smaller last city is as cheap.
- **Agreement.** From two cities on, both methods report the same cost. With a
  single city they disagree.
- **Driver and handlers.** The driver produces one record per size, in order.
  Every record compares both methods on the matrix generated for that size.
  The handlers reject exactly the inputs their guards name.

Modules, one per file:

- `Seqs`: sequence facts.
- `Counting`: factorials, binomials and the two closed forms.
- `Tours`: matrices, tours and cycle costs.
- `Itertools`: `permutations` and `combinations`.
- `BruteForce`.
- `HeldKarp`: the table and its invariant.
- `BellmanHeldKarp`: the whole programme.
- `Compare`.
- `Graphs`: symmetrising and the example matrix.
- `App`.

Decisions worth knowing:

- **Distances** are unbounded integers. Only squareness is assumed (the
  `Matrix` type). No proof needs symmetry or a zero diagonal.
- **Infinity.** `float('inf')` is the constructor `Infinite` of `Cost`.
- **Python iterators.** `itertools.permutations` and `itertools.combinations`
  are modelled as lists in the order the library yields them.
- **Set iteration.** The loop over a `frozenset` (`for i in prev_subset`) takes
  the remaining elements in an arbitrary order, chosen by `:|`.
- **Randomness.** The random source of `generate_random_graph` is the
  parameter `draw`, which supplies an `n x n` matrix for each `n`.
- **Edge cases of `compare_methods`.** An empty matrix makes `brute_force`
  raise `IndexError`, which `compare_methods` catches. A one-city matrix gets a
  finite brute-force cost `d[0][0]` but an infinite Held-Karp cost.
  `Compare.SingleCityDisagreement` states this.
- **What the code does not check.** The model follows the code as written.
  - No matrix validation: squareness, symmetry, a zero diagonal and
    non-negative entries are never checked by `solve_tsp` or `TSPSolver`.
    No lower bound on the number of cities is checked either. The only size
    tests are the per-method caps in `compare_methods` (tsp_solver.py:157 and
    :175) and the empty-matrix guard in `solve_tsp` (app.py:24).
  - The benchmark rejects only `end_n > 12` (app.py:101). It neither clamps
    the range nor checks `start_n`.
  - The brute-force error message at tsp_solver.py:170 says `n > 10`,
    although the test at tsp_solver.py:157 is `n <= 15`. The model uses the
    test.

## Model

| member | source | states |
|---|---|---|
| `Tours.CityRange` | backend/tsp_solver.py:22 | `list(range(1, n))` is the ascending list `1..n-1` (empty when `n <= 1`) |
| `Tours.CitySet` | backend/tsp_solver.py:103 | `frozenset(range(1, n))` holds exactly the cities `i` with `1 <= i < n` |
| `Itertools.PermutationsCount` | backend/tsp_solver.py:29 | `permutations` of `s` yields `|s|!` tuples |
| `Itertools.PermutationsSound` | backend/tsp_solver.py:29 | each yielded tuple is a duplicate-free arrangement of exactly the elements of `s` |
| `Itertools.PermutationsComplete` | backend/tsp_solver.py:29 | every duplicate-free arrangement of the elements of `s` is yielded |
| `Itertools.PermutationsSorted` | backend/tsp_solver.py:29 | for an ascending input the tuples come in strictly ascending lexicographic order |
| `Itertools.CombinationsCount` | backend/tsp_solver.py:77 | `combinations(s, k)` yields `C(|s|, k)` tuples |
| `Itertools.CombinationsShape` | backend/tsp_solver.py:77 | each tuple has `k` elements, ascending, drawn from `s` |
| `Itertools.CombinationsDistinct` | backend/tsp_solver.py:77 | no two tuples have the same set of elements |
| `Itertools.CombinationsComplete` | backend/tsp_solver.py:77 | every `k`-subset of an ascending `s` is the element set of some tuple |
| `Counting.StateCountClosedForm` | backend/tsp_solver.py:125 | the number of (non-empty subset, member) pairs of an `m`-set is `m * 2^(m-1)` |
| `BruteForce.PathCost` | backend/tsp_solver.py:35-37 | the inner loop's `cost` is the sum of the edges between consecutive cities of `path` |
| `BruteForce.CityPermutations` | backend/tsp_solver.py:22-29 | the permutations of the cities `1..n-1` are exactly the tours, `(n-1)!` of them, in ascending order |
| `BruteForce.ScanStep` | backend/tsp_solver.py:40-42 | replacing the minimum only when `cost < min_cost` keeps the first least-cost permutation seen so far |
| `BruteForce.MinimumIsOptimal` | backend/tsp_solver.py:29-42 | a permutation no dearer than any enumerated one gives an optimal cycle |
| `BruteForce.FirstMinimumIsLexFirst` | backend/tsp_solver.py:40-42 | the first strict minimum is lexicographically before every other tour of equal cost |
| `BruteForce.FirstMinimumIsOptimal` | backend/tsp_solver.py:29-52 | the scan's final state is the complete brute-force result |
| `BruteForce.BruteForce` | backend/tsp_solver.py:14-52 | for `n >= 1`: an optimal cycle `[0, ..., 0]` of length `n+1`, `paths_explored == (n-1)!`, the lexicographically first optimal tour |
| `HeldKarp.FilledInsert` | backend/tsp_solver.py:97-100 | storing a state whose value and parent obey the recurrence keeps every stored entry obeying it |
| `HeldKarp.BestPredecessor` | backend/tsp_solver.py:85-95 | `min_prev` is a predecessor of least `C[(S-{j}, i)] + d[i][j]` among those in `C`, or `None` exactly when none is in `C` |
| `HeldKarp.BestIsEntry` | backend/tsp_solver.py:83-100 | over a complete smaller layer a predecessor exists and the stored value is Bellman's recurrence for `(S, j)` |
| `HeldKarp.SubsetStep` | backend/tsp_solver.py:97-100 | storing the state of one more city of a subset keeps the invariant and adds exactly that key |
| `HeldKarp.FillSubset` | backend/tsp_solver.py:81-100 | the loop over `j in subset` adds exactly the states `(S, j)` with `j in S`, all obeying the recurrence, and overwrites nothing |
| `HeldKarp.CitySubsets` | backend/tsp_solver.py:77 | `combinations(range(1, n), k)` lists each `k`-subset of `1..n-1` exactly once, `C(n-1, k)` of them |
| `HeldKarp.LayerComplete` | backend/tsp_solver.py:77-100 | once every tuple of size `k` is processed, the table holds exactly the states of fewer than `k+1` cities |
| `HeldKarp.FillLayer` | backend/tsp_solver.py:75-100 | one pass of the size loop adds exactly the states of size `k`, `k * C(n-1, k)` of them |
| `HeldKarp.WalkIsRoute` | backend/tsp_solver.py:137-144 | walking back through `parent` from a stored state gives a route from 0 through exactly `S`, ending at `j`, that costs `C[(S, j)]` |
| `HeldKarp.TableLowerBound` | backend/tsp_solver.py:75-100 | no route from 0 through exactly `S` ending at `j` is cheaper than `C[(S, j)]` |
| `BellmanHeldKarp.InitSingletons` | backend/tsp_solver.py:69-72 | after initialisation the table holds exactly `({j}, j) -> d[0][j]` with parent 0 for `1 <= j < n` |
| `BellmanHeldKarp.FillTable` | backend/tsp_solver.py:65-100 | the table holds exactly the valid states, all obeying the recurrence, `(n-1) * 2^(n-2)` of them (0 for `n <= 1`) |
| `BellmanHeldKarp.TableSize` | backend/tsp_solver.py:125 | `len(C)` over the layers `1..n-1` is `(n-1) * 2^(n-2)` |
| `BellmanHeldKarp.CloseTour` | backend/tsp_solver.py:103-113 | `last_city` is the smallest `j` of least `C[(all, j)] + d[j][0]`, or `None` with infinite cost when no `(all, j)` is stored |
| `BellmanHeldKarp.ReconstructPath` | backend/tsp_solver.py:128-151 | the loop ends, and the path is `[0]`, then the walk back through `parent` in forward order, then `[0]` |
| `BellmanHeldKarp.HeldKarpOptimal` | backend/tsp_solver.py:103-116 | with `n >= 2` the reconstructed cycle is optimal and every tour ending at a smaller last city costs strictly more |
| `BellmanHeldKarp.BellmanHeldKarp` | backend/tsp_solver.py:54-126 | `states_computed == (n-1) * 2^(n-2)`; for `n >= 2` an optimal cycle of length `n+1`; for `n <= 1` cost infinite and path `[0, 0]` |
| `Compare.CompareMethods` | backend/tsp_solver.py:153-192 | two entries, brute force first: a result iff `1 <= n <= 15` (error otherwise), a Held-Karp result iff `n <= 20`; equal costs when both run with `n >= 2` |
| `Compare.OptimalCostUnique` | backend/tsp_solver.py:54-58 | two optimal cycles of one matrix have the same cost |
| `Compare.SolversAgree` | backend/tsp_solver.py:14-58 | from two cities on, the brute-force and Held-Karp costs are equal |
| `Compare.SingleCityDisagreement` | backend/tsp_solver.py:103-116 | with one city, brute force reports `d[0][0]` while Held-Karp reports an infinite cost, both with path `[0, 0]` |
| `Graphs.Symmetrise` | backend/tsp_solver.py:202-203 | `(M + M.T) // 2` with a zeroed diagonal is symmetric, has a zero diagonal, and each entry lies between `M[i][j]` and `M[j][i]` |
| `Graphs.SymmetriseRange` | backend/tsp_solver.py:200-203 | entries drawn from `[lo, hi)` stay in `[lo, hi)` off the diagonal |
| `Graphs.SymmetriseFixes` | backend/tsp_solver.py:202-203 | a symmetric matrix with a zero diagonal is left unchanged |
| `Graphs.SymmetriseIdempotent` | backend/tsp_solver.py:202-203 | symmetrising twice equals symmetrising once |
| `Graphs.ExampleGraph6` | backend/tsp_solver.py:209-220 | the example has 6 cities, is symmetric, has a zero diagonal, with entries in `[0, 36)` |
| `Graphs.ExampleIsSymmetrised` | backend/tsp_solver.py:209-220 | the example is a fixed point of the generator's post-processing |
| `App.GenerateRandomGraph` | backend/tsp_solver.py:195-206 | an `n x n` symmetric zero-diagonal matrix whose off-diagonal entries stay in `[1, 100)` when the draw's do |
| `App.SolveTsp` | backend/app.py:16-34 | no JSON gives a 400; a missing or empty matrix gives a 400; otherwise the comparison on that matrix and `n == len(matrix)` |
| `App.GenerateGraph` | backend/app.py:47-63 | `n` defaults to 6; rejected exactly when outside `3..15` (below 3 and above 15 as separate reasons); otherwise `n` echoed with the matrix `generate_random_graph(n)` of that draw: `n x n`, symmetric, zero diagonal |
| `App.RecordsStep` | backend/app.py:106-115 | appending the record for `n` keeps one record per size, in ascending order |
| `App.Benchmark` | backend/app.py:96-120 | defaults 3 and 10; `end_n > 12` is rejected with no record; a negative size is a server error; otherwise one record per `n` in `start_n..end_n` in order, each the comparison on that size's own matrix |

## Left out

- Wall-clock timing: the `time` fields and the `time.time()` calls are not modelled.
- Random number generation (`np.random.seed`, `np.random.randint`): the source of random matrices is the parameter `draw`.
- Floating point: `float(min_cost)` is the integer cost itself, and `float('inf')` is `Infinite`.
- Machine integers: numpy's `int64` overflow in cost sums is not modelled.
- Flask concerns: routing, JSON marshalling, CORS, logging, `print` and HTTP status codes. Responses are reduced to `Ok`, a 400 with its reason, or the catch-all 500.
- Error-message text: error entries carry only the solver and whether the size cap was exceeded or an exception was caught.
- Matrices that are not square integer tables: the model types the matrix as a square integer table (`Matrix`), and the source's behaviour on other tables is not modelled. That behaviour:
  - extra columns are accepted, and both solvers compute on the leading `n x n` block (they only read `d[i][j]` with `i, j < n`);
  - rows shorter than `n` make the solvers raise `IndexError`, which `compare_methods` turns into error entries;
  - float entries are read correctly and give float costs;
  - ragged rows make `np.array` raise, which `solve_tsp` turns into a 500.
- Non-integer request fields, e.g. a string `n`: these fields are typed `int`.
- Exceptions other than the empty-matrix `IndexError` in `compare_methods`, e.g. running out of memory: not modelled.
- The `/api/example` handler: it only returns `get_example_graph_6`, which `Graphs.ExampleGraph6` models.
- The frontend: not part of this model.
- `BellmanHeldKarp.ReconstructPath`: requires a last city whenever the set of cities is non-empty. With `last_city = None` Python would put `None` into the path. `bellman_held_karp` never calls it that way, which `BellmanHeldKarp.CloseFindsCity` proves.
- `BellmanHeldKarp.HeldKarpOptimal`: does not fix which optimal path is returned when predecessor costs tie, because that depends on `frozenset` iteration order. It states the cost, validity and last-city facts only.
