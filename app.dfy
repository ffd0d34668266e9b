/**
 * The request handlers of the web backend, reduced to what they compute:
 * the guards of `/api/solve` and `/api/generate` and the loop of
 * `/api/benchmark`. The random matrix source is a parameter `draw`, which
 * yields an `n x n` integer matrix for each size `n`.
 */
module App {
  import opened Tours
  import opened Graphs
  import opened Compare

  /** Why a handler answers 400 before doing any work. */
  datatype Rejection =
    | InvalidJson     // `/api/solve` received no JSON body
    | MatrixRequired  // `distance_matrix` missing or empty
    | TooFewCities    // `n < 3`
    | TooManyCities   // `n > 15`
    | EndTooLarge     // `end_n > 12`

  /** A handler's answer: a success payload, a 400 with its reason, or the catch-all 500. */
  datatype Response<T> = Ok(value: T) | BadRequest(reason: Rejection) | ServerError

  /** The JSON fields read by each handler; an absent field is `None`. */
  datatype SolveRequest = SolveRequest(distanceMatrix: Option<Matrix>)
  datatype GenerateRequest = GenerateRequest(n: Option<int>)
  datatype BenchmarkRequest = BenchmarkRequest(startN: Option<int>, endN: Option<int>)

  datatype Solution = Solution(results: seq<Entry>, n: nat)
  datatype Generated = Generated(distanceMatrix: Matrix, n: nat)
  datatype Record = Record(n: nat, methods: seq<Entry>)

  function GetOr(field: Option<int>, default: int): int
  {
    if field.Some? then field.value else default
  }

  /** The matrix `generate_random_graph(n)` returns for the draw of size `n`. */
  function GenerateRandomGraph(draw: nat -> Matrix, n: nat): (m: Matrix)
    requires |draw(n)| == n
    ensures |m| == n && IsSymmetric(m) && ZeroDiagonal(m)
    ensures EntriesIn(draw(n), 1, 100) ==>
      forall i, j | 0 <= i < n && 0 <= j < n && i != j :: 1 <= m[i][j] < 100
  {
    SymmetriseRange(draw(n), 1, 100);
    Symmetrise(draw(n))
  }

  /**
   * `solve_tsp`: no JSON body or no (or an empty) `distance_matrix` is a 400;
   * otherwise the comparison of both methods on that matrix and its size.
   */
  method SolveTsp(body: Option<SolveRequest>) returns (resp: Response<Solution>)
    ensures body.None? ==> resp == BadRequest(InvalidJson)
    ensures body.Some? && (body.value.distanceMatrix.None? || body.value.distanceMatrix.value == []) ==>
      resp == BadRequest(MatrixRequired)
    ensures body.Some? && body.value.distanceMatrix.Some? && body.value.distanceMatrix.value != [] ==>
      var d := body.value.distanceMatrix.value;
      resp.Ok? && resp.value.n == |d| && IsComparison(d, resp.value.results)
  {
    if body.None? {
      return BadRequest(InvalidJson);
    }
    var distanceMatrix := body.value.distanceMatrix;
    if distanceMatrix.None? || distanceMatrix.value == [] {
      return BadRequest(MatrixRequired);
    }
    var results := CompareMethods(distanceMatrix.value);
    resp := Ok(Solution(results, |distanceMatrix.value|));
  }

  /**
   * `generate_graph`: `n` defaults to 6 and must lie in `3..15`; the answer
   * echoes `n` with a symmetric zero-diagonal `n x n` matrix. Without a JSON
   * body `data.get` raises, which the catch-all turns into a 500.
   */
  function GenerateGraph(body: Option<GenerateRequest>, draw: nat -> Matrix): (resp: Response<Generated>)
    requires forall n: nat :: |draw(n)| == n
    ensures body.None? <==> resp == ServerError
    ensures resp.BadRequest? <==> body.Some? && !(3 <= GetOr(body.value.n, 6) <= 15)
    ensures resp.BadRequest? ==> resp.reason == if GetOr(body.value.n, 6) < 3 then TooFewCities else TooManyCities
    ensures resp.Ok? ==>
      var n := GetOr(body.value.n, 6);
      && 3 <= n <= 15 && resp.value.n == n && |resp.value.distanceMatrix| == n
      && IsSymmetric(resp.value.distanceMatrix) && ZeroDiagonal(resp.value.distanceMatrix)
      && resp.value.distanceMatrix == GenerateRandomGraph(draw, n)
  {
    if body.None? then ServerError
    else
      var n := GetOr(body.value.n, 6);
      if n < 3 then BadRequest(TooFewCities)
      else if n > 15 then BadRequest(TooManyCities)
      else Ok(Generated(GenerateRandomGraph(draw, n), n))
  }

  /** The record's `methods` compare both solvers on the matrix generated for its `n`. */
  ghost predicate RecordOk(draw: nat -> Matrix, r: Record)
    requires forall n: nat :: |draw(n)| == n
  {
    IsComparison(GenerateRandomGraph(draw, r.n), r.methods)
  }

  /** Records for the sizes `lo .. hi-1`, in order, each comparing both methods on the size's own generated matrix. */
  ghost predicate RecordsFor(draw: nat -> Matrix, lo: nat, hi: int, records: seq<Record>)
    requires forall n: nat :: |draw(n)| == n
  {
    && |records| == (if hi <= lo then 0 else hi - lo)
    && forall i | 0 <= i < |records| :: records[i].n == lo + i && RecordOk(draw, records[i])
  }

  /** Appending the record of size `n` extends the records by one size. */
  lemma RecordsStep(draw: nat -> Matrix, lo: nat, n: nat, records: seq<Record>, methods: seq<Entry>)
    requires forall n: nat :: |draw(n)| == n
    requires lo <= n && RecordsFor(draw, lo, n, records)
    requires RecordOk(draw, Record(n, methods))
    ensures RecordsFor(draw, lo, n + 1, records + [Record(n, methods)])
  {
    var next := records + [Record(n, methods)];
    forall i | 0 <= i < |next| ensures next[i].n == lo + i && RecordOk(draw, next[i]) {
      if i < |records| {
        assert next[i] == records[i];
      }
    }
  }

  /**
   * `benchmark`: `start_n` and `end_n` default to 3 and 10; `end_n > 12` is a
   * 400 before anything is solved. Otherwise one record per `n` in
   * `start_n..end_n`, in order. A negative `n` makes the generator raise, and
   * the catch-all discards the records built so far.
   */
  method Benchmark(body: Option<BenchmarkRequest>, draw: nat -> Matrix) returns (resp: Response<seq<Record>>)
    requires forall n: nat :: |draw(n)| == n
    ensures body.None? ==> resp == ServerError
    ensures body.Some? ==>
      var startN := GetOr(body.value.startN, 3);
      var endN := GetOr(body.value.endN, 10);
      && (endN > 12 ==> resp == BadRequest(EndTooLarge))
      && (endN <= 12 && startN < 0 && startN <= endN ==> resp == ServerError)
      && (endN <= 12 && !(startN < 0 && startN <= endN) ==>
            resp.Ok? && (startN > endN ==> resp.value == [])
            && (startN <= endN ==> RecordsFor(draw, startN, endN + 1, resp.value)))
  {
    if body.None? {
      return ServerError;
    }
    var startN := GetOr(body.value.startN, 3);
    var endN := GetOr(body.value.endN, 10);
    if endN > 12 {
      return BadRequest(EndTooLarge);
    }
    if startN > endN {
      return Ok([]);
    }
    var results: seq<Record> := [];
    var n := startN;
    while n < endN + 1
      invariant startN <= n <= endN + 1
      invariant startN >= 0 ==> RecordsFor(draw, startN, n, results)
      invariant startN < 0 ==> n == startN && results == []
    {
      if n < 0 {
        return ServerError;
      }
      var matrix := GenerateRandomGraph(draw, n);
      var methodResults := CompareMethods(matrix);
      RecordsStep(draw, startN, n, results, methodResults);
      results := results + [Record(n, methodResults)];
      n := n + 1;
    }
    resp := Ok(results);
  }
}
