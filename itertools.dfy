/**
 * The two generators of Python's `itertools` that the solver iterates over,
 * as sequences in the order they yield:
 * `permutations(s)` in lexicographic order of positions, and
 * `combinations(s, k)` in lexicographic order of positions.
 */
module Itertools {
  import opened Seqs
  import opened Counting
  import opened Tours

  /** Puts `x` in front of every sequence of `ps`. */
  function Prepend(x: nat, ps: seq<seq<nat>>): (r: seq<seq<nat>>)
    ensures |r| == |ps|
    ensures forall k | 0 <= k < |ps| :: r[k] == [x] + ps[k]
  {
    seq(|ps|, k requires 0 <= k < |ps| => [x] + ps[k])
  }

  function RemoveAt(s: seq<nat>, i: nat): (r: seq<nat>)
    requires i < |s|
    ensures |r| == |s| - 1
  {
    s[..i] + s[i + 1..]
  }

  /** `itertools.permutations(s)`: first every order starting with `s[0]`, then with `s[1]`, ... */
  function Permutations(s: seq<nat>): seq<seq<nat>>
    decreases |s|, 1
  {
    if |s| == 0 then [[]] else PermutationsFrom(s, 0)
  }

  /** The orders of `s` whose first element is `s[i]`, `s[i+1]`, ... in turn. */
  function PermutationsFrom(s: seq<nat>, i: nat): seq<seq<nat>>
    requires i <= |s|
    decreases |s|, 0, |s| - i
  {
    if i == |s| then []
    else Prepend(s[i], Permutations(RemoveAt(s, i))) + PermutationsFrom(s, i + 1)
  }

  /** `itertools.combinations(s, k)`: the `k`-element subsequences of `s`. */
  function Combinations(s: seq<nat>, k: nat): seq<seq<nat>>
    decreases |s|
  {
    if k == 0 then [[]]
    else if |s| == 0 then []
    else Prepend(s[0], Combinations(s[1..], k - 1)) + Combinations(s[1..], k)
  }

  /** Each sequence of `ps` is lexicographically smaller than the next. */
  predicate LexSorted(ps: seq<seq<nat>>)
  {
    forall a, b | 0 <= a < b < |ps| :: LexLess(ps[a], ps[b])
  }

  // ---------------------------------------------------------------------------
  // permutations

  /** `permutations` of `m` items yields `m!` tuples. */
  lemma {:induction false} PermutationsCount(s: seq<nat>)
    ensures |Permutations(s)| == Factorial(|s|)
    decreases |s|, 1
  {
    if |s| > 0 {
      PermutationsFromCount(s, 0);
    }
  }

  lemma {:induction false} PermutationsFromCount(s: seq<nat>, i: nat)
    requires 1 <= |s| && i <= |s|
    ensures |PermutationsFrom(s, i)| == (|s| - i) * Factorial(|s| - 1)
    decreases |s|, 0, |s| - i
  {
    if i < |s| {
      PermutationsCount(RemoveAt(s, i));
      PermutationsFromCount(s, i + 1);
      MulAdd(|s| - i - 1, Factorial(|s| - 1), 0);
    }
  }

  /** Every tuple yielded by `permutations(s)` orders exactly the elements of `s`. */
  lemma {:induction false} PermutationsSound(s: seq<nat>)
    requires Distinct(s)
    ensures forall p | p in Permutations(s) :: IsPermutation(p, Elems(s))
    decreases |s|, 1
  {
    if |s| > 0 {
      PermutationsFromSound(s, 0);
    }
  }

  lemma {:induction false} PermutationsFromSound(s: seq<nat>, i: nat)
    requires Distinct(s) && i <= |s|
    ensures forall p | p in PermutationsFrom(s, i) :: IsPermutation(p, Elems(s))
    decreases |s|, 0, |s| - i
  {
    if i < |s| {
      var rest := RemoveAt(s, i);
      RemoveAtElems(s, i);
      PermutationsSound(rest);
      PermutationsFromSound(s, i + 1);
      var heads := Prepend(s[i], Permutations(rest));
      forall p | p in heads ensures IsPermutation(p, Elems(s)) {
        var k :| 0 <= k < |heads| && heads[k] == p;
        var q := Permutations(rest)[k];
        assert q in Permutations(rest);
        DistinctCons(s[i], q);
        ElemsCons(s[i], q);
      }
    }
  }

  /** Every order of the elements of `s` is yielded by `permutations(s)`. */
  lemma {:induction false} PermutationsComplete(s: seq<nat>, p: seq<nat>)
    requires Distinct(s) && IsPermutation(p, Elems(s))
    ensures p in Permutations(s)
    decreases |s|
  {
    if |s| == 0 {
      DistinctCard(p);
    } else {
      assert s[0] in Elems(s);
      assert p != [];
      var x := p[0];
      assert x in Elems(s);
      var i :| 0 <= i < |s| && s[i] == x;
      var rest := RemoveAt(s, i);
      RemoveAtElems(s, i);
      var q := p[1..];
      assert p == [x] + q;
      forall b | 0 <= b < |q| ensures q[b] != x {
        assert q[b] == p[b + 1];
      }
      assert x !in Elems(q);
      ElemsCons(x, q);
      assert Elems(q) == Elems(rest);
      PermutationsComplete(rest, q);
      var k :| 0 <= k < |Permutations(rest)| && Permutations(rest)[k] == q;
      assert Prepend(x, Permutations(rest))[k] == p;
      BlockInPermutationsFrom(s, 0, i, p);
    }
  }

  lemma {:induction false} BlockInPermutationsFrom(s: seq<nat>, i0: nat, i: nat, p: seq<nat>)
    requires i0 <= i < |s|
    requires p in Prepend(s[i], Permutations(RemoveAt(s, i)))
    ensures p in PermutationsFrom(s, i0)
    decreases i - i0
  {
    if i0 < i {
      BlockInPermutationsFrom(s, i0 + 1, i, p);
    }
  }

  lemma PrependSorted(x: nat, ps: seq<seq<nat>>)
    requires LexSorted(ps)
    ensures LexSorted(Prepend(x, ps))
  {
    var r := Prepend(x, ps);
    forall a, b | 0 <= a < b < |r| ensures LexLess(r[a], r[b]) {
      assert r[a][1..] == ps[a] && r[b][1..] == ps[b];
    }
  }

  lemma ConcatSorted(xs: seq<seq<nat>>, ys: seq<seq<nat>>)
    requires LexSorted(xs) && LexSorted(ys)
    requires forall a, b | 0 <= a < |xs| && 0 <= b < |ys| :: LexLess(xs[a], ys[b])
    ensures LexSorted(xs + ys)
  {
    var r := xs + ys;
    forall a, b | 0 <= a < b < |r| ensures LexLess(r[a], r[b]) {
      if b < |xs| {
        assert r[a] == xs[a] && r[b] == xs[b];
      } else if a >= |xs| {
        assert r[a] == ys[a - |xs|] && r[b] == ys[b - |xs|];
      } else {
        assert r[a] == xs[a] && r[b] == ys[b - |xs|];
      }
    }
  }

  /** On an ascending list, `permutations` yields in strictly increasing lexicographic order. */
  lemma {:induction false} PermutationsSorted(s: seq<nat>)
    requires Increasing(s)
    ensures LexSorted(Permutations(s))
    decreases |s|, 1
  {
    if |s| > 0 {
      PermutationsFromSorted(s, 0);
    }
  }

  lemma {:induction false} PermutationsFromSorted(s: seq<nat>, i: nat)
    requires Increasing(s) && i <= |s|
    ensures LexSorted(PermutationsFrom(s, i))
    ensures forall k | 0 <= k < |PermutationsFrom(s, i)| ::
              i < |s| && |PermutationsFrom(s, i)[k]| > 0 && PermutationsFrom(s, i)[k][0] >= s[i]
    decreases |s|, 0, |s| - i
  {
    if i < |s| {
      var rest := RemoveAt(s, i);
      RemoveAtIncreasing(s, i);
      PermutationsSorted(rest);
      PermutationsFromSorted(s, i + 1);
      var heads := Prepend(s[i], Permutations(rest));
      var tails := PermutationsFrom(s, i + 1);
      PrependSorted(s[i], Permutations(rest));
      forall a, b | 0 <= a < |heads| && 0 <= b < |tails| ensures LexLess(heads[a], tails[b]) {
        assert heads[a][0] == s[i] < s[i + 1] <= tails[b][0];
      }
      ConcatSorted(heads, tails);
      var all := heads + tails;
      assert PermutationsFrom(s, i) == all;
      forall k | 0 <= k < |all| ensures |all[k]| > 0 && all[k][0] >= s[i] {
        if k >= |heads| {
          assert all[k] == tails[k - |heads|];
        }
      }
    }
  }

  // ---------------------------------------------------------------------------
  // combinations

  /** `combinations` of `m` items taken `k` at a time yields `C(m, k)` tuples. */
  lemma {:induction false} CombinationsCount(s: seq<nat>, k: nat)
    ensures |Combinations(s, k)| == Binom(|s|, k)
    decreases |s|
  {
    if k > 0 && |s| > 0 {
      var t := s[1..];
      CombinationsCount(t, k - 1);
      CombinationsCount(t, k);
      assert Combinations(s, k) == Prepend(s[0], Combinations(t, k - 1)) + Combinations(t, k);
      assert Binom(|s|, k) == Binom(|t|, k - 1) + Binom(|t|, k);
    }
  }

  /** Every tuple has `k` elements, ascending, drawn from `s`. */
  lemma {:induction false} CombinationsShape(s: seq<nat>, k: nat)
    requires Increasing(s)
    ensures forall x | 0 <= x < |Combinations(s, k)| ::
              |Combinations(s, k)[x]| == k && Increasing(Combinations(s, k)[x])
              && Elems(Combinations(s, k)[x]) <= Elems(s)
    decreases |s|
  {
    if k > 0 && |s| > 0 {
      var t := s[1..];
      CombinationsShape(t, k - 1);
      CombinationsShape(t, k);
      var with := Prepend(s[0], Combinations(t, k - 1));
      var without := Combinations(t, k);
      assert Elems(s) == {s[0]} + Elems(t) by { assert s == [s[0]] + t; }
      forall x | 0 <= x < |with + without|
        ensures |(with + without)[x]| == k && Increasing((with + without)[x])
                && Elems((with + without)[x]) <= Elems(s)
      {
        if x < |with| {
          var c := Combinations(t, k - 1)[x];
          assert (with + without)[x] == [s[0]] + c;
          ElemsCons(s[0], c);
          forall b | 0 <= b < |c| ensures s[0] < c[b] {
            assert c[b] in Elems(c);
            var y :| 0 <= y < |t| && t[y] == c[b];
            assert s[y + 1] == c[b];
          }
        } else {
          assert (with + without)[x] == without[x - |with|];
        }
      }
    }
  }

  /** No two tuples of `combinations` hold the same set of elements. */
  lemma {:induction false} CombinationsDistinct(s: seq<nat>, k: nat)
    requires Increasing(s)
    ensures forall x, y | 0 <= x < y < |Combinations(s, k)| ::
              Elems(Combinations(s, k)[x]) != Elems(Combinations(s, k)[y])
    decreases |s|
  {
    if k > 0 && |s| > 0 {
      var t := s[1..];
      CombinationsDistinct(t, k - 1);
      CombinationsDistinct(t, k);
      CombinationsShape(t, k - 1);
      CombinationsShape(t, k);
      var with := Prepend(s[0], Combinations(t, k - 1));
      var without := Combinations(t, k);
      forall y | 0 <= y < |t| ensures t[y] != s[0] {
        assert t[y] == s[y + 1];
      }
      assert s[0] !in Elems(t);
      forall x, y | 0 <= x < y < |with + without|
        ensures Elems((with + without)[x]) != Elems((with + without)[y])
      {
        if y < |with| {
          var cx, cy := Combinations(t, k - 1)[x], Combinations(t, k - 1)[y];
          assert (with + without)[x] == [s[0]] + cx && (with + without)[y] == [s[0]] + cy;
          ElemsCons(s[0], cx);
          ElemsCons(s[0], cy);
          assert Elems(cx) == Elems((with + without)[x]) - {s[0]};
          assert Elems(cy) == Elems((with + without)[y]) - {s[0]};
        } else if x >= |with| {
          assert (with + without)[x] == without[x - |with|];
          assert (with + without)[y] == without[y - |with|];
        } else {
          var cx := Combinations(t, k - 1)[x];
          assert (with + without)[x] == [s[0]] + cx;
          ElemsCons(s[0], cx);
          assert (with + without)[y] == without[y - |with|];
        }
      }
    }
  }

  /** Every `k`-subset of the elements of `s` is the set of some tuple of `combinations(s, k)`. */
  lemma {:induction false} CombinationsComplete(s: seq<nat>, k: nat, S: set<nat>)
    requires Increasing(s) && S <= Elems(s) && |S| == k
    ensures exists x :: 0 <= x < |Combinations(s, k)| && Elems(Combinations(s, k)[x]) == S
    decreases |s|, 1
  {
    if |s| == 0 || k == 0 {
      assert S == {};
      assert Elems(Combinations(s, k)[0]) == S;
    } else {
      var t := s[1..];
      assert Elems(s) == {s[0]} + Elems(t) by { assert s == [s[0]] + t; }
      var with := Prepend(s[0], Combinations(t, k - 1));
      var without := Combinations(t, k);
      assert Combinations(s, k) == with + without;
      if s[0] in S {
        var x := WithHead(t, k, s[0], S);
        assert (with + without)[x] == with[x];
      } else {
        var x := Without(t, k, S);
        assert (with + without)[|with| + x] == without[x];
      }
    }
  }

  lemma WithHead(t: seq<nat>, k: nat, h: nat, S: set<nat>) returns (x: nat)
    requires Increasing(t) && k >= 1 && h in S && S - {h} <= Elems(t) && |S| == k
    ensures x < |Combinations(t, k - 1)|
    ensures Elems(Prepend(h, Combinations(t, k - 1))[x]) == S
    decreases |t| + 1, 0
  {
    CombinationsComplete(t, k - 1, S - {h});
    x :| 0 <= x < |Combinations(t, k - 1)| && Elems(Combinations(t, k - 1)[x]) == S - {h};
    ElemsCons(h, Combinations(t, k - 1)[x]);
  }

  lemma Without(t: seq<nat>, k: nat, S: set<nat>) returns (x: nat)
    requires Increasing(t) && S <= Elems(t) && |S| == k
    ensures x < |Combinations(t, k)| && Elems(Combinations(t, k)[x]) == S
    decreases |t| + 1, 0
  {
    CombinationsComplete(t, k, S);
    x :| 0 <= x < |Combinations(t, k)| && Elems(Combinations(t, k)[x]) == S;
  }
}
