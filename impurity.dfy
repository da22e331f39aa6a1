/** Impurity of a multiset of class labels: entropy (ID3, C4.5) and Gini
    impurity (CART). Both are computed from the `Counter` of the labels,
    whose keys are the distinct labels in order of first appearance.
    Entropy needs a base-2 logarithm, which is not part of the model: it is
    a parameter `log2`, and what is proved about entropy holds whatever
    `log2` is, or assumes only `log2(1.0) == 0.0`. */
module Impurity {
  import opened Counting
  import opened Dataset

  /** `k / n` as a real; the inducers only divide by the size of a
      non-empty view. */
  function Frac(k: nat, n: nat): real
  {
    if n == 0 then 0.0 else k as real / n as real
  }

  /** `sum(p * log2(p) for the counts of keys)`, with `p = count / |ls|`. */
  function PLogP(ls: seq<Value>, keys: seq<Value>, log2: real -> real): real
  {
    if keys == [] then 0.0
    else
      var p := Frac(Count(ls, keys[|keys| - 1]), |ls|);
      PLogP(ls, keys[..|keys| - 1], log2) + p * log2(p)
  }

  /** `entropy(y) = -sum(p * log2(p))` over the class frequencies of `y`. */
  function Entropy(ls: seq<Value>, log2: real -> real): real
  {
    -PLogP(ls, Distinct(ls), log2)
  }

  /** A pure label multiset has entropy 0 (given `log2(1) = 0`). */
  lemma EntropyOfPure(ls: seq<Value>, log2: real -> real)
    requires log2(1.0) == 0.0
    requires ls != [] && forall i :: 0 <= i < |ls| ==> ls[i] == ls[0]
    ensures Entropy(ls, log2) == 0.0
  {
    DistinctOfConstant(ls);
    CountOfConstant(ls, ls[0]);
    var p := Frac(Count(ls, ls[0]), |ls|);
    assert p == 1.0 by { FracOfWhole(|ls|); }
    assert p * log2(p) == 0.0;
    var keys := [ls[0]];
    assert keys[..0] == [] && keys[|keys| - 1] == ls[0];
    assert PLogP(ls, keys, log2) == PLogP(ls, [], log2) + p * log2(p);
  }

  /** Sum of the squared counts of keys. */
  function SumSq(ls: seq<Value>, keys: seq<Value>): nat
  {
    if keys == [] then 0
    else SumSq(ls, keys[..|keys| - 1]) + Count(ls, keys[|keys| - 1]) * Count(ls, keys[|keys| - 1])
  }

  /** `sum((count / total) ** 2)` over the counts of keys. */
  function SquaredShares(ls: seq<Value>, keys: seq<Value>): real
  {
    if keys == [] then 0.0
    else
      var p := Frac(Count(ls, keys[|keys| - 1]), |ls|);
      SquaredShares(ls, keys[..|keys| - 1]) + p * p
  }

  /** `gini(y) = 1 - sum((count / total) ** 2)` over the class counts of `y`. */
  function Gini(ls: seq<Value>): real
  {
    1.0 - SquaredShares(ls, Distinct(ls))
  }

  /** The squared shares add up to the sum of the squared counts over the
      squared total. */
  lemma {:induction false} SquaredSharesAsCounts(ls: seq<Value>, keys: seq<Value>)
    requires |ls| > 0
    ensures SquaredShares(ls, keys) == Frac(SumSq(ls, keys), |ls| * |ls|)
  {
    if keys != [] {
      var init := keys[..|keys| - 1];
      SquaredSharesAsCounts(ls, init);
      var c := Count(ls, keys[|keys| - 1]);
      SquareOfFrac(c, |ls|);
      FracAdd(SumSq(ls, init), c * c, |ls| * |ls|);
    }
  }

  lemma SquareOfFrac(c: nat, n: nat)
    requires n > 0
    ensures Frac(c, n) * Frac(c, n) == Frac(c * c, n * n)
  {
    var x, y := c as real, n as real;
    assert (c * c) as real == x * x && (n * n) as real == y * y;
    assert (x / y) * (x / y) == (x * x) / (y * y);
  }

  /** For positive counts, the sum of squares is at most the square of the
      sum, and strictly less as soon as there are two counts. */
  lemma {:induction false} SumSqBound(ls: seq<Value>, keys: seq<Value>)
    requires forall k :: k in keys ==> k in ls
    ensures SumSq(ls, keys) <= SumCounts(ls, keys) * SumCounts(ls, keys)
    ensures |keys| >= 2 ==> SumSq(ls, keys) < SumCounts(ls, keys) * SumCounts(ls, keys)
    ensures |keys| >= 1 ==> SumSq(ls, keys) >= 1
    ensures |keys| == 1 ==> SumSq(ls, keys) == SumCounts(ls, keys) * SumCounts(ls, keys)
  {
    if keys != [] {
      var init := keys[..|keys| - 1];
      assert forall k :: k in init ==> k in keys;
      SumSqBound(ls, init);
      var c := Count(ls, keys[|keys| - 1]);
      var s := SumCounts(ls, init);
      var q := SumSq(ls, init);
      CountPositive(ls, keys[|keys| - 1]);
      SquareStep(s, c, q);
      if |keys| >= 2 {
        assert init != [];
        CountPositive(ls, init[|init| - 1]);
        assert s >= Count(ls, init[|init| - 1]) >= 1;
        SquareStepStrict(s, c, q);
      }
    }
  }

  lemma SquareStep(s: nat, c: nat, q: nat)
    requires q <= s * s
    ensures q + c * c <= (s + c) * (s + c)
    ensures s == 0 && q == 0 ==> q + c * c == (s + c) * (s + c)
    ensures c >= 1 ==> c * c >= 1
  {
    assert (s + c) * (s + c) == s * s + 2 * s * c + c * c;
  }

  lemma SquareStepStrict(s: nat, c: nat, q: nat)
    requires q <= s * s && s >= 1 && c >= 1
    ensures q + c * c < (s + c) * (s + c)
  {
    assert (s + c) * (s + c) == s * s + 2 * s * c + c * c;
    assert s * c >= 1;
  }

  /** Gini impurity of a non-empty label multiset lies in [0, 1). */
  lemma GiniBounds(ls: seq<Value>)
    requires |ls| > 0
    ensures 0.0 <= Gini(ls) < 1.0
  {
    GiniAsCounts(ls);
    FracBounds(SumSq(ls, Distinct(ls)), |ls| * |ls|);
  }

  /** Gini impurity of a non-empty label multiset is 0 iff it holds a
      single distinct label. */
  lemma GiniZeroIffPure(ls: seq<Value>)
    requires |ls| > 0
    ensures Gini(ls) == 0.0 <==> |Distinct(ls)| == 1
  {
    GiniAsCounts(ls);
    FracBounds(SumSq(ls, Distinct(ls)), |ls| * |ls|);
  }

  lemma GiniAsCounts(ls: seq<Value>)
    requires |ls| > 0
    ensures Gini(ls) == 1.0 - Frac(SumSq(ls, Distinct(ls)), |ls| * |ls|)
    ensures 1 <= SumSq(ls, Distinct(ls)) <= |ls| * |ls|
    ensures SumSq(ls, Distinct(ls)) == |ls| * |ls| <==> |Distinct(ls)| == 1
  {
    SquaredSharesAsCounts(ls, Distinct(ls));
    var d := Distinct(ls);
    DistinctMembers(ls);
    DistinctNoDup(ls);
    var n := |ls|;
    SumCountsCovers(ls, d);
    SumSqBound(ls, d);
    var q := SumSq(ls, d);
    var sq := SumCounts(ls, d) * SumCounts(ls, d);
    assert sq == n * n;
    assert 1 <= q <= sq;
  }

  /** Fractions of the same whole add up. */
  lemma FracAdd(a: nat, b: nat, n: nat)
    requires n > 0
    ensures Frac(a, n) + Frac(b, n) == Frac(a + b, n)
  {
  }

  lemma FracSign(k: nat, n: nat)
    ensures Frac(k, n) >= 0.0
    ensures k > 0 && n > 0 ==> Frac(k, n) > 0.0
  {
  }

  lemma FracOfWhole(n: nat)
    requires n > 0
    ensures Frac(n, n) == 1.0
  {
  }

  /** The fractions of two parts of a whole add up to 1. */
  lemma FracPartition(a: nat, b: nat, n: nat)
    requires a + b == n && n > 0
    ensures Frac(a, n) + Frac(b, n) == 1.0
  {
    FracAdd(a, b, n);
    FracOfWhole(n);
  }

  lemma FracBounds(q: nat, n: nat)
    requires 1 <= q <= n
    ensures 0.0 < Frac(q, n) <= 1.0
    ensures Frac(q, n) == 1.0 <==> q == n
  {
  }
}
