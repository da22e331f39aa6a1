/** CART's scoring: the size-weighted Gini impurity of a binary split, the
    search for the best `== v` value of a categorical attribute, and the
    scan over every candidate split of every attribute that keeps the first
    one of least weighted Gini. `float("inf")`, the starting best score of
    both scans, is `None`. */
module CartScores {
  import opened Counting
  import opened Dataset
  import opened Impurity

  /** `gini(side) if len(side) > 0 else 0`. */
  function SideGini(side: seq<Row>): real
  {
    if |side| > 0 then Gini(Labels(side)) else 0.0
  }

  /** `(len(side) / len(df)) * gini(side)`, an empty side counting 0. */
  function GiniShare(rows: seq<Row>, side: seq<Row>): real
  {
    Frac(|side|, |rows|) * SideGini(side)
  }

  /** The weighted Gini impurity of the two sides of test `t`; for a
      threshold this is `gini_split(df, attr, threshold=t)`, which returns
      it with `t`. */
  function WeightedGini(rows: seq<Row>, t: Test): real
  {
    GiniShare(rows, Side(rows, t, true)) + GiniShare(rows, Side(rows, t, false))
  }

  /** A side's Gini impurity lies in [0, 1). */
  lemma SideGiniBounds(side: seq<Row>)
    ensures 0.0 <= SideGini(side) < 1.0
  {
    if |side| > 0 {
      GiniBounds(Labels(side));
    }
  }

  /** A side's share lies between 0 and its weight, strictly below the
      weight when the side is non-empty. */
  lemma GiniShareBounds(rows: seq<Row>, side: seq<Row>)
    requires |rows| > 0 && |side| <= |rows|
    ensures 0.0 <= GiniShare(rows, side) <= Frac(|side|, |rows|)
    ensures |side| > 0 ==> GiniShare(rows, side) < Frac(|side|, |rows|)
  {
    SideGiniBounds(side);
    FracSign(|side|, |rows|);
    ScaleBelowOne(GiniShare(rows, side), Frac(|side|, |rows|), SideGini(side));
  }

  /** Scaling a weight by a number in [0, 1) keeps it in [0, weight], and
      strictly below a positive weight. */
  lemma ScaleBelowOne(share: real, w: real, g: real)
    requires share == w * g
    requires 0.0 <= w && 0.0 <= g < 1.0
    ensures 0.0 <= share <= w
    ensures w > 0.0 ==> share < w
  {
    if w > 0.0 {
      assert w * g < w * 1.0;
    }
  }

  /** The weighted Gini of a split of a non-empty view lies in [0, 1): the
      weights of its two sides add up to 1. */
  lemma WeightedGiniBounds(rows: seq<Row>, t: Test)
    requires |rows| > 0
    ensures 0.0 <= WeightedGini(rows, t) < 1.0
  {
    var yes, no := Side(rows, t, true), Side(rows, t, false);
    SidesPartition(rows, t);
    GiniShareBounds(rows, yes);
    GiniShareBounds(rows, no);
    FracPartition(|yes|, |no|, |rows|);
    SumBelowOne(GiniShare(rows, yes), GiniShare(rows, no), Frac(|yes|, |rows|), Frac(|no|, |rows|), |yes| > 0);
  }

  /** Two shares bounded by weights that add up to 1, one of them strictly,
      add up to less than 1. */
  lemma SumBelowOne(a: real, b: real, wa: real, wb: real, firstStrict: bool)
    requires 0.0 <= a <= wa && 0.0 <= b <= wb && wa + wb == 1.0
    requires if firstStrict then a < wa else b < wb
    ensures 0.0 <= a + b < 1.0
  {
  }

  /** A test that leaves its "no" side empty scores exactly the parent's
      Gini impurity. */
  lemma WeightedGiniOfNoSplit(rows: seq<Row>, t: Test)
    requires |rows| > 0 && |Side(rows, t, false)| == 0
    ensures WeightedGini(rows, t) == Gini(Labels(rows))
  {
    SideAll(rows, t);
    FracOfWhole(|rows|);
  }

  /** The weighted Gini of the test `== v` for each value `v` of `vals`,
      in order: entry `i` is that of `== vals[i]`. */
  function GinisOf(rows: seq<Row>, c: nat, vals: seq<Value>): (gs: seq<real>)
    ensures |gs| == |vals|
    ensures forall i :: 0 <= i < |vals| ==> gs[i] == WeightedGini(rows, Equals(c, vals[i]))
  {
    if vals == [] then []
    else GinisOf(rows, c, vals[..|vals| - 1]) + [WeightedGini(rows, Equals(c, vals[|vals| - 1]))]
  }

  /** The weighted Gini of every value of column `c`, in `unique()` order. */
  function ValueGinis(rows: seq<Row>, c: nat): seq<real>
  {
    GinisOf(rows, c, SplitValues(rows, c))
  }

  /** `gini_split(df, attr)` without a threshold: the first value of least
      weighted Gini and that Gini, or nothing (`(inf, None)`) when the view
      is empty. */
  function CategoricalBest(rows: seq<Row>, c: nat): (r: Option<(real, Value)>)
    ensures r.None? <==> rows == []
  {
    SplitValuesEmpty(rows, c);
    MinOf(ValueGinis(rows, c), SplitValues(rows, c))
  }

  /** On a non-empty view a value is always chosen; its score is the
      `k`-th entry of `ValueGinis` (the weighted Gini of the `k`-th
      value), no entry is lower, and every entry before `k` is
      strictly higher. */
  lemma CategoricalBestScore(rows: seq<Row>, c: nat)
    requires rows != []
    ensures var r := CategoricalBest(rows, c);
            var vals := SplitValues(rows, c);
            var gs := ValueGinis(rows, c);
            r.Some? &&
            (forall j :: 0 <= j < |gs| ==> r.value.0 <= gs[j]) &&
            exists k :: 0 <= k < |vals| && vals[k] == r.value.1 && gs[k] == r.value.0 &&
              forall i :: 0 <= i < k ==> r.value.0 < gs[i]
  {
    MinOfIsFirstMin(ValueGinis(rows, c), SplitValues(rows, c));
  }

  /** One more value of the categorical scan. */
  lemma ValueScanSnoc(rows: seq<Row>, c: nat, vals: seq<Value>, v: Value)
    ensures var prev := MinOf(GinisOf(rows, c, vals), vals);
            var g := WeightedGini(rows, Equals(c, v));
            MinOf(GinisOf(rows, c, vals + [v]), vals + [v]) == if prev.None? || g < prev.value.0 then Some((g, v)) else prev
  {
    assert (vals + [v])[..|vals|] == vals;
    MinOfSnoc(GinisOf(rows, c, vals), vals, WeightedGini(rows, Equals(c, v)), v);
  }

  /** `gini_split(df, attr)` without a threshold; `None` stands for
      `float("inf")` and for the value `None`. The loop's `best_gini` and
      `best_val` are the one variable `kept`, `None` while `best_gini` is
      `float("inf")`. */
  method GiniSplitCategorical(rows: seq<Row>, c: nat) returns (bestGini: Option<real>, bestVal: Option<Value>)
    ensures var r := CategoricalBest(rows, c);
            (r.None? ==> bestGini.None? && bestVal.None?) &&
            (r.Some? ==> bestGini == Some(r.value.0) && bestVal == Some(r.value.1))
  {
    var values := SplitValues(rows, c);
    var kept: Option<(real, Value)> := None;
    for i := 0 to |values|
      invariant kept == MinOf(GinisOf(rows, c, values[..i]), values[..i])
    {
      var v := values[i];
      var weighted := WeightedGini(rows, Equals(c, v));
      TakeSnoc(values, i);
      ValueScanSnoc(rows, c, values[..i], v);
      if kept.None? || weighted < kept.value.0 {
        kept := Some((weighted, v));
      }
    }
    assert values[..|values|] == values;
    if kept.None? {
      bestGini, bestVal := None, None;
    } else {
      bestGini, bestVal := Some(kept.value.0), Some(kept.value.1);
    }
  }

  /** A candidate split: the attribute and the test on its column that
      `best_split` would return (`is_numeric` is whether the test is a
      threshold). */
  datatype Split = Split(attr: Attr, test: Test)

  /** The threshold splits `attr <= t` for the thresholds `ts`, in order:
      entry `i` is the split at `ts[i]`. */
  function ThresholdSplits(a: Attr, ts: seq<real>): (ss: seq<Split>)
    ensures |ss| == |ts|
    ensures forall i :: 0 <= i < |ts| ==> ss[i] == Split(a, AtMost(a.col, ts[i]))
  {
    if ts == [] then []
    else ThresholdSplits(a, ts[..|ts| - 1]) + [Split(a, AtMost(a.col, ts[|ts| - 1]))]
  }

  lemma ThresholdSplitsStep(a: Attr, ts: seq<real>, j: nat)
    requires j < |ts|
    ensures ThresholdSplits(a, ts[..j + 1]) == ThresholdSplits(a, ts[..j]) + [Split(a, AtMost(a.col, ts[j]))]
  {
    assert ts[..j + 1][..j] == ts[..j];
  }

  /** The comparisons one attribute contributes to `best_split`: one per
      candidate threshold of a numeric attribute, and the best `== v` test
      of a categorical one (none on an empty view). */
  function AttrSplits(rows: seq<Row>, a: Attr): seq<Split>
  {
    match a.kind
    case Numeric => ThresholdSplits(a, Thresholds(rows, a.col))
    case Categorical =>
      match CategoricalBest(rows, a.col)
      case None => []
      case Some((_, v)) => [Split(a, Equals(a.col, v))]
  }

  /** Every comparison of `best_split` over `attrs`, in the order made. */
  function Candidates(rows: seq<Row>, attrs: seq<Attr>): seq<Split>
  {
    if attrs == [] then []
    else Candidates(rows, attrs[..|attrs| - 1]) + AttrSplits(rows, attrs[|attrs| - 1])
  }

  lemma CandidatesStep(rows: seq<Row>, attrs: seq<Attr>, i: nat)
    requires i < |attrs|
    ensures Candidates(rows, attrs[..i + 1]) == Candidates(rows, attrs[..i]) + AttrSplits(rows, attrs[i])
  {
    assert attrs[..i + 1][..i] == attrs[..i];
  }

  /** The weighted Gini of each split of `ss`, in order. */
  function SplitGinis(rows: seq<Row>, ss: seq<Split>): (gs: seq<real>)
    ensures |gs| == |ss|
  {
    if ss == [] then []
    else SplitGinis(rows, ss[..|ss| - 1]) + [WeightedGini(rows, ss[|ss| - 1].test)]
  }

  /** Each entry is the weighted Gini of its split's test. */
  lemma {:induction false} SplitGinisAt(rows: seq<Row>, ss: seq<Split>, i: nat)
    requires i < |ss|
    ensures SplitGinis(rows, ss)[i] == WeightedGini(rows, ss[i].test)
  {
    if i < |ss| - 1 {
      SplitGinisAt(rows, ss[..|ss| - 1], i);
    }
  }

  /** The strict-improvement scan from `float("inf")` over the splits `ss`:
      the first split of least weighted Gini, with that Gini. */
  function Pick(rows: seq<Row>, ss: seq<Split>): Option<(real, Split)>
  {
    MinOf(SplitGinis(rows, ss), ss)
  }

  /** One more comparison of the scan. */
  lemma PickSnoc(rows: seq<Row>, ss: seq<Split>, s: Split)
    ensures var prev := Pick(rows, ss);
            var g := WeightedGini(rows, s.test);
            Pick(rows, ss + [s]) == if prev.None? || g < prev.value.0 then Some((g, s)) else prev
  {
    assert (ss + [s])[..|ss|] == ss;
    MinOfSnoc(SplitGinis(rows, ss), ss, WeightedGini(rows, s.test), s);
  }

  /** `best_split(df, attrs)`: the split kept by the scan, or nothing. */
  function BestSplitOf(rows: seq<Row>, attrs: seq<Attr>): Option<Split>
  {
    match Pick(rows, Candidates(rows, attrs))
    case None => None
    case Some((_, s)) => Some(s)
  }

  /** The score kept for a categorical attribute is the weighted Gini of
      the test `== v` on the value kept, which occurs in the column. */
  lemma CategoricalBestGini(rows: seq<Row>, c: nat)
    ensures var r := CategoricalBest(rows, c);
            r.Some? ==> r.value.1 in SplitValues(rows, c) && r.value.0 == WeightedGini(rows, Equals(c, r.value.1))
  {
    if rows != [] {
      CategoricalBestScore(rows, c);
      var r := CategoricalBest(rows, c);
      var vals := SplitValues(rows, c);
      var k :| 0 <= k < |vals| && vals[k] == r.value.1 && ValueGinis(rows, c)[k] == r.value.0;
    }
  }

  /** What a candidate of `best_split` is: a test on the attribute's own
      column; a threshold `<= t` exactly for a numeric attribute, `t` one
      of its candidate thresholds; otherwise `== v` for a value `v` that
      occurs in the column. */
  predicate ValidSplit(rows: seq<Row>, attrs: seq<Attr>, s: Split)
  {
    s.attr in attrs && s.test.col == s.attr.col &&
    match s.test
    case AtMost(c, t) => s.attr.kind == Numeric && t in Thresholds(rows, c)
    case Equals(c, v) => s.attr.kind == Categorical && v in SplitValues(rows, c)
  }

  /** Every comparison of the scan is a valid split. */
  lemma {:induction false} CandidatesValid(rows: seq<Row>, attrs: seq<Attr>)
    ensures forall s :: s in Candidates(rows, attrs) ==> ValidSplit(rows, attrs, s)
  {
    if attrs != [] {
      var init := attrs[..|attrs| - 1];
      var a := attrs[|attrs| - 1];
      CandidatesValid(rows, init);
      assert forall x :: x in init ==> x in attrs;
      forall s | s in AttrSplits(rows, a) ensures ValidSplit(rows, attrs, s) {
        match a.kind
        case Numeric =>
          var ts := Thresholds(rows, a.col);
          var i :| 0 <= i < |ThresholdSplits(a, ts)| && ThresholdSplits(a, ts)[i] == s;
        case Categorical =>
          CategoricalBestGini(rows, a.col);
      }
    }
  }

  /** A numeric attribute with at most one distinct value in the view:
      it has no candidate threshold. */
  predicate SingleValuedNumeric(rows: seq<Row>, a: Attr)
  {
    a.kind == Numeric && |SortedUnique(NumColumn(rows, a.col))| <= 1
  }

  /** On a non-empty view an attribute offers no candidate exactly when
      it is numeric with at most one distinct value. */
  lemma AttrSplitsEmpty(rows: seq<Row>, a: Attr)
    requires rows != []
    ensures AttrSplits(rows, a) == [] <==> SingleValuedNumeric(rows, a)
  {
  }

  /** Whether every attribute of `attrs` is numeric with at most one
      distinct value. */
  predicate AllSingleValued(rows: seq<Row>, attrs: seq<Attr>)
  {
    attrs == [] || (AllSingleValued(rows, attrs[..|attrs| - 1]) && SingleValuedNumeric(rows, attrs[|attrs| - 1]))
  }

  lemma {:induction false} AllSingleValuedIff(rows: seq<Row>, attrs: seq<Attr>)
    ensures AllSingleValued(rows, attrs) <==> forall i :: 0 <= i < |attrs| ==> SingleValuedNumeric(rows, attrs[i])
  {
    if attrs != [] {
      var init := attrs[..|attrs| - 1];
      AllSingleValuedIff(rows, init);
      assert forall i :: 0 <= i < |init| ==> init[i] == attrs[i];
    }
  }

  /** The scan compares nothing exactly when every attribute is numeric
      with at most one distinct value. */
  lemma {:induction false} CandidatesEmpty(rows: seq<Row>, attrs: seq<Attr>)
    requires rows != []
    ensures Candidates(rows, attrs) == [] <==> AllSingleValued(rows, attrs)
  {
    if attrs != [] {
      var init := attrs[..|attrs| - 1];
      var a := attrs[|attrs| - 1];
      assert Candidates(rows, attrs) == Candidates(rows, init) + AttrSplits(rows, a);
      CandidatesEmpty(rows, init);
      AttrSplitsEmpty(rows, a);
    }
  }

  /** On an empty view no attribute offers a comparison (a numeric one
      has no threshold, a categorical one no value), so `best_split`
      keeps nothing. */
  lemma {:induction false} EmptyViewNoSplit(attrs: seq<Attr>)
    ensures Candidates([], attrs) == []
    ensures BestSplitOf([], attrs) == None
  {
    if attrs != [] {
      var a := attrs[|attrs| - 1];
      EmptyViewNoSplit(attrs[..|attrs| - 1]);
      assert NumColumn([], a.col) == [];
      assert AttrSplits([], a) == [];
    }
  }

  /** `best_split` keeps the first candidate of least weighted Gini: its
      score is the `k`-th entry of `SplitGinis` (the weighted Gini of the
      `k`-th candidate, by `SplitGinisAt`), no entry is lower and every
      entry before `k` is strictly higher; it keeps nothing exactly when
      there is no candidate. */
  lemma BestSplitScan(rows: seq<Row>, attrs: seq<Attr>)
    ensures var cs := Candidates(rows, attrs);
            var gs := SplitGinis(rows, cs);
            var best := BestSplitOf(rows, attrs);
            (best.None? <==> cs == []) &&
            (best.Some? ==>
               exists k :: 0 <= k < |cs| && cs[k] == best.value &&
                 (forall j :: 0 <= j < |gs| ==> gs[k] <= gs[j]) &&
                 forall i :: 0 <= i < k ==> gs[k] < gs[i])
  {
    MinOfIsFirstMin(SplitGinis(rows, Candidates(rows, attrs)), Candidates(rows, attrs));
  }

  /** The split `best_split` returns is valid; it returns none exactly when
      every attribute is numeric with at most one distinct value. */
  lemma BestSplitValid(rows: seq<Row>, attrs: seq<Attr>)
    requires rows != []
    ensures var best := BestSplitOf(rows, attrs);
            (best.Some? ==> ValidSplit(rows, attrs, best.value)) &&
            (best.None? <==> forall i :: 0 <= i < |attrs| ==> SingleValuedNumeric(rows, attrs[i]))
  {
    BestSplitScan(rows, attrs);
    CandidatesValid(rows, attrs);
    CandidatesEmpty(rows, attrs);
    AllSingleValuedIff(rows, attrs);
  }

  /** `best_split(df, attrs)`: the scan over every attribute, every
      candidate threshold of a numeric one and the best value of a
      categorical one, keeping a split only when its weighted Gini strictly
      beats the best so far. The loop's `best_gini`, `best_attr`,
      `best_val` and `is_numeric` are the one variable `kept`, `None`
      while `best_gini` is `float("inf")`; the test returned carries
      `best_val`, and `is_numeric` is whether it is a threshold. */
  method BestSplit(rows: seq<Row>, attrs: seq<Attr>) returns (best: Option<Split>)
    ensures best == BestSplitOf(rows, attrs)
  {
    var kept: Option<(real, Split)> := None;
    for i := 0 to |attrs|
      invariant kept == Pick(rows, Candidates(rows, attrs[..i]))
    {
      var a := attrs[i];
      ghost var before := Candidates(rows, attrs[..i]);
      CandidatesStep(rows, attrs, i);
      if a.kind == Numeric {
        var values := SortedUnique(NumColumn(rows, a.col));
        var thresholds := Midpoints(values);
        kept := ScanThresholds(rows, a, thresholds, before, kept);
      } else {
        var g, v := GiniSplitCategorical(rows, a.col);
        CategoricalBestGini(rows, a.col);
        if g.Some? {
          var s := Split(a, Equals(a.col, v.value));
          PickSnoc(rows, before, s);
          if kept.None? || g.value < kept.value.0 {
            kept := Some((g.value, s));
          }
        } else {
          assert before + [] == before;
        }
      }
    }
    assert attrs[..|attrs|] == attrs;
    best := if kept.None? then None else Some(kept.value.1);
  }

  /** The inner loop `for t in thresholds` of `best_split` for the numeric
      attribute `a`, continuing the scan whose comparisons so far were
      `before`. */
  method ScanThresholds(rows: seq<Row>, a: Attr, thresholds: seq<real>, ghost before: seq<Split>,
                        kept0: Option<(real, Split)>)
    returns (kept: Option<(real, Split)>)
    requires kept0 == Pick(rows, before)
    ensures kept == Pick(rows, before + ThresholdSplits(a, thresholds))
  {
    kept := kept0;
    assert thresholds[..0] == [];
    assert before + ThresholdSplits(a, thresholds[..0]) == before;
    for j := 0 to |thresholds|
      invariant kept == Pick(rows, before + ThresholdSplits(a, thresholds[..j]))
    {
      var t := thresholds[j];
      var g := WeightedGini(rows, AtMost(a.col, t));
      ThresholdSplitsStep(a, thresholds, j);
      AppendSnoc(before, ThresholdSplits(a, thresholds[..j]), Split(a, AtMost(a.col, t)));
      PickSnoc(rows, before + ThresholdSplits(a, thresholds[..j]), Split(a, AtMost(a.col, t)));
      if kept.None? || g < kept.value.0 {
        kept := Some((g, Split(a, AtMost(a.col, t))));
      }
    }
    assert thresholds[..|thresholds|] == thresholds;
  }
}
