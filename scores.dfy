/** Information gain and split information, the scores of ID3 and C4.5.
    A split is given by its subsets of the current view: one per distinct
    value for a multiway split, `<= t` and `> t` for a threshold. */
module Scores {
  import opened Counting
  import opened Dataset
  import opened Impurity

  /** The subsets of a multiway split over `vals`, in the order of `vals`. */
  function Subsets(rows: seq<Row>, c: nat, vals: seq<Value>): (subs: seq<seq<Row>>)
    ensures |subs| == |vals|
  {
    if vals == [] then []
    else Subsets(rows, c, vals[..|vals| - 1]) + [Side(rows, Equals(c, vals[|vals| - 1]), true)]
  }

  /** The `i`-th subset holds the rows whose column `c` equals `vals[i]`. */
  lemma {:induction false} SubsetsAt(rows: seq<Row>, c: nat, vals: seq<Value>, i: nat)
    requires i < |vals|
    ensures Subsets(rows, c, vals)[i] == Side(rows, Equals(c, vals[i]), true)
  {
    if i < |vals| - 1 {
      SubsetsAt(rows, c, vals[..|vals| - 1], i);
    }
  }

  /** The subsets of the multiway split on column `c`. */
  function MultiwaySubsets(rows: seq<Row>, c: nat): seq<seq<Row>>
  {
    Subsets(rows, c, SplitValues(rows, c))
  }

  /** The two sides of the threshold split `column c <= t`. */
  function ThresholdSubsets(rows: seq<Row>, c: nat, t: real): seq<seq<Row>>
  {
    [Side(rows, AtMost(c, t), true), Side(rows, AtMost(c, t), false)]
  }

  /** `len(subset) / len(df) * entropy(subset[target])`. */
  function Share(rows: seq<Row>, sub: seq<Row>, log2: real -> real): real
  {
    Frac(|sub|, |rows|) * Entropy(Labels(sub), log2)
  }

  /** An empty subset contributes nothing, so skipping it changes nothing. */
  lemma ShareOfEmpty(rows: seq<Row>, sub: seq<Row>, log2: real -> real)
    requires |sub| == 0
    ensures Share(rows, sub, log2) == 0.0
  {
    assert Frac(|sub|, |rows|) == 0.0;
  }

  /** The sum of the shares of the subsets: the weighted child entropy. */
  function WeightedEntropy(rows: seq<Row>, subs: seq<seq<Row>>, log2: real -> real): real
  {
    if subs == [] then 0.0
    else WeightedEntropy(rows, subs[..|subs| - 1], log2) + Share(rows, subs[|subs| - 1], log2)
  }

  /** Information gain of a split: parent entropy minus weighted child entropy. */
  function Gain(rows: seq<Row>, subs: seq<seq<Row>>, log2: real -> real): real
  {
    Entropy(Labels(rows), log2) - WeightedEntropy(rows, subs, log2)
  }

  /** `sum(len(subset) / len(df))`: the weights of the weighted entropy. */
  function Weights(rows: seq<Row>, subs: seq<seq<Row>>): real
  {
    if subs == [] then 0.0
    else Weights(rows, subs[..|subs| - 1]) + Frac(|subs[|subs| - 1]|, |rows|)
  }

  /** Sum of the subset sizes. */
  function Sizes(subs: seq<seq<Row>>): nat
  {
    if subs == [] then 0 else Sizes(subs[..|subs| - 1]) + |subs[|subs| - 1]|
  }

  lemma {:induction false} WeightsAreSizes(rows: seq<Row>, subs: seq<seq<Row>>)
    requires |rows| > 0
    ensures Weights(rows, subs) == Frac(Sizes(subs), |rows|)
  {
    if subs != [] {
      WeightsAreSizes(rows, subs[..|subs| - 1]);
      FracAdd(Sizes(subs[..|subs| - 1]), |subs[|subs| - 1]|, |rows|);
    }
  }

  lemma {:induction false} SizesOfSubsets(rows: seq<Row>, c: nat, vals: seq<Value>)
    ensures Sizes(Subsets(rows, c, vals)) == SubsetSizes(rows, c, vals)
  {
    if vals != [] {
      var init := vals[..|vals| - 1];
      assert Subsets(rows, c, vals)[..|vals| - 1] == Subsets(rows, c, init);
      SizesOfSubsets(rows, c, init);
    }
  }

  /** Subsets whose sizes add up to the view's have weights adding up to 1. */
  lemma WeightsSumToOne(rows: seq<Row>, subs: seq<seq<Row>>)
    requires |rows| > 0 && Sizes(subs) == |rows|
    ensures Weights(rows, subs) == 1.0
  {
    WeightsAreSizes(rows, subs);
    FracOfWhole(|rows|);
  }

  /** The weights of a multiway split sum to 1: its subsets partition the view. */
  lemma MultiwayWeightsSumToOne(rows: seq<Row>, c: nat)
    requires |rows| > 0
    ensures Weights(rows, MultiwaySubsets(rows, c)) == 1.0
  {
    SizesOfSubsets(rows, c, SplitValues(rows, c));
    MultiwayCovers(rows, c);
    WeightsSumToOne(rows, MultiwaySubsets(rows, c));
  }

  /** The weights of a threshold split sum to 1: its two sides partition the view. */
  lemma ThresholdWeightsSumToOne(rows: seq<Row>, c: nat, t: real)
    requires |rows| > 0
    ensures Weights(rows, ThresholdSubsets(rows, c, t)) == 1.0
  {
    var subs := ThresholdSubsets(rows, c, t);
    SidesPartition(rows, AtMost(c, t));
    assert subs[..1][..0] == [] && subs[..1] == [subs[0]];
    assert Sizes(subs) == Sizes(subs[..1]) + |subs[1]|;
    assert Sizes(subs[..1]) == |subs[0]|;
    WeightsSumToOne(rows, subs);
  }

  /** `info_gain(df, attr)` without a threshold. */
  function MultiwayGain(rows: seq<Row>, c: nat, log2: real -> real): real
  {
    Gain(rows, MultiwaySubsets(rows, c), log2)
  }

  /** On an empty view every multiway split has no subset: its gain is 0
      and its split information the `1e-9` stand-in. */
  lemma EmptyViewScores(c: nat, log2: real -> real)
    ensures MultiwayGain([], c, log2) == 0.0
    ensures MultiwaySplitInfo([], c, log2) == SplitFloor
  {
    SplitValuesEmpty([], c);
    assert MultiwaySubsets([], c) == [];
    assert Labels([]) == [] && Distinct(Labels([])) == [];
  }

  /** `info_gain(df, attr, threshold=t)`. */
  function ThresholdGain(rows: seq<Row>, c: nat, t: real, log2: real -> real): real
  {
    Gain(rows, ThresholdSubsets(rows, c, t), log2)
  }

  /** `prob * log2(prob) if prob > 0 else 0`. */
  function SplitTerm(p: real, log2: real -> real): real
  {
    if p > 0.0 then p * log2(p) else 0.0
  }

  /** The accumulator `split -= prob * log2(prob)` after all subsets. */
  function SplitSum(rows: seq<Row>, subs: seq<seq<Row>>, log2: real -> real): real
  {
    if subs == [] then 0.0
    else SplitSum(rows, subs[..|subs| - 1], log2) - SplitTerm(Frac(|subs[|subs| - 1]|, |rows|), log2)
  }

  /** The stand-in for a zero split information (`1e-9`). */
  const SplitFloor: real := 0.000000001

  /** `split if split != 0 else 1e-9`. */
  function NonZero(split: real): (r: real)
    ensures r != 0.0
    ensures split != 0.0 ==> r == split
  {
    if split != 0.0 then split else SplitFloor
  }

  /** `split_info(df, attr)` without a threshold: never 0. */
  function MultiwaySplitInfo(rows: seq<Row>, c: nat, log2: real -> real): real
  {
    NonZero(SplitSum(rows, MultiwaySubsets(rows, c), log2))
  }

  /** `split_info(df, attr, threshold=t)`: never 0. */
  function ThresholdSplitInfo(rows: seq<Row>, c: nat, t: real, log2: real -> real): real
  {
    NonZero(SplitSum(rows, ThresholdSubsets(rows, c, t), log2))
  }

  /** `gain / split if split > 0 else 0`. */
  function Ratio(gain: real, split: real): (r: real)
    ensures split > 0.0 ==> r * split == gain
    ensures split <= 0.0 ==> r == 0.0
  {
    if split > 0.0 then gain / split else 0.0
  }

  lemma SubsetsPrefix(rows: seq<Row>, c: nat, vals: seq<Value>, i: nat)
    requires i < |vals|
    ensures Subsets(rows, c, vals[..i + 1]) == Subsets(rows, c, vals[..i]) + [Side(rows, Equals(c, vals[i]), true)]
  {
    assert vals[..i + 1][..i] == vals[..i];
  }

  /** One more value of the multiway split adds its subset's share. */
  lemma WeightedEntropyStep(rows: seq<Row>, c: nat, vals: seq<Value>, i: nat, log2: real -> real)
    requires i < |vals|
    ensures WeightedEntropy(rows, Subsets(rows, c, vals[..i + 1]), log2)
         == WeightedEntropy(rows, Subsets(rows, c, vals[..i]), log2) + Share(rows, Side(rows, Equals(c, vals[i]), true), log2)
  {
    SubsetsPrefix(rows, c, vals, i);
    WeightedEntropySnoc(rows, Subsets(rows, c, vals[..i]), Side(rows, Equals(c, vals[i]), true), log2);
  }

  lemma WeightedEntropySnoc(rows: seq<Row>, subs: seq<seq<Row>>, sub: seq<Row>, log2: real -> real)
    ensures WeightedEntropy(rows, subs + [sub], log2)
         == WeightedEntropy(rows, subs, log2) + Share(rows, sub, log2)
  {
    var all := subs + [sub];
    assert all[..|all| - 1] == subs && all[|all| - 1] == sub;
  }

  lemma SplitSumSnoc(rows: seq<Row>, subs: seq<seq<Row>>, sub: seq<Row>, log2: real -> real)
    ensures SplitSum(rows, subs + [sub], log2) == SplitSum(rows, subs, log2) - SplitTerm(Frac(|sub|, |rows|), log2)
  {
    assert (subs + [sub])[..|subs|] == subs;
  }

  /** `info_gain(df, attr)`: the loop accumulating the weighted entropy of
      the subsets, one per distinct value. */
  method InfoGain(rows: seq<Row>, c: nat, log2: real -> real) returns (g: real)
    ensures g == MultiwayGain(rows, c, log2)
  {
    var totalEntropy := Entropy(Labels(rows), log2);
    var values := SplitValues(rows, c);
    var weighted := 0.0;
    for i := 0 to |values|
      invariant weighted == WeightedEntropy(rows, Subsets(rows, c, values[..i]), log2)
    {
      var subset := Side(rows, Equals(c, values[i]), true);
      var term := Share(rows, subset, log2);
      WeightedEntropyStep(rows, c, values, i, log2);
      weighted := weighted + term;
    }
    assert values[..|values|] == values;
    assert weighted == WeightedEntropy(rows, MultiwaySubsets(rows, c), log2);
    g := totalEntropy - weighted;
  }

  /** `info_gain(df, attr, threshold=t)`: the same accumulation over the
      two sides. */
  method InfoGainAt(rows: seq<Row>, c: nat, t: real, log2: real -> real) returns (g: real)
    ensures g == ThresholdGain(rows, c, t, log2)
  {
    var left := Side(rows, AtMost(c, t), true);
    var right := Side(rows, AtMost(c, t), false);
    var totalEntropy := Entropy(Labels(rows), log2);
    var weighted := NonEmptyShares(rows, [left, right], log2);
    g := totalEntropy - weighted;
  }

  /** The loop `for subset in [left, right]: if len(subset) > 0: ...`,
      which skips an empty side. */
  method NonEmptyShares(rows: seq<Row>, sides: seq<seq<Row>>, log2: real -> real) returns (weighted: real)
    ensures weighted == WeightedEntropy(rows, sides, log2)
  {
    weighted := 0.0;
    for i := 0 to |sides|
      invariant weighted == WeightedEntropy(rows, sides[..i], log2)
    {
      var subset := sides[i];
      TakeSnoc(sides, i);
      WeightedEntropySnoc(rows, sides[..i], subset, log2);
      if |subset| > 0 {
        weighted := weighted + Share(rows, subset, log2);
      } else {
        ShareOfEmpty(rows, subset, log2);
      }
    }
    assert sides[..|sides|] == sides;
  }

  /** `split_info(df, attr)`: `split -= prob * log2(prob)` per distinct value. */
  method SplitInfo(rows: seq<Row>, c: nat, log2: real -> real) returns (s: real)
    ensures s == MultiwaySplitInfo(rows, c, log2)
    ensures s != 0.0
  {
    var values := SplitValues(rows, c);
    var total := |rows|;
    var split := 0.0;
    for i := 0 to |values|
      invariant split == SplitSum(rows, Subsets(rows, c, values[..i]), log2)
    {
      var subset := Side(rows, Equals(c, values[i]), true);
      var prob := Frac(|subset|, total);
      var term := SplitTerm(prob, log2);
      SubsetsPrefix(rows, c, values, i);
      SplitSumSnoc(rows, Subsets(rows, c, values[..i]), subset, log2);
      split := split - term;
    }
    assert values[..|values|] == values;
    s := if split != 0.0 then split else SplitFloor;
  }

  /** `split_info(df, attr, threshold=t)`. */
  method SplitInfoAt(rows: seq<Row>, c: nat, t: real, log2: real -> real) returns (s: real)
    ensures s == ThresholdSplitInfo(rows, c, t, log2)
    ensures s != 0.0
  {
    var sides := ThresholdSubsets(rows, c, t);
    var total := |rows|;
    var split := 0.0;
    for i := 0 to |sides|
      invariant split == SplitSum(rows, sides[..i], log2)
    {
      var prob := Frac(|sides[i]|, total);
      var term := SplitTerm(prob, log2);
      assert sides[..i + 1] == sides[..i] + [sides[i]];
      SplitSumSnoc(rows, sides[..i], sides[i], log2);
      split := split - term;
    }
    assert sides[..|sides|] == sides;
    s := if split != 0.0 then split else SplitFloor;
  }
}
