# Decision-tree induction: ID3, C4.5 and CART

A Dafny model of the induction core of `gerararvore`. Each of its three
classes builds a classification tree from a labelled table.

- **ID3** splits multiway on the categorical attribute of greatest
  information gain.
- **C4.5** chooses by gain ratio. It splits multiway on a categorical
  attribute and `<= t` / `> t` on a numeric one, at the midpoint of two
  consecutive distinct values.
- **CART** chooses the binary test of least weighted Gini impurity:
  `<= t` on a numeric attribute, `== v` on a categorical one.

All three stop on a pure view, and they return the majority label when no
attribute is left or none is usable.

Modules:

- `Counting`: counting, `unique()` (distinct elements in order of first
  appearance), `mode()[0]`, and the strict-improvement arg-max and arg-min
  scans every selection loop uses.
- `Dataset`: rows, cells, attribute kinds, the sides of a test, the values
  of a multiway split, sorted distinct values and midpoint thresholds.
- `Impurity`: entropy over a `log2` parameter, and Gini impurity in exact
  rational arithmetic.
- `Scores`: information gain and split information, as the accumulating
  loops of the source proved against their specifications.
- `Trees`: the tree (`Leaf`, `Multiway` with ordered branches, `Binary`
  with a yes and a no child).
- `Id3`, `C45`: each builder is a specification function. Its inducer
  class has the `tree` field, a `BuildTree` method proved equal to that
  function, and the loop over the values of a multiway split. `C45` also
  holds the gain ratio, the threshold scan of `gain_ratio` and the
  attribute scan of `best_attribute`.
- `CartScores`: `gini_split` and `best_split` as loops proved against
  first-minimum specifications over the candidate splits, in scan order.
- `Cart`: `build_tree` as written (`CartSteps`, with a recursion budget).
  It sits beside the corrected builder (`CartTree`), which the inducer
  class implements.

Scores are exact reals. `log2` is a parameter of the C4.5 and ID3 models:
the entropy-based scores are stated as real-valued shapes over it.

## Model

| member | source | states |
|---|---|---|
| Counting.Count | gerararvore/cart.py:14 | an element occurs no more often than the length of the sequence counted |
| Counting.CountPositive | gerararvore/cart.py:14 | an element's count is positive exactly when it occurs |
| Counting.Distinct | gerararvore/id3.py:19 | `unique()` is no longer than its input and starts with the input's first element |
| Counting.DistinctNoDup | gerararvore/id3.py:19 | `unique()` lists no element twice |
| Counting.DistinctMembers | gerararvore/id3.py:19 | `unique()` holds exactly the elements of its input |
| Counting.FirstIndex | gerararvore/id3.py:19 | the first position holding an element: it holds it, and no earlier position does |
| Counting.DistinctOrder | gerararvore/id3.py:19 | `unique()` lists its elements in the order of their first appearance in the input |
| Counting.SingleDistinctIff | gerararvore/id3.py:37 | one distinct element exactly when the sequence is non-empty and constant |
| Counting.DistinctOfConstant | gerararvore/id3.py:37-38 | the distinct elements of a non-empty constant sequence are its first element alone |
| Counting.CountOfConstant | gerararvore/cart.py:13-16 | in a constant sequence, its element's count is the length |
| Counting.CountInNoDup | gerararvore/cart.py:14 | a key of `Counter` occurs exactly once among the keys |
| Counting.SumCountsCovers | gerararvore/cart.py:14-15 | the counts of the distinct classes add up to the total |
| Counting.FirstArgMax | gerararvore/id3.py:28 | `max(..., key=...)` gives an index whose value no entry exceeds, and every earlier entry is strictly smaller |
| Counting.CountsOf | gerararvore/cart.py:14-16 | `Counter(y).values()` in key order, a definition; the counts are characterised by Counting.SumCountsCovers and Counting.CountInNoDup, and the most frequent key by Counting.Majority |
| Counting.Majority | gerararvore/id3.py:42 | `mode()[0]` is an element of the input, and no element is more frequent |
| Counting.FirstAbove | gerararvore/c45.py:65-71 | the `>` scan from a floor keeps nothing iff no entry beats the floor; what it keeps beats the floor, is maximal, and is the first maximum |
| Counting.FirstAboveSnoc | gerararvore/c45.py:70-71 | one more entry replaces the kept one only when strictly greater |
| Counting.FirstMin | gerararvore/cart.py:22-30 | the `<` scan from infinity keeps nothing iff there are no entries |
| Counting.FirstMinIsMin | gerararvore/cart.py:29-30 | the kept entry is least, and every earlier entry is strictly greater |
| Counting.FirstMinSnoc | gerararvore/cart.py:29-30 | one more entry replaces the kept one only when strictly smaller |
| Counting.MinOf | gerararvore/cart.py:22-31 | scores paired with items: nothing kept iff there are no scores |
| Counting.MinOfIsFirstMin | gerararvore/cart.py:22-31 | the kept score is least and belongs to the kept item, at the first index holding that score |
| Counting.MinOfSnoc | gerararvore/cart.py:29-30 | one more scored item is kept only when its score is strictly lower |
| Dataset.Column | gerararvore/id3.py:19 | `df[attr]` has one cell per row, in row order |
| Dataset.Labels | gerararvore/id3.py:18 | `df[target]` has one label per row, in row order |
| Dataset.PureIff | gerararvore/id3.py:37 | one distinct label iff the view is non-empty and every row has the first row's label |
| Dataset.Side | gerararvore/cart.py:88-89 | a filtered view holds exactly the rows of the view with that outcome of the test, and is no larger |
| Dataset.SidesPartition | gerararvore/cart.py:80-93 | the two sides of a binary test together hold every row as often as the view does |
| Dataset.SideAll | gerararvore/cart.py:88-89 | when the "no" side is empty, the "yes" side is the whole view |
| Dataset.EqualsSideSize | gerararvore/id3.py:22 | the subset of value `v` has as many rows as the column holds `v` |
| Dataset.SplitValues | gerararvore/id3.py:48 | the values of a multiway split are exactly the values occurring in the column |
| Dataset.SplitValuesOrder | gerararvore/id3.py:48 | the values, hence the branches, come in the order of their first appearance in the column |
| Dataset.SplitValuesNoDup | gerararvore/id3.py:48 | no branch key repeats |
| Dataset.SplitValuesEmpty | gerararvore/id3.py:48 | there are split values exactly when the view has rows |
| Dataset.MultiwaySubsetNonEmpty | gerararvore/id3.py:49-51 | the subset of a split value is never empty, so on a table without missing cells the empty-subset branch is dead |
| Dataset.SubsetSizesAreCounts | gerararvore/id3.py:21-23 | the subset sizes over some values add up to those values' counts in the column |
| Dataset.MultiwayCovers | gerararvore/id3.py:48-49 | the subsets cover the view: sizes add up to its size, and each row is in its own value's subset only |
| Dataset.Remove | gerararvore/id3.py:53 | the new attribute list is the old one without the chosen attribute, and strictly shorter when that attribute was present |
| Dataset.RemoveKeepsOrder | gerararvore/id3.py:53 | the remaining attributes keep their relative order |
| Dataset.NumColumn | gerararvore/c45.py:61 | every number taken from a column occurs in it, and every number the column holds is taken |
| Dataset.InsertSpec | gerararvore/c45.py:61 | inserting into an increasing list keeps it increasing and adds exactly the new number |
| Dataset.SortedUniqueSpec | gerararvore/c45.py:61 | `sorted(unique())` is strictly increasing and holds exactly the numbers of its input |
| Dataset.ColumnNumbers | gerararvore/c45.py:61 | the sorted distinct values of a numeric column are exactly the numbers some row holds there |
| Dataset.Midpoints | gerararvore/c45.py:64 | one threshold fewer than values; over increasing values each threshold lies strictly between its two neighbours |
| Dataset.ThresholdIsMidpoint | gerararvore/c45.py:61-64 | a candidate threshold is the midpoint of two observed numbers `a < b` of the column with no observed number strictly between them |
| Dataset.MidpointIsThreshold | gerararvore/c45.py:61-64 | the midpoint of two neighbouring observed numbers is a candidate threshold |
| Dataset.ThresholdsExactly | gerararvore/c45.py:61-64 | the candidate thresholds are exactly the midpoints of neighbouring observed numbers |
| Dataset.ThresholdSplitsBoth | gerararvore/c45.py:61-64 | a candidate threshold leaves both sides non-empty and strictly smaller than the view |
| Dataset.MajorityFromRows | gerararvore/id3.py:42 | the majority label of a view is a label of one of its rows |
| Impurity.Entropy | gerararvore/id3.py:12-15 | `entropy(y)` over the class frequencies; its properties are stated by EntropyOfPure and Scores.EmptyViewScores |
| Impurity.EntropyOfPure | gerararvore/id3.py:12-15 | the entropy of a single-label multiset is 0, given `log2(1) = 0` |
| Impurity.SquaredSharesAsCounts | gerararvore/cart.py:16 | the sum of squared shares equals the sum of squared counts over the squared total |
| Impurity.SumSqBound | gerararvore/cart.py:16 | positive counts square to at most the square of their sum, strictly less with two or more classes |
| Impurity.Gini | gerararvore/cart.py:13-16 | `gini(y)` over the class counts; its properties are stated by GiniBounds, GiniZeroIffPure and GiniAsCounts |
| Impurity.GiniBounds | gerararvore/cart.py:13-16 | the Gini impurity of a non-empty multiset lies in [0, 1) |
| Impurity.GiniZeroIffPure | gerararvore/cart.py:13-16 | the Gini impurity is 0 exactly when there is one distinct label |
| Impurity.GiniAsCounts | gerararvore/cart.py:13-16 | Gini = 1 − Σcount²/total², and the squared-count sum equals total² iff there is one class |
| Impurity.FracPartition | gerararvore/c45.py:36 | the weights of two parts of a whole add up to 1 |
| Scores.Subsets | gerararvore/id3.py:21-22 | a multiway split has one subset per value |
| Scores.SubsetsAt | gerararvore/id3.py:21-22 | subset `i` holds exactly the rows whose column equals value `i` |
| Scores.ShareOfEmpty | gerararvore/c45.py:35-36 | an empty subset contributes nothing to the weighted entropy, so skipping it changes nothing |
| Scores.WeightsSumToOne | gerararvore/id3.py:23 | subsets whose sizes add up to the view's size have weights adding up to 1 |
| Scores.MultiwayWeightsSumToOne | gerararvore/id3.py:21-23 | the weights of a multiway split add up to 1 |
| Scores.ThresholdWeightsSumToOne | gerararvore/c45.py:30-36 | the weights of the two sides of a threshold split add up to 1 |
| Scores.MultiwayGain | gerararvore/id3.py:17-24 | `info_gain(df, attr)`: computed by the loop Scores.InfoGain, 0 on an empty view (Scores.EmptyViewScores) |
| Scores.ThresholdGain | gerararvore/c45.py:30-37 | `info_gain(df, attr, threshold)`: computed by the loop Scores.InfoGainAt |
| Scores.MultiwaySplitInfo | gerararvore/c45.py:40-47 | `split_info(df, attr)`: computed by the loop Scores.SplitInfo, never 0 (Scores.NonZero), `1e-9` on an empty view |
| Scores.ThresholdSplitInfo | gerararvore/c45.py:49-56 | `split_info(df, attr, threshold)`: computed by the loop Scores.SplitInfoAt, never 0 |
| Scores.EmptyViewScores | gerararvore/c45.py:40-47 | on an empty view a multiway split has gain 0 and split information `1e-9` |
| Scores.NonZero | gerararvore/c45.py:47 | the split information is never 0, and it is unchanged when it was not 0 |
| Scores.Ratio | gerararvore/c45.py:69 | for positive split information, ratio × split = gain; otherwise the ratio is 0 |
| Scores.WeightedEntropyStep | gerararvore/id3.py:21-23 | one more value adds its subset's share to the weighted entropy |
| Scores.SplitSumSnoc | gerararvore/c45.py:44-46 | one more subset subtracts its `p·log2(p)` term |
| Scores.InfoGain | gerararvore/id3.py:17-24 | the accumulating loop returns parent entropy minus the weighted entropy of the per-value subsets |
| Scores.InfoGainAt | gerararvore/c45.py:30-37 | the loop over the two sides returns the information gain of the threshold split |
| Scores.NonEmptyShares | gerararvore/c45.py:34-36 | the loop skipping empty sides computes the full weighted entropy |
| Scores.SplitInfo | gerararvore/c45.py:40-47 | the loop returns the split information of the multiway split, never 0 |
| Scores.SplitInfoAt | gerararvore/c45.py:49-56 | the loop returns the split information of the threshold split, never 0 |
| Trees.Keys | gerararvore/id3.py:54 | the keys of a multiway node are its branches' keys, in order |
| Id3.Gains | gerararvore/id3.py:27 | the `gains` dict in attribute order, a definition; the attribute `max` picks from it is characterised by Id3.Id3Best |
| Id3.Id3Best | gerararvore/id3.py:28 | the chosen attribute is in `attrs`, no attribute has more gain, and every earlier one has strictly less |
| Id3.Id3EmptyTable | gerararvore/id3.py:26-28 | on an empty table every gain is 0 and `max` keeps the first attribute |
| Id3.BestAttribute | gerararvore/id3.py:26-28 | the method returns the gains of every attribute and the first attribute of maximal gain |
| Id3.Id3Tree | gerararvore/id3.py:30-57 | `build_tree` on a non-empty view; its shape, keys, children, leaves and height are stated by the lemmas below |
| Id3.Id3PureLeaf | gerararvore/id3.py:37-38 | a single-label view is a leaf with that label, whatever attributes remain |
| Id3.Id3Shape | gerararvore/id3.py:30-57 | never binary; a leaf exactly when pure or out of attributes, labelled with the first or the majority label; otherwise multiway on the best attribute over its distinct values |
| Id3.Id3Keys | gerararvore/id3.py:48-54 | one branch per value, keyed by it, in `unique()` order |
| Id3.Id3ChildOfValue | gerararvore/id3.py:49-54 | each value's subset is non-empty, and its child is built on it without the chosen attribute |
| Id3.Id3Leaves | gerararvore/id3.py:37-54 | every leaf label is drawn from any label set covering the view |
| Id3.Id3LeavesFromData | gerararvore/id3.py:38-42 | no leaf label is invented: each is a label of the view |
| Id3.Id3Height | gerararvore/id3.py:53-54 | no path holds more decision nodes than there are attributes |
| Id3.Id3Inducer.constructor | gerararvore/id3.py:7-10 | the inducer keeps its table and attributes, and `tree` starts as `None` |
| Id3.Id3Inducer.BuildTree | gerararvore/id3.py:30-57 | returns the specified tree; a decision node leaves itself in `tree`, a leaf leaves `tree` unchanged |
| Id3.Id3Inducer.BuildBranches | gerararvore/id3.py:48-54 | the value loop builds exactly the specified branches |
| Id3.Id3Inducer.Build | gerararvore/id3.py:30-57 | the default call builds the tree of the whole table over every attribute; on an empty table it raises (`None`) without attributes and otherwise returns `{attrs[0]: {}}` and stores it |
| C45.ThresholdRatios | gerararvore/c45.py:66-69 | one gain ratio per candidate threshold, entry `i` being the gain ratio of the split `<= ts[i]` |
| C45.BestThreshold | gerararvore/c45.py:65-72 | no threshold kept means ratio −1; a kept threshold is a candidate with ratio above −1 |
| C45.BestThresholdScan | gerararvore/c45.py:66-71 | the kept threshold is the first of greatest ratio; none is kept iff no ratio beats −1 |
| C45.BestThresholdStep | gerararvore/c45.py:70-71 | one more threshold replaces the kept one only when its ratio is strictly greater |
| C45.GainRatioOf | gerararvore/c45.py:58-77 | only a numeric attribute gets a threshold, and it is a candidate; a numeric attribute with at most one distinct value scores (−1, None) |
| C45.Ratios | gerararvore/c45.py:82-83 | one ratio per attribute |
| C45.RatiosAt | gerararvore/c45.py:83 | entry `i` is the ratio of attribute `i` |
| C45.BestChoice | gerararvore/c45.py:80-86 | no attribute kept means (None, None, −1); a kept attribute is in `attrs`, beats −1, and comes with its own `gain_ratio` result |
| C45.BestChoiceStep | gerararvore/c45.py:84-85 | one more attribute replaces the kept one only when its ratio is strictly greater |
| C45.BestChoiceScan | gerararvore/c45.py:81-86 | the kept attribute is the first of greatest ratio; none is kept iff no ratio beats −1 |
| C45.ChosenThresholdIffNumeric | gerararvore/c45.py:59-77 | the chosen attribute has a threshold exactly when it is numeric |
| C45.EmptyViewRatio | gerararvore/c45.py:58-77 | on an empty view a numeric attribute scores (−1, None) and a categorical one (0, None) |
| C45.C45EmptyTable | gerararvore/c45.py:80-86 | on an empty table `best_attribute` keeps the first categorical attribute without threshold, and nothing when all attributes are numeric |
| C45.SingleValuedNeverChosen | gerararvore/c45.py:62-63 | a numeric attribute with at most one distinct value is never chosen |
| C45.GainRatio | gerararvore/c45.py:58-77 | the threshold loop returns the specified ratio and threshold |
| C45.BestAttribute | gerararvore/c45.py:80-86 | the attribute loop returns the specified attribute and threshold |
| C45.C45Tree | gerararvore/c45.py:88-126 | `build_tree` on a non-empty view; its shape, keys, children and leaves are stated by the lemmas below |
| C45.C45PureLeaf | gerararvore/c45.py:95-96 | a single-label view is a leaf with that label, whatever attributes remain |
| C45.C45Keys | gerararvore/c45.py:108-115 | one branch per value, keyed by it, in `unique()` order |
| C45.C45ChildOfValue | gerararvore/c45.py:109-115 | each value's subset is non-empty, and its child is built on it without the chosen attribute |
| C45.C45LeafShape | gerararvore/c45.py:95-104 | a leaf holds the first row's label or the majority label |
| C45.C45MultiwayShape | gerararvore/c45.py:107-115 | a multiway node splits on the chosen attribute, which is categorical, over its distinct values |
| C45.C45BinaryShape | gerararvore/c45.py:116-123 | a binary node tests a candidate threshold of the chosen numeric attribute; both sides are non-empty and smaller, and children keep the attributes |
| C45.C45Leaves | gerararvore/c45.py:88-126 | every leaf label is drawn from any label set covering the view |
| C45.C45LeavesFromData | gerararvore/c45.py:96-104 | no leaf label is invented: each is a label of the view |
| C45.C45Inducer.constructor | gerararvore/c45.py:8-11 | the inducer keeps its table and attributes, and `tree` starts as `None` |
| C45.C45Inducer.BuildTree | gerararvore/c45.py:88-126 | returns the specified tree; a decision node leaves itself in `tree`, a leaf leaves `tree` unchanged |
| C45.C45Inducer.BuildBranches | gerararvore/c45.py:109-115 | the value loop builds exactly the specified branches |
| C45.C45Inducer.Build | gerararvore/c45.py:88-126 | the default call builds the tree of the whole table over every attribute; on an empty table it raises (`None`) when every attribute is numeric and otherwise returns `{attr: {}}` for the first categorical one and stores it |
| CartScores.SideGiniBounds | gerararvore/cart.py:36-37 | a side's Gini (0 when empty) lies in [0, 1) |
| CartScores.GiniShareBounds | gerararvore/cart.py:38 | a side's weighted share lies in [0, weight], strictly below a positive weight |
| CartScores.WeightedGini | gerararvore/cart.py:34-39 | the weighted Gini of a test; bounded by CartScores.WeightedGiniBounds |
| CartScores.WeightedGiniBounds | gerararvore/cart.py:34-39 | the weighted Gini of a split of a non-empty view lies in [0, 1) |
| CartScores.WeightedGiniOfNoSplit | gerararvore/cart.py:24-28 | a test with an empty "no" side scores exactly the parent's Gini |
| CartScores.GinisOf | gerararvore/cart.py:23-28 | one weighted Gini per value, entry `i` being the weighted Gini of the test `== vals[i]` |
| CartScores.CategoricalBest | gerararvore/cart.py:21-31 | `(inf, None)` exactly for an empty view |
| CartScores.CategoricalBestScore | gerararvore/cart.py:21-31 | on a non-empty view, the kept value is the first of least weighted Gini |
| CartScores.CategoricalBestGini | gerararvore/cart.py:21-31 | the kept value occurs in the column, and its score is the weighted Gini of `== v` |
| CartScores.ValueScanSnoc | gerararvore/cart.py:29-30 | one more value is kept only when its Gini is strictly lower |
| CartScores.GiniSplitCategorical | gerararvore/cart.py:19-31 | the value loop returns the specified best Gini and value, or `(inf, None)` |
| CartScores.ThresholdSplits | gerararvore/cart.py:49-51 | one split per candidate threshold, entry `i` being the test `<= ts[i]` on the attribute |
| CartScores.ThresholdSplitsStep | gerararvore/cart.py:50 | one more threshold appends its test |
| CartScores.CandidatesStep | gerararvore/cart.py:45-57 | one more attribute appends its candidates |
| CartScores.SplitGinis | gerararvore/cart.py:51 | one weighted Gini per candidate |
| CartScores.SplitGinisAt | gerararvore/cart.py:51-55 | entry `i` is the weighted Gini of candidate `i` |
| CartScores.PickSnoc | gerararvore/cart.py:52-57 | one more candidate is kept only when its Gini is strictly lower |
| CartScores.CandidatesValid | gerararvore/cart.py:45-57 | every candidate tests its own attribute: a threshold for a numeric one, an occurring value for a categorical one |
| CartScores.AttrSplitsEmpty | gerararvore/cart.py:46-57 | on a non-empty view, an attribute offers no candidate iff it is numeric with at most one distinct value |
| CartScores.AllSingleValuedIff | gerararvore/cart.py:45-57 | the recursive "all single-valued numeric" test agrees with its quantified form |
| CartScores.CandidatesEmpty | gerararvore/cart.py:45-59 | there are no candidates exactly when every attribute is numeric with at most one distinct value |
| CartScores.BestSplitOf | gerararvore/cart.py:41-59 | `best_split(df, attrs)`; what it keeps is stated by CartScores.BestSplitScan and CartScores.BestSplitValid |
| CartScores.EmptyViewNoSplit | gerararvore/cart.py:41-59 | on an empty view no attribute offers a candidate and `best_split` keeps nothing |
| CartScores.BestSplitScan | gerararvore/cart.py:41-59 | the kept split is the first candidate of least weighted Gini; none is kept iff there are no candidates |
| CartScores.BestSplitValid | gerararvore/cart.py:41-59 | the kept split is valid; none is kept iff every attribute is numeric with at most one distinct value |
| CartScores.BestSplit | gerararvore/cart.py:41-59 | the attribute loop returns the specified split |
| CartScores.ScanThresholds | gerararvore/cart.py:50-53 | the threshold loop continues the scan over this attribute's threshold tests |
| Cart.CartStep | gerararvore/cart.py:69-78 | one level of `build_tree`: stop with a label, or split on the chosen test |
| Cart.CartSteps | gerararvore/cart.py:62-96 | `build_tree` as written, under a recursion budget; related to CartTree by Cart.CartStepsAgree |
| Cart.CartTree | gerararvore/cart.py:62-96 | `build_tree` with a one-sided split made a majority leaf; its shape and leaves are stated by Cart.CartShape and Cart.CartLeaves |
| Cart.NoAttrsNoSplit | gerararvore/cart.py:45 | without attributes no split is found |
| Cart.CartStepsNeverReturns | gerararvore/cart.py:88-93 | when the chosen split leaves the "no" side empty, no recursion budget makes the as-written builder return |
| Cart.LoopRowsSplit | gerararvore/cart.py:55-57 | on the two-row example, `best_split` returns `== "a"` |
| Cart.LoopRowsConstant | gerararvore/cart.py:88-89 | on the example, `== "a"` holds on every row, and the view is not pure |
| Cart.CartLoopExample | gerararvore/cart.py:88-93 | the example never returns as written, and the corrected builder makes it a majority leaf |
| Cart.CartStepsGo | gerararvore/cart.py:80-93 | a split step of the as-written builder is the node of its two recursive results |
| Cart.CartTreeStop | gerararvore/cart.py:69-78 | a stop of the corrected builder is a leaf with the stop's label |
| Cart.CartTreeOneSided | gerararvore/cart.py:88-93 | the corrected builder makes a one-sided split a majority leaf |
| Cart.CartTreeGo | gerararvore/cart.py:80-93 | with both sides non-empty, the corrected builder splits and recurses on both |
| Cart.CartStepsAgree | gerararvore/cart.py:62-96 | whenever the as-written builder returns a tree, the corrected one returns the same tree |
| Cart.CartStopOnlyOnConstantColumn | gerararvore/cart.py:52-57 | a chosen split with an empty side is an `== v` test that holds on every row, scoring the parent's own Gini |
| Cart.CartPureLeaf | gerararvore/cart.py:69-70 | a single-label view is a leaf with that label |
| Cart.CartShape | gerararvore/cart.py:62-96 | never multiway; a leaf holds the first or the majority label; a node tests the chosen valid split, its sides are non-empty and smaller, and children keep the attributes |
| Cart.CartLeaves | gerararvore/cart.py:62-96 | every leaf label is drawn from any label set covering the view |
| Cart.CartLeavesFromData | gerararvore/cart.py:70-78 | no leaf label is invented: each is a label of the view |
| Cart.CartInducer.constructor | gerararvore/cart.py:7-10 | the inducer keeps its table and attributes, and `tree` starts as `None` |
| Cart.CartInducer.BuildTree | gerararvore/cart.py:62-96 | returns the corrected tree; a decision node leaves itself in `tree`, a leaf leaves `tree` unchanged |
| Cart.CartInducer.Build | gerararvore/cart.py:62-96 | the default call builds the tree of the whole table over every attribute; on an empty table it raises (`None`) |

## Left out

- Reading the CSV file (`pd.read_csv` in the constructors). The table is a parameter: rows of cells plus a target label, and the attribute list excludes the target column.
- `plot_tree` in all three files. It renders the tree with graphviz and has no algorithmic content.
- `setup.py` (packaging metadata).
- Floating point. Scores are exact reals, and `math.log2` is the parameter `log2`. The `1e-9` floor is the exact real `0.000000001`. Float rounding and ties that only appear through rounding are not modelled.
- `float("inf")` as a starting score is modelled as "nothing kept yet" (`None`).
- pandas dtype detection (`np.issubdtype`). Each attribute carries its kind (`Numeric` or `Categorical`) instead.
- A numeric `<= t` test on a categorical cell is false, so such a row falls on the "no" side. pandas would raise instead. `> t` is modelled as the complement of `<= t`, which it is on numeric columns.
- Missing cells. `pd.read_csv` reads an empty field as NaN, `unique()` lists NaN as a value, and `== NaN` selects no row. On a table with gaps the empty-subset branch of gerararvore/id3.py:50-51 and gerararvore/c45.py:111-112 is therefore live: it gives the parent's majority label, and the multiway weights add up to less than 1. In CART the `!= NaN` side is then the whole view. The model has no NaN: every cell is a number or a category.
- `Cell` reads the cell beyond the end of a short row as the empty category `""`. This is the model's own convention for a row with fewer cells than the table; pandas does not read a missing cell this way.
- Counting.Majority: `mode()[0]` breaks ties between equally frequent labels by pandas' sort order; the model pins the tie to the label that appears first.
- Id3.Id3Inducer.BuildTree requires a non-empty view: the recursion never produces an empty one, and the empty table is handled by Id3.Id3Inducer.Build (`{attrs[0]: {}}`, or an exception without attributes).
- C45.C45Inducer.BuildTree requires a non-empty view: the recursion never produces an empty one, and the empty table is handled by C45.C45Inducer.Build (`{attr: {}}` for the first categorical attribute, or an exception when all are numeric).
- Cart.CartInducer.BuildTree requires a non-empty view: the recursion never produces an empty one, and the empty table is handled by Cart.CartInducer.Build, where the source raises in `mode()[0]`.
- An exception raised by `build_tree()` is modelled as the result `None` of `Build`; its type and message are not modelled.
- Id3.BestAttribute requires a non-empty attribute list. The source applies `max` to it only after the `if not attrs` stop.
- No depth bound is stated for C4.5. Termination follows from the `decreases` clause: a binary split shrinks the view (C45BinaryShape) and a multiway split drops an attribute (C45ChildOfValue).
- The recursion limit of the interpreter is modelled only for CART. Id3.Id3Tree and C45.C45Tree always return a tree, although the source's `build_tree` raises RecursionError once the recursion is deep enough. For ID3 the depth is bounded by the number of attributes (Id3Height). For C4.5 a long chain of binary splits on one numeric attribute can reach the limit in gerararvore/c45.py:88-126.
- Cart.CartSteps models the recursion limit of the interpreter as a budget of nested calls. It returns nothing once the budget runs out, or on an empty view.
- CartScores.BestSplit returns one `Split` (attribute and test) in place of the triple `best_attr, best_val, is_numeric`. The test carries `best_val`, and `is_numeric` is whether the test is a threshold.
- A split is meant to leave two non-empty sides. gerararvore/cart.py:21-31 does not ensure this for a categorical `== v` test, and the model follows the code (see Findings).

## Findings

| source | as written | input that shows it | evidently intended | confidence | as-written member | corrected member |
|---|---|---|---|---|---|---|
| gerararvore/cart.py:88-93 | `build_tree` recurses on `df[df[best_attr] == best_val]` even when that is the whole view. This happens when the chosen categorical value holds on every row, so the call repeats on the same view and attributes and never returns. | Two rows with category `a` in the one categorical column and labels `yes` and `no`: the only candidate is `== "a"`, whose "no" side is empty | A split that leaves a side empty is no split; the view becomes a majority leaf, as when no split is found | not executed | Cart.CartLoopExample | Cart.CartStepsAgree |
