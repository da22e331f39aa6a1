/** C4.5: gain ratio with a threshold search on numeric attributes, the
    strict-improvement choice of attribute, and the recursive builder with
    multiway splits on categorical and binary `<= t` splits on numeric
    attributes. */
module C45 {
  import opened Counting
  import opened Dataset
  import opened Impurity
  import opened Scores
  import opened Trees

  /** What `gain_ratio` returns: the ratio and, for a numeric attribute,
      the threshold that attains it. */
  datatype Score = Score(ratio: real, threshold: Option<real>)

  /** What `best_attribute` keeps: the attribute, its threshold and its ratio. */
  datatype Choice = Choice(attr: Option<Attr>, threshold: Option<real>, ratio: real)

  /** The sentinel ratio every candidate must beat. */
  const NoRatio: real := -1.0

  /** The gain ratio of the threshold split `column c <= t`. */
  function RatioAt(rows: seq<Row>, c: nat, t: real, log2: real -> real): real
  {
    Ratio(ThresholdGain(rows, c, t, log2), ThresholdSplitInfo(rows, c, t, log2))
  }

  /** The gain ratios of the candidate thresholds `ts`, in order: entry
      `i` is the ratio of `ts[i]`. */
  function ThresholdRatios(rows: seq<Row>, c: nat, ts: seq<real>, log2: real -> real): (rs: seq<real>)
    ensures |rs| == |ts|
    ensures forall i :: 0 <= i < |ts| ==> rs[i] == RatioAt(rows, c, ts[i], log2)
  {
    if ts == [] then []
    else ThresholdRatios(rows, c, ts[..|ts| - 1], log2) + [RatioAt(rows, c, ts[|ts| - 1], log2)]
  }

  /** The loop over the candidate thresholds `ts`, which keeps a threshold
      only when it strictly beats the best ratio so far. */
  function BestThreshold(rows: seq<Row>, c: nat, ts: seq<real>, log2: real -> real): (s: Score)
    ensures s.threshold.None? ==> s.ratio == NoRatio
    ensures s.threshold.Some? ==> s.threshold.value in ts && s.ratio > NoRatio
  {
    var rs := ThresholdRatios(rows, c, ts, log2);
    match FirstAbove(rs, NoRatio)
    case None => Score(NoRatio, None)
    case Some(k) => Score(rs[k], Some(ts[k]))
  }

  /** The threshold kept is the first one of greatest ratio (entry `k`
      of `ThresholdRatios` is the ratio of `ts[k]`),
      provided that ratio beats the sentinel; no threshold is kept exactly
      when none beats it. */
  lemma BestThresholdScan(rows: seq<Row>, c: nat, ts: seq<real>, log2: real -> real)
    ensures var s := BestThreshold(rows, c, ts, log2);
            var rs := ThresholdRatios(rows, c, ts, log2);
            (s.threshold.None? <==> forall i :: 0 <= i < |rs| ==> rs[i] <= NoRatio) &&
            (forall i :: 0 <= i < |rs| ==> rs[i] <= s.ratio) &&
            (s.threshold.Some? ==>
               exists k :: 0 <= k < |ts| && ts[k] == s.threshold.value && rs[k] == s.ratio &&
                 forall i :: 0 <= i < k ==> rs[i] < s.ratio)
  {
  }

  /** One more threshold in the loop of `BestThreshold`. */
  lemma BestThresholdStep(rows: seq<Row>, c: nat, ts: seq<real>, i: nat, log2: real -> real)
    requires i < |ts|
    ensures var prev := BestThreshold(rows, c, ts[..i], log2);
            var r := RatioAt(rows, c, ts[i], log2);
            BestThreshold(rows, c, ts[..i + 1], log2) == if r > prev.ratio then Score(r, Some(ts[i])) else prev
  {
    var r := RatioAt(rows, c, ts[i], log2);
    var rs := ThresholdRatios(rows, c, ts[..i], log2);
    TakeSnoc(ts, i);
    assert ts[..i + 1][..i] == ts[..i];
    assert ThresholdRatios(rows, c, ts[..i + 1], log2) == rs + [r];
    FirstAboveSnoc(rs, r, NoRatio);
    match FirstAbove(rs, NoRatio)
    case None =>
    case Some(k) =>
      assert (rs + [r])[k] == rs[k];
      assert ts[..i + 1][k] == ts[..i][k];
  }

  /** `gain_ratio(df, attr)`: for a numeric attribute the best threshold, or
      the sentinel when it has at most one distinct value; for a categorical
      one the ratio of the multiway split. */
  function GainRatioOf(rows: seq<Row>, a: Attr, log2: real -> real): (s: Score)
    ensures s.threshold.Some? ==> a.kind == Numeric && s.threshold.value in Thresholds(rows, a.col) && s.ratio > NoRatio
    ensures a.kind == Numeric && s.threshold.None? ==> s.ratio == NoRatio
    ensures a.kind == Numeric && |SortedUnique(NumColumn(rows, a.col))| <= 1 ==> s == Score(NoRatio, None)
  {
    match a.kind
    case Numeric =>
      var values := SortedUnique(NumColumn(rows, a.col));
      if |values| <= 1 then Score(NoRatio, None)
      else BestThreshold(rows, a.col, Midpoints(values), log2)
    case Categorical =>
      Score(Ratio(MultiwayGain(rows, a.col, log2), MultiwaySplitInfo(rows, a.col, log2)), None)
  }

  /** The ratio of `a`, as a shorthand in quantifiers. */
  function RatioOf(rows: seq<Row>, a: Attr, log2: real -> real): real
  {
    GainRatioOf(rows, a, log2).ratio
  }

  /** The gain ratios of `attrs`, in order. */
  function Ratios(rows: seq<Row>, attrs: seq<Attr>, log2: real -> real): (rs: seq<real>)
    ensures |rs| == |attrs|
  {
    if attrs == [] then []
    else Ratios(rows, attrs[..|attrs| - 1], log2) + [RatioOf(rows, attrs[|attrs| - 1], log2)]
  }

  /** Each entry is the gain ratio of its attribute. */
  lemma {:induction false} RatiosAt(rows: seq<Row>, attrs: seq<Attr>, log2: real -> real, i: nat)
    requires i < |attrs|
    ensures Ratios(rows, attrs, log2)[i] == RatioOf(rows, attrs[i], log2)
  {
    if i < |attrs| - 1 {
      RatiosAt(rows, attrs[..|attrs| - 1], log2, i);
    }
  }

  /** `best_attribute(df, attrs)`: the attribute whose ratio was kept, with
      the score `gain_ratio` gave it, or nothing and the sentinel. */
  function BestChoice(rows: seq<Row>, attrs: seq<Attr>, log2: real -> real): (ch: Choice)
    ensures ch.attr.None? ==> ch == Choice(None, None, NoRatio)
    ensures ch.attr.Some? ==>
              ch.attr.value in attrs && ch.ratio > NoRatio &&
              GainRatioOf(rows, ch.attr.value, log2) == Score(ch.ratio, ch.threshold)
  {
    var rs := Ratios(rows, attrs, log2);
    match FirstAbove(rs, NoRatio)
    case None => Choice(None, None, NoRatio)
    case Some(k) =>
      RatiosAt(rows, attrs, log2, k);
      var s := GainRatioOf(rows, attrs[k], log2);
      Choice(Some(attrs[k]), s.threshold, s.ratio)
  }

  /** One more attribute in the loop of `BestChoice`. */
  lemma BestChoiceStep(rows: seq<Row>, attrs: seq<Attr>, i: nat, log2: real -> real)
    requires i < |attrs|
    ensures var prev := BestChoice(rows, attrs[..i], log2);
            var s := GainRatioOf(rows, attrs[i], log2);
            BestChoice(rows, attrs[..i + 1], log2) == if s.ratio > prev.ratio then Choice(Some(attrs[i]), s.threshold, s.ratio) else prev
  {
    var r := RatioOf(rows, attrs[i], log2);
    var rs := Ratios(rows, attrs[..i], log2);
    TakeSnoc(attrs, i);
    assert attrs[..i + 1][..i] == attrs[..i];
    assert Ratios(rows, attrs[..i + 1], log2) == rs + [r];
    FirstAboveSnoc(rs, r, NoRatio);
    match FirstAbove(rs, NoRatio)
    case None =>
    case Some(k) =>
      assert (rs + [r])[k] == rs[k];
      assert attrs[..i + 1][k] == attrs[..i][k];
      RatiosAt(rows, attrs[..i], log2, k);
  }

  /** The attribute chosen is the first one of greatest ratio (entry `k`
      of `Ratios` is the ratio of `attrs[k]`, `RatiosAt`), provided that
      ratio beats the sentinel; nothing is chosen exactly when no attribute
      beats it. */
  lemma BestChoiceScan(rows: seq<Row>, attrs: seq<Attr>, log2: real -> real)
    ensures BestChoice(rows, attrs, log2).attr.None? <==>
              forall i :: 0 <= i < |Ratios(rows, attrs, log2)| ==> Ratios(rows, attrs, log2)[i] <= NoRatio
    ensures forall i :: 0 <= i < |Ratios(rows, attrs, log2)| ==> Ratios(rows, attrs, log2)[i] <= BestChoice(rows, attrs, log2).ratio
    ensures var ch := BestChoice(rows, attrs, log2);
            var rs := Ratios(rows, attrs, log2);
            ch.attr.Some? ==>
              exists k :: 0 <= k < |attrs| && attrs[k] == ch.attr.value && rs[k] == ch.ratio &&
                forall i :: 0 <= i < k ==> rs[i] < ch.ratio
  {
    var rs := Ratios(rows, attrs, log2);
    match FirstAbove(rs, NoRatio)
    case None =>
    case Some(k) => RatiosAt(rows, attrs, log2, k);
  }

  /** The chosen attribute comes with a threshold exactly when it is numeric. */
  lemma ChosenThresholdIffNumeric(rows: seq<Row>, attrs: seq<Attr>, log2: real -> real)
    ensures var ch := BestChoice(rows, attrs, log2);
            ch.attr.Some? ==> (ch.threshold.Some? <==> ch.attr.value.kind == Numeric)
  {
  }

  /** A numeric attribute with at most one distinct value gets the sentinel
      and is never chosen. */
  lemma SingleValuedNeverChosen(rows: seq<Row>, attrs: seq<Attr>, a: Attr, log2: real -> real)
    requires a.kind == Numeric && |SortedUnique(NumColumn(rows, a.col))| <= 1
    ensures BestChoice(rows, attrs, log2).attr != Some(a)
  {
  }

  /** On an empty view a numeric attribute has no value and gets the
      sentinel, while a categorical one gets the ratio 0 (gain 0 over the
      `1e-9` stand-in). */
  lemma EmptyViewRatio(a: Attr, log2: real -> real)
    ensures GainRatioOf([], a, log2) == if a.kind == Numeric then Score(NoRatio, None) else Score(0.0, None)
  {
    EmptyViewScores(a.col, log2);
    assert NumColumn([], a.col) == [];
  }

  /** On an empty table `best_attribute` keeps the first categorical
      attribute, without threshold, and nothing when all are numeric. */
  lemma C45EmptyTable(attrs: seq<Attr>, log2: real -> real)
    ensures BestChoice([], attrs, log2).attr.None? <==> forall i :: 0 <= i < |attrs| ==> attrs[i].kind == Numeric
    ensures BestChoice([], attrs, log2).threshold.None?
    ensures var ch := BestChoice([], attrs, log2);
            ch.attr.Some? ==>
              exists k :: 0 <= k < |attrs| && attrs[k] == ch.attr.value && attrs[k].kind == Categorical &&
                forall i :: 0 <= i < k ==> attrs[i].kind == Numeric
  {
    var rs := Ratios([], attrs, log2);
    forall i | 0 <= i < |attrs| ensures rs[i] == if attrs[i].kind == Numeric then NoRatio else 0.0 {
      RatiosAt([], attrs, log2, i);
      EmptyViewRatio(attrs[i], log2);
    }
    BestChoiceScan([], attrs, log2);
    var ch := BestChoice([], attrs, log2);
    if ch.attr.Some? {
      EmptyViewRatio(ch.attr.value, log2);
      var k :| 0 <= k < |attrs| && attrs[k] == ch.attr.value && rs[k] == ch.ratio &&
                forall i :: 0 <= i < k ==> rs[i] < ch.ratio;
      assert attrs[k].kind == Categorical;
    }
  }

  /** `gain_ratio(df, attr)`. */
  method GainRatio(rows: seq<Row>, a: Attr, log2: real -> real) returns (ratio: real, threshold: Option<real>)
    ensures Score(ratio, threshold) == GainRatioOf(rows, a, log2)
  {
    if a.kind == Numeric {
      var values := SortedUnique(NumColumn(rows, a.col));
      if |values| <= 1 {
        return NoRatio, None;
      }
      var thresholds := Midpoints(values);
      ratio, threshold := NoRatio, None;
      for i := 0 to |thresholds|
        invariant Score(ratio, threshold) == BestThreshold(rows, a.col, thresholds[..i], log2)
      {
        var t := thresholds[i];
        var gain := InfoGainAt(rows, a.col, t, log2);
        var split := SplitInfoAt(rows, a.col, t, log2);
        var r := Ratio(gain, split);
        BestThresholdStep(rows, a.col, thresholds, i, log2);
        if r > ratio {
          ratio, threshold := r, Some(t);
        }
      }
      assert thresholds[..|thresholds|] == thresholds;
    } else {
      var gain := InfoGain(rows, a.col, log2);
      var split := SplitInfo(rows, a.col, log2);
      ratio := Ratio(gain, split);
      threshold := None;
    }
  }

  /** `best_attribute(df, attrs)`. */
  method BestAttribute(rows: seq<Row>, attrs: seq<Attr>, log2: real -> real)
    returns (bestAttr: Option<Attr>, bestThreshold: Option<real>)
    ensures bestAttr == BestChoice(rows, attrs, log2).attr
    ensures bestThreshold == BestChoice(rows, attrs, log2).threshold
  {
    var bestRatio := NoRatio;
    bestAttr, bestThreshold := None, None;
    for i := 0 to |attrs|
      invariant Choice(bestAttr, bestThreshold, bestRatio) == BestChoice(rows, attrs[..i], log2)
    {
      var ratio, threshold := GainRatio(rows, attrs[i], log2);
      BestChoiceStep(rows, attrs, i, log2);
      if ratio > bestRatio {
        bestAttr, bestThreshold, bestRatio := Some(attrs[i]), threshold, ratio;
      }
    }
    assert attrs[..|attrs|] == attrs;
  }

  /** `build_tree(df, attrs)`: a pure view gives its label; no attributes
      left, or none beating the sentinel, give the majority label; a chosen
      attribute without threshold splits multiway and drops the attribute;
      with a threshold it splits `<= t` / `> t` and keeps the attributes. */
  function C45Tree(rows: seq<Row>, attrs: seq<Attr>, log2: real -> real): Tree
    requires |rows| > 0
    decreases |rows|, |attrs|, 2
  {
    if IsPure(rows) then Leaf(rows[0].target)
    else if attrs == [] then Leaf(Majority(Labels(rows)))
    else
      var ch := BestChoice(rows, attrs, log2);
      match ch.attr
      case None => Leaf(Majority(Labels(rows)))
      case Some(best) =>
        match ch.threshold
        case None => Multiway(best.col, C45Branches(rows, attrs, best, SplitValues(rows, best.col), log2))
        case Some(t) =>
          ThresholdSplitsBoth(rows, best.col, t);
          Binary(AtMost(best.col, t),
                 C45Tree(Side(rows, AtMost(best.col, t), true), attrs, log2),
                 C45Tree(Side(rows, AtMost(best.col, t), false), attrs, log2))
  }

  /** The entries `tree[best][v]` for the values `vals`, in order. */
  function C45Branches(rows: seq<Row>, attrs: seq<Attr>, best: Attr, vals: seq<Value>, log2: real -> real): seq<Branch>
    requires |rows| > 0 && best in attrs
    decreases |rows|, |attrs|, 1
  {
    seq(|vals|, i requires 0 <= i < |vals| => Branch(vals[i], C45Child(rows, attrs, best, vals[i], log2)))
  }

  /** The entry `tree[best][v]`: the tree of the rows holding `v`, built
      without `best`; an empty subset would get the majority label of the
      parent. */
  function C45Child(rows: seq<Row>, attrs: seq<Attr>, best: Attr, v: Value, log2: real -> real): Tree
    requires |rows| > 0 && best in attrs
    decreases |rows|, |attrs|, 0
  {
    var subset := Side(rows, Equals(best.col, v), true);
    if |subset| == 0 then Leaf(Majority(Labels(rows))) else C45Tree(subset, Remove(attrs, best), log2)
  }

  /** A view whose rows all carry the same label becomes a leaf with that
      label, whatever attributes remain. */
  lemma C45PureLeaf(rows: seq<Row>, attrs: seq<Attr>, log2: real -> real)
    requires rows != [] && forall i :: 0 <= i < |rows| ==> rows[i].target == rows[0].target
    ensures C45Tree(rows, attrs, log2) == Leaf(rows[0].target)
  {
    PureIff(rows);
  }

  /** A multiway node has one branch per value, keyed by it, in order. */
  lemma C45Keys(rows: seq<Row>, attrs: seq<Attr>, best: Attr, vals: seq<Value>, log2: real -> real)
    requires |rows| > 0 && best in attrs
    ensures var bs := C45Branches(rows, attrs, best, vals, log2);
            Keys(bs) == vals &&
            forall i :: 0 <= i < |bs| ==> bs[i].child == C45Child(rows, attrs, best, vals[i], log2)
  {
    var bs := C45Branches(rows, attrs, best, vals, log2);
    assert Keys(bs) == vals;
  }

  /** The child of a value of the split is the tree of that value's subset
      with the chosen attribute removed: the subset is never empty, so the
      empty-subset case never arises. */
  lemma C45ChildOfValue(rows: seq<Row>, attrs: seq<Attr>, best: Attr, v: Value, log2: real -> real)
    requires |rows| > 0 && best in attrs && v in SplitValues(rows, best.col)
    ensures |Side(rows, Equals(best.col, v), true)| > 0
    ensures C45Child(rows, attrs, best, v, log2) == C45Tree(Side(rows, Equals(best.col, v), true), Remove(attrs, best), log2)
  {
    MultiwaySubsetNonEmpty(rows, best.col, v);
  }

  /** A leaf built on a view holds the first row's label (pure view) or
      the majority label. */
  lemma C45LeafShape(rows: seq<Row>, attrs: seq<Attr>, log2: real -> real)
    requires |rows| > 0
    ensures var t := C45Tree(rows, attrs, log2);
            t.Leaf? ==> t.value == rows[0].target || t.value == Majority(Labels(rows))
  {
  }

  /** A multiway node splits on the chosen attribute, which is categorical;
      its branches are those of the distinct values of that attribute (see
      `C45Keys` and `C45ChildOfValue` for what each branch holds). */
  lemma C45MultiwayShape(rows: seq<Row>, attrs: seq<Attr>, log2: real -> real)
    requires |rows| > 0
    ensures var t := C45Tree(rows, attrs, log2);
            t.Multiway? ==>
              var best := BestChoice(rows, attrs, log2).attr.value;
              best in attrs && best.col == t.col && best.kind == Categorical &&
              t.branches == C45Branches(rows, attrs, best, SplitValues(rows, best.col), log2)
  {
    var tree := C45Tree(rows, attrs, log2);
    if !IsPure(rows) && attrs != [] {
      var ch := BestChoice(rows, attrs, log2);
      if ch.attr.Some? && ch.threshold.None? {
        ChosenThresholdIffNumeric(rows, attrs, log2);
      } else {
        assert !tree.Multiway?;
      }
    } else {
      assert tree.Leaf?;
    }
  }

  /** A binary node tests a candidate threshold of the chosen attribute,
      which is numeric; both sides are non-empty, strictly smaller than the
      view, and built with the same attributes. */
  lemma C45BinaryShape(rows: seq<Row>, attrs: seq<Attr>, log2: real -> real)
    requires |rows| > 0
    ensures var t := C45Tree(rows, attrs, log2);
            t.Binary? ==>
              var best := BestChoice(rows, attrs, log2).attr.value;
              best in attrs && best.kind == Numeric && t.test == AtMost(best.col, t.test.threshold) &&
              t.test.threshold in Thresholds(rows, best.col) &&
              0 < |Side(rows, t.test, true)| < |rows| && 0 < |Side(rows, t.test, false)| < |rows| &&
              t.yes == C45Tree(Side(rows, t.test, true), attrs, log2) &&
              t.no == C45Tree(Side(rows, t.test, false), attrs, log2)
  {
    var tree := C45Tree(rows, attrs, log2);
    if !IsPure(rows) && attrs != [] {
      var ch := BestChoice(rows, attrs, log2);
      if ch.attr.Some? && ch.threshold.Some? {
        var best := ch.attr.value;
        var t := ch.threshold.value;
        ChosenThresholdIffNumeric(rows, attrs, log2);
        ThresholdSplitsBoth(rows, best.col, t);
        assert tree == Binary(AtMost(best.col, t),
               C45Tree(Side(rows, AtMost(best.col, t), true), attrs, log2),
               C45Tree(Side(rows, AtMost(best.col, t), false), attrs, log2));
      }
    }
  }

  /** Every leaf label of the tree built on a view is a label of that view:
      subsets only hold rows of their parent. */
  lemma {:induction false} C45Leaves(rows: seq<Row>, attrs: seq<Attr>, log2: real -> real, ls: seq<Value>)
    requires |rows| > 0 && forall r :: r in rows ==> r.target in ls
    ensures LeavesFrom(C45Tree(rows, attrs, log2), ls)
    decreases |rows|, |attrs|
  {
    var t := C45Tree(rows, attrs, log2);
    C45LeafShape(rows, attrs, log2);
    C45MultiwayShape(rows, attrs, log2);
    C45BinaryShape(rows, attrs, log2);
    match t
    case Leaf(_) =>
      assert rows[0] in rows;
      MajorityFromRows(rows, ls);
    case Multiway(_, bs) =>
      var best := BestChoice(rows, attrs, log2).attr.value;
      var vals := SplitValues(rows, best.col);
      C45Keys(rows, attrs, best, vals, log2);
      forall i | 0 <= i < |bs| ensures LeavesFrom(bs[i].child, ls) {
        C45ChildOfValue(rows, attrs, best, vals[i], log2);
        C45Leaves(Side(rows, Equals(best.col, vals[i]), true), Remove(attrs, best), log2, ls);
      }
    case Binary(test, _, _) =>
      C45Leaves(Side(rows, test, true), attrs, log2, ls);
      C45Leaves(Side(rows, test, false), attrs, log2, ls);
  }

  /** No label is invented: every leaf carries a label of the view. */
  lemma C45LeavesFromData(rows: seq<Row>, attrs: seq<Attr>, log2: real -> real)
    requires |rows| > 0
    ensures LeavesFrom(C45Tree(rows, attrs, log2), Labels(rows))
  {
    C45Leaves(rows, attrs, log2, Labels(rows));
  }

  /** The inducer object: the table it was given, the attributes other
      than the target column, and the last decision node `build_tree`
      stored in `self.tree` (`None` until then). */
  class C45Inducer {
    const data: seq<Row>
    const attributes: seq<Attr>
    const log2: real -> real
    var tree: Option<Tree>

    constructor(data: seq<Row>, attributes: seq<Attr>, log2: real -> real)
      ensures this.data == data && this.attributes == attributes && this.log2 == log2
      ensures tree == None
    {
      this.data := data;
      this.attributes := attributes;
      this.log2 := log2;
      tree := None;
    }

    /** `build_tree(df, attrs)`. Every decision node it builds is stored in
        `tree` after its children, so the outermost one is stored last; a
        leaf stores nothing. */
    method BuildTree(rows: seq<Row>, attrs: seq<Attr>) returns (t: Tree)
      requires |rows| > 0
      modifies this
      ensures t == C45Tree(rows, attrs, log2)
      ensures t.Leaf? ==> tree == old(tree)
      ensures !t.Leaf? ==> tree == Some(t)
      decreases |rows|, |attrs|, 1
    {
      if IsPure(rows) {
        return Leaf(rows[0].target);
      }
      if attrs == [] {
        return Leaf(Majority(Labels(rows)));
      }
      var bestAttr, bestThreshold := BestAttribute(rows, attrs, log2);
      if bestAttr.None? {
        return Leaf(Majority(Labels(rows)));
      }
      var best := bestAttr.value;
      if bestThreshold.None? {
        var branches := BuildBranches(rows, attrs, best);
        t := Multiway(best.col, branches);
      } else {
        var threshold := bestThreshold.value;
        ThresholdSplitsBoth(rows, best.col, threshold);
        var left := Side(rows, AtMost(best.col, threshold), true);
        var right := Side(rows, AtMost(best.col, threshold), false);
        var yes := BuildTree(left, attrs);
        var no := BuildTree(right, attrs);
        t := Binary(AtMost(best.col, threshold), yes, no);
      }
      tree := Some(t);
    }

    /** The loop filling `tree[best_attr][v]` for each value `v` of the
        chosen categorical attribute, recursing on its subset without it. */
    method BuildBranches(rows: seq<Row>, attrs: seq<Attr>, best: Attr) returns (branches: seq<Branch>)
      requires |rows| > 0 && best in attrs
      modifies this
      ensures branches == C45Branches(rows, attrs, best, SplitValues(rows, best.col), log2)
      decreases |rows|, |attrs|, 0
    {
      var vals := SplitValues(rows, best.col);
      ghost var want := C45Branches(rows, attrs, best, vals, log2);
      branches := [];
      for i := 0 to |vals|
        invariant branches == want[..i]
      {
        var v := vals[i];
        var subset := Side(rows, Equals(best.col, v), true);
        var child;
        if |subset| == 0 {
          child := Leaf(Majority(Labels(rows)));
        } else {
          var newAttrs := Remove(attrs, best);
          child := BuildTree(subset, newAttrs);
        }
        assert child == C45Child(rows, attrs, best, v, log2);
        assert want[i] == Branch(v, child);
        TakeSnoc(want, i);
        branches := branches + [Branch(v, child)];
      }
      assert want[..|vals|] == want;
    }

    /** `build_tree()` with its defaults: the whole table and every
        attribute; `None` when the source raises. On an empty table the
        view is not pure (`unique()` is empty): when no attribute is
        categorical nothing beats the sentinel and `mode()[0]` raises,
        otherwise the first categorical attribute is chosen and, having no
        values, gives the node `{attr: {}}`. */
    method Build() returns (t: Option<Tree>)
      modifies this
      ensures |data| > 0 ==> t == Some(C45Tree(data, attributes, log2))
      ensures |data| == 0 ==> (t.None? <==> forall i :: 0 <= i < |attributes| ==> attributes[i].kind == Numeric)
      ensures |data| == 0 && t.Some? ==>
                exists k :: 0 <= k < |attributes| && t.value == Multiway(attributes[k].col, []) &&
                  attributes[k].kind == Categorical && forall i :: 0 <= i < k ==> attributes[i].kind == Numeric
      ensures t.None? || t.value.Leaf? ==> tree == old(tree)
      ensures t.Some? && !t.value.Leaf? ==> tree == t
    {
      if |data| > 0 {
        var r := BuildTree(data, attributes);
        return Some(r);
      }
      if attributes == [] {
        return None;
      }
      var bestAttr, bestThreshold := BestAttribute(data, attributes, log2);
      C45EmptyTable(attributes, log2);
      if bestAttr.None? {
        return None;
      }
      var best := bestAttr.value;
      SplitValuesEmpty(data, best.col);
      t := Some(Multiway(best.col, []));
      tree := t;
    }
  }
}
