/** CART: binary splits only, `<= t` on a numeric and `== v` on a
    categorical attribute, chosen by least weighted Gini impurity; the
    attributes are never removed. `build_tree` as written recurses forever
    when the chosen `== v` test holds on every row (its "yes" side is the
    view itself); `CartSteps` models it as written, `CartTree` with the
    evidently intended stop. */
module Cart {
  import opened Counting
  import opened Dataset
  import opened Impurity
  import opened CartScores
  import opened Trees

  /** What `build_tree` decides at a view before any recursive call. */
  datatype Step =
    | Stop(value: Value)   // return this label
    | Go(test: Test)       // split on this test

  /** A pure view gives its label; no attributes left, or no split found,
      give the majority label; otherwise the test of the split
      `best_split` chose. */
  function CartStep(rows: seq<Row>, attrs: seq<Attr>): Step
    requires |rows| > 0
  {
    if IsPure(rows) then Stop(rows[0].target)
    else if attrs == [] then Stop(Majority(Labels(rows)))
    else
      match BestSplitOf(rows, attrs)
      case None => Stop(Majority(Labels(rows)))
      case Some(s) => Go(s.test)
  }

  /** The node `{test: {"yes": yes, "no": no}}`, when both calls returned. */
  function Join(test: Test, yes: Option<Tree>, no: Option<Tree>): Option<Tree>
  {
    if yes.Some? && no.Some? then Some(Binary(test, yes.value, no.value)) else None
  }

  /** `build_tree(df, attrs)` as written, allowed `fuel` nested calls (the
      interpreter's recursion limit). `None` when no tree comes back: the
      calls nest deeper than `fuel`, or a view is empty (`mode()[0]` of an
      empty column raises). */
  function CartSteps(rows: seq<Row>, attrs: seq<Attr>, fuel: nat): Option<Tree>
    decreases fuel
  {
    if fuel == 0 || |rows| == 0 then None
    else
      match CartStep(rows, attrs)
      case Stop(v) => Some(Leaf(v))
      case Go(test) =>
        Join(test, CartSteps(Side(rows, test, true), attrs, fuel - 1), CartSteps(Side(rows, test, false), attrs, fuel - 1))
  }

  /** `build_tree(df, attrs)` with the missing stop: a chosen split that
      leaves one side empty does not split, and the view becomes a leaf
      with its majority label, as when no split is found. Every split it
      makes has two non-empty sides, so it always terminates. */
  function CartTree(rows: seq<Row>, attrs: seq<Attr>): Tree
    requires |rows| > 0
    decreases |rows|
  {
    match CartStep(rows, attrs)
    case Stop(v) => Leaf(v)
    case Go(test) =>
      var yes := Side(rows, test, true);
      var no := Side(rows, test, false);
      if |yes| == 0 || |no| == 0 then Leaf(Majority(Labels(rows)))
      else
        SidesPartition(rows, test);
        Binary(test, CartTree(yes, attrs), CartTree(no, attrs))
  }

  /** Without attributes nothing is split. */
  lemma NoAttrsNoSplit(rows: seq<Row>)
    ensures BestSplitOf(rows, []) == None
  {
    assert Candidates(rows, []) == [];
  }

  /** When the chosen split leaves the "no" side empty, the as-written
      builder calls itself on the same view and attributes, so no budget
      of nested calls is ever enough. */
  lemma {:induction false} CartStepsNeverReturns(rows: seq<Row>, attrs: seq<Attr>, s: Split, fuel: nat)
    requires |rows| > 0 && !IsPure(rows)
    requires BestSplitOf(rows, attrs) == Some(s) && |Side(rows, s.test, false)| == 0
    ensures CartSteps(rows, attrs, fuel) == None
    decreases fuel
  {
    if fuel > 0 {
      if attrs == [] {
        NoAttrsNoSplit(rows);
      }
      var f: nat := fuel - 1;
      SideAll(rows, s.test);
      CartStepsGo(rows, attrs, f, s.test);
      CartStepsNeverReturns(rows, attrs, s, f);
    }
  }

  /** Two rows with the same category `a` and different labels, and that
      one categorical attribute. */
  function LoopRows(): seq<Row>
  {
    [Row([Cat("a")], Cat("yes")), Row([Cat("a")], Cat("no"))]
  }

  /** On `LoopRows` the only candidate is `== "a"`, so `best_split`
      returns it. */
  lemma LoopRowsSplit()
    ensures BestSplitOf(LoopRows(), [Attr(0, Categorical)]) == Some(Split(Attr(0, Categorical), Equals(0, Cat("a"))))
  {
    var rows := LoopRows();
    var a := Attr(0, Categorical);
    var s := Split(a, Equals(0, Cat("a")));
    LoopRowsCandidate();
    assert [a][..0] == [];
    assert Candidates(rows, [a]) == [s];
    assert SplitGinis(rows, [s])[..0] == [];
    assert FirstMin(SplitGinis(rows, [s])) == Some(0);
  }

  /** The one column of `LoopRows` holds only `a`. */
  lemma LoopRowsColumn()
    ensures forall x :: x in SplitValues(LoopRows(), 0) ==> x == Cat("a")
  {
    assert Column(LoopRows(), 0) == [Cat("a"), Cat("a")];
  }

  /** The best value of that column is `a`. */
  lemma LoopRowsBestValue()
    ensures CategoricalBest(LoopRows(), 0).Some? && CategoricalBest(LoopRows(), 0).value.1 == Cat("a")
  {
    CategoricalBestGini(LoopRows(), 0);
    LoopRowsColumn();
  }

  /** Hence the one candidate is `== "a"`. */
  lemma LoopRowsCandidate()
    ensures AttrSplits(LoopRows(), Attr(0, Categorical)) == [Split(Attr(0, Categorical), Equals(0, Cat("a")))]
  {
    LoopRowsBestValue();
  }

  /** The test `== "a"` holds on both rows of `LoopRows`, whose labels
      differ. */
  lemma LoopRowsConstant()
    ensures |Side(LoopRows(), Equals(0, Cat("a")), false)| == 0
    ensures !IsPure(LoopRows())
  {
    var rows := LoopRows();
    forall r | r in Side(rows, Equals(0, Cat("a")), false) ensures false {
    }
    PureIff(rows);
    assert rows[1].target != rows[0].target;
  }

  /** The finding: as written, `build_tree` on `LoopRows` never returns,
      whatever the recursion budget; with the stop it is a majority leaf. */
  lemma CartLoopExample(fuel: nat)
    ensures CartSteps(LoopRows(), [Attr(0, Categorical)], fuel) == None
    ensures CartTree(LoopRows(), [Attr(0, Categorical)]) == Leaf(Majority(Labels(LoopRows())))
  {
    var rows, attrs, test := LoopRows(), [Attr(0, Categorical)], Equals(0, Cat("a"));
    LoopRowsSplit();
    LoopRowsConstant();
    CartStepsNeverReturns(rows, attrs, Split(Attr(0, Categorical), test), fuel);
    assert CartStep(rows, attrs) == Go(test);
    CartTreeOneSided(rows, attrs, test);
  }

  /** One split step of the as-written builder. */
  lemma CartStepsGo(rows: seq<Row>, attrs: seq<Attr>, fuel: nat, test: Test)
    requires |rows| > 0 && CartStep(rows, attrs) == Go(test)
    ensures CartSteps(rows, attrs, fuel + 1) ==
            Join(test, CartSteps(Side(rows, test, true), attrs, fuel), CartSteps(Side(rows, test, false), attrs, fuel))
  {
  }

  /** One split step of the corrected builder, when both sides have rows. */
  lemma CartTreeGo(rows: seq<Row>, attrs: seq<Attr>, test: Test)
    requires |rows| > 0 && CartStep(rows, attrs) == Go(test)
    requires |Side(rows, test, true)| > 0 && |Side(rows, test, false)| > 0
    ensures CartTree(rows, attrs) == Binary(test, CartTree(Side(rows, test, true), attrs), CartTree(Side(rows, test, false), attrs))
  {
  }

  /** A stop of the corrected builder is a leaf with the stop's label. */
  lemma CartTreeStop(rows: seq<Row>, attrs: seq<Attr>)
    requires |rows| > 0 && CartStep(rows, attrs).Stop?
    ensures CartTree(rows, attrs) == Leaf(CartStep(rows, attrs).value)
  {
  }

  /** A chosen split with an empty side is a majority leaf in the
      corrected builder. */
  lemma CartTreeOneSided(rows: seq<Row>, attrs: seq<Attr>, test: Test)
    requires |rows| > 0 && CartStep(rows, attrs) == Go(test)
    requires |Side(rows, test, true)| == 0 || |Side(rows, test, false)| == 0
    ensures CartTree(rows, attrs) == Leaf(Majority(Labels(rows)))
  {
  }

  /** Whenever the as-written builder returns a tree, the corrected one
      builds the same tree: the stop only changes calls that never
      return. */
  lemma {:induction false} CartStepsAgree(rows: seq<Row>, attrs: seq<Attr>, fuel: nat)
    ensures CartSteps(rows, attrs, fuel).Some? ==> |rows| > 0 && CartSteps(rows, attrs, fuel).value == CartTree(rows, attrs)
    decreases fuel
  {
    if fuel > 0 && |rows| > 0 {
      var step := CartStep(rows, attrs);
      if step.Go? {
        var yes, no := Side(rows, step.test, true), Side(rows, step.test, false);
        var f: nat := fuel - 1;
        CartStepsGo(rows, attrs, f, step.test);
        CartStepsAgree(yes, attrs, f);
        CartStepsAgree(no, attrs, f);
        if CartSteps(yes, attrs, f).Some? && CartSteps(no, attrs, f).Some? {
          CartTreeGo(rows, attrs, step.test);
        }
      }
    }
  }

  /** The stop fires only for a `== v` test holding on every row of the
      view: a threshold always leaves both sides non-empty and a value of
      the column always has rows. Such a test scores the view's own Gini
      impurity. */
  lemma CartStopOnlyOnConstantColumn(rows: seq<Row>, attrs: seq<Attr>)
    requires |rows| > 0
    ensures var best := BestSplitOf(rows, attrs);
            best.Some? && (|Side(rows, best.value.test, true)| == 0 || |Side(rows, best.value.test, false)| == 0) ==>
              best.value.test.Equals? &&
              Side(rows, best.value.test, true) == rows &&
              (forall i :: 0 <= i < |rows| ==> Cell(rows[i], best.value.test.col) == best.value.test.value) &&
              WeightedGini(rows, best.value.test) == Gini(Labels(rows))
  {
    var best := BestSplitOf(rows, attrs);
    if best.Some? {
      var t := best.value.test;
      BestSplitValid(rows, attrs);
      match t
      case AtMost(c, th) =>
        ThresholdSplitsBoth(rows, c, th);
      case Equals(c, v) =>
        MultiwaySubsetNonEmpty(rows, c, v);
        if |Side(rows, t, false)| == 0 {
          SideAll(rows, t);
          WeightedGiniOfNoSplit(rows, t);
          forall i | 0 <= i < |rows| ensures Cell(rows[i], c) == v {
            assert rows[i] in Side(rows, t, true);
          }
        }
    }
  }

  /** A view whose rows all carry the same label becomes a leaf with that
      label. */
  lemma CartPureLeaf(rows: seq<Row>, attrs: seq<Attr>)
    requires |rows| > 0 && forall i :: 0 <= i < |rows| ==> rows[i].target == rows[0].target
    ensures CartTree(rows, attrs) == Leaf(rows[0].target)
  {
    PureIff(rows);
  }

  /** The tree is binary: a leaf holds the first row's label (pure view)
      or the majority label; a decision node tests the split `best_split`
      chose, a valid candidate, with two non-empty sides strictly smaller
      than the view, each built with the same attributes. */
  lemma CartShape(rows: seq<Row>, attrs: seq<Attr>)
    requires |rows| > 0
    ensures var t := CartTree(rows, attrs);
            !t.Multiway? &&
            (t.Leaf? ==> t.value == rows[0].target || t.value == Majority(Labels(rows))) &&
            (t.Binary? ==>
               BestSplitOf(rows, attrs).Some? && t.test == BestSplitOf(rows, attrs).value.test &&
               ValidSplit(rows, attrs, BestSplitOf(rows, attrs).value) &&
               0 < |Side(rows, t.test, true)| < |rows| && 0 < |Side(rows, t.test, false)| < |rows| &&
               t.yes == CartTree(Side(rows, t.test, true), attrs) &&
               t.no == CartTree(Side(rows, t.test, false), attrs))
  {
    var step := CartStep(rows, attrs);
    if step.Stop? {
      CartTreeStop(rows, attrs);
    } else if |Side(rows, step.test, true)| == 0 || |Side(rows, step.test, false)| == 0 {
      CartTreeOneSided(rows, attrs, step.test);
    } else {
      CartTreeGo(rows, attrs, step.test);
      BestSplitValid(rows, attrs);
      SidesPartition(rows, step.test);
    }
  }

  /** Every leaf label of the tree built on a view is a label of that view. */
  lemma {:induction false} CartLeaves(rows: seq<Row>, attrs: seq<Attr>, ls: seq<Value>)
    requires |rows| > 0 && forall r :: r in rows ==> r.target in ls
    ensures LeavesFrom(CartTree(rows, attrs), ls)
    decreases |rows|
  {
    var t := CartTree(rows, attrs);
    CartShape(rows, attrs);
    match t
    case Leaf(_) =>
      assert rows[0] in rows;
      MajorityFromRows(rows, ls);
    case Binary(test, _, _) =>
      CartLeaves(Side(rows, test, true), attrs, ls);
      CartLeaves(Side(rows, test, false), attrs, ls);
  }

  /** No label is invented: every leaf carries a label of the view. */
  lemma CartLeavesFromData(rows: seq<Row>, attrs: seq<Attr>)
    requires |rows| > 0
    ensures LeavesFrom(CartTree(rows, attrs), Labels(rows))
  {
    CartLeaves(rows, attrs, Labels(rows));
  }

  /** The inducer object: the table it was given, the attributes other
      than the target column, and the last decision node `build_tree`
      stored in `self.tree` (`None` until then). */
  class CartInducer {
    const data: seq<Row>
    const attributes: seq<Attr>
    var tree: Option<Tree>

    constructor(data: seq<Row>, attributes: seq<Attr>)
      ensures this.data == data && this.attributes == attributes
      ensures tree == None
    {
      this.data := data;
      this.attributes := attributes;
      tree := None;
    }

    /** `build_tree(df, attrs)` with the stop of `CartTree`. Every decision
        node it builds is stored in `tree` after its children, so the
        outermost one is stored last; a leaf stores nothing. */
    method BuildTree(rows: seq<Row>, attrs: seq<Attr>) returns (t: Tree)
      requires |rows| > 0
      modifies this
      ensures t == CartTree(rows, attrs)
      ensures t.Leaf? ==> tree == old(tree)
      ensures !t.Leaf? ==> tree == Some(t)
      decreases |rows|
    {
      if IsPure(rows) {
        CartTreeStop(rows, attrs);
        return Leaf(rows[0].target);
      }
      if attrs == [] {
        CartTreeStop(rows, attrs);
        return Leaf(Majority(Labels(rows)));
      }
      var best := BestSplit(rows, attrs);
      if best.None? {
        CartTreeStop(rows, attrs);
        return Leaf(Majority(Labels(rows)));
      }
      var test := best.value.test;
      assert CartStep(rows, attrs) == Go(test);
      var left := Side(rows, test, true);
      var right := Side(rows, test, false);
      if |left| == 0 || |right| == 0 {
        CartTreeOneSided(rows, attrs, test);
        return Leaf(Majority(Labels(rows)));
      }
      SidesPartition(rows, test);
      CartTreeGo(rows, attrs, test);
      var yes := BuildTree(left, attrs);
      var no := BuildTree(right, attrs);
      t := Binary(test, yes, no);
      tree := Some(t);
    }

    /** `build_tree()` with its defaults: the whole table and every
        attribute; `None` when the source raises. On an empty table the
        view is not pure (`unique()` is empty) and `best_split` finds
        nothing, so `mode()[0]` of the empty target column raises. */
    method Build() returns (t: Option<Tree>)
      modifies this
      ensures |data| > 0 ==> t == Some(CartTree(data, attributes))
      ensures |data| == 0 ==> t.None?
      ensures t.None? || t.value.Leaf? ==> tree == old(tree)
      ensures t.Some? && !t.value.Leaf? ==> tree == t
    {
      if |data| > 0 {
        var r := BuildTree(data, attributes);
        return Some(r);
      }
      if attributes == [] {
        return None;
      }
      var best := BestSplit(data, attributes);
      EmptyViewNoSplit(attributes);
      assert best.None?;
      return None;
    }
  }
}
