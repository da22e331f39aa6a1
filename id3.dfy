/** ID3: information gain of the multiway split on every attribute, the
    attribute of maximal gain (first on ties), and the recursive builder,
    which always splits multiway and drops the chosen attribute. */
module Id3 {
  import opened Counting
  import opened Dataset
  import opened Scores
  import opened Trees

  /** The gains of `attrs`, in order: the values of the `gains` dict. */
  function Gains(rows: seq<Row>, attrs: seq<Attr>, log2: real -> real): (gs: seq<real>)
    ensures |gs| == |attrs|
    ensures forall i :: 0 <= i < |attrs| ==> gs[i] == MultiwayGain(rows, attrs[i].col, log2)
  {
    seq(|attrs|, i requires 0 <= i < |attrs| => MultiwayGain(rows, attrs[i].col, log2))
  }

  /** `max(gains, key=gains.get)`: an attribute of maximal gain, and among
      those the first in `attrs` order. */
  function Id3Best(rows: seq<Row>, attrs: seq<Attr>, log2: real -> real): (best: Attr)
    requires |attrs| > 0
    ensures best in attrs
    ensures forall i :: 0 <= i < |attrs| ==> MultiwayGain(rows, attrs[i].col, log2) <= MultiwayGain(rows, best.col, log2)
    ensures exists k :: 0 <= k < |attrs| && attrs[k] == best &&
              forall i :: 0 <= i < k ==> MultiwayGain(rows, attrs[i].col, log2) < MultiwayGain(rows, best.col, log2)
  {
    var gs := Gains(rows, attrs, log2);
    var k := FirstArgMax(gs);
    attrs[k]
  }

  /** On an empty view every attribute has gain 0, so `max` keeps the
      first one. */
  lemma Id3EmptyTable(attrs: seq<Attr>, log2: real -> real)
    requires |attrs| > 0
    ensures Id3Best([], attrs, log2) == attrs[0]
  {
    forall c: nat ensures MultiwayGain([], c, log2) == 0.0 {
      EmptyViewScores(c, log2);
    }
  }

  /** `build_tree(df, attrs)`: a pure view gives its label, no attributes
      left give the majority label, otherwise one branch per distinct value
      of the best attribute, each built without that attribute. */
  function Id3Tree(rows: seq<Row>, attrs: seq<Attr>, log2: real -> real): Tree
    requires |rows| > 0
    decreases |attrs|, 2
  {
    if IsPure(rows) then Leaf(rows[0].target)
    else if attrs == [] then Leaf(Majority(Labels(rows)))
    else
      var best := Id3Best(rows, attrs, log2);
      Multiway(best.col, Id3Branches(rows, attrs, best, SplitValues(rows, best.col), log2))
  }

  /** The entries `tree[best][v]` for the values `vals`, in order. */
  function Id3Branches(rows: seq<Row>, attrs: seq<Attr>, best: Attr, vals: seq<Value>, log2: real -> real): seq<Branch>
    requires |rows| > 0 && best in attrs
    decreases |attrs|, 1
  {
    seq(|vals|, i requires 0 <= i < |vals| => Branch(vals[i], Id3Child(rows, attrs, best, vals[i], log2)))
  }

  /** The entry `tree[best][v]`: the tree of the rows holding `v`, built
      without `best`; an empty subset would get the majority label of the
      parent. */
  function Id3Child(rows: seq<Row>, attrs: seq<Attr>, best: Attr, v: Value, log2: real -> real): Tree
    requires |rows| > 0 && best in attrs
    decreases |attrs|, 0
  {
    var subset := Side(rows, Equals(best.col, v), true);
    if |subset| == 0 then Leaf(Majority(Labels(rows))) else Id3Tree(subset, Remove(attrs, best), log2)
  }

  /** A view whose rows all carry the same label becomes a leaf with that
      label, whatever attributes remain. */
  lemma Id3PureLeaf(rows: seq<Row>, attrs: seq<Attr>, log2: real -> real)
    requires rows != [] && forall i :: 0 <= i < |rows| ==> rows[i].target == rows[0].target
    ensures Id3Tree(rows, attrs, log2) == Leaf(rows[0].target)
  {
    PureIff(rows);
  }

  /** An impure view with attributes left always becomes a multiway node on
      the best attribute; an impure view without attributes becomes the
      majority leaf. */
  lemma Id3Shape(rows: seq<Row>, attrs: seq<Attr>, log2: real -> real)
    requires |rows| > 0
    ensures var t := Id3Tree(rows, attrs, log2);
            !t.Binary? &&
            (t.Leaf? ==> t.value == rows[0].target || t.value == Majority(Labels(rows))) &&
            (t.Leaf? <==> IsPure(rows) || attrs == []) &&
            (t.Multiway? ==>
               attrs != [] && t.col == Id3Best(rows, attrs, log2).col &&
               t.branches == Id3Branches(rows, attrs, Id3Best(rows, attrs, log2),
                                         SplitValues(rows, Id3Best(rows, attrs, log2).col), log2))
  {
  }

  /** A multiway node has one branch per value, keyed by it, in order. */
  lemma {:induction false} Id3Keys(rows: seq<Row>, attrs: seq<Attr>, best: Attr, vals: seq<Value>, log2: real -> real)
    requires |rows| > 0 && best in attrs
    ensures var bs := Id3Branches(rows, attrs, best, vals, log2);
            Keys(bs) == vals &&
            forall i :: 0 <= i < |bs| ==> bs[i].child == Id3Child(rows, attrs, best, vals[i], log2)
  {
    var bs := Id3Branches(rows, attrs, best, vals, log2);
    assert Keys(bs) == vals;
  }

  /** The child of a value of the split is the tree of that value's
      subset with the chosen attribute removed: the subset is never empty,
      so the empty-subset case never arises. */
  lemma Id3ChildOfValue(rows: seq<Row>, attrs: seq<Attr>, best: Attr, v: Value, log2: real -> real)
    requires |rows| > 0 && best in attrs && v in SplitValues(rows, best.col)
    ensures |Side(rows, Equals(best.col, v), true)| > 0
    ensures Id3Child(rows, attrs, best, v, log2) == Id3Tree(Side(rows, Equals(best.col, v), true), Remove(attrs, best), log2)
  {
    MultiwaySubsetNonEmpty(rows, best.col, v);
  }

  /** Every leaf label of the tree built on a view is a label of that view. */
  lemma {:induction false} Id3Leaves(rows: seq<Row>, attrs: seq<Attr>, log2: real -> real, ls: seq<Value>)
    requires |rows| > 0 && forall r :: r in rows ==> r.target in ls
    ensures LeavesFrom(Id3Tree(rows, attrs, log2), ls)
    decreases |attrs|
  {
    var t := Id3Tree(rows, attrs, log2);
    Id3Shape(rows, attrs, log2);
    match t
    case Leaf(_) =>
      assert rows[0] in rows;
      MajorityFromRows(rows, ls);
    case Multiway(_, bs) =>
      var best := Id3Best(rows, attrs, log2);
      var vals := SplitValues(rows, best.col);
      Id3Keys(rows, attrs, best, vals, log2);
      forall i | 0 <= i < |bs| ensures LeavesFrom(bs[i].child, ls) {
        Id3ChildOfValue(rows, attrs, best, vals[i], log2);
        Id3Leaves(Side(rows, Equals(best.col, vals[i]), true), Remove(attrs, best), log2, ls);
      }
  }

  /** No label is invented: every leaf carries a label of the view. */
  lemma Id3LeavesFromData(rows: seq<Row>, attrs: seq<Attr>, log2: real -> real)
    requires |rows| > 0
    ensures LeavesFrom(Id3Tree(rows, attrs, log2), Labels(rows))
  {
    Id3Leaves(rows, attrs, log2, Labels(rows));
  }

  /** Every split drops an attribute, so no path holds more decision nodes
      than there are attributes. */
  lemma {:induction false} Id3Height(rows: seq<Row>, attrs: seq<Attr>, log2: real -> real)
    requires |rows| > 0
    ensures HeightAtMost(Id3Tree(rows, attrs, log2), |attrs|)
    decreases |attrs|
  {
    var t := Id3Tree(rows, attrs, log2);
    Id3Shape(rows, attrs, log2);
    if t.Multiway? {
      var best := Id3Best(rows, attrs, log2);
      var vals := SplitValues(rows, best.col);
      Id3Keys(rows, attrs, best, vals, log2);
      var rest := Remove(attrs, best);
      forall i | 0 <= i < |t.branches| ensures HeightAtMost(t.branches[i].child, |attrs| - 1) {
        Id3ChildOfValue(rows, attrs, best, vals[i], log2);
        Id3Height(Side(rows, Equals(best.col, vals[i]), true), rest, log2);
        HeightMonotone(t.branches[i].child, |rest|, |attrs| - 1);
      }
    }
  }

  /** `best_attribute(df, attrs)`: the `gains` of every attribute, in
      order, and the first attribute of maximal gain. The source applies
      `max` to the gains, which fails on an empty `attrs`. */
  method BestAttribute(rows: seq<Row>, attrs: seq<Attr>, log2: real -> real) returns (best: Attr, gains: seq<real>)
    requires |attrs| > 0
    ensures gains == Gains(rows, attrs, log2)
    ensures best == Id3Best(rows, attrs, log2)
  {
    gains := [];
    for i := 0 to |attrs|
      invariant gains == Gains(rows, attrs, log2)[..i]
    {
      var g := InfoGain(rows, attrs[i].col, log2);
      TakeSnoc(Gains(rows, attrs, log2), i);
      gains := gains + [g];
    }
    best := attrs[FirstArgMax(gains)];
  }

  /** The inducer object: the table it was given, the attributes other
      than the target column, and the last decision node `build_tree`
      stored in `self.tree` (`None` until then). */
  class Id3Inducer {
    const data: seq<Row>
    const attributes: seq<Attr>
    const log2: real -> real
    var tree: Option<Tree>

    constructor(data: seq<Row>, attributes: seq<Attr>, log2: real -> real)
      ensures this.data == data && this.attributes == attributes && this.log2 == log2
      ensures tree == None
    {
      this.data := data;
      this.attributes := attributes;
      this.log2 := log2;
      tree := None;
    }

    /** `build_tree(df, attrs)`. Every decision node it builds is stored in
        `tree` after its children, so the outermost one is stored last; a
        leaf stores nothing. */
    method BuildTree(rows: seq<Row>, attrs: seq<Attr>) returns (t: Tree)
      requires |rows| > 0
      modifies this
      ensures t == Id3Tree(rows, attrs, log2)
      ensures t.Leaf? ==> tree == old(tree)
      ensures !t.Leaf? ==> tree == Some(t)
      decreases |attrs|, 1
    {
      if IsPure(rows) {
        return Leaf(rows[0].target);
      }
      if attrs == [] {
        return Leaf(Majority(Labels(rows)));
      }
      var best, gains := BestAttribute(rows, attrs, log2);
      var branches := BuildBranches(rows, attrs, best);
      t := Multiway(best.col, branches);
      tree := Some(t);
    }

    /** The loop filling `tree[best][v]` for each value `v` of the chosen
        attribute, recursing on its subset without it. */
    method BuildBranches(rows: seq<Row>, attrs: seq<Attr>, best: Attr) returns (branches: seq<Branch>)
      requires |rows| > 0 && best in attrs
      modifies this
      ensures branches == Id3Branches(rows, attrs, best, SplitValues(rows, best.col), log2)
      decreases |attrs|, 0
    {
      var vals := SplitValues(rows, best.col);
      ghost var want := Id3Branches(rows, attrs, best, vals, log2);
      branches := [];
      for i := 0 to |vals|
        invariant branches == want[..i]
      {
        var v := vals[i];
        var subset := Side(rows, Equals(best.col, v), true);
        var child;
        if |subset| == 0 {
          child := Leaf(Majority(Labels(rows)));
        } else {
          var newAttrs := Remove(attrs, best);
          child := BuildTree(subset, newAttrs);
        }
        assert child == Id3Child(rows, attrs, best, v, log2);
        assert want[i] == Branch(v, child);
        TakeSnoc(want, i);
        branches := branches + [Branch(v, child)];
      }
      assert want[..|vals|] == want;
    }

    /** `build_tree()` with its defaults: the whole table and every
        attribute; `None` when the source raises. On an empty table the
        view is not pure (`unique()` is empty): with no attribute `mode()[0]`
        raises, otherwise the first attribute is chosen and, having no
        values, gives the node `{attrs[0]: {}}`. */
    method Build() returns (t: Option<Tree>)
      modifies this
      ensures |data| > 0 ==> t == Some(Id3Tree(data, attributes, log2))
      ensures |data| == 0 ==> (t.None? <==> attributes == [])
      ensures |data| == 0 && attributes != [] ==> t == Some(Multiway(attributes[0].col, []))
      ensures t.None? || t.value.Leaf? ==> tree == old(tree)
      ensures t.Some? && !t.value.Leaf? ==> tree == t
    {
      if |data| > 0 {
        var r := BuildTree(data, attributes);
        return Some(r);
      }
      if attributes == [] {
        return None;
      }
      var best, gains := BestAttribute(data, attributes, log2);
      Id3EmptyTable(attributes, log2);
      SplitValuesEmpty(data, best.col);
      t := Some(Multiway(best.col, []));
      tree := t;
    }
  }
}
