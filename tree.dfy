/** The induced tree. The source builds nested dicts: a leaf is a bare
    label, a multiway node is `{attr: {value: subtree, ...}}` and a binary
    node is `{"attr <= t": {"yes": ..., "no": ...}}` (or `==` for CART's
    categorical test). Here the three shapes are the three constructors. */
module Trees {
  import opened Dataset

  datatype Tree =
    | Leaf(value: Value)
    | Multiway(col: nat, branches: seq<Branch>)
    | Binary(test: Test, yes: Tree, no: Tree)

  /** One entry `value: subtree` of a multiway node. */
  datatype Branch = Branch(key: Value, child: Tree)

  /** The keys of a multiway node, in insertion order. */
  function Keys(bs: seq<Branch>): (ks: seq<Value>)
    ensures |ks| == |bs|
    ensures forall i :: 0 <= i < |bs| ==> ks[i] == bs[i].key
  {
    if bs == [] then [] else Keys(bs[..|bs| - 1]) + [bs[|bs| - 1].key]
  }

  /** Every leaf of `t` holds a label that occurs in `labels`. */
  predicate LeavesFrom(t: Tree, labels: seq<Value>)
  {
    match t
    case Leaf(v) => v in labels
    case Multiway(_, bs) => forall i :: 0 <= i < |bs| ==> LeavesFrom(bs[i].child, labels)
    case Binary(_, yes, no) => LeavesFrom(yes, labels) && LeavesFrom(no, labels)
  }

  /** No path from the root to a leaf passes more than `n` decision nodes. */
  predicate HeightAtMost(t: Tree, n: nat)
  {
    match t
    case Leaf(_) => true
    case Multiway(_, bs) => n > 0 && forall i :: 0 <= i < |bs| ==> HeightAtMost(bs[i].child, n - 1)
    case Binary(_, yes, no) => n > 0 && HeightAtMost(yes, n - 1) && HeightAtMost(no, n - 1)
  }

  /** A height bound keeps holding for any larger bound. */
  lemma {:induction false} HeightMonotone(t: Tree, n: nat, m: nat)
    requires HeightAtMost(t, n) && n <= m
    ensures HeightAtMost(t, m)
  {
    match t
    case Leaf(_) =>
    case Multiway(_, bs) =>
      forall i | 0 <= i < |bs| ensures HeightAtMost(bs[i].child, m - 1) {
        HeightMonotone(bs[i].child, n - 1, m - 1);
      }
    case Binary(_, yes, no) =>
      HeightMonotone(yes, n - 1, m - 1);
      HeightMonotone(no, n - 1, m - 1);
  }
}
