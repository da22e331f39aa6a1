/** The table the inducers work on, the tests a decision node can make, and
    the ways a view of the table is split: one subset per distinct value
    (multiway), `<= t` / `> t` (threshold) and `== v` / `!= v` (CART's
    categorical test). A view is a sequence of rows; filtering keeps the
    order of the rows, as a pandas boolean mask does. */
module Dataset {
  import opened Counting

  /** A cell: a category (a string) or a number. */
  datatype Value = Cat(name: string) | Num(x: real)

  /** Whether an attribute column is compared by equality or by order
      (the model's stand-in for pandas' numeric dtype check). */
  datatype Kind = Categorical | Numeric

  /** A candidate split attribute: its column index and its kind. */
  datatype Attr = Attr(col: nat, kind: Kind)

  /** A row: the attribute cells and the value of the target column. */
  datatype Row = Row(cells: seq<Value>, target: Value)

  /** A binary test: `column <= threshold` or `column == value`. */
  datatype Test = AtMost(col: nat, threshold: real) | Equals(col: nat, value: Value)

  /** The cell of `r` in column `c`. A row is meant to be as wide as the
      table; reading a cell beyond its end as the empty category is this
      model's own convention, not how pandas reads a missing field (NaN). */
  function Cell(r: Row, c: nat): Value
  {
    if c < |r.cells| then r.cells[c] else Cat("")
  }

  /** The column `c` of a view (`df[attr]`). */
  function Column(rows: seq<Row>, c: nat): (vs: seq<Value>)
    ensures |vs| == |rows|
    ensures forall i :: 0 <= i < |rows| ==> vs[i] == Cell(rows[i], c)
  {
    if rows == [] then [] else Column(rows[..|rows| - 1], c) + [Cell(rows[|rows| - 1], c)]
  }

  /** The target column of a view (`df[self.target]`). */
  function Labels(rows: seq<Row>): (ls: seq<Value>)
    ensures |ls| == |rows|
    ensures forall i :: 0 <= i < |rows| ==> ls[i] == rows[i].target
  {
    if rows == [] then [] else Labels(rows[..|rows| - 1]) + [rows[|rows| - 1].target]
  }

  /** A view is pure when its target column has exactly one distinct value
      (`len(df[target].unique()) == 1`). */
  predicate IsPure(rows: seq<Row>)
  {
    |Distinct(Labels(rows))| == 1
  }

  /** A view is pure iff it is non-empty and every row has the first row's label. */
  lemma PureIff(rows: seq<Row>)
    ensures IsPure(rows) <==> rows != [] && forall i :: 0 <= i < |rows| ==> rows[i].target == rows[0].target
  {
    SingleDistinctIff(Labels(rows));
  }

  /** Whether row `r` satisfies the test: a numeric cell at most the
      threshold, or a cell equal to the value. A categorical cell is never
      `<=` a threshold, so it falls on the "no" side. */
  predicate Satisfies(r: Row, t: Test)
  {
    match t
    case AtMost(c, th) => Cell(r, c).Num? && Cell(r, c).x <= th
    case Equals(c, v) => Cell(r, c) == v
  }

  /** The rows of the view whose outcome on `t` is `outcome`, in order
      (`df[df[attr] <= t]` / `df[df[attr] > t]`, `df[df[attr] == v]` /
      `df[df[attr] != v]`). */
  function Side(rows: seq<Row>, t: Test, outcome: bool): (sub: seq<Row>)
    ensures |sub| <= |rows|
    ensures forall r :: r in sub <==> r in rows && Satisfies(r, t) == outcome
  {
    if rows == [] then []
    else
      var init := rows[..|rows| - 1];
      var last := rows[|rows| - 1];
      assert rows == init + [last];
      Side(init, t, outcome) + (if Satisfies(last, t) == outcome then [last] else [])
  }

  /** The two sides of a binary test partition the view: together they hold
      every row exactly as often as the view does. */
  lemma {:induction false} SidesPartition(rows: seq<Row>, t: Test)
    ensures multiset(Side(rows, t, true)) + multiset(Side(rows, t, false)) == multiset(rows)
    ensures |Side(rows, t, true)| + |Side(rows, t, false)| == |rows|
  {
    if rows != [] {
      var init := rows[..|rows| - 1];
      assert rows == init + [rows[|rows| - 1]];
      SidesPartition(init, t);
    }
  }

  /** When no row falls on the "no" side, the "yes" side is the whole view. */
  lemma {:induction false} SideAll(rows: seq<Row>, t: Test)
    requires |Side(rows, t, false)| == 0
    ensures Side(rows, t, true) == rows
  {
    if rows != [] {
      var init := rows[..|rows| - 1];
      assert rows == init + [rows[|rows| - 1]];
      SideAll(init, t);
    }
  }

  /** The `== v` side holds as many rows as column `c` holds `v`. */
  lemma {:induction false} EqualsSideSize(rows: seq<Row>, c: nat, v: Value)
    ensures |Side(rows, Equals(c, v), true)| == Count(Column(rows, c), v)
  {
    if rows != [] {
      var init := rows[..|rows| - 1];
      assert Column(rows, c)[..|rows| - 1] == Column(init, c);
      EqualsSideSize(init, c, v);
    }
  }

  /** The values of a multiway split: the distinct values of the column,
      in order of first appearance (`df[attr].unique()`). */
  function SplitValues(rows: seq<Row>, c: nat): (vals: seq<Value>)
    ensures forall v :: v in vals <==> exists i :: 0 <= i < |rows| && Cell(rows[i], c) == v
  {
    var col := Column(rows, c);
    var vals := Distinct(col);
    DistinctMembers(col);
    assert forall v :: v in col <==> exists i :: 0 <= i < |rows| && Cell(rows[i], c) == v by {
      forall v ensures v in col <==> exists i :: 0 <= i < |rows| && Cell(rows[i], c) == v {
        if v in col {
          var i :| 0 <= i < |col| && col[i] == v;
          assert Cell(rows[i], c) == v;
        }
      }
    }
    vals
  }

  /** The values come in the order in which they first appear in the
      column, so the branches of a multiway split follow that order. */
  lemma SplitValuesOrder(rows: seq<Row>, c: nat)
    ensures forall v :: v in SplitValues(rows, c) ==> v in Column(rows, c)
    ensures forall i, j :: 0 <= i < j < |SplitValues(rows, c)| ==>
              FirstIndex(Column(rows, c), SplitValues(rows, c)[i])
              < FirstIndex(Column(rows, c), SplitValues(rows, c)[j])
  {
    DistinctOrder(Column(rows, c));
  }

  /** No value is listed twice, so no branch key repeats. */
  lemma SplitValuesNoDup(rows: seq<Row>, c: nat)
    ensures NoDup(SplitValues(rows, c))
  {
    DistinctNoDup(Column(rows, c));
  }

  /** A view has split values exactly when it has rows. */
  lemma SplitValuesEmpty(rows: seq<Row>, c: nat)
    ensures SplitValues(rows, c) == [] <==> rows == []
  {
    if rows != [] {
      assert Cell(rows[0], c) in SplitValues(rows, c);
    }
  }

  /** Every subset of a multiway split is non-empty, so its empty-subset
      branch is never taken. */
  lemma MultiwaySubsetNonEmpty(rows: seq<Row>, c: nat, v: Value)
    requires v in SplitValues(rows, c)
    ensures |Side(rows, Equals(c, v), true)| > 0
  {
    var i :| 0 <= i < |rows| && Cell(rows[i], c) == v;
    assert rows[i] in Side(rows, Equals(c, v), true);
  }

  /** Sum of the subset sizes of a multiway split over `vals`. */
  function SubsetSizes(rows: seq<Row>, c: nat, vals: seq<Value>): nat
  {
    if vals == [] then 0
    else SubsetSizes(rows, c, vals[..|vals| - 1]) + |Side(rows, Equals(c, vals[|vals| - 1]), true)|
  }

  lemma {:induction false} SubsetSizesAreCounts(rows: seq<Row>, c: nat, vals: seq<Value>)
    ensures SubsetSizes(rows, c, vals) == SumCounts(Column(rows, c), vals)
  {
    if vals != [] {
      SubsetSizesAreCounts(rows, c, vals[..|vals| - 1]);
      EqualsSideSize(rows, c, vals[|vals| - 1]);
    }
  }

  /** The subsets of a multiway split cover the view: each row lies in the
      subset of its own value and in no other, so the sizes add up to the
      size of the view. */
  lemma MultiwayCovers(rows: seq<Row>, c: nat)
    ensures SubsetSizes(rows, c, SplitValues(rows, c)) == |rows|
    ensures forall r, v :: r in rows && v in SplitValues(rows, c) ==>
              (r in Side(rows, Equals(c, v), true) <==> Cell(r, c) == v)
  {
    var col := Column(rows, c);
    DistinctMembers(col);
    DistinctNoDup(col);
    SubsetSizesAreCounts(rows, c, Distinct(col));
    SumCountsCovers(col, Distinct(col));
  }

  /** `[a for a in attrs if a != x]`. */
  function Remove(attrs: seq<Attr>, x: Attr): (rest: seq<Attr>)
    ensures |rest| <= |attrs|
    ensures x in attrs ==> |rest| < |attrs|
    ensures forall a :: a in rest <==> a in attrs && a != x
  {
    if attrs == [] then []
    else
      var init := attrs[..|attrs| - 1];
      var last := attrs[|attrs| - 1];
      assert attrs == init + [last];
      Remove(init, x) + (if last != x then [last] else [])
  }

  /** `a` occurs in `s` at some position before one holding `b`. */
  predicate Before(s: seq<Attr>, a: Attr, b: Attr)
  {
    exists p, q :: 0 <= p < q < |s| && s[p] == a && s[q] == b
  }

  /** Any two elements of `sub` occur in `s` in the same relative order. */
  predicate InOrderOf(sub: seq<Attr>, s: seq<Attr>)
  {
    forall i, j :: 0 <= i < j < |sub| ==> Before(s, sub[i], sub[j])
  }

  /** Removing an attribute keeps the others in their original order. */
  lemma {:induction false} RemoveKeepsOrder(attrs: seq<Attr>, x: Attr)
    ensures InOrderOf(Remove(attrs, x), attrs)
  {
    if attrs != [] {
      var init := attrs[..|attrs| - 1];
      var last := attrs[|attrs| - 1];
      var r0 := Remove(init, x);
      RemoveKeepsOrder(init, x);
      var rest := Remove(attrs, x);
      assert rest == r0 + (if last != x then [last] else []);
      forall i, j | 0 <= i < j < |rest| ensures Before(attrs, rest[i], rest[j]) {
        assert rest[i] == r0[i];
        if j < |r0| {
          assert rest[j] == r0[j];
          assert Before(init, r0[i], r0[j]);
          var p, q :| 0 <= p < q < |init| && init[p] == r0[i] && init[q] == r0[j];
          assert attrs[p] == rest[i] && attrs[q] == rest[j];
        } else {
          assert rest[i] in init;
          var p :| 0 <= p < |init| && init[p] == rest[i];
          assert attrs[p] == rest[i] && attrs[|attrs| - 1] == rest[j];
        }
      }
      assert InOrderOf(rest, attrs);
    } else {
      assert Remove(attrs, x) == [];
    }
  }

  /** The numbers in column `c` of the view. */
  function NumColumn(rows: seq<Row>, c: nat): (xs: seq<real>)
    ensures forall x :: x in xs ==> Num(x) in Column(rows, c)
    ensures forall i :: 0 <= i < |rows| && Cell(rows[i], c).Num? ==> Cell(rows[i], c).x in xs
  {
    if rows == [] then []
    else
      var init := rows[..|rows| - 1];
      assert Column(rows, c) == Column(init, c) + [Cell(rows[|rows| - 1], c)];
      var cell := Cell(rows[|rows| - 1], c);
      assert forall i :: 0 <= i < |init| ==> rows[i] == init[i];
      NumColumn(init, c) + (if cell.Num? then [cell.x] else [])
  }

  /** Strictly increasing, hence also duplicate-free. */
  predicate Increasing(xs: seq<real>)
  {
    forall i, j :: 0 <= i < j < |xs| ==> xs[i] < xs[j]
  }

  /** Inserts `x` into an increasing sequence unless it is already there. */
  function Insert(x: real, xs: seq<real>): seq<real>
  {
    if xs == [] then [x]
    else if x < xs[0] then [x] + xs
    else if x == xs[0] then xs
    else [xs[0]] + Insert(x, xs[1..])
  }

  /** Insertion keeps the sequence increasing and adds exactly `x`. */
  lemma {:induction false} InsertSpec(x: real, xs: seq<real>)
    requires Increasing(xs)
    ensures Increasing(Insert(x, xs))
    ensures forall y :: y in Insert(x, xs) <==> y == x || y in xs
  {
    if xs != [] && x < xs[0] {
      var r := [x] + xs;
      forall i, j | 0 <= i < j < |r| ensures r[i] < r[j] {
        if i == 0 && j > 1 {
          assert xs[0] < xs[j - 1];
        }
      }
    } else if xs != [] && x > xs[0] {
      var tail := xs[1..];
      var rest := Insert(x, tail);
      InsertSpec(x, tail);
      var r := [xs[0]] + rest;
      forall i, j | 0 <= i < j < |r| ensures r[i] < r[j] {
        if i == 0 {
          assert r[j] == rest[j - 1] && rest[j - 1] in rest;
          if rest[j - 1] != x {
            HeadBelowTail(xs, rest[j - 1]);
          }
        }
      }
      assert xs == [xs[0]] + tail;
    }
  }

  /** In an increasing sequence every later element exceeds the first. */
  lemma HeadBelowTail(xs: seq<real>, y: real)
    requires Increasing(xs) && |xs| > 0 && y in xs[1..]
    ensures xs[0] < y
  {
    var k :| 0 <= k < |xs| - 1 && xs[1..][k] == y;
    assert xs[k + 1] == y;
  }

  /** `sorted(set(xs))`: the distinct numbers of `xs` in increasing order. */
  function SortedUnique(xs: seq<real>): seq<real>
  {
    if xs == [] then []
    else Insert(xs[|xs| - 1], SortedUnique(xs[..|xs| - 1]))
  }

  /** The result is increasing and holds exactly the numbers of `xs`. */
  lemma {:induction false} SortedUniqueSpec(xs: seq<real>)
    ensures Increasing(SortedUnique(xs))
    ensures forall y :: y in SortedUnique(xs) <==> y in xs
  {
    if xs != [] {
      var init := xs[..|xs| - 1];
      assert xs == init + [xs[|xs| - 1]];
      SortedUniqueSpec(init);
      InsertSpec(xs[|xs| - 1], SortedUnique(init));
    }
  }

  /** The candidate values of a numeric column, `sorted(df[attr].unique())`,
      are exactly the numbers some row of the view holds there. */
  lemma ColumnNumbers(rows: seq<Row>, c: nat)
    ensures forall y :: y in SortedUnique(NumColumn(rows, c)) <==>
              exists i :: 0 <= i < |rows| && Cell(rows[i], c) == Num(y)
  {
    var xs := NumColumn(rows, c);
    SortedUniqueSpec(xs);
    forall y ensures y in xs <==> exists i :: 0 <= i < |rows| && Cell(rows[i], c) == Num(y) {
      if y in xs {
        var col := Column(rows, c);
        assert Num(y) in col;
        var i :| 0 <= i < |col| && col[i] == Num(y);
        assert Cell(rows[i], c) == Num(y);
      }
    }
  }

  /** The midpoints of consecutive values. The first three clauses only
      unfold the definition for the proofs about `Thresholds`; the last one
      is the promise: on increasing values each midpoint lies strictly
      between its two neighbours. */
  function Midpoints(vs: seq<real>): (ts: seq<real>)
    ensures |vs| <= 1 ==> ts == []
    ensures |vs| > 1 ==> |ts| == |vs| - 1
    ensures forall i :: 0 <= i < |ts| ==> ts[i] == (vs[i] + vs[i + 1]) / 2.0
    ensures Increasing(vs) ==> forall i :: 0 <= i < |ts| ==> vs[i] < ts[i] < vs[i + 1]
  {
    if |vs| <= 1 then [] else seq(|vs| - 1, i requires 0 <= i < |vs| - 1 => (vs[i] + vs[i + 1]) / 2.0)
  }

  /** The candidate thresholds of numeric column `c`: the midpoints of its
      sorted distinct values. */
  function Thresholds(rows: seq<Row>, c: nat): seq<real>
  {
    Midpoints(SortedUnique(NumColumn(rows, c)))
  }

  /** A candidate threshold lies strictly between two observed values, so
      both of its sides are non-empty and strictly smaller than the view. */
  lemma ThresholdSplitsBoth(rows: seq<Row>, c: nat, t: real)
    requires t in Thresholds(rows, c)
    ensures 0 < |Side(rows, AtMost(c, t), true)| < |rows|
    ensures 0 < |Side(rows, AtMost(c, t), false)| < |rows|
  {
    var vs := SortedUnique(NumColumn(rows, c));
    SortedUniqueSpec(NumColumn(rows, c));
    var ts := Midpoints(vs);
    var i :| 0 <= i < |ts| && ts[i] == t;
    assert vs[i] < t < vs[i + 1];
    var col := Column(rows, c);
    assert Num(vs[i]) in col && Num(vs[i + 1]) in col;
    var lo :| 0 <= lo < |col| && col[lo] == Num(vs[i]);
    var hi :| 0 <= hi < |col| && col[hi] == Num(vs[i + 1]);
    assert Cell(rows[lo], c) == Num(vs[i]) && Cell(rows[hi], c) == Num(vs[i + 1]);
    assert Satisfies(rows[lo], AtMost(c, t)) && !Satisfies(rows[hi], AtMost(c, t));
    assert rows[lo] in rows && rows[hi] in rows;
    assert rows[lo] in Side(rows, AtMost(c, t), true);
    assert rows[hi] in Side(rows, AtMost(c, t), false);
    SidesPartition(rows, AtMost(c, t));
  }

  /** Some row of the view holds the number `y` in column `c`. */
  predicate Observed(rows: seq<Row>, c: nat, y: real)
  {
    exists i :: 0 <= i < |rows| && Cell(rows[i], c) == Num(y)
  }

  /** `t` is the midpoint of two observed numbers `a < b` of column `c`,
      and no observed number lies strictly between them. */
  ghost predicate MidpointOfNeighbours(rows: seq<Row>, c: nat, t: real, a: real, b: real)
  {
    a < b && t == (a + b) / 2.0 && Observed(rows, c, a) && Observed(rows, c, b) &&
    forall y :: Observed(rows, c, y) ==> y <= a || b <= y
  }

  /** The sorted distinct values of a column are its observed numbers. */
  lemma ObservedValues(rows: seq<Row>, c: nat)
    ensures forall y :: Observed(rows, c, y) <==> y in SortedUnique(NumColumn(rows, c))
  {
    ColumnNumbers(rows, c);
  }

  /** Neighbours of an increasing sequence have nothing strictly between
      them. */
  lemma NothingBetweenNeighbours(vs: seq<real>, p: nat)
    requires Increasing(vs) && p + 1 < |vs|
    ensures forall y :: y in vs ==> y <= vs[p] || vs[p + 1] <= y
  {
    forall y | y in vs ensures y <= vs[p] || vs[p + 1] <= y {
      var k :| 0 <= k < |vs| && vs[k] == y;
      if k < p {
        assert vs[k] < vs[p];
      } else if k > p + 1 {
        assert vs[p + 1] < vs[k];
      }
    }
  }

  /** Two elements `a < b` of an increasing sequence with nothing strictly
      between them sit at neighbouring positions. */
  lemma NeighboursOfNothingBetween(vs: seq<real>, a: real, b: real)
    requires Increasing(vs) && a in vs && b in vs && a < b
    requires forall y :: y in vs ==> y <= a || b <= y
    ensures exists p :: 0 <= p < |vs| - 1 && vs[p] == a && vs[p + 1] == b
  {
    var p :| 0 <= p < |vs| && vs[p] == a;
    var q :| 0 <= q < |vs| && vs[q] == b;
    assert p < q;
    assert vs[p + 1] in vs;
    assert q == p + 1;
  }

  /** A candidate threshold is the midpoint of neighbouring observed
      numbers of the column. */
  lemma ThresholdIsMidpoint(rows: seq<Row>, c: nat, t: real)
    requires t in Thresholds(rows, c)
    ensures exists a, b :: MidpointOfNeighbours(rows, c, t, a, b)
  {
    var vs := SortedUnique(NumColumn(rows, c));
    SortedUniqueSpec(NumColumn(rows, c));
    var i :| 0 <= i < |Midpoints(vs)| && Midpoints(vs)[i] == t;
    NothingBetweenNeighbours(vs, i);
    ObservedValues(rows, c);
    assert MidpointOfNeighbours(rows, c, t, vs[i], vs[i + 1]);
  }

  /** The midpoint of neighbouring observed numbers is a candidate
      threshold. */
  lemma MidpointIsThreshold(rows: seq<Row>, c: nat, t: real, a: real, b: real)
    requires MidpointOfNeighbours(rows, c, t, a, b)
    ensures t in Thresholds(rows, c)
  {
    var vs := SortedUnique(NumColumn(rows, c));
    SortedUniqueSpec(NumColumn(rows, c));
    ObservedValues(rows, c);
    NeighboursOfNothingBetween(vs, a, b);
    var p :| 0 <= p < |vs| - 1 && vs[p] == a && vs[p + 1] == b;
    assert Midpoints(vs)[p] == t;
  }

  /** The candidate thresholds are exactly the midpoints of neighbouring
      observed numbers of the column. */
  lemma ThresholdsExactly(rows: seq<Row>, c: nat, t: real)
    ensures t in Thresholds(rows, c) <==> exists a, b :: MidpointOfNeighbours(rows, c, t, a, b)
  {
    if t in Thresholds(rows, c) {
      ThresholdIsMidpoint(rows, c, t);
    }
    if exists a, b :: MidpointOfNeighbours(rows, c, t, a, b) {
      var a, b :| MidpointOfNeighbours(rows, c, t, a, b);
      MidpointIsThreshold(rows, c, t, a, b);
    }
  }

  /** The majority label of a non-empty view is the label of one of its rows. */
  lemma MajorityFromRows(rows: seq<Row>, ls: seq<Value>)
    requires |rows| > 0 && forall r :: r in rows ==> r.target in ls
    ensures Majority(Labels(rows)) in ls
  {
    var m := Majority(Labels(rows));
    var i :| 0 <= i < |rows| && Labels(rows)[i] == m;
    assert rows[i] in rows;
  }
}
