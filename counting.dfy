/** Counting over sequences: the `Counter`, `unique()`, `mode()` and
    arg-max building blocks the three inducers share. Every fold is defined
    from the END of its sequence, so that a loop which accumulates left to
    right keeps the invariant `acc == F(xs[..i])`. */
module Counting {

  datatype Option<+T> = None | Some(value: T)

  /** Number of occurrences of `x` in `s`. */
  function Count<T(==,!new)>(s: seq<T>, x: T): (n: nat)
    ensures n <= |s|
  {
    if s == [] then 0
    else
      var init := s[..|s| - 1];
      Count(init, x) + (if s[|s| - 1] == x then 1 else 0)
  }

  /** An element occurs in `s` exactly when its count is positive. */
  lemma {:induction false} CountPositive<T(!new)>(s: seq<T>, x: T)
    ensures Count(s, x) > 0 <==> x in s
  {
    if s != [] {
      var init := s[..|s| - 1];
      assert s == init + [s[|s| - 1]];
      CountPositive(init, x);
    }
  }

  /** No element occurs twice. */
  predicate NoDup<T(==,!new)>(s: seq<T>)
  {
    forall i, j :: 0 <= i < j < |s| ==> s[i] != s[j]
  }

  /** The distinct elements of `s` in order of first appearance
      (`Series.unique()` and the key order of a `Counter`). */
  function Distinct<T(==,!new)>(s: seq<T>): (d: seq<T>)
    ensures |d| <= |s|
    ensures s != [] ==> d != [] && d[0] == s[0]
  {
    if s == [] then []
    else
      var init := s[..|s| - 1];
      var d := Distinct(init);
      if s[|s| - 1] in d then d else d + [s[|s| - 1]]
  }

  /** `unique()` holds no element twice. */
  lemma {:induction false} DistinctNoDup<T(!new)>(s: seq<T>)
    ensures NoDup(Distinct(s))
  {
    if s != [] {
      DistinctNoDup(s[..|s| - 1]);
    }
  }

  /** `unique()` keeps every element and invents none. */
  lemma {:induction false} DistinctMembers<T(!new)>(s: seq<T>)
    ensures forall x :: x in Distinct(s) <==> x in s
  {
    if s != [] {
      var init := s[..|s| - 1];
      assert s == init + [s[|s| - 1]];
      DistinctMembers(init);
    }
  }

  /** The index of the first occurrence of `x` in `s`. */
  function FirstIndex<T(==)>(s: seq<T>, x: T): (k: nat)
    requires x in s
    ensures k < |s| && s[k] == x
    ensures forall i :: 0 <= i < k ==> s[i] != x
  {
    var init := s[..|s| - 1];
    if x in init then FirstIndex(init, x) else |s| - 1
  }

  /** An element already present before the last position keeps its
      first index when the sequence grows. */
  lemma FirstIndexInit<T>(s: seq<T>, y: T)
    requires |s| > 0 && y in s[..|s| - 1]
    ensures FirstIndex(s, y) == FirstIndex(s[..|s| - 1], y)
  {
  }

  /** `unique()` lists the elements in the order of their first
      appearance in `s`. */
  lemma {:induction false} DistinctOrder<T(!new)>(s: seq<T>)
    ensures forall x :: x in Distinct(s) ==> x in s
    ensures forall i, j :: 0 <= i < j < |Distinct(s)| ==>
              FirstIndex(s, Distinct(s)[i]) < FirstIndex(s, Distinct(s)[j])
  {
    DistinctMembers(s);
    if s != [] {
      var init := s[..|s| - 1];
      var d0 := Distinct(init);
      DistinctOrder(init);
      DistinctMembers(init);
      var last := s[|s| - 1];
      var d := Distinct(s);
      assert d == if last in d0 then d0 else d0 + [last];
      forall i, j | 0 <= i < j < |d| ensures FirstIndex(s, d[i]) < FirstIndex(s, d[j]) {
        assert d[i] == d0[i] && d[i] in init;
        FirstIndexInit(s, d[i]);
        if j < |d0| {
          assert d[j] == d0[j];
          FirstIndexInit(s, d[j]);
          assert FirstIndex(init, d0[i]) < FirstIndex(init, d0[j]);
        } else {
          assert d[j] == last && last !in init;
          assert FirstIndex(s, last) == |s| - 1;
        }
      }
    }
  }

  /** `s` holds exactly one distinct element iff it is non-empty and constant. */
  lemma {:induction false} SingleDistinctIff<T(!new)>(s: seq<T>)
    ensures |Distinct(s)| == 1 <==> s != [] && forall i :: 0 <= i < |s| ==> s[i] == s[0]
  {
    var d := Distinct(s);
    DistinctMembers(s);
    if s != [] && forall i :: 0 <= i < |s| ==> s[i] == s[0] {
      DistinctOfConstant(s);
    }
    if |d| == 1 {
      forall i | 0 <= i < |s| ensures s[i] == s[0] {
        assert s[i] in d && s[0] in d;
      }
    }
  }

  lemma {:induction false} DistinctOfConstant<T(!new)>(s: seq<T>)
    requires s != [] && forall i :: 0 <= i < |s| ==> s[i] == s[0]
    ensures Distinct(s) == [s[0]]
  {
    var init := s[..|s| - 1];
    if init != [] {
      DistinctOfConstant(init);
    }
  }

  /** In a constant sequence its element occurs at every position. */
  lemma {:induction false} CountOfConstant<T(!new)>(s: seq<T>, x: T)
    requires forall i :: 0 <= i < |s| ==> s[i] == x
    ensures Count(s, x) == |s|
  {
    if s != [] {
      CountOfConstant(s[..|s| - 1], x);
    }
  }

  /** A duplicate-free sequence holds an element it contains exactly once. */
  lemma {:induction false} CountInNoDup<T(!new)>(d: seq<T>, x: T)
    requires NoDup(d) && x in d
    ensures Count(d, x) == 1
  {
    var init := d[..|d| - 1];
    assert d == init + [d[|d| - 1]];
    assert NoDup(init);
    if d[|d| - 1] == x {
      assert forall k :: 0 <= k < |init| ==> init[k] == d[k] != d[|d| - 1];
      assert x !in init;
      CountPositive(init, x);
    } else {
      assert x in init;
      CountInNoDup(init, x);
    }
  }

  /** Sum of the counts in `s` of the elements of `keys`. */
  function SumCounts<T(==,!new)>(s: seq<T>, keys: seq<T>): nat
  {
    if keys == [] then 0
    else SumCounts(s, keys[..|keys| - 1]) + Count(s, keys[|keys| - 1])
  }

  lemma {:induction false} SumCountsSnoc<T(!new)>(s: seq<T>, y: T, keys: seq<T>)
    ensures SumCounts(s + [y], keys) == SumCounts(s, keys) + Count(keys, y)
  {
    assert (s + [y])[..|s + [y]| - 1] == s;
    if keys != [] {
      var init := keys[..|keys| - 1];
      assert keys == init + [keys[|keys| - 1]];
      SumCountsSnoc(s, y, init);
    }
  }

  /** When `keys` lists every element of `s` once, their counts add up to
      `|s|`: the classes of a `Counter` partition what was counted. */
  lemma {:induction false} SumCountsCovers<T(!new)>(s: seq<T>, keys: seq<T>)
    requires NoDup(keys)
    requires forall x :: x in s ==> x in keys
    ensures SumCounts(s, keys) == |s|
  {
    if s == [] {
      SumCountsEmpty(keys);
    } else {
      var init := s[..|s| - 1];
      assert s == init + [s[|s| - 1]];
      SumCountsCovers(init, keys);
      SumCountsSnoc(init, s[|s| - 1], keys);
      CountInNoDup(keys, s[|s| - 1]);
    }
  }

  lemma {:induction false} SumCountsEmpty<T(!new)>(keys: seq<T>)
    ensures SumCounts([], keys) == 0
  {
    if keys != [] {
      SumCountsEmpty(keys[..|keys| - 1]);
    }
  }

  /** Index of the first maximum: the fold `if xs[i] > best then best := i`
      over `xs`, which is also what Python's `max` returns on ties. */
  function FirstArgMax(xs: seq<real>): (k: nat)
    requires |xs| > 0
    ensures k < |xs|
    ensures forall j :: 0 <= j < |xs| ==> xs[j] <= xs[k]
    ensures forall j :: 0 <= j < k ==> xs[j] < xs[k]
  {
    if |xs| == 1 then 0
    else
      var k := FirstArgMax(xs[..|xs| - 1]);
      if xs[|xs| - 1] > xs[k] then |xs| - 1 else k
  }

  /** The counts of the distinct elements, as reals (`Counter(y).values()`). */
  function CountsOf<T(==,!new)>(s: seq<T>, keys: seq<T>): (cs: seq<real>)
    ensures |cs| == |keys|
    ensures forall i :: 0 <= i < |keys| ==> cs[i] == Count(s, keys[i]) as real
  {
    seq(|keys|, i requires 0 <= i < |keys| => Count(s, keys[i]) as real)
  }

  /** The most frequent element (`Series.mode()[0]`); among equally frequent
      elements the one that appears first wins. */
  function Majority<T(==,!new)>(s: seq<T>): (m: T)
    requires |s| > 0
    ensures m in s
    ensures forall x :: Count(s, x) <= Count(s, m)
  {
    var d := Distinct(s);
    DistinctMembers(s);
    var k := FirstArgMax(CountsOf(s, d));
    assert forall x :: Count(s, x) <= Count(s, d[k]) by {
      forall x ensures Count(s, x) <= Count(s, d[k]) {
        CountPositive(s, x);
        if x in s {
          var j :| 0 <= j < |d| && d[j] == x;
          assert CountsOf(s, d)[j] <= CountsOf(s, d)[k];
        }
      }
    }
    d[k]
  }

  /** The strict-improvement scan `if xs[i] > best: best = xs[i]` started
      from `floor`: the index of the element it ends on, if any. That is the
      first element beating both the floor and every element before it. */
  function FirstAbove(xs: seq<real>, floor: real): (k: Option<nat>)
    ensures k.None? <==> forall i :: 0 <= i < |xs| ==> xs[i] <= floor
    ensures k.Some? ==> k.value < |xs| && xs[k.value] > floor
    ensures k.Some? ==> forall i :: 0 <= i < |xs| ==> xs[i] <= xs[k.value]
    ensures k.Some? ==> forall i :: 0 <= i < k.value ==> xs[i] < xs[k.value]
  {
    if xs == [] then None
    else
      var prev := FirstAbove(xs[..|xs| - 1], floor);
      var best := if prev.None? then floor else xs[prev.value];
      if xs[|xs| - 1] > best then Some(|xs| - 1) else prev
  }

  /** The best value the scan holds: the floor if nothing beat it. */
  function BestAbove(xs: seq<real>, floor: real): real
  {
    match FirstAbove(xs, floor)
    case None => floor
    case Some(k) => xs[k]
  }

  /** One more step of the scan. */
  lemma FirstAboveSnoc(xs: seq<real>, x: real, floor: real)
    ensures FirstAbove(xs + [x], floor)
         == if x > BestAbove(xs, floor) then Some(|xs|) else FirstAbove(xs, floor)
  {
    assert (xs + [x])[..|xs|] == xs;
  }

  /** Appending one element after a concatenation. */
  lemma AppendSnoc<T>(a: seq<T>, b: seq<T>, x: T)
    ensures a + (b + [x]) == (a + b) + [x]
  {
  }

  /** Extending a prefix by one element. */
  lemma TakeSnoc<T>(xs: seq<T>, i: nat)
    requires i < |xs|
    ensures xs[..i + 1] == xs[..i] + [xs[i]]
  {
  }

  /** The strict-improvement scan `if xs[i] < best: best = xs[i]` started
      from infinity: the index of the first minimum, and none for an empty
      sequence. */
  function FirstMin(xs: seq<real>): (k: Option<nat>)
    ensures k.None? <==> xs == []
    ensures k.Some? ==> k.value < |xs|
  {
    if xs == [] then None
    else
      var prev := FirstMin(xs[..|xs| - 1]);
      if prev.None? || xs[|xs| - 1] < xs[prev.value] then Some(|xs| - 1) else prev
  }

  /** The index found holds the least value, and every value before it is
      strictly greater. */
  lemma {:induction false} FirstMinIsMin(xs: seq<real>)
    ensures var k := FirstMin(xs);
            k.Some? ==> (forall i :: 0 <= i < |xs| ==> xs[k.value] <= xs[i]) &&
                        forall i :: 0 <= i < k.value ==> xs[k.value] < xs[i]
  {
    if xs != [] {
      var init := xs[..|xs| - 1];
      FirstMinIsMin(init);
      assert forall i :: 0 <= i < |init| ==> init[i] == xs[i];
    }
  }

  /** One more step of the scan. */
  lemma FirstMinSnoc(xs: seq<real>, x: real)
    ensures FirstMin(xs + [x])
         == if FirstMin(xs).None? || x < xs[FirstMin(xs).value] then Some(|xs|) else FirstMin(xs)
  {
    assert (xs + [x])[..|xs|] == xs;
  }

  /** The score and the item of the first minimum of `scores`, where
      `items[i]` is the item scored `scores[i]`. */
  function MinOf<T>(scores: seq<real>, items: seq<T>): (r: Option<(real, T)>)
    requires |scores| == |items|
    ensures r.None? <==> scores == []
  {
    match FirstMin(scores)
    case None => None
    case Some(k) => Some((scores[k], items[k]))
  }

  /** The score found is the least, and it is the score of the item found,
      at the first index holding that least score. */
  lemma MinOfIsFirstMin<T>(scores: seq<real>, items: seq<T>)
    requires |scores| == |items|
    ensures var r := MinOf(scores, items);
            r.Some? ==>
              (forall i :: 0 <= i < |scores| ==> r.value.0 <= scores[i]) &&
              exists k :: 0 <= k < |scores| && scores[k] == r.value.0 && items[k] == r.value.1 &&
                forall i :: 0 <= i < k ==> r.value.0 < scores[i]
  {
    FirstMinIsMin(scores);
  }

  /** One more scored item: it replaces the best so far only when it is
      strictly better. */
  lemma MinOfSnoc<T>(scores: seq<real>, items: seq<T>, x: real, item: T)
    requires |scores| == |items|
    ensures MinOf(scores + [x], items + [item])
         == if MinOf(scores, items).None? || x < MinOf(scores, items).value.0
            then Some((x, item)) else MinOf(scores, items)
  {
    FirstMinSnoc(scores, x);
    match FirstMin(scores)
    case None =>
    case Some(k) =>
      assert (scores + [x])[k] == scores[k];
      assert (items + [item])[k] == items[k];
  }
}
