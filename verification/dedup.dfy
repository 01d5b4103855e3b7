/** pandas' `drop_duplicates()` (and `Index.unique()`): keep the first
    occurrence of every distinct value, in order, each tagged with the
    position it had in the input (the row label `iterrows` yields). */
module Dedup {

  function DropDuplicates<T(==)>(xs: seq<T>): (r: seq<(nat, T)>)
    ensures forall t | 0 <= t < |r| :: r[t].0 < |xs| && xs[r[t].0] == r[t].1
    ensures |r| <= |xs|
    decreases |xs|
  {
    if |xs| == 0 then []
    else
      var init := xs[..|xs| - 1];
      var d := DropDuplicates(init);
      if xs[|xs| - 1] in init then d else d + [(|xs| - 1, xs[|xs| - 1])]
  }

  /** Position `i` holds the first occurrence of its value. */
  predicate FirstOccurrence<T(==)>(xs: seq<T>, i: nat)
    requires i < |xs|
  {
    xs[i] !in xs[..i]
  }

  /** The kept positions are strictly increasing: input order is preserved. */
  lemma {:induction false} DropDuplicatesOrdered<T>(xs: seq<T>)
    ensures forall s, t | 0 <= s < t < |DropDuplicates(xs)| :: DropDuplicates(xs)[s].0 < DropDuplicates(xs)[t].0
    decreases |xs|
  {
    if |xs| > 0 {
      var init := xs[..|xs| - 1];
      DropDuplicatesOrdered(init);
      var d := DropDuplicates(init);
      var r := DropDuplicates(xs);
      assert r == if xs[|xs| - 1] in init then d else d + [(|xs| - 1, xs[|xs| - 1])];
      forall s, t | 0 <= s < t < |r|
        ensures r[s].0 < r[t].0
      {
        if t == |d| {
          assert r[s] == d[s] && d[s].0 < |init|;
        } else {
          assert t < |d|;
          assert r[s] == d[s] && r[t] == d[t];
          assert d[s].0 < d[t].0;
        }
      }
    }
  }

  /** Exactly the first occurrences are kept: a position appears in the
      result if and only if its value does not occur earlier. */
  lemma {:induction false} DropDuplicatesKeepsFirst<T>(xs: seq<T>, i: nat)
    requires i < |xs|
    ensures (exists t | 0 <= t < |DropDuplicates(xs)| :: DropDuplicates(xs)[t].0 == i) ==> FirstOccurrence(xs, i)
    ensures FirstOccurrence(xs, i) ==> exists t | 0 <= t < |DropDuplicates(xs)| :: DropDuplicates(xs)[t].0 == i
    decreases |xs|
  {
    var init := xs[..|xs| - 1];
    var r := DropDuplicates(xs);
    var d := DropDuplicates(init);
    assert r == if xs[|xs| - 1] in init then d else d + [(|xs| - 1, xs[|xs| - 1])];
    if i < |xs| - 1 {
      DropDuplicatesKeepsFirst(init, i);
      assert init[..i] == xs[..i] && init[i] == xs[i];
      assert FirstOccurrence(xs, i) == FirstOccurrence(init, i);
      if exists t | 0 <= t < |r| :: r[t].0 == i {
        var t :| 0 <= t < |r| && r[t].0 == i;
        assert t < |d| && d[t].0 == i;
        assert FirstOccurrence(xs, i);
      }
      if FirstOccurrence(xs, i) {
        var t :| 0 <= t < |d| && d[t].0 == i;
        assert r[t] == d[t];
        assert 0 <= t < |r| && r[t].0 == i;
      }
    } else {
      assert xs[..i] == init;
      if xs[i] !in init {
        assert r[|r| - 1].0 == i;
      }
    }
  }

  /** Every value of the input is represented by its first occurrence. */
  lemma {:induction false} DropDuplicatesComplete<T>(xs: seq<T>, i: nat)
    requires i < |xs|
    ensures exists t | 0 <= t < |DropDuplicates(xs)| :: DropDuplicates(xs)[t].1 == xs[i] && DropDuplicates(xs)[t].0 <= i
    decreases |xs|
  {
    var init := xs[..|xs| - 1];
    var r := DropDuplicates(xs);
    if i < |xs| - 1 {
      DropDuplicatesComplete(init, i);
      var t :| 0 <= t < |DropDuplicates(init)| && DropDuplicates(init)[t].1 == init[i] && DropDuplicates(init)[t].0 <= i;
      assert r[t] == DropDuplicates(init)[t];
    } else if xs[i] in init {
      var k :| 0 <= k < |init| && init[k] == xs[i];
      DropDuplicatesComplete(init, k);
      var t :| 0 <= t < |DropDuplicates(init)| && DropDuplicates(init)[t].1 == init[k] && DropDuplicates(init)[t].0 <= k;
      assert r[t] == DropDuplicates(init)[t];
    } else {
      assert r[|r| - 1] == (i, xs[i]);
    }
  }

  /** No value is kept twice. */
  lemma {:induction false} DropDuplicatesDistinct<T>(xs: seq<T>)
    ensures forall s, t | 0 <= s < t < |DropDuplicates(xs)| :: DropDuplicates(xs)[s].1 != DropDuplicates(xs)[t].1
    decreases |xs|
  {
    if |xs| > 0 {
      var init := xs[..|xs| - 1];
      DropDuplicatesDistinct(init);
      var d := DropDuplicates(init);
      var r := DropDuplicates(xs);
      assert r == if xs[|xs| - 1] in init then d else d + [(|xs| - 1, xs[|xs| - 1])];
      forall s, t | 0 <= s < t < |r|
        ensures r[s].1 != r[t].1
      {
        if t == |d| {
          assert r[s] == d[s] && d[s].1 == init[d[s].0];
          assert r[t].1 == xs[|xs| - 1] && xs[|xs| - 1] !in init;
        } else {
          assert r[s] == d[s] && r[t] == d[t];
        }
      }
    }
  }

  /** The values alone, in order: `Index.unique()`. */
  function Unique<T(==)>(xs: seq<T>): (u: seq<T>)
    ensures |u| == |DropDuplicates(xs)|
    ensures forall t | 0 <= t < |u| :: u[t] == DropDuplicates(xs)[t].1
  {
    var d := DropDuplicates(xs);
    seq(|d|, t requires 0 <= t < |d| => d[t].1)
  }
}
