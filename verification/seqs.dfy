/** Sequence helpers shared by the components: `Array.prototype.filter`, newest-first reversal,
    ordering by a timestamp, and duplicate-freedom of id lists. */
module Seqs {

  /** The elements of `xs` that satisfy `keep`, in their original order. Which elements these
      are is `FilterMembers`. */
  function Filter<T>(xs: seq<T>, keep: T -> bool): (r: seq<T>)
    ensures |r| <= |xs|
  {
    if |xs| == 0 then []
    else
      var init := Filter(xs[..|xs| - 1], keep);
      if keep(xs[|xs| - 1]) then init + [xs[|xs| - 1]] else init
  }

  /** A value occurs in the filtered sequence exactly when it occurs in `xs` and satisfies
      `keep`. */
  lemma {:induction false} FilterMembers<T>(xs: seq<T>, keep: T -> bool)
    ensures forall x :: x in Filter(xs, keep) ==> x in xs && keep(x)
    ensures forall x :: x in xs && keep(x) ==> x in Filter(xs, keep)
  {
    if |xs| > 0 {
      var init := xs[..|xs| - 1];
      FilterMembers(init, keep);
      assert xs == init + [xs[|xs| - 1]];
    }
  }

  lemma FilterAppend<T>(xs: seq<T>, x: T, keep: T -> bool)
    ensures Filter(xs + [x], keep) == Filter(xs, keep) + (if keep(x) then [x] else [])
  {
    assert (xs + [x])[..|xs|] == xs;
  }

  /** Filtering distributes over concatenation. */
  lemma {:induction false} FilterConcat<T>(a: seq<T>, b: seq<T>, keep: T -> bool)
    ensures Filter(a + b, keep) == Filter(a, keep) + Filter(b, keep)
  {
    if |b| == 0 {
      assert a + b == a;
    } else {
      var init := b[..|b| - 1];
      var x := b[|b| - 1];
      assert a + b == (a + init) + [x] by {
        assert b == init + [x];
      }
      FilterAppend(a + init, x, keep);
      FilterConcat(a, init, keep);
      assert b == init + [x];
      FilterAppend(init, x, keep);
    }
  }

  /** Filtering with a predicate every element satisfies changes nothing. */
  lemma {:induction false} FilterAll<T>(xs: seq<T>, keep: T -> bool)
    requires forall i :: 0 <= i < |xs| ==> keep(xs[i])
    ensures Filter(xs, keep) == xs
  {
    if |xs| > 0 {
      FilterAll(xs[..|xs| - 1], keep);
      assert xs[..|xs| - 1] + [xs[|xs| - 1]] == xs;
    }
  }

  /** Filtering with a predicate no element satisfies gives the empty sequence. */
  lemma FilterNone<T>(xs: seq<T>, keep: T -> bool)
    requires forall i :: 0 <= i < |xs| ==> !keep(xs[i])
    ensures Filter(xs, keep) == []
  {
  }

  /** When exactly one element satisfies `keep`, filtering yields just that element. */
  lemma {:induction false} FilterSingle<T>(xs: seq<T>, keep: T -> bool, k: nat)
    requires k < |xs| && keep(xs[k])
    requires forall j :: 0 <= j < |xs| && j != k ==> !keep(xs[j])
    ensures Filter(xs, keep) == [xs[k]]
  {
    var init := xs[..|xs| - 1];
    if k == |xs| - 1 {
      FilterNone(init, keep);
    } else {
      FilterSingle(init, keep, k);
    }
  }

  /** `xs` read back to front. */
  function Reverse<T>(xs: seq<T>): (r: seq<T>)
    ensures |r| == |xs|
    ensures forall i :: 0 <= i < |xs| ==> r[i] == xs[|xs| - 1 - i]
  {
    if |xs| == 0 then [] else [xs[|xs| - 1]] + Reverse(xs[..|xs| - 1])
  }

  lemma ReverseMembership<T>(xs: seq<T>)
    ensures forall x :: x in Reverse(xs) <==> x in xs
  {
    var r := Reverse(xs);
    forall x | x in xs ensures x in r {
      var i :| 0 <= i < |xs| && xs[i] == x;
      assert r[|xs| - 1 - i] == x;
    }
  }

  /** Non-decreasing by `stamp` from first to last. */
  ghost predicate Ascending<T>(xs: seq<T>, stamp: T -> int) {
    forall i, j :: 0 <= i < j < |xs| ==> stamp(xs[i]) <= stamp(xs[j])
  }

  /** Non-increasing by `stamp` from first to last (newest first). */
  ghost predicate Descending<T>(xs: seq<T>, stamp: T -> int) {
    forall i, j :: 0 <= i < j < |xs| ==> stamp(xs[i]) >= stamp(xs[j])
  }

  /** Keeping some elements of an ascending sequence keeps it ascending. */
  lemma {:induction false} FilterAscending<T>(xs: seq<T>, keep: T -> bool, stamp: T -> int)
    requires Ascending(xs, stamp)
    ensures Ascending(Filter(xs, keep), stamp)
  {
    if |xs| > 0 {
      var init := xs[..|xs| - 1];
      var last := xs[|xs| - 1];
      FilterAscending(init, keep, stamp);
      if keep(last) {
        var f := Filter(init, keep);
        FilterMembers(init, keep);
        forall k | 0 <= k < |f| ensures stamp(f[k]) <= stamp(last) {
          assert f[k] in f;
          var m :| 0 <= m < |init| && init[m] == f[k];
          assert xs[m] == f[k];
        }
      }
    }
  }

  lemma ReverseDescending<T>(xs: seq<T>, stamp: T -> int)
    requires Ascending(xs, stamp)
    ensures Descending(Reverse(xs), stamp)
  {
  }

  /** No value occurs twice. */
  ghost predicate NoDup<T>(xs: seq<T>) {
    forall i, j :: 0 <= i < j < |xs| ==> xs[i] != xs[j]
  }

  /** Filtering a duplicate-free sequence keeps it duplicate-free. */
  lemma FilterNoDup<T>(xs: seq<T>, keep: T -> bool)
    ensures NoDup(xs) ==> NoDup(Filter(xs, keep))
  {
    if |xs| > 0 && NoDup(xs) {
      FilterNoDup(xs[..|xs| - 1], keep);
      FilterMembers(xs[..|xs| - 1], keep);
      assert xs[|xs| - 1] !in xs[..|xs| - 1];
    }
  }

  /** The values occurring in `xs`. */
  function Elements<T>(xs: seq<T>): set<T> {
    set x | x in xs
  }

  /** The set of a duplicate-free sequence has exactly as many elements as the sequence. */
  lemma {:induction false} NoDupCardinality<T>(xs: seq<T>)
    requires NoDup(xs)
    ensures |Elements(xs)| == |xs|
  {
    if |xs| > 0 {
      var init := xs[..|xs| - 1];
      var last := xs[|xs| - 1];
      NoDupCardinality(init);
      assert Elements(xs) == Elements(init) + {last};
      assert last !in init;
    }
  }
}
