/**
 * Order-preserving selection over sequences: keep the elements a predicate
 * accepts and map each of them, in the order they come.
 */
module SeqFilter {

  /** The images under `f` of the elements of `xs` that `keep` accepts, in order. */
  function FilterMap<A, B>(xs: seq<A>, keep: A -> bool, f: A -> B): seq<B> {
    if xs == [] then []
    else
      var first := if keep(xs[0]) then [f(xs[0])] else [];
      first + FilterMap(xs[1..], keep, f)
  }

  /** The elements of `ys` that `keep` accepts, in order. */
  function Filter<B>(ys: seq<B>, keep: B -> bool): seq<B> {
    if ys == [] then []
    else
      var first := if keep(ys[0]) then [ys[0]] else [];
      first + Filter(ys[1..], keep)
  }

  /** Selecting from a concatenation selects from each part in turn. */
  lemma {:induction false} FilterMapAppend<A, B>(a: seq<A>, b: seq<A>, keep: A -> bool, f: A -> B)
    ensures FilterMap(a + b, keep, f) == FilterMap(a, keep, f) + FilterMap(b, keep, f)
  {
    if a != [] {
      assert (a + b)[0] == a[0];
      assert (a + b)[1..] == a[1..] + b;
      FilterMapAppend(a[1..], b, keep, f);
    } else {
      assert a + b == b;
    }
  }

  /** An element is selected exactly when it is the image of an accepted element. */
  lemma {:induction false} FilterMapMembership<A, B>(xs: seq<A>, keep: A -> bool, f: A -> B, y: B)
    ensures y in FilterMap(xs, keep, f) <==> exists x :: x in xs && keep(x) && y == f(x)
  {
    if xs != [] {
      FilterMapMembership(xs[1..], keep, f, y);
      assert forall x :: x in xs <==> x == xs[0] || x in xs[1..];
    }
  }

  /** Strictly increasing positions, all below `n`. */
  predicate IncreasingBelow(idx: seq<nat>, n: nat) {
    (forall k :: 0 <= k < |idx| ==> idx[k] < n)
    && (forall k, l :: 0 <= k < l < |idx| ==> idx[k] < idx[l])
  }

  /** The positions in `xs` of the elements `keep` accepts. */
  function Origins<A>(xs: seq<A>, keep: A -> bool): seq<nat> {
    if xs == [] then []
    else
      var rest := Origins(xs[1..], keep);
      var shifted := seq(|rest|, k requires 0 <= k < |rest| => rest[k] + 1);
      if keep(xs[0]) then [0] + shifted else shifted
  }

  /** Shifting positions by one keeps them increasing. */
  lemma ShiftIncreasing(rest: seq<nat>, n: nat)
    requires IncreasingBelow(rest, n)
    ensures var shifted := seq(|rest|, k requires 0 <= k < |rest| => rest[k] + 1);
      IncreasingBelow(shifted, n + 1) && IncreasingBelow([0] + shifted, n + 1)
  {
    var shifted := seq(|rest|, k requires 0 <= k < |rest| => rest[k] + 1);
    var idx := [0] + shifted;
    assert forall k :: 0 < k < |idx| ==> idx[k] == shifted[k - 1];
  }

  /**
   * The k-th selected element is the image of the element at position
   * `Origins(xs, keep)[k]`, and those positions increase: selection keeps
   * the order of `xs` and never yields more elements than `xs` has.
   */
  lemma {:induction false} OriginsCorrect<A, B>(xs: seq<A>, keep: A -> bool, f: A -> B)
    ensures var idx := Origins(xs, keep);
      |idx| == |FilterMap(xs, keep, f)| <= |xs|
      && IncreasingBelow(idx, |xs|)
      && forall k :: 0 <= k < |idx| ==>
           idx[k] < |xs| && keep(xs[idx[k]]) && FilterMap(xs, keep, f)[k] == f(xs[idx[k]])
  {
    if xs != [] {
      OriginsCorrect(xs[1..], keep, f);
      var rest := Origins(xs[1..], keep);
      var tail := FilterMap(xs[1..], keep, f);
      var shifted := seq(|rest|, k requires 0 <= k < |rest| => rest[k] + 1);
      ShiftIncreasing(rest, |xs| - 1);
      forall k | 0 <= k < |shifted|
        ensures shifted[k] < |xs| && keep(xs[shifted[k]]) && tail[k] == f(xs[shifted[k]])
      {
        assert xs[shifted[k]] == xs[1..][rest[k]];
      }
      var sel := FilterMap(xs, keep, f);
      if keep(xs[0]) {
        var idx := [0] + shifted;
        assert Origins(xs, keep) == idx;
        assert sel == [f(xs[0])] + tail;
        forall k | 0 <= k < |idx|
          ensures idx[k] < |xs| && keep(xs[idx[k]]) && sel[k] == f(xs[idx[k]])
        {
          if k > 0 {
            assert idx[k] == shifted[k - 1];
            assert sel[k] == tail[k - 1];
          }
        }
      } else {
        assert Origins(xs, keep) == shifted;
        assert sel == tail;
      }
    }
  }

  /**
   * Narrowing the predicate by a test on the images is the same as
   * filtering the selection afterwards.
   */
  lemma {:induction false} FilterMapNarrow<A, B>(xs: seq<A>, keep: A -> bool, narrow: A -> bool, f: A -> B, test: B -> bool)
    requires forall x :: narrow(x) == (keep(x) && test(f(x)))
    ensures FilterMap(xs, narrow, f) == Filter(FilterMap(xs, keep, f), test)
  {
    if xs != [] {
      FilterMapNarrow(xs[1..], keep, narrow, f, test);
      var first := if keep(xs[0]) then [f(xs[0])] else [];
      FilterAppend(first, FilterMap(xs[1..], keep, f), test);
    }
  }

  lemma {:induction false} FilterAppend<B>(a: seq<B>, b: seq<B>, keep: B -> bool)
    ensures Filter(a + b, keep) == Filter(a, keep) + Filter(b, keep)
  {
    if a != [] {
      assert (a + b)[0] == a[0];
      assert (a + b)[1..] == a[1..] + b;
      FilterAppend(a[1..], b, keep);
    } else {
      assert a + b == b;
    }
  }

  /** Filtering out every element leaves nothing. */
  lemma {:induction false} FilterNone<B>(ys: seq<B>, keep: B -> bool)
    requires forall y :: y in ys ==> !keep(y)
    ensures Filter(ys, keep) == []
  {
    if ys != [] {
      assert ys[0] in ys;
      FilterNone(ys[1..], keep);
    }
  }
}
