/**
 * `Array.prototype.filter`: visit the elements front to back and append
 * each one the callback accepts. Both list filters of the page are this
 * function with their own callback.
 */
module Filtering {

  /**
   * The result after the last element has been visited: the result for all
   * earlier elements, with the last one appended when `keep` accepts it.
   */
  function Filter<T>(xs: seq<T>, keep: T -> bool): (r: seq<T>)
    ensures |r| <= |xs|
    ensures forall x :: x in r ==> x in xs && keep(x)
  {
    if xs == [] then []
    else
      var prefix := Filter(xs[..|xs| - 1], keep);
      var last := xs[|xs| - 1];
      if keep(last) then prefix + [last] else prefix
  }

  /** Completeness: no accepted element is dropped. */
  lemma {:induction false} FilterComplete<T>(xs: seq<T>, keep: T -> bool)
    ensures forall x :: x in xs && keep(x) ==> x in Filter(xs, keep)
  {
    if xs != [] {
      var init := xs[..|xs| - 1];
      FilterComplete(init, keep);
      assert xs == init + [xs[|xs| - 1]];
    }
  }

  /** Soundness and completeness together: membership in the result is exactly "in the input and accepted". */
  lemma FilterMembership<T>(xs: seq<T>, keep: T -> bool)
    ensures forall x :: x in Filter(xs, keep) <==> x in xs && keep(x)
  {
    FilterComplete(xs, keep);
  }

  /** The indices of the accepted elements, in increasing order. */
  function KeptPositions<T>(xs: seq<T>, keep: T -> bool): seq<nat> {
    if xs == [] then []
    else
      var prefix := KeptPositions(xs[..|xs| - 1], keep);
      if keep(xs[|xs| - 1]) then prefix + [|xs| - 1] else prefix
  }

  /** `ps` lists indices below `n` in strictly increasing order. */
  predicate IncreasingBelow(ps: seq<nat>, n: nat) {
    (forall k :: 0 <= k < |ps| ==> ps[k] < n) &&
    (forall k, l :: 0 <= k < l < |ps| ==> ps[k] < ps[l])
  }

  /** The kept positions are exactly the accepted indices, each once and in increasing order. */
  lemma {:induction false} KeptPositionsExact<T>(xs: seq<T>, keep: T -> bool)
    ensures IncreasingBelow(KeptPositions(xs, keep), |xs|)
    ensures forall j :: 0 <= j < |xs| ==> (j in KeptPositions(xs, keep) <==> keep(xs[j]))
  {
    if xs != [] {
      var n := |xs| - 1;
      var init := xs[..n];
      KeptPositionsExact(init, keep);
      var ps := KeptPositions(init, keep);
      assert forall j :: 0 <= j < n ==> init[j] == xs[j];
      if keep(xs[n]) {
        assert KeptPositions(xs, keep) == ps + [n];
      } else {
        assert KeptPositions(xs, keep) == ps;
      }
    }
  }

  /**
   * Order preservation: the result is the input read at the kept positions,
   * in increasing position order. Duplicates in the input are kept as often
   * as they are accepted.
   */
  lemma {:induction false} FilterAtPositions<T>(xs: seq<T>, keep: T -> bool)
    ensures |Filter(xs, keep)| == |KeptPositions(xs, keep)|
    ensures forall k :: 0 <= k < |KeptPositions(xs, keep)| ==>
      KeptPositions(xs, keep)[k] < |xs| && Filter(xs, keep)[k] == xs[KeptPositions(xs, keep)[k]]
  {
    if xs != [] {
      var n := |xs| - 1;
      var init := xs[..n];
      FilterAtPositions(init, keep);
      var ps, r := KeptPositions(init, keep), Filter(init, keep);
      assert forall k :: 0 <= k < |ps| ==> ps[k] < n && r[k] == init[ps[k]] == xs[ps[k]];
      if keep(xs[n]) {
        assert KeptPositions(xs, keep) == ps + [n];
        assert Filter(xs, keep) == r + [xs[n]];
      } else {
        assert KeptPositions(xs, keep) == ps;
        assert Filter(xs, keep) == r;
      }
    }
  }

  /** When every element is accepted, the result is the input itself. */
  lemma {:induction false} FilterKeepsAll<T>(xs: seq<T>, keep: T -> bool)
    requires forall x :: x in xs ==> keep(x)
    ensures Filter(xs, keep) == xs
  {
    if xs != [] {
      var init := xs[..|xs| - 1];
      assert forall x :: x in init ==> x in xs;
      FilterKeepsAll(init, keep);
      assert xs == init + [xs[|xs| - 1]];
    }
  }

  /** Filtering the result again with the same callback changes nothing. */
  lemma FilterIdempotent<T>(xs: seq<T>, keep: T -> bool)
    ensures Filter(Filter(xs, keep), keep) == Filter(xs, keep)
  {
    FilterKeepsAll(Filter(xs, keep), keep);
  }

  /** The result is empty exactly when no element is accepted. */
  lemma FilterEmptyIff<T>(xs: seq<T>, keep: T -> bool)
    ensures Filter(xs, keep) == [] <==> forall x :: x in xs ==> !keep(x)
  {
    FilterComplete(xs, keep);
  }

  /** When exactly one position is accepted, the result is that one element. */
  lemma {:induction false} FilterSelectsOne<T>(xs: seq<T>, keep: T -> bool, i: nat)
    requires i < |xs| && keep(xs[i])
    requires forall j :: 0 <= j < |xs| && j != i ==> !keep(xs[j])
    ensures Filter(xs, keep) == [xs[i]]
  {
    var n := |xs| - 1;
    var init := xs[..n];
    if i == n {
      forall x | x in init
        ensures !keep(x)
      {
        var j :| 0 <= j < n && init[j] == x;
        assert xs[j] == x;
      }
      FilterEmptyIff(init, keep);
    } else {
      FilterSelectsOne(init, keep, i);
    }
  }

  /** Two callbacks that agree on every element give the same result. */
  lemma {:induction false} FilterCongruent<T>(xs: seq<T>, keep1: T -> bool, keep2: T -> bool)
    requires forall x :: x in xs ==> keep1(x) == keep2(x)
    ensures Filter(xs, keep1) == Filter(xs, keep2)
  {
    if xs != [] {
      var init := xs[..|xs| - 1];
      assert forall x :: x in init ==> x in xs;
      FilterCongruent(init, keep1, keep2);
    }
  }
}
