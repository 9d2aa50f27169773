/**
 * Keeping the elements of a sequence that pass a test, in their order:
 * the shape shared by the lister's extension filter and the batch
 * runner's skipping of failed keys.
 */
module Sequences {

  /** The elements of `s` for which `keep` holds, in the order of `s`. */
  function Filter<T>(keep: T -> bool, s: seq<T>): seq<T> {
    if s == [] then []
    else Filter(keep, s[..|s| - 1]) + (if keep(s[|s| - 1]) then [s[|s| - 1]] else [])
  }

  /** The positions of `s` whose element passes `keep`, in increasing order. */
  function KeptIndices<T>(keep: T -> bool, s: seq<T>): seq<nat> {
    if s == [] then []
    else KeptIndices(keep, s[..|s| - 1]) + (if keep(s[|s| - 1]) then [|s| - 1] else [])
  }

  /** `idx` lists positions below `n` in strictly increasing order. */
  predicate Increasing(idx: seq<nat>, n: nat) {
    (forall k :: 0 <= k < |idx| ==> idx[k] < n) &&
    (forall k, m :: 0 <= k < m < |idx| ==> idx[k] < idx[m])
  }

  /** Filtering a concatenation filters each part. */
  lemma {:induction false} FilterAppend<T>(keep: T -> bool, a: seq<T>, b: seq<T>)
    ensures Filter(keep, a + b) == Filter(keep, a) + Filter(keep, b)
    decreases |b|
  {
    if b == [] {
      assert a + b == a;
    } else {
      var c, last := a + b, b[|b| - 1];
      var tail := if keep(last) then [last] else [];
      assert c[..|c| - 1] == a + b[..|b| - 1];
      assert c[|c| - 1] == last;
      FilterAppend(keep, a, b[..|b| - 1]);
      calc {
        Filter(keep, c);
        Filter(keep, a + b[..|b| - 1]) + tail;
        (Filter(keep, a) + Filter(keep, b[..|b| - 1])) + tail;
        Filter(keep, a) + (Filter(keep, b[..|b| - 1]) + tail);
        Filter(keep, a) + Filter(keep, b);
      }
    }
  }

  /** As many elements survive the filter as there are kept positions. */
  lemma {:induction false} FilterLength<T>(keep: T -> bool, s: seq<T>)
    ensures |Filter(keep, s)| == |KeptIndices(keep, s)|
    decreases |s|
  {
    if s != [] {
      FilterLength(keep, s[..|s| - 1]);
    }
  }

  /** The kept positions lie inside `s` and increase. */
  lemma {:induction false} KeptIndicesIncrease<T>(keep: T -> bool, s: seq<T>)
    ensures Increasing(KeptIndices(keep, s), |s|)
    decreases |s|
  {
    if s != [] {
      KeptIndicesIncrease(keep, s[..|s| - 1]);
    }
  }

  /** The positions kept are exactly those whose element passes the test. */
  lemma {:induction false} KeptIndicesExactly<T>(keep: T -> bool, s: seq<T>)
    ensures forall i :: 0 <= i < |s| ==> (i in KeptIndices(keep, s) <==> keep(s[i]))
    decreases |s|
  {
    if s != [] {
      var init := s[..|s| - 1];
      KeptIndicesExactly(keep, init);
      KeptIndicesIncrease(keep, init);
      forall i | 0 <= i < |init|
        ensures s[i] == init[i]
      {
      }
    }
  }

  /** The k-th element that survives the filter is the element at the k-th kept position. */
  lemma {:induction false} FilterAtKeptIndices<T>(keep: T -> bool, s: seq<T>)
    ensures |Filter(keep, s)| == |KeptIndices(keep, s)|
    ensures forall k :: 0 <= k < |KeptIndices(keep, s)| ==>
      KeptIndices(keep, s)[k] < |s| && Filter(keep, s)[k] == s[KeptIndices(keep, s)[k]]
    decreases |s|
  {
    FilterLength(keep, s);
    KeptIndicesIncrease(keep, s);
    if s != [] {
      var init := s[..|s| - 1];
      FilterAtKeptIndices(keep, init);
      KeptIndicesIncrease(keep, init);
      forall i | 0 <= i < |init|
        ensures s[i] == init[i]
      {
      }
    }
  }

  /**
   * The filtered sequence is an order-preserving subsequence: its k-th
   * element is the element of `s` at the k-th kept position, the kept
   * positions increase, and they are exactly the positions whose element
   * passes the test.
   */
  lemma FilterIsSubsequence<T>(keep: T -> bool, s: seq<T>)
    ensures |Filter(keep, s)| == |KeptIndices(keep, s)|
    ensures Increasing(KeptIndices(keep, s), |s|)
    ensures forall k :: 0 <= k < |KeptIndices(keep, s)| ==>
      Filter(keep, s)[k] == s[KeptIndices(keep, s)[k]]
    ensures forall i :: 0 <= i < |s| ==> (i in KeptIndices(keep, s) <==> keep(s[i]))
  {
    FilterAtKeptIndices(keep, s);
    KeptIndicesIncrease(keep, s);
    KeptIndicesExactly(keep, s);
  }

  /** An element survives the filter exactly when it occurs in `s` and passes the test. */
  lemma {:induction false} FilterMembership<T>(keep: T -> bool, s: seq<T>, x: T)
    ensures x in Filter(keep, s) <==> x in s && keep(x)
    decreases |s|
  {
    if s != [] {
      var init := s[..|s| - 1];
      FilterMembership(keep, init, x);
      assert s == init + [s[|s| - 1]];
    }
  }
}
