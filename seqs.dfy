/** Boolean-mask indexing over sequences, the way numpy and list
    comprehensions select entries: the increasing list of indices whose
    entry satisfies a predicate, and the entries picked at an index list. */
module Seqs {

  predicate StrictlyIncreasing(xs: seq<nat>) {
    forall a, b :: 0 <= a < b < |xs| ==> xs[a] < xs[b]
  }

  /** No entry is listed twice. */
  predicate Distinct<T(==)>(xs: seq<T>) {
    forall a, b :: 0 <= a < b < |xs| ==> xs[a] != xs[b]
  }

  /** `[i for i, x in enumerate(xs) if p(x)]`: the indices of the entries
      satisfying `p`, in increasing order, and no others. */
  function IndicesWhere<T>(xs: seq<T>, p: T -> bool): (r: seq<nat>)
    ensures StrictlyIncreasing(r)
    ensures |r| <= |xs|
    ensures forall k :: 0 <= k < |r| ==> r[k] < |xs| && p(xs[r[k]])
    ensures forall i :: 0 <= i < |xs| && p(xs[i]) ==> i in r
    decreases |xs|
  {
    if xs == [] then []
    else
      var n := |xs| - 1;
      var rest := IndicesWhere(xs[..n], p);
      if p(xs[n]) then rest + [n] else rest
  }

  /** `xs[idx]` with an integer index array: the entries at the given indices. */
  function Pick<T>(xs: seq<T>, idx: seq<nat>): (r: seq<T>)
    requires forall k :: 0 <= k < |idx| ==> idx[k] < |xs|
    ensures |r| == |idx|
    ensures forall k :: 0 <= k < |idx| ==> r[k] == xs[idx[k]]
  {
    seq(|idx|, k requires 0 <= k < |idx| => xs[idx[k]])
  }

  /** `[x for x in xs if p(x)]`. */
  function Filter<T>(xs: seq<T>, p: T -> bool): (r: seq<T>)
    ensures |r| <= |xs|
    ensures forall k :: 0 <= k < |r| ==> r[k] in xs && p(r[k])
    ensures forall i :: 0 <= i < |xs| && p(xs[i]) ==> xs[i] in r
    decreases |xs|
  {
    if xs == [] then []
    else
      var n := |xs| - 1;
      Filter(xs[..n], p) + (if p(xs[n]) then [xs[n]] else [])
  }

  /** A predicate holds of every entry exactly when masking keeps every index. */
  lemma {:induction false} IndicesWhereAll<T>(xs: seq<T>, p: T -> bool)
    ensures |IndicesWhere(xs, p)| == |xs| <==> forall i :: 0 <= i < |xs| ==> p(xs[i])
    decreases |xs|
  {
    if xs != [] {
      var n := |xs| - 1;
      IndicesWhereAll(xs[..n], p);
      assert xs[..n] + [xs[n]] == xs;
      forall i | 0 <= i < n ensures xs[..n][i] == xs[i] { }
    }
  }

  /** Picking at indices that all lie in a prefix reads only that prefix. */
  lemma PickPrefix<T>(xs: seq<T>, n: nat, idx: seq<nat>)
    requires n <= |xs|
    requires forall k :: 0 <= k < |idx| ==> idx[k] < n
    ensures Pick(xs, idx) == Pick(xs[..n], idx)
  {
  }

  /** The filtered list is the list picked at the mask's indices: it keeps
      exactly the entries satisfying `p`, in their original order. */
  lemma {:induction false} FilterIsPick<T>(xs: seq<T>, p: T -> bool)
    ensures Filter(xs, p) == Pick(xs, IndicesWhere(xs, p))
    decreases |xs|
  {
    if xs != [] {
      var n := |xs| - 1;
      var rest := IndicesWhere(xs[..n], p);
      FilterIsPick(xs[..n], p);
      PickPrefix(xs, n, rest);
      if p(xs[n]) {
        assert Pick(xs, rest + [n]) == Pick(xs, rest) + [xs[n]];
      }
    }
  }
}
