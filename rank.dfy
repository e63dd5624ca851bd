/** Empirical percentiles of the cleaned statistic
    (Scripts/Empiricalpvalue.percentile.py, line 58):
    `1 - argsort(argsort(x)) / len(x)`.

    numpy's default argsort is not stable, so the order it gives to equal
    values is left open: `IsArgsort` admits every ordering of the indices
    that sorts the values ascending. The outer argsort is applied to a
    permutation, whose argsort is unique (its inverse), so the ranks are
    determined by the inner ordering alone. */
module Rank {
  import opened Seqs

  /** `p` lists each of `0 .. |p|-1` exactly once. */
  predicate IsPermutation(p: seq<nat>) {
    && (forall k :: 0 <= k < |p| ==> p[k] < |p|)
    && Distinct(p)
  }

  /** `order` lists indices of `x` so that their values ascend. */
  predicate SortedBy(x: seq<real>, order: seq<nat>) {
    && (forall k :: 0 <= k < |order| ==> order[k] < |x|)
    && (forall a, b :: 0 <= a < b < |order| ==> x[order[a]] <= x[order[b]])
  }

  /** Equal values are listed in increasing index order. */
  predicate TiesInIndexOrder(x: seq<real>, order: seq<nat>)
    requires forall k :: 0 <= k < |order| ==> order[k] < |x|
  {
    forall a, b :: 0 <= a < b < |order| && x[order[a]] == x[order[b]] ==> order[a] < order[b]
  }

  /** `order` is an admissible result of `np.argsort(x)`: it lists every
      index of `x` exactly once, in ascending order of value. */
  predicate IsArgsort(x: seq<real>, order: seq<nat>) {
    |order| == |x| && IsPermutation(order) && SortedBy(x, order)
  }

  // ---------------------------------------------------------------- permutations

  /** `{0, …, n-1}`. */
  function RangeSet(n: nat): (r: set<nat>)
    ensures |r| == n
    ensures forall v: nat :: v in r <==> v < n
  {
    if n == 0 then {} else RangeSet(n - 1) + {n - 1}
  }

  function Elements(p: seq<nat>): (e: set<nat>) {
    set v: nat | v in p
  }

  lemma {:induction false} DistinctCard(p: seq<nat>)
    requires Distinct(p)
    ensures |Elements(p)| == |p|
  {
    if p != [] {
      var n := |p| - 1;
      DistinctCard(p[..n]);
      assert Elements(p) == Elements(p[..n]) + {p[n]};
      assert p[n] !in Elements(p[..n]);
    }
  }

  /** A permutation is onto: every index below its length occurs in it. */
  lemma PermutationOnto(p: seq<nat>)
    requires IsPermutation(p)
    ensures forall v: nat :: v < |p| ==> v in p
  {
    var s, all := Elements(p), RangeSet(|p|);
    DistinctCard(p);
    assert s <= all;
    assert s * all == s;
    assert |all - s| == 0;
    forall v: nat | v < |p| ensures v in p {
      assert v in all;
      assert v !in all - s;
    }
  }

  /** The position of `v` in `p`. */
  function IndexOf(p: seq<nat>, v: nat): (r: nat)
    requires v in p
    ensures r < |p| && p[r] == v
  {
    if p[0] == v then 0 else 1 + IndexOf(p[1..], v)
  }

  /** `np.argsort(order)` for a permutation `order`: its inverse, so that
      `rank[i]` is the place of index `i` in the sorted order. */
  function Ranks(order: seq<nat>): (rank: seq<nat>)
    requires IsPermutation(order)
    ensures |rank| == |order| && IsPermutation(rank)
    ensures forall i :: 0 <= i < |order| ==> order[rank[i]] == i
    ensures forall k :: 0 <= k < |order| ==> rank[order[k]] == k
  {
    PermutationOnto(order);
    var rank := seq(|order|, i requires 0 <= i < |order| => IndexOf(order, i));
    assert forall k :: 0 <= k < |order| ==> rank[order[k]] == k by {
      forall k | 0 <= k < |order| ensures rank[order[k]] == k {
        var j := rank[order[k]];
        assert order[j] == order[k];
      }
    }
    rank
  }

  /** A strictly increasing list of `n` values below `n` is `0, 1, …, n-1`. */
  lemma {:induction false} IncreasingBelowLengthIsIdentity(s: seq<nat>, k: nat)
    requires StrictlyIncreasing(s)
    requires forall j :: 0 <= j < |s| ==> s[j] < |s|
    requires k < |s|
    ensures s[k] == k
  {
    LowerBound(s, k);
    UpperBound(s, k);
  }

  lemma {:induction false} LowerBound(s: seq<nat>, k: nat)
    requires StrictlyIncreasing(s)
    requires k < |s|
    ensures s[k] >= k
  {
    if k > 0 { LowerBound(s, k - 1); }
  }

  lemma {:induction false} UpperBound(s: seq<nat>, k: nat)
    requires StrictlyIncreasing(s)
    requires forall j :: 0 <= j < |s| ==> s[j] < |s|
    requires k < |s|
    ensures s[k] <= k
    decreases |s| - k
  {
    if k < |s| - 1 { UpperBound(s, k + 1); }
  }

  /** Whatever the tie handling of the outer argsort, its result on a
      permutation is `Ranks(order)`: the ranks depend on the inner order only. */
  lemma ArgsortOfPermutationIsRanks(order: seq<nat>, q: seq<nat>)
    requires IsPermutation(order) && IsPermutation(q) && |q| == |order|
    requires forall a, b :: 0 <= a < b < |q| ==> order[q[a]] <= order[q[b]]
    ensures q == Ranks(order)
  {
    var n := |order|;
    var s := seq(n, k requires 0 <= k < n => order[q[k]]);
    forall k | 0 <= k < n ensures q[k] == Ranks(order)[k] {
      IncreasingBelowLengthIsIdentity(s, k);
      assert order[q[k]] == k;
      assert order[Ranks(order)[k]] == k;
    }
  }

  // ---------------------------------------------------------------- ranks agree with values

  /** A smaller value gets a smaller rank; a smaller rank never has a larger value. */
  lemma RanksAgreeWithValues(x: seq<real>, order: seq<nat>, i: nat, j: nat)
    requires IsArgsort(x, order)
    requires i < |x| && j < |x|
    ensures x[i] < x[j] ==> Ranks(order)[i] < Ranks(order)[j]
    ensures Ranks(order)[i] < Ranks(order)[j] ==> x[i] <= x[j]
  {
  }

  // ---------------------------------------------------------------- percentiles

  /** `1 - rank / n`. */
  function Percentile(rank: nat, n: nat): (p: real)
    requires rank < n
    ensures p * (n as real) == (n - rank) as real
    ensures 1.0 / (n as real) <= p <= 1.0
  {
    var q := 1.0 - (rank as real) / (n as real);
    assert q * (n as real) == (n - rank) as real;
    q
  }

  /** Percentile order reverses rank order, in both directions. */
  lemma PercentileAntitone(r: nat, s: nat, n: nat)
    requires r < n && s < n
    ensures Percentile(r, n) < Percentile(s, n) <==> s < r
  {
  }

  lemma SignOfProduct(d: real, N: real)
    requires N > 0.0
    ensures d < 0.0 <==> d * N < 0.0
  {
    if d < 0.0 { assert d * N < 0.0 * N; }
    if d >= 0.0 { assert d * N >= 0.0 * N; }
  }

  /** The top-1% test `perc < 0.01` in exact integer terms. */
  lemma TopOnePercent(rank: nat, n: nat)
    requires rank < n
    ensures Percentile(rank, n) < 0.01 <==> 100 * (n - rank) < n
  {
  }

  /** The percentile of every entry of `x`, from an admissible argsort. */
  function Percentiles(x: seq<real>, order: seq<nat>): (perc: seq<real>)
    requires IsArgsort(x, order)
    ensures |perc| == |x|
    ensures forall i :: 0 <= i < |x| ==> 1.0 / (|x| as real) <= perc[i] <= 1.0
  {
    var rank := Ranks(order);
    seq(|x|, i requires 0 <= i < |x| => Percentile(rank[i], |x|))
  }

  /** A larger statistic never gets a larger percentile, and a strictly
      larger one gets a strictly smaller percentile. */
  lemma PercentilesMonotone(x: seq<real>, order: seq<nat>, i: nat, j: nat)
    requires IsArgsort(x, order)
    requires i < |x| && j < |x|
    ensures x[i] < x[j] ==> Percentiles(x, order)[j] < Percentiles(x, order)[i]
    ensures Percentiles(x, order)[j] < Percentiles(x, order)[i] ==> x[i] <= x[j]
  {
    var rank := Ranks(order);
    RanksAgreeWithValues(x, order, i, j);
    PercentileAntitone(rank[i], rank[j], |x|);
  }

  /** The smallest percentile, `1/n`, belongs to the last rank, and
      percentile 1 to the first. */
  lemma PercentileExtremes(rank: nat, n: nat)
    requires rank < n
    ensures Percentile(rank, n) == 1.0 / (n as real) <==> rank == n - 1
    ensures Percentile(rank, n) == 1.0 <==> rank == 0
  {
  }

  /** The last rank holds a maximum; a strict maximum gets the last rank. */
  lemma LastRankHoldsMaximum(x: seq<real>, order: seq<nat>, i: nat)
    requires IsArgsort(x, order)
    requires i < |x|
    ensures Ranks(order)[i] == |x| - 1 ==> forall j :: 0 <= j < |x| ==> x[j] <= x[i]
    ensures (forall j :: 0 <= j < |x| && j != i ==> x[j] < x[i]) ==> Ranks(order)[i] == |x| - 1
  {
    var rank := Ranks(order);
    if rank[i] == |x| - 1 {
      forall j | 0 <= j < |x| ensures x[j] <= x[i] {
        RanksAgreeWithValues(x, order, i, j);
      }
    }
    if forall j :: 0 <= j < |x| && j != i ==> x[j] < x[i] {
      var top := order[|x| - 1];
      assert rank[top] == |x| - 1;
      RanksAgreeWithValues(x, order, top, i);
    }
  }

  /** The first rank holds a minimum; a strict minimum gets the first rank. */
  lemma FirstRankHoldsMinimum(x: seq<real>, order: seq<nat>, i: nat)
    requires IsArgsort(x, order)
    requires i < |x|
    ensures Ranks(order)[i] == 0 ==> forall j :: 0 <= j < |x| ==> x[i] <= x[j]
    ensures (forall j :: 0 <= j < |x| && j != i ==> x[i] < x[j]) ==> Ranks(order)[i] == 0
  {
    var rank := Ranks(order);
    if rank[i] == 0 {
      forall j | 0 <= j < |x| ensures x[i] <= x[j] {
        RanksAgreeWithValues(x, order, j, i);
      }
    }
    if forall j :: 0 <= j < |x| && j != i ==> x[i] < x[j] {
      var bottom := order[0];
      assert rank[bottom] == 0;
      RanksAgreeWithValues(x, order, i, bottom);
    }
  }

  /** The entry with the smallest possible percentile, `1/N`, holds a maximum;
      a strict maximum gets it. */
  lemma MaximumGetsSmallestPercentile(x: seq<real>, order: seq<nat>, i: nat)
    requires IsArgsort(x, order)
    requires i < |x|
    ensures Percentiles(x, order)[i] == 1.0 / (|x| as real) ==> forall j :: 0 <= j < |x| ==> x[j] <= x[i]
    ensures (forall j :: 0 <= j < |x| && j != i ==> x[j] < x[i]) ==> Percentiles(x, order)[i] == 1.0 / (|x| as real)
  {
    PercentileExtremes(Ranks(order)[i], |x|);
    LastRankHoldsMaximum(x, order, i);
  }

  /** The entry with percentile 1 holds a minimum; a strict minimum gets it. */
  lemma MinimumGetsPercentileOne(x: seq<real>, order: seq<nat>, i: nat)
    requires IsArgsort(x, order)
    requires i < |x|
    ensures Percentiles(x, order)[i] == 1.0 ==> forall j :: 0 <= j < |x| ==> x[i] <= x[j]
    ensures (forall j :: 0 <= j < |x| && j != i ==> x[i] < x[j]) ==> Percentiles(x, order)[i] == 1.0
  {
    PercentileExtremes(Ranks(order)[i], |x|);
    FirstRankHoldsMinimum(x, order, i);
  }

  // ---------------------------------------------------------------- an argsort exists

  /** Places index `m` after every listed index whose value is at most `x[m]`. */
  function InsertIndex(x: seq<real>, order: seq<nat>, m: nat): (r: seq<nat>)
    requires m < |x| && SortedBy(x, order)
    ensures |r| == |order| + 1 && SortedBy(x, r)
    ensures forall v: nat :: v in r <==> v == m || v in order
  {
    if order == [] then [m]
    else if x[order[0]] <= x[m] then
      var rest := InsertIndex(x, order[1..], m);
      forall k | 0 <= k < |rest| ensures x[order[0]] <= x[rest[k]] {
        assert rest[k] in rest;
        if rest[k] != m {
          var j :| 0 <= j < |order[1..]| && order[1..][j] == rest[k];
          assert order[j + 1] == rest[k];
        }
      }
      [order[0]] + rest
    else [m] + order
  }

  /** Inserting an index not yet listed keeps the list free of repeats. */
  lemma {:induction false} InsertIndexDistinct(x: seq<real>, order: seq<nat>, m: nat)
    requires m < |x| && SortedBy(x, order)
    requires Distinct(order) && m !in order
    ensures Distinct(InsertIndex(x, order, m))
  {
    if order != [] && x[order[0]] <= x[m] {
      var rest := InsertIndex(x, order[1..], m);
      InsertIndexDistinct(x, order[1..], m);
      assert order[0] !in order[1..];
      var r := [order[0]] + rest;
      forall a, b | 0 <= a < b < |r| ensures r[a] != r[b] {
        assert r[b] == rest[b - 1];
        if a == 0 {
          assert order[0] in order;
          assert rest[b - 1] in rest;
          assert r[b] == m || r[b] in order[1..];
          assert r[a] == order[0];
        } else {
          assert r[a] == rest[a - 1];
          assert rest[a - 1] != rest[b - 1];
        }
      }
    }
  }

  /** Inserting an index larger than every listed one keeps ties in index order. */
  lemma {:induction false} InsertIndexStable(x: seq<real>, order: seq<nat>, m: nat)
    requires m < |x| && SortedBy(x, order) && TiesInIndexOrder(x, order)
    requires forall k :: 0 <= k < |order| ==> order[k] < m
    ensures TiesInIndexOrder(x, InsertIndex(x, order, m))
  {
    if order != [] && x[order[0]] <= x[m] {
      var tail := order[1..];
      assert forall k :: 0 <= k < |tail| ==> tail[k] == order[k + 1];
      InsertIndexStable(x, tail, m);
      var rest := InsertIndex(x, tail, m);
      var r := [order[0]] + rest;
      forall a, b | 0 <= a < b < |r| && x[r[a]] == x[r[b]] ensures r[a] < r[b] {
        assert r[b] == rest[b - 1];
        if a == 0 {
          assert rest[b - 1] in rest;
          if r[b] != m {
            var j :| 0 <= j < |tail| && tail[j] == r[b];
            assert order[j + 1] == r[b];
          }
        } else {
          assert r[a] == rest[a - 1];
        }
      }
    }
  }

  /** Inserting the next index into a permutation of the indices below it
      gives a permutation one longer. */
  lemma InsertIndexPermutation(x: seq<real>, prev: seq<nat>, m: nat)
    requires m < |x| && SortedBy(x, prev)
    requires |prev| == m && IsPermutation(prev)
    ensures IsPermutation(InsertIndex(x, prev, m))
  {
    var r := InsertIndex(x, prev, m);
    assert m !in prev;
    InsertIndexDistinct(x, prev, m);
    forall k | 0 <= k < |r| ensures r[k] < |r| {
      assert r[k] in r;
    }
  }

  /** An argsort of the first `n` entries. */
  function ArgsortPrefix(x: seq<real>, n: nat): (order: seq<nat>)
    requires n <= |x|
    ensures |order| == n && SortedBy(x, order) && IsPermutation(order)
    ensures TiesInIndexOrder(x, order)
  {
    if n == 0 then []
    else
      var prev := ArgsortPrefix(x, n - 1);
      InsertIndexPermutation(x, prev, n - 1);
      InsertIndexStable(x, prev, n - 1);
      InsertIndex(x, prev, n - 1)
  }

  /** A stable argsort: ties keep index order. It is one of the orders numpy
      may produce, and shows that an admissible argsort always exists. */
  function StableArgsort(x: seq<real>): (order: seq<nat>)
    ensures IsArgsort(x, order) && TiesInIndexOrder(x, order)
  {
    ArgsortPrefix(x, |x|)
  }
}
