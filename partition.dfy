/** Splitting the variant file's sample columns into the two populations
    compared, from the sample-to-population table
    (Scripts/Empiricalpvalue.percentile.py, lines 26-27 and 33). */
module Partition {
  import opened Wrappers
  import opened Seqs

  /** The two population labels the analysis compares, fixed in the script. */
  const NEGRITO: string := "Negrito"
  const MALAY: string := "Malay"

  /** `sample_to_pop.get(s)`: the population of a sample, `None` when the
      table has no row for it. */
  function Lookup(pops: map<string, string>, s: string): (r: Option<string>)
    ensures r.None? <==> s !in pops
    ensures r.Some? ==> pops[s] == r.value
  {
    if s in pops then Some(pops[s]) else None
  }

  /** The test `sample_to_pop.get(s) == name` as a mask predicate. */
  function HasLabel(pops: map<string, string>, name: string): string -> bool {
    s => Lookup(pops, s) == Some(name)
  }

  /** The test `s not in sample_to_pop` as a mask predicate. */
  function Unmapped(pops: map<string, string>): string -> bool {
    s => s !in pops
  }

  /** The sample columns labelled `name`: increasing, and all of them. */
  function Population(samples: seq<string>, pops: map<string, string>, name: string): (r: seq<nat>)
    ensures StrictlyIncreasing(r)
    ensures forall k :: 0 <= k < |r| ==> r[k] < |samples| && samples[r[k]] in pops && pops[samples[r[k]]] == name
    ensures forall i :: 0 <= i < |samples| && samples[i] in pops && pops[samples[i]] == name ==> i in r
  {
    IndicesWhere(samples, HasLabel(pops, name))
  }

  /** `pop1`: the columns whose `sample_to_pop.get` is Negrito, and only those. */
  function Pop1(samples: seq<string>, pops: map<string, string>): (r: seq<nat>)
    ensures forall k :: 0 <= k < |r| ==> r[k] < |samples| && Lookup(pops, samples[r[k]]) == Some(NEGRITO)
    ensures forall i :: 0 <= i < |samples| && Lookup(pops, samples[i]) == Some(NEGRITO) ==> i in r
  {
    Population(samples, pops, NEGRITO)
  }

  /** `pop2`: the columns whose `sample_to_pop.get` is Malay, and only those. */
  function Pop2(samples: seq<string>, pops: map<string, string>): (r: seq<nat>)
    ensures forall k :: 0 <= k < |r| ==> r[k] < |samples| && Lookup(pops, samples[r[k]]) == Some(MALAY)
    ensures forall i :: 0 <= i < |samples| && Lookup(pops, samples[i]) == Some(MALAY) ==> i in r
  {
    Population(samples, pops, MALAY)
  }

  /** `missing`: the samples of the variant file that the table does not
      mention, in file order (duplicates kept). */
  function Missing(samples: seq<string>, pops: map<string, string>): (r: seq<string>)
    ensures |r| <= |samples|
    ensures forall k :: 0 <= k < |r| ==> r[k] in samples && r[k] !in pops
    ensures forall i :: 0 <= i < |samples| && samples[i] !in pops ==> samples[i] in r
  {
    Filter(samples, Unmapped(pops))
  }

  /** No sample column belongs to both populations. */
  lemma PopulationsDisjoint(samples: seq<string>, pops: map<string, string>)
    ensures forall i :: i in Pop1(samples, pops) ==> i !in Pop2(samples, pops)
  {
  }

  /** `missing` is exactly the samples at the unmapped columns, in column
      order, and none of those columns is in either population. */
  lemma MissingAreUnmappedColumns(samples: seq<string>, pops: map<string, string>)
    ensures var unmapped := IndicesWhere(samples, Unmapped(pops));
      && Missing(samples, pops) == Pick(samples, unmapped)
      && forall i :: i in unmapped ==> i !in Pop1(samples, pops) && i !in Pop2(samples, pops)
  {
    FilterIsPick(samples, Unmapped(pops));
  }
}
