/** The per-SNP statistic and the integrity filter that follows it
    (Scripts/Empiricalpvalue.percentile.py, lines 38-55). Hudson's estimator
    itself is computed by a genomics library and enters the model as the
    function `hudson`, which gives the (numerator, denominator) pair of a SNP
    from the two populations' sample columns. */
module Clean {
  import opened Wrappers
  import opened Seqs

  /** `(num / den)[0] if den > 0 else np.nan`: the ratio, undefined when the
      denominator is not positive. */
  function FstValue(num: real, den: real): (r: Option<real>)
    ensures r.None? <==> den <= 0.0
    ensures r.Some? ==> r.value * den == num
  {
    if den > 0.0 then Some(num / den) else None
  }

  /** The loop building `fst_all`: one entry per genotype row, in row order. */
  method PerSnpFst(nVariants: nat, pop1: seq<nat>, pop2: seq<nat>,
                   hudson: (seq<nat>, seq<nat>, nat) -> (real, real))
    returns (fst: seq<Option<real>>)
    ensures |fst| == nVariants
    ensures forall i :: 0 <= i < nVariants ==> fst[i] == FstValue(hudson(pop1, pop2, i).0, hudson(pop1, pop2, i).1)
  {
    fst := [];
    var i := 0;
    while i < nVariants
      invariant 0 <= i <= nVariants
      invariant |fst| == i
      invariant forall j :: 0 <= j < i ==> fst[j] == FstValue(hudson(pop1, pop2, j).0, hudson(pop1, pop2, j).1)
    {
      var (num, den) := hudson(pop1, pop2, i);
      fst := fst + [FstValue(num, den)];
      i := i + 1;
    }
  }

  /** The three cleaned parallel arrays. */
  datatype Columns = Columns(fst: seq<real>, pos: seq<int>, chrom: seq<string>)

  /** The failed `assert` of line 50. */
  datatype CleanError = LengthMismatch

  /** The mask `~np.isnan(fst_all)` as a predicate. */
  predicate Defined(v: Option<real>) { v.Some? }

  /** The three arrays must have the same length; then every index whose
      statistic is undefined is dropped from all three. */
  function CleanArrays(fst: seq<Option<real>>, pos: seq<int>, chrom: seq<string>): (r: Result<Columns, CleanError>)
    ensures r.Err? <==> !(|fst| == |pos| == |chrom|)
    ensures r.Ok? ==>
      var keep := IndicesWhere(fst, Defined);
      && |r.value.fst| == |r.value.pos| == |r.value.chrom| == |keep| <= |fst|
      && (forall k :: 0 <= k < |keep| ==>
            && Some(r.value.fst[k]) == fst[keep[k]]
            && r.value.pos[k] == pos[keep[k]]
            && r.value.chrom[k] == chrom[keep[k]])
  {
    if !(|fst| == |pos| == |chrom|) then Err(LengthMismatch)
    else
      var keep := IndicesWhere(fst, Defined);
      Ok(Columns(seq(|keep|, k requires 0 <= k < |keep| => fst[keep[k]].value),
                 Pick(pos, keep), Pick(chrom, keep)))
  }

  /** Nothing is dropped exactly when no statistic is undefined. */
  lemma CleanKeepsAllIffDefined(fst: seq<Option<real>>, pos: seq<int>, chrom: seq<string>)
    requires |fst| == |pos| == |chrom|
    ensures CleanArrays(fst, pos, chrom).Ok?
    ensures |CleanArrays(fst, pos, chrom).value.fst| == |fst| <==> forall i :: 0 <= i < |fst| ==> fst[i].Some?
  {
    IndicesWhereAll(fst, Defined);
  }

  /** Every defined statistic survives, still aligned with its position and
      chromosome: the kept index list is the increasing list of defined ones. */
  lemma CleanKeepsEveryDefined(fst: seq<Option<real>>, pos: seq<int>, chrom: seq<string>, i: nat)
    requires |fst| == |pos| == |chrom|
    requires i < |fst| && fst[i].Some?
    ensures var c := CleanArrays(fst, pos, chrom).value;
      exists k :: 0 <= k < |c.fst| && Some(c.fst[k]) == fst[i] && c.pos[k] == pos[i] && c.chrom[k] == chrom[i]
  {
    var keep := IndicesWhere(fst, Defined);
    assert Defined(fst[i]);
    var k :| 0 <= k < |keep| && keep[k] == i;
    var c := CleanArrays(fst, pos, chrom).value;
    assert Some(c.fst[k]) == fst[i] && c.pos[k] == pos[i] && c.chrom[k] == chrom[i];
  }
}
