/** The script end to end, from the sample table and the variant columns to
    the window table (Scripts/Empiricalpvalue.percentile.py, lines 26-78).
    Loading the two input files, writing the table, the plots and the console
    messages are not part of this model. */
module Pipeline {
  import opened Wrappers
  import opened Partition
  import opened Clean
  import opened Rank
  import opened Windows
  import opened Chromosomes

  /** Partition the samples, compute the per-SNP statistic for each of the
      `nVariants` genotype rows, clean the three parallel arrays (failing when
      their lengths differ), rank into percentiles and scan the windows. */
  method Analyze(samples: seq<string>, pops: map<string, string>,
                 nVariants: nat, pos: seq<int>, chroms: seq<string>,
                 hudson: (seq<nat>, seq<nat>, nat) -> (real, real),
                 binom: (nat, nat) -> real)
    returns (r: Result<seq<Window>, CleanError>)
    ensures r.Err? <==> !(nVariants == |pos| == |chroms|)
    ensures r.Ok? ==> GroupedInOrder(r.value) && AllValid(r.value, binom)
    ensures r.Ok? ==> forall k :: 0 <= k < |r.value| ==> r.value[k].chrom in chroms
  {
    var pop1 := Pop1(samples, pops);
    var pop2 := Pop2(samples, pops);
    var fstAll := PerSnpFst(nVariants, pop1, pop2, hudson);
    var cleaned := CleanArrays(fstAll, pos, chroms);
    if cleaned.Err? {
      return Err(cleaned.error);
    }
    var cols := cleaned.value;
    var order := StableArgsort(cols.fst);
    var percentiles := Percentiles(cols.fst, order);
    var results := WindowTest(cols.chrom, cols.pos, percentiles, binom);
    forall k | 0 <= k < |results| ensures results[k].chrom in chroms {
      assert results[k].chrom in Unique(cols.chrom);
      var j :| 0 <= j < |cols.chrom| && cols.chrom[j] == results[k].chrom;
      assert cols.chrom[j] in chroms;
    }
    return Ok(results);
  }
}
