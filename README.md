# Fst window enrichment: a Dafny model

The script `Scripts/Empiricalpvalue.percentile.py` compares two human
populations, Negrito and Malay, SNP by SNP. It splits the variant file's
sample columns into the two populations. For every variant it computes
Hudson's Fst as a numerator/denominator ratio, which is undefined when the
denominator is not positive. After checking that the statistic, position
and chromosome arrays are the same length, it drops the undefined entries.
It turns the statistic into an empirical percentile, `1 - rank / N`. Then,
chromosome by chromosome, it walks 100 kb windows from the smallest to the
largest SNP position. In each window it counts the SNPs and the top-1% SNPs
(percentile below 0.01), and attaches a one-sided binomial p-value that is
undefined for an empty window.

This project models that bookkeeping, from the sample table to the window
table:

- `partition.dfy` (module `Partition`) models the population index lists
  `pop1` and `pop2`, and the list of unmatched samples.
- `clean.dfy` (module `Clean`) models the per-SNP loop that builds `fst_all`
  and the length check plus NaN filter.
- `rank.dfy` (module `Rank`) models `argsort(argsort(x))` and the percentile
  formula.
- `chromosomes.dfy` (module `Chromosomes`) models `np.unique` on chromosome
  labels: ascending code-point order, each label once.
- `windows.dfy` (module `Windows`) models the nested window loops, as the
  method `WindowTest` with its inner loop `ScanChromosome`. `WindowTest` is
  proved equal to the function `AllWindows`, and `ScanChromosome` to
  `ChromWindows`, the windows of one chromosome; the properties of the
  table are lemmas about these functions.
- `pipeline.dfy` (module `Pipeline`) chains the stages as the script does.
- `seqs.dfy` (module `Seqs`) holds the boolean-mask helpers
  (`IndicesWhere`, `Pick`, `Filter`). `wrappers.dfy` holds `Option` and
  `Result`.

Modelling choices:

- Hudson's estimator comes from a genomics library. It enters as the
  function parameter `hudson(pop1, pop2, i)`, which returns the
  (numerator, denominator) pair of row `i`.
- The binomial test enters as the function parameter `binom(n_high, n_total)`.
- A NaN statistic is `None`.
- The statistic and the percentiles are exact `real`s.
- numpy's default argsort is not stable, so any ascending order of the
  indices is admitted (`Rank.IsArgsort`). The ranks are its inverse
  permutation. `Rank.StableArgsort` is one such order and shows that one
  always exists, with equal values kept in index order.
- The failed `assert` of line 50 is the error value `LengthMismatch`.

Two details of the script:

- Window starts are `min + k * 100000`, on a grid anchored at the
  chromosome's smallest position. They are not multiples of the window
  size.
- Rank 0 is the smallest statistic, because `argsort` is ascending. The
  smallest statistic therefore gets percentile 1 and the largest gets `1/N`.

## Model

| member | source | states |
|---|---|---|
| Partition.Lookup | Scripts/Empiricalpvalue.percentile.py:26-27 | `sample_to_pop.get(s)` is undefined exactly for a sample missing from the table, and otherwise is its label |
| Partition.Population | Scripts/Empiricalpvalue.percentile.py:26-27 | the columns whose sample is labelled `name`: strictly increasing, each in range with that label, and every such column listed |
| Partition.Pop1 | Scripts/Empiricalpvalue.percentile.py:26 | `pop1` lists columns in range whose sample is labelled Negrito, and every such column |
| Partition.Pop2 | Scripts/Empiricalpvalue.percentile.py:27 | `pop2` lists columns in range whose sample is labelled Malay, and every such column |
| Partition.Missing | Scripts/Empiricalpvalue.percentile.py:33 | every sample listed is in the variant file and absent from the table, and every absent sample is listed |
| Partition.PopulationsDisjoint | Scripts/Empiricalpvalue.percentile.py:26-27 | no column is in both `pop1` and `pop2` |
| Partition.MissingAreUnmappedColumns | Scripts/Empiricalpvalue.percentile.py:26-33 | `missing` is exactly the samples at the unmapped columns, in column order, and none of those columns is in `pop1` or `pop2` |
| Clean.FstValue | Scripts/Empiricalpvalue.percentile.py:43-44 | the statistic is undefined exactly when the denominator is not positive, and otherwise is the ratio (`value * den == num`) |
| Clean.PerSnpFst | Scripts/Empiricalpvalue.percentile.py:38-45 | the loop yields one entry per genotype row, in row order, each the ratio rule applied to that row's Hudson pair |
| Clean.CleanArrays | Scripts/Empiricalpvalue.percentile.py:50-55 | fails exactly when the three lengths differ; otherwise three equal-length arrays, no longer than the input, whose `k`-th entries are the statistic, position and chromosome of the `k`-th defined index in increasing order |
| Clean.CleanKeepsAllIffDefined | Scripts/Empiricalpvalue.percentile.py:52-55 | nothing is dropped exactly when no statistic is undefined |
| Clean.CleanKeepsEveryDefined | Scripts/Empiricalpvalue.percentile.py:52-55 | every defined statistic survives with its own position and chromosome |
| Rank.PermutationOnto | Scripts/Empiricalpvalue.percentile.py:58 | a permutation, and so an admissible `np.argsort` result (`IsArgsort`), lists every index below its length |
| Rank.Ranks | Scripts/Empiricalpvalue.percentile.py:58 | the outer argsort of a permutation is a permutation and its inverse: `order[rank[i]] == i` and `rank[order[k]] == k` |
| Rank.ArgsortOfPermutationIsRanks | Scripts/Empiricalpvalue.percentile.py:58 | any sorting order of a permutation is `Ranks(order)`, so the outer argsort's tie handling cannot change the ranks |
| Rank.RanksAgreeWithValues | Scripts/Empiricalpvalue.percentile.py:58 | a strictly smaller statistic gets a strictly smaller rank, and a smaller rank never has a larger statistic |
| Rank.Percentile | Scripts/Empiricalpvalue.percentile.py:58 | `1 - rank/N` times `N` is `N - rank`, and the value lies in `[1/N, 1]` |
| Rank.PercentileAntitone | Scripts/Empiricalpvalue.percentile.py:58 | one percentile is below another exactly when its rank is above the other's |
| Rank.PercentileExtremes | Scripts/Empiricalpvalue.percentile.py:58 | the percentile is `1/N` exactly for the last rank and 1 exactly for rank 0 |
| Rank.Percentiles | Scripts/Empiricalpvalue.percentile.py:58 | one percentile per entry, each in `[1/N, 1]` |
| Rank.PercentilesMonotone | Scripts/Empiricalpvalue.percentile.py:58 | a strictly larger statistic gets a strictly smaller percentile, and a smaller percentile never has a smaller statistic |
| Rank.LastRankHoldsMaximum | Scripts/Empiricalpvalue.percentile.py:58 | the last rank holds a maximum, and a strict maximum gets the last rank |
| Rank.FirstRankHoldsMinimum | Scripts/Empiricalpvalue.percentile.py:58 | rank 0 holds a minimum, and a strict minimum gets rank 0 |
| Rank.MaximumGetsSmallestPercentile | Scripts/Empiricalpvalue.percentile.py:58 | the entry with percentile `1/N` holds a maximum, and a strict maximum gets percentile `1/N` |
| Rank.MinimumGetsPercentileOne | Scripts/Empiricalpvalue.percentile.py:58 | the entry with percentile 1 holds a minimum, and a strict minimum gets percentile 1 |
| Rank.TopOnePercent | Scripts/Empiricalpvalue.percentile.py:58-73 | the top-1% test `percentile < 0.01` holds exactly when `100 * (N - rank) < N` |
| Rank.InsertIndex | Scripts/Empiricalpvalue.percentile.py:58 | inserting an index into an ascending index list keeps it ascending, one longer, with exactly the old indices and the new one |
| Rank.InsertIndexPermutation | Scripts/Empiricalpvalue.percentile.py:58 | inserting index `m` into an ascending permutation of `0..m-1` gives an ascending permutation of `0..m` |
| Rank.InsertIndexStable | Scripts/Empiricalpvalue.percentile.py:58 | inserting an index above every listed one keeps equal values in index order |
| Rank.StableArgsort | Scripts/Empiricalpvalue.percentile.py:58 | an admissible `np.argsort` result exists for every input: a permutation that sorts the values ascending and lists equal values in index order |
| Chromosomes.StrLessIrreflexive | Scripts/Empiricalpvalue.percentile.py:64 | no label is below itself |
| Chromosomes.StrLessTransitive | Scripts/Empiricalpvalue.percentile.py:64 | the label order used by `np.unique` is transitive |
| Chromosomes.StrLessTotal | Scripts/Empiricalpvalue.percentile.py:64 | any two distinct labels are ordered one way or the other |
| Chromosomes.InsertLabel | Scripts/Empiricalpvalue.percentile.py:64 | inserting a label into a strictly ascending list keeps it strictly ascending, with exactly the old labels and the new one |
| Chromosomes.Unique | Scripts/Empiricalpvalue.percentile.py:64 | `np.unique(chroms)` is strictly ascending and holds exactly the labels that occur |
| Chromosomes.UniqueHasNoDuplicates | Scripts/Empiricalpvalue.percentile.py:64 | no label is listed twice |
| Windows.CountIn | Scripts/Empiricalpvalue.percentile.py:71-72 | the count of positions in `[lo, hi)` is at most the number of positions |
| Windows.CountInZeroIff | Scripts/Empiricalpvalue.percentile.py:71-72 | the count of positions in `[lo, hi)` is 0 exactly when no position lies in the range |
| Windows.TopIn | Scripts/Empiricalpvalue.percentile.py:71-73 | a window never has more top-1% SNPs than SNPs |
| Windows.CountSplit | Scripts/Empiricalpvalue.percentile.py:71-72 | the count over two adjacent ranges is the count over their union |
| Windows.CountAll | Scripts/Empiricalpvalue.percentile.py:71-72 | a range counts every position exactly when it contains them all |
| Windows.MinIndex | Scripts/Empiricalpvalue.percentile.py:69 | `pos_chrom.min()` is attained at a position no larger than any other |
| Windows.MaxIndex | Scripts/Empiricalpvalue.percentile.py:69 | `pos_chrom.max()` is attained at a position no smaller than any other |
| Windows.NumWindows | Scripts/Empiricalpvalue.percentile.py:69 | `range(lo, hi, 100000)` is empty when `hi <= lo`; otherwise its last start is below `hi` and the next one would be at or past `hi`, landing exactly on `hi` when `hi - lo` is a multiple of the window size |
| Windows.WindowAt | Scripts/Empiricalpvalue.percentile.py:70-78 | the record of one window: its chromosome, `end == start + 100000`, `n_snps` the positions in `[start, end)`, `n_top1pct <= n_snps`, a p-value undefined exactly for an empty window and otherwise `binom(n_top1pct, n_snps)` |
| Windows.ChromWindows | Scripts/Empiricalpvalue.percentile.py:69-78 | a chromosome gets no window exactly when all its SNPs share one position |
| Windows.ChromWindowAt | Scripts/Empiricalpvalue.percentile.py:69-70 | the `k`-th window starts `k` widths past the smallest position, strictly below the largest |
| Windows.ChromWindowShape | Scripts/Empiricalpvalue.percentile.py:69-73 | every window is 100000 wide, starts in `[min, max)` on the grid anchored at `min`, counts the positions inside it and is a valid record |
| Windows.GridPair | Scripts/Empiricalpvalue.percentile.py:69-70 | an earlier window ends no later than a later one starts, and the next one starts where it ends |
| Windows.ChromWindowsContiguous | Scripts/Empiricalpvalue.percentile.py:69-70 | the first window starts at the smallest position, the last reaches the largest, and the windows are contiguous, pairwise disjoint and all labelled with the chromosome |
| Windows.SumOnGrid | Scripts/Empiricalpvalue.percentile.py:69-72 | the `n_snps` of the first `k` grid windows add up to the positions in `[lo, lo + k * 100000)` |
| Windows.SumOfWindowPrefix | Scripts/Empiricalpvalue.percentile.py:69-72 | summed over a chromosome's first `k` windows, `n_snps` counts its SNPs below the `k`-th window's end, each once |
| Windows.GridCoversAll | Scripts/Empiricalpvalue.percentile.py:69-72 | the windows of `range(min, max, 100000)` count every position exactly when `max - min` is not a multiple of the window size |
| Windows.WindowsCoverAllIffNotAligned | Scripts/Empiricalpvalue.percentile.py:69-72 | a chromosome's windows count all its SNPs exactly when `max - min` is not a multiple of 100000; otherwise every window ends at or before the largest position, so the SNPs there fall in no window |
| Windows.AlignedWindowsEndByMax | Scripts/Empiricalpvalue.percentile.py:69-72 | when `max - min` is a multiple of 100000, every window ends at or before `max` |
| Windows.AllInRangeIffMaxBelow | Scripts/Empiricalpvalue.percentile.py:69-71 | every position lies in `[min, end)` exactly when the largest does |
| Windows.MaskedCount | Scripts/Empiricalpvalue.percentile.py:65-72 | counting the masked positions `pos_chrom` in a range counts exactly that chromosome's SNPs in the range in the full arrays |
| Windows.WindowCountsChromSnps | Scripts/Empiricalpvalue.percentile.py:65-73 | in every window of a chromosome, `n_top1pct <= n_snps` and `n_snps` is the number of that chromosome's SNPs with `start <= pos < end` |
| Windows.ScanChromosome | Scripts/Empiricalpvalue.percentile.py:69-78 | the inner loop appends exactly the records of `ChromWindows`, one per start of `range(min, max, 100000)` |
| Windows.WindowTest | Scripts/Empiricalpvalue.percentile.py:62-78 | the outer loop builds exactly `AllWindows`: each distinct chromosome's windows, chromosomes in `np.unique` order |
| Windows.WindowsOfChrom | Scripts/Empiricalpvalue.percentile.py:65-67 | a label that occurs in no SNP gets no window |
| Windows.WindowsOfChromOrdered | Scripts/Empiricalpvalue.percentile.py:65-78 | one chromosome's windows all carry its label and come in increasing, non-overlapping order |
| Windows.GroupedAppend | Scripts/Empiricalpvalue.percentile.py:64-78 | appending the windows of a label above all earlier labels keeps the table grouped and ordered |
| Windows.ResultsOrdered | Scripts/Empiricalpvalue.percentile.py:64-78 | over strictly ascending labels, the table is grouped by chromosome in ascending order, windows ascending within each, each labelled from the list |
| Windows.WindowsForValid | Scripts/Empiricalpvalue.percentile.py:70-78 | every record in the table is 100000 wide, has `n_top1pct <= n_snps` and the right p-value |
| Windows.AllWindows | Scripts/Empiricalpvalue.percentile.py:62-78 | the whole table is grouped by chromosome in ascending order with windows ascending within each, every label is one of `np.unique`'s, and every record is valid |
| Seqs.IndicesWhere | Scripts/Empiricalpvalue.percentile.py:26-27 | the indices `[i for i, s in enumerate(xs) if p(s)]`, which are also the entries a boolean mask keeps: strictly increasing indices in range whose entry satisfies the mask, and every such index |
| Seqs.Pick | Scripts/Empiricalpvalue.percentile.py:52-55 | indexing by an index array: one entry per index, the `k`-th being the entry at the `k`-th index |
| Seqs.Filter | Scripts/Empiricalpvalue.percentile.py:33 | the list comprehension keeps only entries that satisfy the condition, and keeps every one that does |
| Pipeline.Analyze | Scripts/Empiricalpvalue.percentile.py:26-78 | the script end to end fails exactly when the three variant arrays differ in length; otherwise every record is valid, the table is grouped and ordered, and every label is a chromosome of the input |

## Left out

- Reading the sample table and the variant file (lines 11-23) is file I/O
  through pandas and scikit-allel. The samples, the sample-to-population
  map, positions and chromosomes are parameters. The genotypes enter only
  through `hudson`.
- Hudson's Fst and the allele counting behind it (lines 40-43) are library
  code that cannot be seen here. They are the parameter `hudson`, which
  returns the numerator/denominator pair of each row.
- `binom_test` (line 77) is a SciPy floating-point tail probability. It is
  the parameter `binom`. The model fixes only where it is applied and to
  which counts.
- Floating point: the ratio, `1 - rank / N` and the `< 0.01` test use exact
  reals. A float rounding at the 0.01 boundary can differ. A NaN arising
  other than from a non-positive denominator (for example a NaN numerator)
  is not modelled.
- numpy's unstable argsort: the model admits every ascending order.
  `Pipeline.Analyze` uses the stable one.
- The console prints (lines 29-30, 35, 100-102) are not modelled. The
  `missing` list is modelled, but `Pipeline.Analyze` does not compute it,
  since the script only prints it.
- Writing the CSV file, creating the plot directory and drawing the plots
  (lines 81-98) are output only, and are not modelled.
- `Pipeline.Analyze`: its contract states the table's properties rather
  than equality with `AllWindows` of the cleaned columns. The equality is
  stated by `Windows.WindowTest`, and the cleaned columns by
  `Clean.CleanArrays`.
