/** The per-chromosome 100 kb window scan and enrichment test
    (Scripts/Empiricalpvalue.percentile.py, lines 61-78). The binomial test is
    computed by a statistics library and enters the model as the function
    `binom`, applied to (top-1% count, SNP count). */
module Windows {
  import opened Wrappers
  import opened Seqs
  import opened Chromosomes

  /** `window_size`. */
  const WindowSize: int := 100_000

  /** One row of the results table: `(chrom, start, end, n_snps, n_top1pct,
      binomial_pval)`, the p-value `None` where the script stores NaN. */
  datatype Window = Window(chrom: string, start: int, end: int, nSnps: nat, nTop: nat, pval: Option<real>)

  /** What every record of the table satisfies: the window is `WindowSize`
      wide, its top-1% count is at most its SNP count, and its p-value is
      undefined exactly for an empty window and otherwise is the binomial
      test of its two counts. */
  predicate ValidRecord(w: Window, binom: (nat, nat) -> real) {
    && w.end == w.start + WindowSize
    && w.nTop <= w.nSnps
    && (w.pval.None? <==> w.nSnps == 0)
    && (w.pval.Some? ==> w.pval.value == binom(w.nTop, w.nSnps))
  }

  predicate AllValid(ws: seq<Window>, binom: (nat, nat) -> real) {
    forall k :: 0 <= k < |ws| ==> ValidRecord(ws[k], binom)
  }

  /** `perc < 0.01`: the SNP is in the top 1% of the statistic. */
  predicate IsTop(p: real) { p < 0.01 }

  // ---------------------------------------------------------------- counting

  /** `np.sum((ps >= lo) & (ps < hi))`. */
  function CountIn(ps: seq<int>, lo: int, hi: int): (n: nat)
    ensures n <= |ps|
    decreases |ps|
  {
    if ps == [] then 0
    else
      var m := |ps| - 1;
      CountIn(ps[..m], lo, hi) + (if lo <= ps[m] < hi then 1 else 0)
  }

  /** A range counts nothing exactly when no position lies in it. */
  lemma {:induction false} CountInZeroIff(ps: seq<int>, lo: int, hi: int)
    ensures CountIn(ps, lo, hi) == 0 <==> forall i :: 0 <= i < |ps| ==> !(lo <= ps[i] < hi)
  {
    if ps != [] {
      var m := |ps| - 1;
      CountInZeroIff(ps[..m], lo, hi);
      assert forall i :: 0 <= i < m ==> ps[..m][i] == ps[i];
    }
  }

  /** `np.sum(perc[(ps >= lo) & (ps < hi)] < 0.01)`: never more than the SNPs
      in the window. */
  function TopIn(ps: seq<int>, perc: seq<real>, lo: int, hi: int): (n: nat)
    requires |ps| == |perc|
    ensures n <= CountIn(ps, lo, hi)
    decreases |ps|
  {
    if ps == [] then 0
    else
      var m := |ps| - 1;
      TopIn(ps[..m], perc[..m], lo, hi) + (if lo <= ps[m] < hi && IsTop(perc[m]) then 1 else 0)
  }

  /** Counting over two adjacent ranges is counting over their union. */
  lemma {:induction false} CountSplit(ps: seq<int>, a: int, b: int, c: int)
    requires a <= b <= c
    ensures CountIn(ps, a, c) == CountIn(ps, a, b) + CountIn(ps, b, c)
    decreases |ps|
  {
    if ps != [] { CountSplit(ps[..|ps| - 1], a, b, c); }
  }

  /** A range holding every position counts them all; a range missing one
      counts fewer. */
  lemma {:induction false} CountAll(ps: seq<int>, lo: int, hi: int)
    ensures CountIn(ps, lo, hi) == |ps| <==> forall k :: 0 <= k < |ps| ==> lo <= ps[k] < hi
    decreases |ps|
  {
    if ps != [] {
      var m := |ps| - 1;
      CountAll(ps[..m], lo, hi);
      assert forall k :: 0 <= k < m ==> ps[..m][k] == ps[k];
    }
  }

  /** Where `np.min` finds its value. */
  function MinIndex(ps: seq<int>): (i: nat)
    requires |ps| > 0
    ensures i < |ps| && forall k :: 0 <= k < |ps| ==> ps[i] <= ps[k]
  {
    if |ps| == 1 then 0
    else
      var j := 1 + MinIndex(ps[1..]);
      assert forall k :: 1 <= k < |ps| ==> ps[k] == ps[1..][k - 1];
      if ps[0] <= ps[j] then 0 else j
  }

  /** Where `np.max` finds its value. */
  function MaxIndex(ps: seq<int>): (i: nat)
    requires |ps| > 0
    ensures i < |ps| && forall k :: 0 <= k < |ps| ==> ps[k] <= ps[i]
  {
    if |ps| == 1 then 0
    else
      var j := 1 + MaxIndex(ps[1..]);
      assert forall k :: 1 <= k < |ps| ==> ps[k] == ps[1..][k - 1];
      if ps[0] >= ps[j] then 0 else j
  }

  function Min(ps: seq<int>): (m: int)
    requires |ps| > 0
  {
    ps[MinIndex(ps)]
  }

  function Max(ps: seq<int>): (m: int)
    requires |ps| > 0
  {
    ps[MaxIndex(ps)]
  }

  // ---------------------------------------------------------------- windows of one chromosome

  /** `len(range(lo, hi, WindowSize))`: the windows needed for their starts to
      reach `hi`, none when `hi <= lo`. */
  function NumWindows(lo: int, hi: int): (k: nat)
    ensures hi <= lo ==> k == 0
    ensures hi > lo ==> k > 0 && lo + (k - 1) * WindowSize < hi <= lo + k * WindowSize
    ensures hi > lo ==> (lo + k * WindowSize == hi <==> (hi - lo) % WindowSize == 0)
    decreases hi - lo
  {
    if hi <= lo then 0
    else
      var k := 1 + NumWindows(lo + WindowSize, hi);
      assert (hi - lo) % WindowSize == (hi - (lo + WindowSize)) % WindowSize;
      k
  }

  /** The record for the window `[start, start + WindowSize)`. */
  function WindowAt(c: string, ps: seq<int>, perc: seq<real>, start: int, binom: (nat, nat) -> real): (w: Window)
    requires |ps| == |perc|
    ensures w.chrom == c && w.start == start && w.end == start + WindowSize
    ensures w.nSnps == CountIn(ps, w.start, w.end) && w.nTop <= w.nSnps
    ensures w.pval.None? <==> w.nSnps == 0
    ensures w.pval.Some? ==> w.pval.value == binom(w.nTop, w.nSnps)
  {
    var end := start + WindowSize;
    var nTotal := CountIn(ps, start, end);
    var nHigh := TopIn(ps, perc, start, end);
    Window(c, start, end, nTotal, nHigh, if nTotal == 0 then None else Some(binom(nHigh, nTotal)))
  }

  /** `n` consecutive windows starting at `lo`. */
  function Grid(c: string, ps: seq<int>, perc: seq<real>, lo: int, n: nat, binom: (nat, nat) -> real): (ws: seq<Window>)
    requires |ps| == |perc|
    ensures |ws| == n
  {
    seq(n, k => WindowAt(c, ps, perc, lo + k * WindowSize, binom))
  }

  /** The windows of one chromosome, from the positions `ps` and percentiles
      `perc` of its SNPs: `range(min, max, WindowSize)` for the starts. */
  function ChromWindows(c: string, ps: seq<int>, perc: seq<real>, binom: (nat, nat) -> real): (ws: seq<Window>)
    requires |ps| == |perc| > 0
    ensures |ws| == 0 <==> Min(ps) == Max(ps)
  {
    Grid(c, ps, perc, Min(ps), NumWindows(Min(ps), Max(ps)), binom)
  }

  /** The `k`-th window starts `k` widths past the smallest position. */
  lemma ChromWindowAt(c: string, ps: seq<int>, perc: seq<real>, binom: (nat, nat) -> real, k: nat)
    requires |ps| == |perc| > 0
    requires k < |ChromWindows(c, ps, perc, binom)|
    ensures ChromWindows(c, ps, perc, binom)[k] == WindowAt(c, ps, perc, Min(ps) + k * WindowSize, binom)
    ensures Min(ps) + k * WindowSize < Max(ps)
  {
  }

  lemma MultipleMod(k: nat)
    ensures (k * WindowSize) % WindowSize == 0
  {
  }

  /** Every window is `WindowSize` wide, starts at or after the smallest
      position on the grid anchored there, strictly before the largest
      position, and counts no more top-1% SNPs than SNPs. */
  lemma ChromWindowShape(c: string, ps: seq<int>, perc: seq<real>, binom: (nat, nat) -> real, k: nat)
    requires |ps| == |perc| > 0
    requires k < |ChromWindows(c, ps, perc, binom)|
    ensures var w := ChromWindows(c, ps, perc, binom)[k];
      && w.chrom == c && w.end == w.start + WindowSize
      && Min(ps) <= w.start < Max(ps) && (w.start - Min(ps)) % WindowSize == 0
      && w.nTop <= w.nSnps == CountIn(ps, w.start, w.end)
      && ValidRecord(w, binom)
  {
  }

  /** Starts `a < b` on the grid are at least one window apart. */
  lemma StartsOrdered(lo: int, a: nat, b: nat)
    requires a < b
    ensures lo + a * WindowSize + WindowSize <= lo + b * WindowSize
    ensures b == a + 1 ==> lo + a * WindowSize + WindowSize == lo + b * WindowSize
  {
  }

  /** On a grid, an earlier window ends no later than a later one starts,
      and the next one starts exactly where it ends. */
  lemma GridPair(ws: seq<Window>, c: string, ps: seq<int>, lo: int, a: nat, b: nat)
    requires OnGrid(ws, c, ps, lo) && a < b < |ws|
    ensures ws[a].end <= ws[b].start
    ensures b == a + 1 ==> ws[b].start == ws[a].end
  {
  }

  /** Windows follow each other without gap or overlap; the first starts at
      the smallest position and the last reaches the largest. */
  lemma ChromWindowsContiguous(c: string, ps: seq<int>, perc: seq<real>, binom: (nat, nat) -> real)
    requires |ps| == |perc| > 0
    ensures var ws := ChromWindows(c, ps, perc, binom);
      && (|ws| > 0 ==> ws[0].start == Min(ps) && Max(ps) <= ws[|ws| - 1].end)
      && (forall k :: 0 <= k < |ws| - 1 ==> ws[k + 1].start == ws[k].end)
      && (forall a, b :: 0 <= a < b < |ws| ==> ws[a].end <= ws[b].start)
      && (forall k :: 0 <= k < |ws| ==> ws[k].chrom == c)
  {
    var ws := ChromWindows(c, ps, perc, binom);
    var lo := Min(ps);
    ChromWindowsOnGrid(c, ps, perc, binom);
    forall k | 0 <= k < |ws| ensures ws[k].chrom == c {
      assert GridWindow(ws[k], c, ps, lo + k * WindowSize);
    }
    forall a, b | 0 <= a < b < |ws| ensures ws[a].end <= ws[b].start {
      GridPair(ws, c, ps, lo, a, b);
    }
    forall k | 0 <= k < |ws| - 1 ensures ws[k + 1].start == ws[k].end {
      GridPair(ws, c, ps, lo, k, k + 1);
    }
    if |ws| > 0 {
      assert GridWindow(ws[0], c, ps, lo + 0 * WindowSize);
      assert GridWindow(ws[|ws| - 1], c, ps, lo + (|ws| - 1) * WindowSize);
      StartPastMax(lo, Max(ps), |ws|);
    }
  }

  /** Total of `n_snps` over a list of windows. */
  function SumSnps(ws: seq<Window>): (n: nat) {
    if ws == [] then 0 else SumSnps(ws[..|ws| - 1]) + ws[|ws| - 1].nSnps
  }

  /** Window `w` starts at `start`, is `WindowSize` wide and counts the
      positions of `ps` inside it. */
  predicate GridWindow(w: Window, c: string, ps: seq<int>, start: int) {
    w.chrom == c && w.start == start && w.end == start + WindowSize && w.nSnps == CountIn(ps, start, w.end)
  }

  /** The `j`-th window of `ws` is the grid window `j` widths past `lo`. */
  predicate OnGrid(ws: seq<Window>, c: string, ps: seq<int>, lo: int) {
    forall j :: 0 <= j < |ws| ==> GridWindow(ws[j], c, ps, lo + j * WindowSize)
  }

  lemma GridIsOnGrid(c: string, ps: seq<int>, perc: seq<real>, lo: int, n: nat, binom: (nat, nat) -> real)
    requires |ps| == |perc|
    ensures OnGrid(Grid(c, ps, perc, lo, n, binom), c, ps, lo)
  {
    var ws := Grid(c, ps, perc, lo, n, binom);
    forall j | 0 <= j < n ensures GridWindow(ws[j], c, ps, lo + j * WindowSize) {
      var w := WindowAt(c, ps, perc, lo + j * WindowSize, binom);
      assert ws[j] == w;
    }
  }

  lemma ChromWindowsOnGrid(c: string, ps: seq<int>, perc: seq<real>, binom: (nat, nat) -> real)
    requires |ps| == |perc| > 0
    ensures OnGrid(ChromWindows(c, ps, perc, binom), c, ps, Min(ps))
  {
    GridIsOnGrid(c, ps, perc, Min(ps), NumWindows(Min(ps), Max(ps)), binom);
  }

  /** Summed over the first `k` grid windows, `n_snps` counts the positions
      in `[lo, lo + k * WindowSize)`. */
  lemma {:induction false} SumOnGrid(ws: seq<Window>, c: string, ps: seq<int>, lo: int, k: nat)
    requires OnGrid(ws, c, ps, lo) && k <= |ws|
    ensures SumSnps(ws[..k]) == CountIn(ps, lo, lo + k * WindowSize)
  {
    if k > 0 {
      SumOnGrid(ws, c, ps, lo, k - 1);
      assert ws[..k][..k - 1] == ws[..k - 1];
      assert GridWindow(ws[k - 1], c, ps, lo + (k - 1) * WindowSize);
      CountSplit(ps, lo, lo + (k - 1) * WindowSize, lo + k * WindowSize);
    } else {
      CountEmptyRange(ps, lo);
    }
  }

  /** Summed over the first `k` windows, `n_snps` counts the SNPs in
      `[min, min + k * WindowSize)`: no SNP is counted twice. */
  lemma SumOfWindowPrefix(c: string, ps: seq<int>, perc: seq<real>, binom: (nat, nat) -> real, k: nat)
    requires |ps| == |perc| > 0
    requires k <= |ChromWindows(c, ps, perc, binom)|
    ensures SumSnps(ChromWindows(c, ps, perc, binom)[..k]) == CountIn(ps, Min(ps), Min(ps) + k * WindowSize)
  {
    ChromWindowsOnGrid(c, ps, perc, binom);
    SumOnGrid(ChromWindows(c, ps, perc, binom), c, ps, Min(ps), k);
  }

  lemma {:induction false} CountEmptyRange(ps: seq<int>, lo: int)
    ensures CountIn(ps, lo, lo) == 0
    decreases |ps|
  {
    if ps != [] { CountEmptyRange(ps[..|ps| - 1], lo); }
  }

  /** The windows of a chromosome count every one of its SNPs exactly when
      `max - min` is not a multiple of the window size. Otherwise the last
      window ends at the largest position and the SNPs there are counted in
      no window; in particular a chromosome whose SNPs all share one position
      gets no window at all. */
  lemma WindowsCoverAllIffNotAligned(c: string, ps: seq<int>, perc: seq<real>, binom: (nat, nat) -> real)
    requires |ps| == |perc| > 0
    ensures SumSnps(ChromWindows(c, ps, perc, binom)) == |ps| <==> (Max(ps) - Min(ps)) % WindowSize != 0
    ensures (Max(ps) - Min(ps)) % WindowSize == 0 ==>
      var ws := ChromWindows(c, ps, perc, binom);
      forall k :: 0 <= k < |ws| ==> ws[k].end <= Max(ps)
  {
    GridOfChromCoversAll(c, ps, perc, Min(ps), Max(ps), binom);
    if (Max(ps) - Min(ps)) % WindowSize == 0 {
      AlignedWindowsEndByMax(c, ps, perc, binom);
    }
  }

  /** When `max - min` is a multiple of the window size, the last window ends
      exactly at the largest position, so no window reaches past it. */
  lemma AlignedWindowsEndByMax(c: string, ps: seq<int>, perc: seq<real>, binom: (nat, nat) -> real)
    requires |ps| == |perc| > 0
    requires (Max(ps) - Min(ps)) % WindowSize == 0
    ensures var ws := ChromWindows(c, ps, perc, binom);
      forall k :: 0 <= k < |ws| ==> ws[k].end <= Max(ps)
  {
  }

  lemma GridOfChromCoversAll(c: string, ps: seq<int>, perc: seq<real>, lo: int, hi: int, binom: (nat, nat) -> real)
    requires |ps| == |perc| > 0 && lo == Min(ps) && hi == Max(ps)
    ensures SumSnps(Grid(c, ps, perc, lo, NumWindows(lo, hi), binom)) == |ps| <==> (hi - lo) % WindowSize != 0
  {
    GridIsOnGrid(c, ps, perc, lo, NumWindows(lo, hi), binom);
    GridCoversAll(Grid(c, ps, perc, lo, NumWindows(lo, hi), binom), c, ps, lo, hi);
  }

  /** The grid of `range(lo, hi, WindowSize)` counts every position exactly
      when `hi - lo` is not a multiple of the window size. */
  lemma GridCoversAll(ws: seq<Window>, c: string, ps: seq<int>, lo: int, hi: int)
    requires |ps| > 0 && lo == Min(ps) && hi == Max(ps)
    requires OnGrid(ws, c, ps, lo) && |ws| == NumWindows(lo, hi)
    ensures SumSnps(ws) == |ps| <==> (hi - lo) % WindowSize != 0
  {
    var n := |ws|;
    var end := lo + n * WindowSize;
    SumOnGrid(ws, c, ps, lo, n);
    assert ws[..n] == ws;
    var allIn := forall k :: 0 <= k < |ps| ==> lo <= ps[k] < end;
    assert SumSnps(ws) == |ps| <==> allIn by { CountAll(ps, lo, end); }
    assert allIn <==> hi < end by { AllInRangeIffMaxBelow(ps, end); }
    GridEndPastMax(lo, hi);
  }

  /** The grid from `lo` ends past `hi` exactly when `hi - lo` is not a
      multiple of the window size. */
  lemma GridEndPastMax(lo: int, hi: int)
    requires lo <= hi
    ensures hi < lo + NumWindows(lo, hi) * WindowSize <==> (hi - lo) % WindowSize != 0
  {
  }

  /** Every position lies in `[min, end)` exactly when the largest does. */
  lemma AllInRangeIffMaxBelow(ps: seq<int>, end: int)
    requires |ps| > 0
    ensures (forall k :: 0 <= k < |ps| ==> Min(ps) <= ps[k] < end) <==> Max(ps) < end
  {
  }

  // ---------------------------------------------------------------- all chromosomes

  /** `chroms_clean == chrom` as a mask predicate. */
  function IsChrom(c: string): string -> bool {
    d => d == c
  }

  /** A chromosome that occurs has at least one SNP selected by its mask. */
  lemma ChromSelected(chroms: seq<string>, c: string)
    requires c in chroms
    ensures |IndicesWhere(chroms, IsChrom(c))| > 0
  {
    var i :| 0 <= i < |chroms| && chroms[i] == c;
    assert IsChrom(c)(chroms[i]);
  }

  /** The number of SNPs of chromosome `c` at positions in `[lo, hi)`,
      counted over the full parallel arrays. */
  function CountChrom(chroms: seq<string>, pos: seq<int>, c: string, lo: int, hi: int): (n: nat)
    requires |chroms| == |pos|
    decreases |chroms|
  {
    if chroms == [] then 0
    else
      var n := |chroms| - 1;
      CountChrom(chroms[..n], pos[..n], c, lo, hi) + (if chroms[n] == c && lo <= pos[n] < hi then 1 else 0)
  }

  lemma CountInSnoc(ps: seq<int>, x: int, lo: int, hi: int)
    ensures CountIn(ps + [x], lo, hi) == CountIn(ps, lo, hi) + (if lo <= x < hi then 1 else 0)
  {
    assert (ps + [x])[..|ps|] == ps;
  }

  /** Counting the masked positions `pos_chrom` counts exactly the SNPs of
      that chromosome in range: the mask loses and duplicates nothing. */
  lemma {:induction false} MaskedCount(chroms: seq<string>, pos: seq<int>, c: string, lo: int, hi: int)
    requires |chroms| == |pos|
    ensures CountIn(Pick(pos, IndicesWhere(chroms, IsChrom(c))), lo, hi) == CountChrom(chroms, pos, c, lo, hi)
    decreases |chroms|
  {
    if chroms != [] {
      var n := |chroms| - 1;
      var rest := IndicesWhere(chroms[..n], IsChrom(c));
      MaskedCount(chroms[..n], pos[..n], c, lo, hi);
      PickPrefix(pos, n, rest);
      if chroms[n] == c {
        assert Pick(pos, rest + [n]) == Pick(pos, rest) + [pos[n]];
        CountInSnoc(Pick(pos, rest), pos[n], lo, hi);
      }
    }
  }

  /** `n_snps` of every window of chromosome `c` is the number of that
      chromosome's SNPs with `start <= pos < end`. */
  lemma WindowCountsChromSnps(c: string, chroms: seq<string>, pos: seq<int>, perc: seq<real>, binom: (nat, nat) -> real, k: nat)
    requires |chroms| == |pos| == |perc|
    requires k < |WindowsOfChrom(c, chroms, pos, perc, binom)|
    ensures var w := WindowsOfChrom(c, chroms, pos, perc, binom)[k];
      w.nTop <= w.nSnps == CountChrom(chroms, pos, c, w.start, w.end)
  {
    var sel := IndicesWhere(chroms, IsChrom(c));
    assert |sel| > 0;
    var ps, pc := Pick(pos, sel), Pick(perc, sel);
    var ws := ChromWindows(c, ps, pc, binom);
    assert WindowsOfChrom(c, chroms, pos, perc, binom) == ws;
    ChromWindowShape(c, ps, pc, binom, k);
    MaskedCount(chroms, pos, c, ws[k].start, ws[k].end);
  }

  /** The windows of chromosome `c`, from its SNPs' masked positions and
      percentiles (none for a label without SNPs, which `np.unique` never
      yields). */
  function WindowsOfChrom(c: string, chroms: seq<string>, pos: seq<int>, perc: seq<real>, binom: (nat, nat) -> real): (ws: seq<Window>)
    requires |chroms| == |pos| == |perc|
    ensures (forall i :: 0 <= i < |chroms| ==> chroms[i] != c) ==> ws == []
  {
    var sel := IndicesWhere(chroms, IsChrom(c));
    if |sel| == 0 then [] else ChromWindows(c, Pick(pos, sel), Pick(perc, sel), binom)
  }

  /** The windows of the chromosomes `cs`, in that order, concatenated. */
  function WindowsFor(cs: seq<string>, chroms: seq<string>, pos: seq<int>, perc: seq<real>, binom: (nat, nat) -> real): (ws: seq<Window>)
    requires |chroms| == |pos| == |perc|
    decreases |cs|
  {
    if cs == [] then []
    else
      var n := |cs| - 1;
      WindowsFor(cs[..n], chroms, pos, perc, binom) + WindowsOfChrom(cs[n], chroms, pos, perc, binom)
  }

  /** `results`: the windows of every chromosome, chromosomes in `np.unique`
      order. The table is grouped by chromosome, ascending, with windows in
      increasing start order within each; it names only chromosomes of the
      input, and every record is valid. */
  function AllWindows(chroms: seq<string>, pos: seq<int>, perc: seq<real>, binom: (nat, nat) -> real): (ws: seq<Window>)
    requires |chroms| == |pos| == |perc|
    ensures GroupedInOrder(ws)
    ensures LabelledFrom(ws, Unique(chroms))
    ensures AllValid(ws, binom)
  {
    ResultsOrdered(Unique(chroms), chroms, pos, perc, binom);
    WindowsForValid(Unique(chroms), chroms, pos, perc, binom);
    WindowsFor(Unique(chroms), chroms, pos, perc, binom)
  }

  /** The scan itself: for each distinct chromosome, in `np.unique` order,
      mask out its SNPs and append the records of its windows. */
  method WindowTest(chroms: seq<string>, pos: seq<int>, perc: seq<real>, binom: (nat, nat) -> real)
    returns (results: seq<Window>)
    requires |chroms| == |pos| == |perc|
    ensures results == AllWindows(chroms, pos, perc, binom)
  {
    var us := Unique(chroms);
    results := [];
    var i := 0;
    while i < |us|
      invariant 0 <= i <= |us|
      invariant results == WindowsFor(us[..i], chroms, pos, perc, binom)
    {
      var c := us[i];
      var sel := IndicesWhere(chroms, IsChrom(c));
      ChromSelected(chroms, c);
      var chromResults := ScanChromosome(c, Pick(pos, sel), Pick(perc, sel), binom);
      results := results + chromResults;
      WindowsForStep(us, i, chroms, pos, perc, binom);
      i := i + 1;
    }
    assert us[..i] == us;
  }

  /** The inner loop for one chromosome: window starts from its smallest
      position in steps of `WindowSize` while below its largest, one record
      per window. */
  method ScanChromosome(c: string, ps: seq<int>, perc: seq<real>, binom: (nat, nat) -> real)
    returns (ws: seq<Window>)
    requires |ps| == |perc| > 0
    ensures ws == ChromWindows(c, ps, perc, binom)
  {
    var lo, hi := Min(ps), Max(ps);
    ws := [];
    var start := lo;
    while start < hi
      invariant |ws| <= NumWindows(lo, hi)
      invariant start == lo + |ws| * WindowSize
      invariant forall j :: 0 <= j < |ws| ==> ws[j] == WindowAt(c, ps, perc, lo + j * WindowSize, binom)
      decreases hi - start
    {
      StartBeforeMax(lo, hi, |ws|);
      var end := start + WindowSize;
      var nTotal := CountIn(ps, start, end);
      var nHigh := TopIn(ps, perc, start, end);
      var pval := if nTotal == 0 then None else Some(binom(nHigh, nTotal));
      ws := ws + [Window(c, start, end, nTotal, nHigh, pval)];
      start := end;
    }
    StartPastMax(lo, hi, |ws|);
    GridExt(c, ps, perc, lo, |ws|, binom, ws);
  }

  /** A start below `hi` is one of `range(lo, hi, WindowSize)`. */
  lemma StartBeforeMax(lo: int, hi: int, k: nat)
    requires lo + k * WindowSize < hi
    ensures k < NumWindows(lo, hi)
  {
  }

  /** The first start at or past `hi` ends `range(lo, hi, WindowSize)`. */
  lemma StartPastMax(lo: int, hi: int, k: nat)
    requires k <= NumWindows(lo, hi) && hi <= lo + k * WindowSize
    ensures k == NumWindows(lo, hi)
  {
  }

  /** A list holding the right record for every window start is the grid. */
  lemma GridExt(c: string, ps: seq<int>, perc: seq<real>, lo: int, n: nat, binom: (nat, nat) -> real, ws: seq<Window>)
    requires |ps| == |perc| && |ws| == n
    requires forall j :: 0 <= j < |ws| ==> ws[j] == WindowAt(c, ps, perc, lo + j * WindowSize, binom)
    ensures ws == Grid(c, ps, perc, lo, n, binom)
  {
  }

  /** One more chromosome appends its windows. */
  lemma WindowsForStep(cs: seq<string>, i: nat, chroms: seq<string>, pos: seq<int>, perc: seq<real>, binom: (nat, nat) -> real)
    requires |chroms| == |pos| == |perc|
    requires i < |cs|
    ensures WindowsFor(cs[..i + 1], chroms, pos, perc, binom)
         == WindowsFor(cs[..i], chroms, pos, perc, binom) + WindowsOfChrom(cs[i], chroms, pos, perc, binom)
  {
    assert cs[..i + 1][..i] == cs[..i];
  }

  // ---------------------------------------------------------------- properties of the results

  /** Grouped by chromosome in ascending label order; within a chromosome,
      windows disjoint and in increasing start order. */
  predicate GroupedInOrder(ws: seq<Window>) {
    forall a, b :: 0 <= a < b < |ws| ==>
      StrLess(ws[a].chrom, ws[b].chrom) || (ws[a].chrom == ws[b].chrom && ws[a].end <= ws[b].start)
  }

  /** Every window is labelled with one of `cs`. */
  predicate LabelledFrom(ws: seq<Window>, cs: seq<string>) {
    forall k :: 0 <= k < |ws| ==> ws[k].chrom in cs
  }

  /** Every window is labelled `c`. */
  predicate AllLabelled(ws: seq<Window>, c: string) {
    forall k :: 0 <= k < |ws| ==> ws[k].chrom == c
  }

  /** Appending the windows of a label greater than all earlier ones keeps
      the list grouped and ordered. */
  lemma GroupedAppend(prev: seq<Window>, cur: seq<Window>, cs: seq<string>)
    requires StrictlySorted(cs) && |cs| > 0
    requires LabelledFrom(prev, cs[..|cs| - 1]) && AllLabelled(cur, cs[|cs| - 1])
    requires GroupedInOrder(prev) && GroupedInOrder(cur)
    ensures GroupedInOrder(prev + cur) && LabelledFrom(prev + cur, cs)
  {
  }

  /** The windows of one chromosome carry its label and are disjoint and increasing. */
  lemma WindowsOfChromOrdered(c: string, chroms: seq<string>, pos: seq<int>, perc: seq<real>, binom: (nat, nat) -> real)
    requires |chroms| == |pos| == |perc|
    ensures AllLabelled(WindowsOfChrom(c, chroms, pos, perc, binom), c)
    ensures GroupedInOrder(WindowsOfChrom(c, chroms, pos, perc, binom))
  {
    var sel := IndicesWhere(chroms, IsChrom(c));
    var ws := WindowsOfChrom(c, chroms, pos, perc, binom);
    if |sel| > 0 {
      ChromWindowsContiguous(c, Pick(pos, sel), Pick(perc, sel), binom);
    }
    forall a, b | 0 <= a < b < |ws|
      ensures StrLess(ws[a].chrom, ws[b].chrom) || (ws[a].chrom == ws[b].chrom && ws[a].end <= ws[b].start)
    {
      assert ws[a].chrom == c && ws[b].chrom == c;
      assert ws[a].end <= ws[b].start;
    }
  }

  /** Concatenating the windows of chromosomes taken in ascending order keeps
      the results grouped and ordered. */
  lemma {:induction false} ResultsOrdered(cs: seq<string>, chroms: seq<string>, pos: seq<int>, perc: seq<real>, binom: (nat, nat) -> real)
    requires |chroms| == |pos| == |perc|
    requires StrictlySorted(cs)
    ensures GroupedInOrder(WindowsFor(cs, chroms, pos, perc, binom))
    ensures LabelledFrom(WindowsFor(cs, chroms, pos, perc, binom), cs)
    decreases |cs|
  {
    if cs != [] {
      var n := |cs| - 1;
      ResultsOrdered(cs[..n], chroms, pos, perc, binom);
      WindowsOfChromOrdered(cs[n], chroms, pos, perc, binom);
      GroupedAppend(WindowsFor(cs[..n], chroms, pos, perc, binom), WindowsOfChrom(cs[n], chroms, pos, perc, binom), cs);
    }
  }

  /** Every record of every chromosome is valid. */
  lemma {:induction false} WindowsForValid(cs: seq<string>, chroms: seq<string>, pos: seq<int>, perc: seq<real>, binom: (nat, nat) -> real)
    requires |chroms| == |pos| == |perc|
    ensures AllValid(WindowsFor(cs, chroms, pos, perc, binom), binom)
    decreases |cs|
  {
    if cs != [] {
      var n := |cs| - 1;
      var c := cs[n];
      WindowsForValid(cs[..n], chroms, pos, perc, binom);
      var sel := IndicesWhere(chroms, IsChrom(c));
      if |sel| > 0 {
        var ps, pc := Pick(pos, sel), Pick(perc, sel);
        forall k | 0 <= k < |ChromWindows(c, ps, pc, binom)| ensures ValidRecord(ChromWindows(c, ps, pc, binom)[k], binom) {
          ChromWindowShape(c, ps, pc, binom, k);
        }
      }
      ValidAppend(WindowsFor(cs[..n], chroms, pos, perc, binom), WindowsOfChrom(c, chroms, pos, perc, binom), binom);
    }
  }

  lemma ValidAppend(a: seq<Window>, b: seq<Window>, binom: (nat, nat) -> real)
    requires AllValid(a, binom) && AllValid(b, binom)
    ensures AllValid(a + b, binom)
  {
    forall k | 0 <= k < |a + b| ensures ValidRecord((a + b)[k], binom) {
      if k < |a| { assert (a + b)[k] == a[k]; } else { assert (a + b)[k] == b[k - |a|]; }
    }
  }
}
