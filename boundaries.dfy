/**
 * The chromosome boundary table: for chromosomes 1..23 in order, the range
 * [start, end) of bin indices the chromosome occupies, obtained by a running
 * sum of the per-chromosome bin counts `count // bin_size`.
 */
module Boundaries {
  import opened Wrappers
  import opened Exclusion

  /** The bins of one chromosome: indices start .. end-1. */
  datatype Interval = Interval(start: nat, end: nat)

  /** Looking up a chromosome that the counts do not list (pandas raises KeyError). */
  datatype BinError = MissingChromosome(chr: nat)

  /** Genes per chromosome, listing only the chromosomes that have genes (pandas' `value_counts`). */
  function ValueCounts(s: seq<Gene>): (m: map<nat, nat>)
    ensures forall c :: c in m <==> CountOn(s, c) > 0
    ensures forall c :: c in m ==> m[c] == CountOn(s, c)
  {
    if s == [] then map[]
    else
      var rest := ValueCounts(s[1..]);
      var c := s[0].chr;
      rest[c := (if c in rest then rest[c] else 0) + 1]
  }

  /** Number of bins on chromosomes 1..i together: the running sum the table is built from. */
  function BinsThrough(s: seq<Gene>, binSize: nat, i: nat): nat
    requires binSize > 0
  {
    if i == 0 then 0 else BinsThrough(s, binSize, i - 1) + CountOn(s, i) / binSize
  }

  /**
   * The running sum of `count // binSize` over chromosomes 1..23, recorded
   * for each chromosome that has genes and skipping those that have none.
   * The genes lie on chromosomes 1..23, as every gene-map record does.
   */
  method RunningBounds(genes: seq<Gene>, binSize: nat) returns (bound: map<nat, nat>)
    requires binSize > 0
    requires forall g :: g in genes ==> 1 <= g.chr <= 23
    ensures forall k :: k in bound <==> 1 <= k <= 23 && CountOn(genes, k) > 0
    ensures forall k :: k in bound ==> bound[k] == BinsThrough(genes, binSize, k)
  {
    var counts := ValueCounts(genes);
    bound := map[];
    var total := 0;
    var c := 1;
    while c <= 23
      invariant 1 <= c <= 24
      invariant total == BinsThrough(genes, binSize, c - 1)
      invariant BoundsBelow(genes, binSize, bound, c)
    {
      if c in counts {
        var width := counts[c] / binSize;
        BinsStep(genes, binSize, c, width);
        total := total + width;
        BoundsExtend(genes, binSize, bound, c, total);
        bound := bound[c := total];
      } else {
        NoBinsWithoutGenes(genes, binSize, c);
        BoundsSkip(genes, binSize, bound, c);
      }
      c := c + 1;
    }
  }

  /** The running sums recorded so far: one per chromosome below `c` that has genes. */
  ghost predicate BoundsBelow(genes: seq<Gene>, binSize: nat, bound: map<nat, nat>, c: nat)
    requires binSize > 0
  {
    && (forall k :: k in bound <==> 1 <= k < c && CountOn(genes, k) > 0)
    && (forall k :: k in bound ==> bound[k] == BinsThrough(genes, binSize, k))
  }

  lemma BoundsExtend(genes: seq<Gene>, binSize: nat, bound: map<nat, nat>, c: nat, total: nat)
    requires binSize > 0 && c >= 1 && CountOn(genes, c) > 0
    requires BoundsBelow(genes, binSize, bound, c) && total == BinsThrough(genes, binSize, c)
    ensures BoundsBelow(genes, binSize, bound[c := total], c + 1)
  {
  }

  lemma BoundsSkip(genes: seq<Gene>, binSize: nat, bound: map<nat, nat>, c: nat)
    requires binSize > 0 && CountOn(genes, c) == 0
    requires BoundsBelow(genes, binSize, bound, c)
    ensures BoundsBelow(genes, binSize, bound, c + 1)
  {
  }

  /** One step of the running sum: chromosome `c` adds `width` bins, never a negative number. */
  lemma BinsStep(genes: seq<Gene>, binSize: nat, c: nat, width: int)
    requires binSize > 0 && c > 0 && width == CountOn(genes, c) / binSize
    ensures 0 <= width
    ensures BinsThrough(genes, binSize, c) == BinsThrough(genes, binSize, c - 1) + width
  {
  }

  lemma NoBinsWithoutGenes(s: seq<Gene>, binSize: nat, c: nat)
    requires binSize > 0 && c > 0 && CountOn(s, c) == 0
    ensures BinsThrough(s, binSize, c) == BinsThrough(s, binSize, c - 1)
  {
    DivUnique(0, binSize, 0, 0);
  }

  /**
   * Builds the boundary table from the per-chromosome gene counts of `genes`.
   * It fails, naming the first such chromosome, when a chromosome 1..23 has
   * no gene; otherwise it lists 23 intervals that tile [0, total bins), each
   * as wide as its chromosome's `count // binSize`. The genes lie on
   * chromosomes 1..23, as every gene-map record does.
   */
  method ChromosomeBoundaries(genes: seq<Gene>, binSize: nat) returns (r: Result<seq<Interval>, BinError>)
    requires binSize > 0
    requires forall g :: g in genes ==> 1 <= g.chr <= 23
    ensures r.Failure? <==> exists c :: 1 <= c <= 23 && CountOn(genes, c) == 0
    ensures r.Failure? ==>
      && 1 <= r.error.chr <= 23 && CountOn(genes, r.error.chr) == 0
      && forall c :: 1 <= c < r.error.chr ==> CountOn(genes, c) > 0
    ensures r.Success? ==>
      && |r.value| == 23
      && r.value[0].start == 0
      && (forall i :: 0 <= i < 22 ==> r.value[i].end == r.value[i + 1].start)
      && (forall i :: 0 <= i < 23 ==> r.value[i].start + CountOn(genes, i + 1) / binSize == r.value[i].end)
      && r.value[22].end == BinsThrough(genes, binSize, 23)
      && forall i :: 0 <= i < 23 ==> r.value[i] == Table(genes, binSize, i)
  {
    var bound := RunningBounds(genes, binSize);
    if 1 !in bound {
      return Failure(MissingChromosome(1));
    }
    var table := [Interval(0, bound[1])];
    var i := 2;
    while i <= 23
      invariant 2 <= i <= 24
      invariant |table| == i - 1
      invariant forall k :: 1 <= k < i ==> CountOn(genes, k) > 0
      invariant forall k :: 0 <= k < |table| ==> table[k] == Table(genes, binSize, k)
    {
      if i !in bound {
        return Failure(MissingChromosome(i));
      }
      table := table + [Interval(bound[i - 1], bound[i])];
      i := i + 1;
    }
    TableShape(genes, binSize, table);
    return Success(table);
  }

  /** The k-th row of the table, for chromosome k + 1. */
  function Table(s: seq<Gene>, binSize: nat, k: nat): Interval
    requires binSize > 0
  {
    Interval(BinsThrough(s, binSize, k), BinsThrough(s, binSize, k + 1))
  }

  lemma TableShape(s: seq<Gene>, binSize: nat, table: seq<Interval>)
    requires binSize > 0
    requires |table| == 23 && forall k :: 0 <= k < 23 ==> table[k] == Table(s, binSize, k)
    ensures table[0].start == 0
    ensures forall i :: 0 <= i < 22 ==> table[i].end == table[i + 1].start
    ensures forall i :: 0 <= i < 23 ==> table[i].start + CountOn(s, i + 1) / binSize == table[i].end
    ensures table[22].end == BinsThrough(s, binSize, 23)
  {
  }

  /** Number of genes on chromosomes 1..i together. */
  function GenesThrough(s: seq<Gene>, i: nat): nat {
    if i == 0 then 0 else GenesThrough(s, i - 1) + CountOn(s, i)
  }

  lemma {:induction false} GenesThroughCons(g: Gene, s: seq<Gene>, i: nat)
    ensures GenesThrough([g] + s, i) == GenesThrough(s, i) + (if 1 <= g.chr <= i then 1 else 0)
  {
    if i > 0 {
      GenesThroughCons(g, s, i - 1);
      assert ([g] + s)[1..] == s;
    }
  }

  lemma {:induction false} NoGenesThrough(s: seq<Gene>, i: nat)
    requires s == []
    ensures GenesThrough(s, i) == 0
  {
    if i > 0 {
      NoGenesThrough(s, i - 1);
    }
  }

  /** When every gene lies on chromosomes 1..23, those chromosomes hold all of them. */
  lemma {:induction false} GenesThroughAll(s: seq<Gene>)
    requires forall g :: g in s ==> 1 <= g.chr <= 23
    ensures GenesThrough(s, 23) == |s|
  {
    if s != [] {
      var t := s[1..];
      assert s == [s[0]] + t;
      assert s[0] in s;
      assert forall g :: g in t ==> g in s;
      GenesThroughCons(s[0], t, 23);
      GenesThroughAll(t);
    } else {
      NoGenesThrough(s, 23);
    }
  }

  lemma {:induction false} BinsTimesSize(s: seq<Gene>, binSize: nat, i: nat)
    requires binSize > 0
    requires forall c :: CountOn(s, c) % binSize == 0
    ensures BinsThrough(s, binSize, i) * binSize == GenesThrough(s, i)
  {
    if i > 0 {
      BinsTimesSize(s, binSize, i - 1);
      var n := CountOn(s, i);
      var before, q := BinsThrough(s, binSize, i - 1), n / binSize;
      ExactQuotient(n, binSize);
      assert BinsThrough(s, binSize, i) == before + q;
      MulAdd(before, q, binSize);
    }
  }

  lemma ExactQuotient(n: nat, b: nat)
    requires b > 0 && n % b == 0
    ensures (n / b) * b == n
  {
  }

  lemma MulAdd(a: int, b: int, m: int)
    ensures (a + b) * m == a * m + b * m
  {
  }

  /**
   * When every chromosome's gene count is a multiple of the bin size, the last
   * boundary is the total number of genes divided by the bin size.
   */
  lemma TableCoversAllGenes(s: seq<Gene>, binSize: nat)
    requires binSize > 0
    requires forall g :: g in s ==> 1 <= g.chr <= 23
    requires forall c :: CountOn(s, c) % binSize == 0
    ensures BinsThrough(s, binSize, 23) * binSize == |s|
  {
    BinsTimesSize(s, binSize, 23);
    GenesThroughAll(s);
  }

  /**
   * Removing `count mod binSize` genes from each chromosome does not change
   * any chromosome's `count // binSize`, so the running sums before and after
   * the exclusion agree.
   */
  lemma {:induction false} ExclusionKeepsBinCounts(before: seq<Gene>, after: seq<Gene>, binSize: nat, i: nat)
    requires binSize > 0
    requires forall c :: CountOn(after, c) == CountOn(before, c) - CountOn(before, c) % binSize
    ensures BinsThrough(after, binSize, i) == BinsThrough(before, binSize, i)
  {
    if i > 0 {
      ExclusionKeepsBinCounts(before, after, binSize, i - 1);
      DropRemainder(CountOn(before, i), binSize);
    }
  }

  /**
   * After the exclusion a chromosome has no gene left exactly when it had
   * fewer genes than the bin size. One that had some genes, but fewer than
   * the bin size, is therefore listed by the counts taken before the
   * exclusion and missing from the counts taken after it.
   */
  lemma EmptiedIffShort(before: seq<Gene>, after: seq<Gene>, binSize: nat, c: nat)
    requires binSize > 0
    requires CountOn(after, c) == CountOn(before, c) - CountOn(before, c) % binSize
    ensures CountOn(after, c) == 0 <==> CountOn(before, c) < binSize
    ensures 0 < CountOn(before, c) < binSize ==> c in ValueCounts(before) && c !in ValueCounts(after)
  {
    var n := CountOn(before, c);
    if n < binSize {
      DivUnique(n, binSize, 0, n);
    }
  }

  lemma {:induction false} SameCountsSameBins(a: seq<Gene>, b: seq<Gene>, binSize: nat, i: nat)
    requires binSize > 0
    requires forall c :: CountOn(a, c) == CountOn(b, c)
    ensures BinsThrough(a, binSize, i) == BinsThrough(b, binSize, i)
  {
    if i > 0 {
      SameCountsSameBins(a, b, binSize, i - 1);
    }
  }

  /** The table depends only on the per-chromosome counts. */
  lemma SameCountsSameTable(a: seq<Gene>, b: seq<Gene>, binSize: nat)
    requires binSize > 0
    requires forall c :: CountOn(a, c) == CountOn(b, c)
    ensures forall i :: 0 <= i < 23 ==> Table(a, binSize, i) == Table(b, binSize, i)
  {
    forall i | 0 <= i < 23 ensures Table(a, binSize, i) == Table(b, binSize, i) {
      SameCountsSameBins(a, b, binSize, i);
      SameCountsSameBins(a, b, binSize, i + 1);
    }
  }

  /** The chromosome numbers never decrease along the table. */
  ghost predicate ChromosomeOrdered(s: seq<Gene>) {
    forall i, j :: 0 <= i < j < |s| ==> s[i].chr <= s[j].chr
  }

  /**
   * What the table is for: row k spans, in units of the bin size, exactly
   * the positions in `data` of the genes of chromosome k + 1.
   */
  ghost predicate TableLocates(data: seq<Gene>, table: seq<Interval>, binSize: nat)
    requires |table| == 23
  {
    forall i, k :: 0 <= i < |data| && 0 <= k < 23 ==>
      (data[i].chr == k + 1 <==> table[k].start * binSize <= i < table[k].end * binSize)
  }

  lemma {:induction false} NoneThrough(s: seq<Gene>, k: nat)
    requires forall j :: 0 <= j < |s| ==> s[j].chr > k
    ensures GenesThrough(s, k) == 0
  {
    if s == [] {
      NoGenesThrough(s, k);
    } else {
      assert s == [s[0]] + s[1..];
      GenesThroughCons(s[0], s[1..], k);
      assert forall j :: 0 <= j < |s[1..]| ==> s[1..][j] == s[j + 1];
      NoneThrough(s[1..], k);
    }
  }

  /** In a chromosome-ordered table, the genes on chromosomes 1..k are the first `GenesThrough(s, k)`. */
  lemma {:induction false} LowPrefix(s: seq<Gene>, k: nat, i: nat)
    requires ChromosomeOrdered(s) && forall g :: g in s ==> 1 <= g.chr
    requires i < |s|
    ensures s[i].chr <= k <==> i < GenesThrough(s, k)
    decreases |s|
  {
    assert s == [s[0]] + s[1..];
    GenesThroughCons(s[0], s[1..], k);
    if s[0].chr > k {
      AboveFromHead(s, k);
      NoneThrough(s[1..], k);
    } else if i > 0 {
      OrderedTail(s);
      LowPrefix(s[1..], k, i - 1);
    } else {
      assert s[0] in s;
    }
  }

  /** Once the first gene lies above chromosome k, every gene does. */
  lemma AboveFromHead(s: seq<Gene>, k: nat)
    requires ChromosomeOrdered(s) && |s| > 0 && s[0].chr > k
    ensures forall j :: 0 <= j < |s| ==> s[j].chr > k
    ensures forall j :: 0 <= j < |s[1..]| ==> s[1..][j].chr > k
  {
    forall j | 0 <= j < |s[1..]| ensures s[1..][j].chr > k {
      assert s[1..][j] == s[j + 1];
    }
  }

  /** Dropping the first gene keeps the table chromosome-ordered. */
  lemma OrderedTail(s: seq<Gene>)
    requires ChromosomeOrdered(s) && |s| > 0 && forall g :: g in s ==> 1 <= g.chr
    ensures ChromosomeOrdered(s[1..]) && forall g :: g in s[1..] ==> 1 <= g.chr
  {
    forall i, j | 0 <= i < j < |s[1..]| ensures s[1..][i].chr <= s[1..][j].chr {
      assert s[1..][i] == s[i + 1] && s[1..][j] == s[j + 1];
    }
    assert forall g :: g in s[1..] ==> g in s;
  }

  /**
   * In a chromosome-ordered table on chromosomes 1..23 whose counts are all
   * multiples of the bin size, row k of the table, scaled by the bin size,
   * is the range of positions holding chromosome k + 1.
   */
  lemma ChromosomeBlock(s: seq<Gene>, binSize: nat, k: nat, i: nat)
    requires binSize > 0 && ChromosomeOrdered(s)
    requires forall g :: g in s ==> 1 <= g.chr <= 23
    requires forall c :: CountOn(s, c) % binSize == 0
    requires k < 23 && i < |s|
    ensures s[i].chr == k + 1 <==>
      Table(s, binSize, k).start * binSize <= i < Table(s, binSize, k).end * binSize
  {
    LowPrefix(s, k + 1, i);
    LowPrefix(s, k, i);
    BinsTimesSize(s, binSize, k + 1);
    BinsTimesSize(s, binSize, k);
  }
}
