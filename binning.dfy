/**
 * The two binning pipelines. Both keep the expressed genes that the gene map
 * places on chromosomes 1..23, order them along the genome, drop the excess
 * genes of every chromosome, and report the chromosome boundary table.
 *
 * - `BinGenesFromText`: UMI counts read from a text table (one row per gene).
 *   HLA genes are removed, the rest are joined to the gene map by gene name,
 *   and genes detected in no cell are removed.
 * - `BinGenesFromAnnData`: an annotated matrix (one variable per gene).
 *   Genes detected in no cell are removed, and the rest are located through a
 *   name -> record dictionary built from the gene map.
 */
module Binning {
  import opened Wrappers
  import opened Sorting
  import opened GeneMap
  import opened Exclusion
  import opened Boundaries

  /** The result of a pipeline: the kept genes in genome order and the 23-row boundary table. */
  datatype Binned = Binned(data: seq<Gene>, chromList: seq<Interval>)

  /** How the annotated-matrix pipeline fails. */
  datatype AnnDataError =
    | NothingToConcatenate     // no gene survives, so there is no index array to concatenate
    | Missing(missing: BinError)

  // ---------------------------------------------------------------------
  // Expressed cells
  // ---------------------------------------------------------------------

  /** Number of cells with a non-zero count (`np.count_nonzero` over a gene's row). */
  function DetectedCells(counts: seq<nat>): (r: nat)
    ensures r <= |counts|
    ensures r == 0 <==> forall i :: 0 <= i < |counts| ==> counts[i] == 0
  {
    if counts == [] then 0
    else
      assert forall i :: 1 <= i < |counts| ==> counts[i] == counts[1..][i - 1];
      (if counts[0] > 0 then 1 else 0) + DetectedCells(counts[1..])
  }

  lemma {:induction false} DetectedCellsAppend(a: seq<nat>, b: seq<nat>)
    ensures DetectedCells(a + b) == DetectedCells(a) + DetectedCells(b)
  {
    if a == [] {
      assert a + b == b;
    } else {
      assert (a + b)[0] == a[0] && (a + b)[1..] == a[1..] + b;
      DetectedCellsAppend(a[1..], b);
    }
  }

  /**
   * The expressed-cell count as the text pipeline computes it: the merged
   * table's columns from the second up to the seventh from last. The merged
   * table holds the gene name, the cells and six gene-map columns, so this
   * range stops one column short and leaves out the last cell.
   */
  function ExpressedAsWritten(counts: seq<nat>): (r: nat)
    ensures r <= DetectedCells(counts)
  {
    if counts == [] then 0
    else
      var n := |counts| - 1;
      assert counts == counts[..n] + [counts[n]];
      DetectedCellsAppend(counts[..n], [counts[n]]);
      DetectedCells(counts[..n])
  }

  /** The count as written misses exactly the last cell. */
  lemma ExpressedAsWrittenMissesLastCell(counts: seq<nat>)
    requires counts != []
    ensures ExpressedAsWritten(counts) + (if counts[|counts| - 1] > 0 then 1 else 0) == DetectedCells(counts)
  {
    var n := |counts| - 1;
    assert counts == counts[..n] + [counts[n]];
    DetectedCellsAppend(counts[..n], [counts[n]]);
    assert [counts[n]][1..] == [];
  }

  /** A gene detected only in the last cell is counted as expressed nowhere, and would be dropped. */
  lemma ExpressedAsWrittenDropsExpressedGene()
    ensures exists counts :: DetectedCells(counts) > 0 && ExpressedAsWritten(counts) == 0
  {
    var counts: seq<nat> := [0, 3];
    ExpressedAsWrittenMissesLastCell(counts);
    assert [0, 3][..1] == [0];
    assert DetectedCells(counts) > 0;
  }

  // ---------------------------------------------------------------------
  // Text-table pipeline
  // ---------------------------------------------------------------------

  /** A row of the UMI text table: the gene name and its counts in every cell. */
  datatype UmiRow = UmiRow(name: string, counts: seq<nat>)

  /** Whether "HLA" occurs in `name` at position `i`. */
  predicate HLAAt(name: string, i: nat) {
    i + 3 <= |name| && name[i..i + 3] == "HLA"
  }

  /** Whether `name` contains "HLA" anywhere. */
  predicate ContainsHLA(name: string) {
    exists i: nat :: i <= |name| && HLAAt(name, i)
  }

  predicate NotHLA(u: UmiRow) {
    !ContainsHLA(u.name)
  }

  /** The UMI rows whose gene name does not contain "HLA". */
  function DropHLA(umis: seq<UmiRow>): (r: seq<UmiRow>)
    ensures forall u :: u in r <==> u in umis && !ContainsHLA(u.name)
  {
    Filter(umis, NotHLA)
  }

  /** A joined row: the UMI row's name and counts with the gene-map record's coordinates. */
  function Combine(u: UmiRow, g: GeneRecord): Gene {
    Gene(u.name, u.counts, g.chr, g.start, g.abspos, DetectedCells(u.counts))
  }

  function CombineWith(u: UmiRow): GeneRecord -> Gene {
    g => Combine(u, g)
  }

  function NameIs(name: string): GeneRecord -> bool {
    (g: GeneRecord) => g.name == name
  }

  /** The joined rows of one UMI row: one per gene-map record of the same name, in gene-map order. */
  function Matches(u: UmiRow, gmap: seq<GeneRecord>): seq<Gene> {
    Apply(Filter(gmap, NameIs(u.name)), CombineWith(u))
  }

  /** Inner join of the UMI rows with the gene map on the gene name, in the order of the UMI rows. */
  function Join(umis: seq<UmiRow>, gmap: seq<GeneRecord>): seq<Gene> {
    if umis == [] then [] else Matches(umis[0], gmap) + Join(umis[1..], gmap)
  }

  lemma MatchesMembers(u: UmiRow, gmap: seq<GeneRecord>)
    ensures forall x :: x in Matches(u, gmap) <==> exists g :: g in gmap && g.name == u.name && x == Combine(u, g)
  {
    var f := Filter(gmap, NameIs(u.name));
    forall x ensures x in Matches(u, gmap) <==> exists g :: g in gmap && g.name == u.name && x == Combine(u, g) {
      if x in Matches(u, gmap) {
        var i :| 0 <= i < |f| && Matches(u, gmap)[i] == x;
        assert f[i] in f;
      }
      if g :| g in gmap && g.name == u.name && x == Combine(u, g) {
        assert g in f;
        var i :| 0 <= i < |f| && f[i] == g;
        assert Matches(u, gmap)[i] == x;
      }
    }
  }

  /** A joined row comes from a UMI row and a gene-map record with the same name, and every such pair gives one. */
  lemma {:induction false} JoinMembers(umis: seq<UmiRow>, gmap: seq<GeneRecord>)
    ensures forall x :: x in Join(umis, gmap) <==>
      exists u, g :: u in umis && g in gmap && u.name == g.name && x == Combine(u, g)
  {
    if umis != [] {
      JoinMembers(umis[1..], gmap);
      MatchesMembers(umis[0], gmap);
      assert umis == [umis[0]] + umis[1..];
    }
  }

  /** The join depends on the gene map's rows, not on their order. */
  lemma {:induction false} JoinPermutation(umis: seq<UmiRow>, g1: seq<GeneRecord>, g2: seq<GeneRecord>)
    requires multiset(g1) == multiset(g2)
    ensures multiset(Join(umis, g1)) == multiset(Join(umis, g2))
  {
    if umis != [] {
      var u := umis[0];
      FilterPermutation(g1, g2, NameIs(u.name));
      ApplyPermutation(Filter(g1, NameIs(u.name)), Filter(g2, NameIs(u.name)), CombineWith(u));
      JoinPermutation(umis[1..], g1, g2);
    }
  }

  predicate IsExpressed(g: Gene) {
    g.detected > 0
  }

  /** The joined rows detected in at least one cell. */
  function ExpressedOnly(s: seq<Gene>): (r: seq<Gene>)
    ensures forall x :: x in r <==> x in s && x.detected > 0
  {
    Filter(s, IsExpressed)
  }

  /** The genes the text pipeline bins: expressed, non-HLA UMI rows joined to the gene map. */
  function TextCandidates(umis: seq<UmiRow>, gmap: seq<GeneRecord>): seq<Gene> {
    ExpressedOnly(Join(DropHLA(umis), gmap))
  }

  /** A candidate is exactly the join of a non-HLA UMI row detected somewhere with a record of its name. */
  lemma TextCandidateMembers(umis: seq<UmiRow>, gmap: seq<GeneRecord>)
    ensures forall x :: x in TextCandidates(umis, gmap) <==>
      exists u, g :: u in umis && !ContainsHLA(u.name) && DetectedCells(u.counts) > 0
        && g in gmap && u.name == g.name && x == Combine(u, g)
  {
    JoinMembers(DropHLA(umis), gmap);
  }

  /**
   * What both pipelines promise about the genes they keep, given the genes
   * `cands` they started from: a sub-multiset; on every chromosome the count
   * rounded down to a multiple of the bin size; and every gene dropped from
   * a chromosome comes no later, in the `key` order, than any gene kept on it.
   */
  ghost predicate ExcessExcluded(cands: seq<Gene>, data: seq<Gene>, binSize: nat, key: Gene -> Key)
    requires binSize > 0
  {
    && multiset(data) <= multiset(cands)
    && (forall c :: CountOn(data, c) == CountOn(cands, c) - CountOn(cands, c) % binSize)
    && (forall x, y :: x in multiset(cands) - multiset(data) && y in data && x.chr == y.chr ==> KeyLeq(key(x), key(y)))
  }

  /** The exclusion's guarantees carry over from its input to any permutation of that input. */
  lemma ExclusionCarriesOver(genes: seq<Gene>, cands: seq<Gene>, kept: seq<Gene>, dropped: seq<Gene>, binSize: nat, key: Gene -> Key)
    requires binSize > 0
    requires multiset(genes) == multiset(cands)
    requires multiset(kept) + multiset(dropped) == multiset(genes)
    requires forall c :: CountOn(kept, c) == CountOn(genes, c) - CountOn(genes, c) % binSize
    requires forall x, y :: x in dropped && y in kept && x.chr == y.chr ==> KeyLeq(key(x), key(y))
    ensures ExcessExcluded(cands, kept, binSize, key)
  {
    forall c ensures CountOn(genes, c) == CountOn(cands, c) {
      CountOnPermutation(genes, cands, c);
    }
    assert multiset(cands) - multiset(kept) == multiset(dropped);
    forall x | x in multiset(dropped) ensures x in dropped {
    }
  }

  /** The boundary table of the kept genes is the table of the candidates they came from. */
  lemma TableCarriesOver(cands: seq<Gene>, kept: seq<Gene>, binSize: nat)
    requires binSize > 0
    requires forall c :: CountOn(kept, c) == CountOn(cands, c) - CountOn(cands, c) % binSize
    ensures forall i :: 0 <= i < 23 ==> Table(kept, binSize, i) == Table(cands, binSize, i)
    ensures forall c :: CountOn(kept, c) == 0 <==> CountOn(cands, c) < binSize
  {
    forall i | 0 <= i < 23 ensures Table(kept, binSize, i) == Table(cands, binSize, i) {
      ExclusionKeepsBinCounts(cands, kept, binSize, i);
      ExclusionKeepsBinCounts(cands, kept, binSize, i + 1);
    }
    forall c ensures CountOn(kept, c) == 0 <==> CountOn(cands, c) < binSize {
      EmptiedIffShort(cands, kept, binSize, c);
    }
  }

  /** Genes drawn from genes on chromosomes 1..23 lie on 1..23 too. */
  lemma DrawnInRange(cands: seq<Gene>, data: seq<Gene>)
    requires forall g :: g in cands ==> 1 <= g.chr <= 23
    requires multiset(data) <= multiset(cands)
    ensures forall g :: g in data ==> 1 <= g.chr <= 23
  {
    forall g | g in data ensures 1 <= g.chr <= 23 {
      assert g in multiset(data);
    }
  }

  /**
   * The last boundary of the candidates' table, times the bin size, is the
   * number of genes the exclusion keeps.
   */
  lemma LastBoundCoversKept(cands: seq<Gene>, kept: seq<Gene>, binSize: nat)
    requires binSize > 0
    requires forall g :: g in cands ==> 1 <= g.chr <= 23
    requires multiset(kept) <= multiset(cands)
    requires forall c :: CountOn(kept, c) == CountOn(cands, c) - CountOn(cands, c) % binSize
    ensures Table(cands, binSize, 22).end * binSize == |kept|
  {
    DrawnInRange(cands, kept);
    KeptDivisible(cands, kept, binSize);
    TableCoversAllGenes(kept, binSize);
    ExclusionKeepsBinCounts(cands, kept, binSize, 23);
  }

  /** Every text candidate lies on a chromosome 1..23. */
  lemma TextCandidatesInRange(umis: seq<UmiRow>, query: seq<BiomartRow>)
    ensures forall x :: x in TextCandidates(umis, Annotate(query, ChrBasePairs)) ==> 1 <= x.chr <= 23
  {
    var gmap := Annotate(query, ChrBasePairs);
    TextCandidateMembers(umis, gmap);
    AnnotateMembers(query, ChrBasePairs);
    forall x | x in TextCandidates(umis, gmap) ensures 1 <= x.chr <= 23 {
      var u, g :| u in umis && !ContainsHLA(u.name) && DetectedCells(u.counts) > 0
        && g in gmap && u.name == g.name && x == Combine(u, g);
    }
  }

  /** Genes on chromosomes 1..23, each starting inside its chromosome and carrying its absolute position. */
  ghost predicate GenesPlaced(s: seq<Gene>) {
    forall g :: g in s ==>
      && 1 <= g.chr <= 23
      && g.start < ChrBasePairs[g.chr - 1]
      && g.abspos == g.start + Offset(ChrBasePairs, g.chr)
  }

  lemma PlacedDrawn(cands: seq<Gene>, data: seq<Gene>)
    requires GenesPlaced(cands) && multiset(data) <= multiset(cands)
    ensures GenesPlaced(data)
  {
    forall g | g in data ensures g in cands {
      assert g in multiset(data);
    }
  }

  /** Placed genes in genome order are in chromosome order. */
  lemma PlacedOrdered(s: seq<Gene>)
    requires GenesPlaced(s) && SortedBy(s, PositionKey)
    ensures ChromosomeOrdered(s)
  {
    forall i, j | 0 <= i < j < |s| ensures s[i].chr <= s[j].chr {
      var a, b := s[i], s[j];
      assert a in s && b in s;
      assert KeyLeq(PositionKey(a), PositionKey(b));
      if a.chr > b.chr {
        AbsposOrdered(ChrBasePairs, b.chr, b.start, a.chr, a.start);
      }
    }
  }

  /**
   * The candidates' table locates every chromosome's genes among the genes
   * the exclusion keeps, once those are in genome order.
   */
  lemma KeptLocated(cands: seq<Gene>, kept: seq<Gene>, binSize: nat, table: seq<Interval>)
    requires binSize > 0 && GenesPlaced(cands)
    requires multiset(kept) <= multiset(cands)
    requires forall c :: CountOn(kept, c) == CountOn(cands, c) - CountOn(cands, c) % binSize
    requires SortedBy(kept, PositionKey)
    requires |table| == 23 && forall k :: 0 <= k < 23 ==> table[k] == Table(cands, binSize, k)
    ensures TableLocates(kept, table, binSize)
  {
    PlacedDrawn(cands, kept);
    PlacedOrdered(kept);
    KeptDivisible(cands, kept, binSize);
    TableCarriesOver(cands, kept, binSize);
    forall i, k | 0 <= i < |kept| && 0 <= k < 23
      ensures kept[i].chr == k + 1 <==> table[k].start * binSize <= i < table[k].end * binSize
    {
      ChromosomeBlock(kept, binSize, k, i);
    }
  }

  /** Text candidates are placed when the annotation records start inside their chromosomes. */
  lemma TextCandidatesPlaced(umis: seq<UmiRow>, query: seq<BiomartRow>)
    requires StartsInside(Annotate(query, ChrBasePairs), ChrBasePairs)
    ensures GenesPlaced(TextCandidates(umis, Annotate(query, ChrBasePairs)))
  {
    var gmap := Annotate(query, ChrBasePairs);
    forall x | x in TextCandidates(umis, gmap)
      ensures 1 <= x.chr <= 23 && x.start < ChrBasePairs[x.chr - 1] && x.abspos == x.start + Offset(ChrBasePairs, x.chr)
    {
      var g := TextCandidateRecord(umis, gmap, x);
      assert g.abspos == g.start + Offset(ChrBasePairs, g.chr) by {
        AnnotateMembers(query, ChrBasePairs);
      }
    }
  }

  /** A text candidate takes its coordinates from a gene-map record. */
  lemma TextCandidateRecord(umis: seq<UmiRow>, gmap: seq<GeneRecord>, x: Gene) returns (g: GeneRecord)
    requires x in TextCandidates(umis, gmap)
    ensures g in gmap && x.chr == g.chr && x.start == g.start && x.abspos == g.abspos
  {
    TextCandidateMembers(umis, gmap);
    var u, rec :| u in umis && !ContainsHLA(u.name) && DetectedCells(u.counts) > 0
      && rec in gmap && u.name == rec.name && x == Combine(u, rec);
    g := rec;
  }

  /**
   * The text-table pipeline. The boundary table is taken from the genes kept
   * after the exclusion, so it fails on the first chromosome 1..23 with fewer
   * candidate genes than the bin size.
   */
  method BinGenesFromText(umis: seq<UmiRow>, query: seq<BiomartRow>, binSize: nat) returns (r: Result<Binned, BinError>)
    requires binSize > 0
    ensures var cands := TextCandidates(umis, Annotate(query, ChrBasePairs));
      && (r.Failure? <==> exists c :: 1 <= c <= 23 && CountOn(cands, c) < binSize)
      && (r.Failure? ==>
          && 1 <= r.error.chr <= 23 && CountOn(cands, r.error.chr) < binSize
          && forall c :: 1 <= c < r.error.chr ==> CountOn(cands, c) >= binSize)
      && (r.Success? ==>
          && ExcessExcluded(cands, r.value.data, binSize, TextKey)
          && SortedBy(r.value.data, PositionKey)
          && |r.value.chromList| == 23
          && (forall i :: 0 <= i < 23 ==> r.value.chromList[i] == Table(cands, binSize, i))
          && r.value.chromList[22].end * binSize == |r.value.data|
          && (StartsInside(Annotate(query, ChrBasePairs), ChrBasePairs) ==>
                TableLocates(r.value.data, r.value.chromList, binSize)))
  {
    var gmap := BuildGeneMap(query, ChrBasePairs);
    var named := DropHLA(umis);
    var merged := SortBy(Join(named, gmap), PositionKey);
    var expressed := ExpressedOnly(merged);
    ghost var cands := TextCandidates(umis, Annotate(query, ChrBasePairs));
    JoinPermutation(named, gmap, Annotate(query, ChrBasePairs));
    FilterPermutation(merged, Join(named, Annotate(query, ChrBasePairs)), IsExpressed);
    FilterSorted(merged, IsExpressed, PositionKey);

    var kept, dropped := ExcludeExcess(expressed, binSize, TextKey);
    ExclusionCarriesOver(expressed, cands, kept, dropped, binSize, TextKey);
    TableCarriesOver(cands, kept, binSize);
    TextCandidatesInRange(umis, query);
    DrawnInRange(cands, kept);

    var table := ChromosomeBoundaries(kept, binSize);
    if table.Failure? {
      return Failure(table.error);
    }
    LastBoundCoversKept(cands, kept, binSize);
    if StartsInside(Annotate(query, ChrBasePairs), ChrBasePairs) {
      TextCandidatesPlaced(umis, query);
      KeptLocated(cands, kept, binSize, table.value);
    }
    return Success(Binned(kept, table.value));
  }

  // ---------------------------------------------------------------------
  // Annotated-matrix pipeline
  // ---------------------------------------------------------------------

  /** A variable (gene) of the annotated matrix: its gene id and its counts in every cell. */
  datatype VarGene = VarGene(geneId: string, counts: seq<nat>)

  predicate IsDetected(v: VarGene) {
    DetectedCells(v.counts) >= 1
  }

  /** The variables detected in at least one cell (filtering genes with `min_cells=1`). */
  function FilterGenes(vars: seq<VarGene>): (r: seq<VarGene>)
    ensures forall v :: v in r <==> v in vars && DetectedCells(v.counts) >= 1
  {
    Filter(vars, IsDetected)
  }

  /**
   * The dictionary from gene name to gene-map record. Building a dictionary
   * from the rows in order lets a later row overwrite an earlier one with the
   * same name, so each name maps to its last record.
   */
  function NameMap(gmap: seq<GeneRecord>): (m: map<string, GeneRecord>)
    ensures forall name :: name in m <==> exists g :: g in gmap && g.name == name
    ensures forall name :: name in m ==> m[name] in gmap && m[name].name == name
  {
    if gmap == [] then map[]
    else
      var n := |gmap| - 1;
      assert gmap == gmap[..n] + [gmap[n]];
      NameMap(gmap[..n])[gmap[n].name := gmap[n]]
  }

  /** The record the dictionary gives for a name is the last record of that name. */
  lemma {:induction false} NameMapKeepsLast(gmap: seq<GeneRecord>, name: string)
    requires name in NameMap(gmap)
    ensures exists j ::
      0 <= j < |gmap| && gmap[j] == NameMap(gmap)[name] && forall k :: j < k < |gmap| ==> gmap[k].name != name
  {
    var n := |gmap| - 1;
    var earlier := gmap[..n];
    assert NameMap(gmap) == NameMap(earlier)[gmap[n].name := gmap[n]];
    if gmap[n].name != name {
      NameMapKeepsLast(earlier, name);
      var j :| 0 <= j < n && earlier[j] == NameMap(earlier)[name]
        && forall k :: j < k < n ==> earlier[k].name != name;
      NoLaterName(gmap, earlier, j, name);
    }
  }

  lemma NoLaterName(gmap: seq<GeneRecord>, earlier: seq<GeneRecord>, j: nat, name: string)
    requires |gmap| > 0 && earlier == gmap[..|gmap| - 1]
    requires j < |earlier| && gmap[|earlier|].name != name
    requires forall k :: j < k < |earlier| ==> earlier[k].name != name
    ensures gmap[j] == earlier[j]
    ensures forall k :: j < k < |gmap| ==> gmap[k].name != name
  {
    assert gmap[j] == earlier[j];
    forall k | j < k < |gmap| ensures gmap[k].name != name {
      if k < |earlier| {
        assert gmap[k] == earlier[k];
      }
    }
  }

  /** A variable placed on the genome: chromosome and position from its gene-map record, `n_cells` from its counts. */
  function Attach(v: VarGene, rec: GeneRecord): Gene {
    Gene(v.geneId, v.counts, rec.chr, rec.start, rec.abspos, DetectedCells(v.counts))
  }

  /** The variables whose gene id the dictionary knows, placed by the record it gives. */
  function Locate(vars: seq<VarGene>, dict: map<string, GeneRecord>): (r: seq<Gene>)
    ensures forall x :: x in r ==> exists v :: v in vars && v.geneId in dict && x == Attach(v, dict[v.geneId])
    ensures forall v :: v in vars && v.geneId in dict ==> Attach(v, dict[v.geneId]) in r
  {
    if vars == [] then []
    else
      assert forall v :: v in vars <==> v == vars[0] || v in vars[1..];
      (if vars[0].geneId in dict then [Attach(vars[0], dict[vars[0].geneId])] else [])
        + Locate(vars[1..], dict)
  }

  /** The genes the annotated-matrix pipeline bins. */
  function AnnDataCandidates(vars: seq<VarGene>, gmap: seq<GeneRecord>): seq<Gene> {
    Locate(FilterGenes(vars), NameMap(gmap))
  }

  /** Every located gene lies on a chromosome 1..23 when the gene map does. */
  lemma AnnDataCandidatesInRange(vars: seq<VarGene>, gmap: seq<GeneRecord>)
    requires forall g :: g in gmap ==> 1 <= g.chr <= 23
    ensures forall x :: x in AnnDataCandidates(vars, gmap) ==> 1 <= x.chr <= 23
  {
    var dict := NameMap(gmap);
    forall x | x in AnnDataCandidates(vars, gmap) ensures 1 <= x.chr <= 23 {
      var v :| v in FilterGenes(vars) && v.geneId in dict && x == Attach(v, dict[v.geneId]);
      assert dict[v.geneId] in gmap;
    }
  }

  /** Located genes are placed when the gene map's records start inside their chromosomes at their absolute positions. */
  lemma AnnDataCandidatesPlaced(vars: seq<VarGene>, gmap: seq<GeneRecord>)
    requires StartsInside(gmap, ChrBasePairs)
    requires forall g :: g in gmap ==> g.abspos == g.start + Offset(ChrBasePairs, g.chr)
    ensures GenesPlaced(AnnDataCandidates(vars, gmap))
  {
    var dict := NameMap(gmap);
    forall x | x in AnnDataCandidates(vars, gmap)
      ensures 1 <= x.chr <= 23 && x.start < ChrBasePairs[x.chr - 1] && x.abspos == x.start + Offset(ChrBasePairs, x.chr)
    {
      var v :| v in FilterGenes(vars) && v.geneId in dict && x == Attach(v, dict[v.geneId]);
      assert dict[v.geneId] in gmap;
    }
  }

  /**
   * What the annotated-matrix pipeline gives for the gene map `gmap`. It
   * fails when no gene is located, since there is then nothing to
   * concatenate. The boundary table is taken from the genes before the
   * exclusion, so it fails only on a chromosome 1..23 with no located gene
   * at all, naming the first one. Otherwise the kept genes satisfy the
   * exclusion guarantees in (n_cells, abspos) order, lie in genome order,
   * and the table is the located genes' table, whose last end times the bin
   * size is the number of genes kept.
   */
  ghost predicate AnnDataBinned(vars: seq<VarGene>, gmap: seq<GeneRecord>, binSize: nat, r: Result<Binned, AnnDataError>)
    requires binSize > 0
  {
    var cands := AnnDataCandidates(vars, gmap);
    && (r.Failure? && r.error.NothingToConcatenate? <==> cands == [])
    && (r.Failure? && r.error.Missing? <==> cands != [] && exists c :: 1 <= c <= 23 && CountOn(cands, c) == 0)
    && (r.Failure? && r.error.Missing? ==>
        && 1 <= r.error.missing.chr <= 23 && CountOn(cands, r.error.missing.chr) == 0
        && forall c :: 1 <= c < r.error.missing.chr ==> CountOn(cands, c) > 0)
    && (r.Success? ==>
        && ExcessExcluded(cands, r.value.data, binSize, AnnDataKey)
        && SortedBy(r.value.data, PositionKey)
        && |r.value.chromList| == 23
        && (forall i :: 0 <= i < 23 ==> r.value.chromList[i] == Table(cands, binSize, i))
        && r.value.chromList[22].end * binSize == |r.value.data|
        && (StartsInside(gmap, ChrBasePairs) && (forall g :: g in gmap ==> g.abspos == g.start + Offset(ChrBasePairs, g.chr)) ==>
              TableLocates(r.value.data, r.value.chromList, binSize)))
  }

  /** The annotated-matrix pipeline once the gene map is built. */
  method BinAnnotated(vars: seq<VarGene>, gmap: seq<GeneRecord>, binSize: nat) returns (r: Result<Binned, AnnDataError>)
    requires binSize > 0
    requires forall g :: g in gmap ==> 1 <= g.chr <= 23
    ensures AnnDataBinned(vars, gmap, binSize, r)
  {
    var cands := AnnDataCandidates(vars, gmap);
    var clean := SortBy(cands, PositionKey);
    if clean == [] {
      assert |cands| == |clean|;
      return Failure(NothingToConcatenate);
    }
    var kept, dropped := ExcludeExcess(clean, binSize, AnnDataKey);
    ExclusionCarriesOver(clean, cands, kept, dropped, binSize, AnnDataKey);
    AnnDataCandidatesInRange(vars, gmap);
    DrawnInRange(cands, clean);

    var table := ChromosomeBoundaries(clean, binSize);
    forall c ensures CountOn(clean, c) == CountOn(cands, c) {
      CountOnPermutation(clean, cands, c);
    }
    if table.Failure? {
      return Failure(Missing(table.error));
    }
    SameCountsSameTable(clean, cands, binSize);
    LastBoundCoversKept(cands, kept, binSize);
    if StartsInside(gmap, ChrBasePairs) && forall g :: g in gmap ==> g.abspos == g.start + Offset(ChrBasePairs, g.chr) {
      AnnDataCandidatesPlaced(vars, gmap);
      KeptLocated(cands, kept, binSize, table.value);
    }
    return Success(Binned(kept, table.value));
  }

  /**
   * The annotated-matrix pipeline: builds the gene map from the query and
   * bins the variables against it. The result is what `BinAnnotated` gives
   * for a gene map that holds the reference records in (chromosome, start)
   * order; in terms of the reference records themselves, it fails for want
   * of genes exactly when no detected variable has a record of its name,
   * and every gene it keeps is such a variable placed by such a record.
   */
  method BinGenesFromAnnData(vars: seq<VarGene>, query: seq<BiomartRow>, binSize: nat) returns (r: Result<Binned, AnnDataError>)
    requires binSize > 0
    ensures exists gmap ::
      && multiset(gmap) == multiset(Annotate(query, ChrBasePairs))
      && SortedBy(gmap, ChrStartKey)
      && AnnDataBinned(vars, gmap, binSize, r)
    ensures r.Failure? && r.error.NothingToConcatenate? <==>
      forall v, g :: v in vars && DetectedCells(v.counts) >= 1 && g in Annotate(query, ChrBasePairs) ==> g.name != v.geneId
    ensures r.Success? ==>
      && (forall x :: x in r.value.data ==>
            exists v, g :: v in vars && DetectedCells(v.counts) >= 1 && g in Annotate(query, ChrBasePairs)
              && g.name == v.geneId && x == Attach(v, g))
      && (forall c :: CountOn(r.value.data, c) % binSize == 0)
      && SortedBy(r.value.data, PositionKey)
      && |r.value.chromList| == 23
      && (StartsInside(Annotate(query, ChrBasePairs), ChrBasePairs) ==>
            TableLocates(r.value.data, r.value.chromList, binSize))
  {
    var gmap := BuildGeneMap(query, ChrBasePairs);
    SameMembers(gmap, Annotate(query, ChrBasePairs));
    r := BinAnnotated(vars, gmap, binSize);
    assert multiset(gmap) == multiset(Annotate(query, ChrBasePairs)) && SortedBy(gmap, ChrStartKey)
      && AnnDataBinned(vars, gmap, binSize, r);
    NothingLocated(vars, gmap, Annotate(query, ChrBasePairs));
    if r.Success? {
      LocatedFromRecords(vars, gmap, Annotate(query, ChrBasePairs), r.value.data);
      KeptDivisible(AnnDataCandidates(vars, gmap), r.value.data, binSize);
      if StartsInside(Annotate(query, ChrBasePairs), ChrBasePairs) {
        assert StartsInside(gmap, ChrBasePairs);
      }
    }
  }

  lemma KeptDivisible(cands: seq<Gene>, data: seq<Gene>, binSize: nat)
    requires binSize > 0
    requires forall c :: CountOn(data, c) == CountOn(cands, c) - CountOn(cands, c) % binSize
    ensures forall c :: CountOn(data, c) % binSize == 0
  {
    forall c ensures CountOn(data, c) % binSize == 0 {
      DropRemainder(CountOn(cands, c), binSize);
    }
  }

  /** Every gene drawn from the candidates is a detected variable placed by a record of its name. */
  lemma LocatedFromRecords(vars: seq<VarGene>, gmap: seq<GeneRecord>, records: seq<GeneRecord>, data: seq<Gene>)
    requires forall g :: g in gmap <==> g in records
    requires multiset(data) <= multiset(AnnDataCandidates(vars, gmap))
    ensures forall x :: x in data ==>
      exists v, g :: v in vars && DetectedCells(v.counts) >= 1 && g in records && g.name == v.geneId && x == Attach(v, g)
  {
    forall x | x in data
      ensures exists v, g ::
        v in vars && DetectedCells(v.counts) >= 1 && g in records && g.name == v.geneId && x == Attach(v, g)
    {
      assert x in multiset(data);
      assert x in Locate(FilterGenes(vars), NameMap(gmap));
      var v :| v in FilterGenes(vars) && v.geneId in NameMap(gmap) && x == Attach(v, NameMap(gmap)[v.geneId]);
      assert NameMap(gmap)[v.geneId] in records;
    }
  }

  /** No candidate is left exactly when no detected variable has a record of its name. */
  lemma NothingLocated(vars: seq<VarGene>, gmap: seq<GeneRecord>, records: seq<GeneRecord>)
    requires forall g :: g in gmap <==> g in records
    ensures AnnDataCandidates(vars, gmap) == [] <==>
      forall v, g :: v in vars && DetectedCells(v.counts) >= 1 && g in records ==> g.name != v.geneId
  {
    var cands := AnnDataCandidates(vars, gmap);
    if cands == [] {
      forall v, g | v in vars && DetectedCells(v.counts) >= 1 && g in records
        ensures g.name != v.geneId
      {
        assert v in FilterGenes(vars);
      }
    } else {
      var x := cands[0];
      assert x in Locate(FilterGenes(vars), NameMap(gmap));
      var v :| v in FilterGenes(vars) && v.geneId in NameMap(gmap) && x == Attach(v, NameMap(gmap)[v.geneId]);
      assert NameMap(gmap)[v.geneId] in records;
    }
  }
}
