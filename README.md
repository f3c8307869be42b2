# copyVAE gene binning, modelled in Dafny

copyVAE infers copy-number profiles from single-cell expression. Before it trains its
model, `copyvae/binning.py` places every gene on the genome and groups the genes of each
chromosome into bins of `bin_size` genes. This project models that step:

- **Gene map** (`gene_map.dfy`, module `GeneMap`). The rows of the Ensembl annotation
  query are the input. Chromosome "X" is relabelled 23, and only chromosomes 1..23 are
  kept. The rows are sorted by (chromosome, start). Each record then gets
  `abspos = start + (total length of chromosomes 1 .. chr-1)`, using the 23-entry
  length table `ChrBasePairs` (the human genome lengths of `CHR_BASE_PAIRS`). The
  `abspos` column is filled chromosome by chromosome, as the source does.
- **Excess exclusion** (`exclusion.dfy`, module `Exclusion`). On every chromosome,
  `count mod bin_size` genes are dropped. They are the first ones when that chromosome's
  genes are sorted by (expressed-cell count, position). The per-chromosome loop is a
  method with a loop invariant.
- **Boundary table** (`boundaries.dfy`, module `Boundaries`). For chromosomes 1..23, the
  bin counts `count // bin_size` are summed cumulatively into 23 intervals `(start, end)`.
  Looking up a chromosome that `value_counts` does not list is an error (pandas raises
  `KeyError`); the model returns it as a `Failure` naming the first such chromosome.
- **The two pipelines** (`binning.dfy`, module `Binning`).
  - `bin_genes_from_text`: removes HLA genes, inner-joins the UMI rows to the gene map
    by gene name, sorts by `abspos`, and removes genes detected in no cell. It then runs
    the exclusion and builds the boundary table from the genes that are left.
  - `bin_genes_from_anndata`: removes genes detected in no cell, locates the rest
    through a name → record dictionary, and sorts by `abspos`. It then runs the
    exclusion, but builds the boundary table from the genes as they were before it.
- **Shared pieces**. `sorting.dfy` (module `Sorting`) is a sort by a lexicographic key
  with generic filter/map lemmas. `wrappers.dfy` holds `Option` and `Result`.

Sorting is specified only as "sorted by the key and a permutation of the input". So the
order among genes that tie on every sort key is left open, as pandas' default sort leaves
it.

## Model

| member | source | states |
|---|---|---|
| Sorting.SortBy | copyvae/binning.py:61 | `sort_values`: the result is ordered by the key and is a permutation (same multiset) of the input |
| GeneMap.ChromosomeNumber | copyvae/binning.py:53-58 | a chromosome name is kept iff it is "X" or the decimal spelling of some k in 1..23; "X" becomes 23, any other kept name becomes the number it spells |
| GeneMap.NumberedChromosomeKept | copyvae/binning.py:54-58 | every label "1" .. "23" is kept under its own number |
| GeneMap.NonNumericChromosomeDropped | copyvae/binning.py:54-58 | a name other than "X" with a non-digit character (Y, MT, scaffolds) is dropped |
| GeneMap.SelectChromosomes | copyvae/binning.py:53-60 | the kept records are exactly the relabelled rows whose chromosome is kept; every one lies on 1..23, and its abspos still equals its start |
| GeneMap.Offset | copyvae/binning.py:66-67 | chromosome 1 gets offset 0, and so does a chromosome outside the length table |
| GeneMap.OffsetStep | copyvae/binning.py:66-67 | each chromosome's offset is the previous chromosome's offset plus that chromosome's length |
| GeneMap.AbsposOrdered | copyvae/binning.py:65-67 | absolute positions strictly follow (chromosome, start) order when the earlier gene starts inside its chromosome |
| GeneMap.AnnotateMembers | copyvae/binning.py:53-67 | the gene map holds exactly the kept rows, relabelled, each with abspos = start + offset of its chromosome |
| GeneMap.AddAbsolutePositions | copyvae/binning.py:65-67 | the per-chromosome update loop leaves every record as it was, except that abspos = start + the total length of the lower-numbered chromosomes |
| GeneMap.BuildGeneMap | copyvae/binning.py:36-69 | the gene map is a permutation of the reference map, ordered by (chr, start); every record is on 1..23 with abspos = start + offset; every kept query row appears in it and nothing else does |
| GeneMap.PositionedKeepsOrder | copyvae/binning.py:61-67 | filling in abspos keeps the (chr, start) order |
| GeneMap.GeneMapSortedByAbspos | copyvae/binning.py:61-67 | a map sorted by (chr, start), whose genes start inside their chromosomes, is also sorted by abspos |
| Exclusion.ExclusionKeysAgree | copyvae/binning.py:195-196 | on one chromosome, the anndata order (n_cells, abspos) and the text order (expressed, start) agree |
| Exclusion.OnChrom | copyvae/binning.py:108-109 | the rows selected for a chromosome are exactly the rows of the table on that chromosome |
| Exclusion.RemoveAll | copyvae/binning.py:112 | dropping rows removes exactly those rows (as a multiset) from the table |
| Exclusion.VictimsOfChromosome | copyvae/binning.py:108-111 | the rows chosen for dropping are `n` rows of the table, all on the chromosome being processed |
| Exclusion.VictimsRemoved | copyvae/binning.py:108-112 | dropping them lowers that chromosome's count by exactly `n` and leaves every other chromosome's rows unchanged |
| Exclusion.VictimsFirst | copyvae/binning.py:110-111 | every dropped row comes no later in (expressed, position) order than any row of its chromosome that stays |
| Exclusion.ExclusionStep | copyvae/binning.py:106-112 | one iteration of the per-chromosome loop preserves the exclusion invariant |
| Exclusion.ExcludeExcess | copyvae/binning.py:105-112 | kept and dropped partition the input; every count becomes count − count mod bin_size, a multiple of bin_size; exactly count mod bin_size rows are dropped per chromosome; dropped rows precede kept rows of their chromosome in the key order; genome order is kept; an input already divisible is returned unchanged |
| Exclusion.DropRemainder | copyvae/binning.py:105 | count − count mod bin_size is a multiple of bin_size with the same quotient |
| Exclusion.CountOnPermutation | copyvae/binning.py:186 | reordering the genes leaves every per-chromosome count unchanged |
| Boundaries.ValueCounts | copyvae/binning.py:119 | `value_counts` lists exactly the chromosomes that have genes, each with its gene count |
| Boundaries.RunningBounds | copyvae/binning.py:119-120 | for genes on chromosomes 1..23, the cumulative sum holds a running total for exactly the chromosomes with genes, equal to the bins on chromosomes 1..k |
| Boundaries.NoBinsWithoutGenes | copyvae/binning.py:120 | a chromosome with no genes adds no bins to the running total |
| Boundaries.ChromosomeBoundaries | copyvae/binning.py:119-125 | for genes on chromosomes 1..23: fails iff some chromosome 1..23 has no genes, naming the first one; otherwise gives 23 intervals: the first starts at 0, each ends where the next starts, each is count // bin_size wide, and the last ends at the total bin count |
| Boundaries.TableShape | copyvae/binning.py:121-125 | the tiling properties of the 23-row table |
| Boundaries.TableCoversAllGenes | copyvae/binning.py:119-125 | when every count is a multiple of bin_size, last end × bin_size = number of genes |
| Boundaries.ExclusionKeepsBinCounts | copyvae/binning.py:204 | removing count mod bin_size genes per chromosome does not change any running bin total, so pre- and post-exclusion tables agree |
| Boundaries.EmptiedIffShort | copyvae/binning.py:105-123 | after the exclusion a chromosome is empty iff it had fewer genes than bin_size; such a chromosome that had genes is listed before the exclusion and missing after it |
| Boundaries.BinsStep | copyvae/binning.py:119-120 | each chromosome adds count // bin_size bins to the running total, never a negative number |
| Boundaries.LowPrefix | copyvae/binning.py:119-125 | in a chromosome-ordered table, a gene lies on chromosomes 1..k iff its position is below the number of genes on those chromosomes |
| Boundaries.ChromosomeBlock | copyvae/binning.py:119-125 | in a chromosome-ordered table with divisible counts, row k of the boundary table × bin_size spans exactly the positions of chromosome k+1's genes |
| Boundaries.SameCountsSameTable | copyvae/binning.py:204-210 | the table depends only on the per-chromosome counts |
| Binning.DetectedCells | copyvae/binning.py:100 | the number of cells with a non-zero count is at most the number of cells, and is 0 iff every count is 0 |
| Binning.ExpressedAsWritten | copyvae/binning.py:99-100 | the expressed count as written never exceeds the true detected-cell count |
| Binning.ExpressedAsWrittenMissesLastCell | copyvae/binning.py:99 | the count as written differs from the true count by exactly the last cell |
| Binning.ExpressedAsWrittenDropsExpressedGene | copyvae/binning.py:99-102 | some gene detected in a cell is counted as expressed in none |
| Binning.DropHLA | copyvae/binning.py:91 | the rows left are exactly those whose name does not contain "HLA" |
| Binning.JoinMembers | copyvae/binning.py:93-96 | each joined row pairs a UMI row with a gene-map record of the same name, and every such pair gives a row |
| Binning.JoinPermutation | copyvae/binning.py:93-96 | the join's rows do not depend on the order of the gene map |
| Binning.ExpressedOnly | copyvae/binning.py:102 | the rows left are exactly those detected in at least one cell |
| Binning.TextCandidateMembers | copyvae/binning.py:91-102 | a gene reaches the exclusion iff it is a non-HLA UMI row detected in some cell, joined to a gene-map record of its name |
| Binning.TableCarriesOver | copyvae/binning.py:119-125 | the post-exclusion table equals the table of the candidates, and a chromosome empties iff it had fewer candidates than bin_size |
| Binning.LastBoundCoversKept | copyvae/binning.py:119-125 | the last end of the candidates' table, times bin_size, is the number of genes the exclusion keeps |
| Binning.PlacedOrdered | copyvae/binning.py:97 | genes that start inside their chromosomes and are sorted by abspos are also ordered by chromosome |
| Binning.KeptLocated | copyvae/binning.py:105-125 | when the candidates start inside their chromosomes, the kept genes' table locates each chromosome's block of genes |
| Binning.TextCandidatesPlaced | copyvae/binning.py:91-102 | when the gene map's records start inside their chromosomes, so do the text candidates, each on 1..23 with abspos = start + offset |
| Binning.AnnDataCandidatesPlaced | copyvae/binning.py:179-186 | when the gene map's records start inside their chromosomes and carry abspos = start + offset, so do the located genes |
| Binning.BinGenesFromText | copyvae/binning.py:72-125 | fails iff some chromosome 1..23 has fewer candidates than bin_size (the first is named); on success the kept genes are a sub-multiset of the candidates with each count cut to count − count mod bin_size and dropped-before-kept order, sorted by abspos; the 23 intervals are the candidates' table, and the last end × bin_size is the number of kept genes; when every annotation start lies inside its chromosome, row k × bin_size spans exactly the positions of chromosome k+1's genes in the data |
| Binning.FilterGenes | copyvae/binning.py:161 | `filter_genes(min_cells=1)` keeps exactly the genes detected in at least one cell |
| Binning.NameMap | copyvae/binning.py:179-182 | the dictionary knows exactly the gene-map names, and maps each to a record of that name |
| Binning.NameMapKeepsLast | copyvae/binning.py:179 | the record a name maps to is the last record of that name in the gene map |
| Binning.Locate | copyvae/binning.py:180-183 | every located gene is a variable placed by its dictionary record, and every variable the dictionary knows is located |
| Binning.BinAnnotated | copyvae/binning.py:179-210 | for a gene map on chromosomes 1..23: fails with nothing to concatenate iff no gene is located; fails on a missing chromosome iff some chromosome 1..23 has no located gene, naming the first; on success each chromosome keeps count − count mod bin_size genes, dropped genes precede kept ones in (n_cells, abspos) order, the genes are sorted by abspos, the table is that of the located genes, and the last end × bin_size is the number of kept genes; when every record starts inside its chromosome and carries abspos = start + offset, row k × bin_size spans exactly the positions of chromosome k+1's genes in the data |
| Binning.BinGenesFromAnnData | copyvae/binning.py:140-212 | the result is what `BinAnnotated` promises for a gene map that is a (chr, start)-sorted permutation of the reference map; fails with nothing to concatenate iff no detected variable has a reference record of its name; on success every kept gene is such a variable placed by such a record, counts are divisible, genes are sorted by abspos, and the table has 23 rows; when every annotation start lies inside its chromosome, row k × bin_size spans exactly the positions of chromosome k+1's genes in the data |
| Binning.NothingLocated | copyvae/binning.py:193-199 | no gene is located iff no detected variable has a gene-map record of its name |
| Binning.LocatedFromRecords | copyvae/binning.py:183 | every kept gene is a detected variable placed by a gene-map record of its name |
| Binning.KeptDivisible | copyvae/binning.py:198-199 | after the exclusion every chromosome's count is a multiple of bin_size |

## Left out

- The Ensembl query through `pybiomart` (copyvae/binning.py:40-50) is a network call. Its result is an input, a sequence of `BiomartRow`.
- File I/O is not modelled: `pd.read_csv` of the UMI table and the `abs.npy` write. The parsed table is an input sequence of `UmiRow`.
- The reshaping after binning is not modelled: the transpose, the label row, the rename, and `annotate_data`. The model returns the kept genes and the boundary table. The `preprocess` module is not part of this model.
- `copyvae/pipeline.py` is not part of this model: VAE training, inference, medians, clustering and argument parsing.
- `bin_size` must be positive. With `bin_size == 0`, pandas' `%` and `//` give NaN or infinity, which the model does not represent. A negative `bin_size` is also excluded. Python's floored `%` then gives `n <= 0`, and `[:n]` (copyvae/binning.py:105-111) keeps only the last `|n|` rows for dropping. For example, 7 genes with `bin_size` −3 give `n` = −2, so 5 genes are dropped.
- The `int32` and `int` casts are not modelled. Counts and positions are unbounded naturals, so a count above 2^31 − 1 would not wrap.
- Rows are dropped by value rather than by pandas index label. Two identical rows are indistinguishable. In the anndata path, two variables sharing a label would both be dropped by `isin`; the model drops only the occurrences chosen.
- In the anndata path the source collects all chromosomes' drop labels and drops them at once (lines 192-199). The model drops chromosome by chromosome. The result is the same, because each chromosome's choice depends only on that chromosome's genes, which the other drops leave alone.
- Sorting fixes no order among genes tied on every key. Contracts only say "sorted and a permutation", so any tie order satisfies them.
- `bin_genes_from_anndata` changes its argument in place. `sc.pp.filter_genes` (copyvae/binning.py:161) removes the undetected genes from the caller's AnnData object and adds a `var['n_cells']` column to it. Lines 180 and 182 add the `var['chr']` and `var['abspos']` columns, with NaN for unmapped genes. The model takes the variables as a value and returns only the kept genes and the table, so this update of the input object is not captured.

Behaviour of the code worth noting:

- In the text path (copyvae/binning.py:119-125), a chromosome left with no genes after the exclusion is missing from `value_counts`, so the lookup `chrom_bound[i]` raises. The model returns `Failure` naming the first such chromosome.
- The inner join (copyvae/binning.py:93-96) gives one row per matching gene-map record. A gene name with several records therefore yields several genes.
- The anndata path (copyvae/binning.py:204-210) takes its boundary table from the counts before the exclusion. There a chromosome with fewer genes than `bin_size` keeps a zero-width interval.
- The boundary table locates each chromosome's genes in the binned data only when every annotation start lies inside the length of its chromosome in `CHR_BASE_PAIRS`. The data is sorted by `abspos` (copyvae/binning.py:97 and 186). A start beyond its chromosome's length gives an `abspos` inside a later chromosome's range, so the chromosomes can interleave in the data. The pipeline contracts state the locating property under that hypothesis.

## Findings

| source | as written | input that shows it | evidently intended | confidence | as-written member | corrected member |
|---|---|---|---|---|---|---|
| copyvae/binning.py:99 | `sorted_gene.iloc[:, 1:-7]` counts the expressed cells. The merged table ends with six gene-map columns, and `expressed` is not yet added, so the slice also cuts off the last cell column. | a gene with counts [0, 3] is detected in one cell, but its expressed count is 0, so it is removed as non-expressed | count every cell column (`1:-6`), so that a gene detected in any cell is kept | not executed | Binning.ExpressedAsWrittenDropsExpressedGene | Binning.DetectedCells |

The model's text pipeline uses the corrected count, `DetectedCells`, for the expressed filter and the exclusion order.
