/**
 * The gene map: annotation records from the genome database, restricted to
 * chromosomes 1..22 and X (renumbered 23), ordered by (chromosome, start),
 * each with an absolute genomic position.
 */
module GeneMap {
  import opened Wrappers
  import opened Sorting

  /** Lengths in base pairs of human chromosomes 1..22 and X; index 0 is chromosome 1. */
  const ChrBasePairs: seq<nat> := [
    248956422, 242193529, 198295559, 190214555, 181538259, 170805979,
    159345973, 145138636, 138394717, 133797422, 135086622, 133275309,
    114364328, 107043718, 101991189, 90338345, 83257441, 80373285,
    58617616, 64444167, 46709983, 50818468, 156040895]

  /** One row of the annotation query: gene name, stable id, chromosome name, start, end. */
  datatype BiomartRow = BiomartRow(name: string, id: string, chromosome: string, start: nat, end: nat)

  /** A gene-map record: the chromosome is now a number 1..23 and `abspos` is genome-wide. */
  datatype GeneRecord = GeneRecord(name: string, id: string, chr: nat, start: nat, end: nat, abspos: nat)

  predicate IsDigit(ch: char) {
    '0' <= ch <= '9'
  }

  function DigitChar(d: nat): (ch: char)
    requires d < 10
    ensures IsDigit(ch) && ch as int == '0' as int + d
  {
    ('0' as int + d) as char
  }

  /** The decimal spelling of `n`, as numpy's `astype(str)` writes it. */
  function Decimal(n: nat): (s: string)
    ensures 1 <= |s| && (n < 10 <==> |s| == 1)
    ensures forall i :: 0 <= i < |s| ==> IsDigit(s[i])
  {
    if n < 10 then [DigitChar(n)] else Decimal(n / 10) + [DigitChar(n % 10)]
  }

  /** Different numbers have different decimal spellings. */
  lemma {:induction false} DecimalInjective(a: nat, b: nat)
    requires Decimal(a) == Decimal(b)
    ensures a == b
  {
    if a >= 10 && b >= 10 {
      var da, db := Decimal(a), Decimal(b);
      assert da[|da| - 1] == DigitChar(a % 10) && db[|db| - 1] == DigitChar(b % 10);
      assert Decimal(a / 10) == da[..|da| - 1] == db[..|db| - 1] == Decimal(b / 10);
      DecimalInjective(a / 10, b / 10);
    } else if a < 10 && b < 10 {
      assert Decimal(a)[0] == DigitChar(a) && Decimal(b)[0] == DigitChar(b);
    }
  }

  /** Searches the labels "k" .. "23" for `name`. */
  function FindChromosome(name: string, k: nat): (r: Option<nat>)
    requires 1 <= k
    decreases 24 - k
    ensures r.Some? ==> k <= r.value <= 23 && Decimal(r.value) == name
    ensures r.None? ==> forall j :: k <= j <= 23 ==> Decimal(j) != name
  {
    if k > 23 then None
    else if Decimal(k) == name then Some(k)
    else FindChromosome(name, k + 1)
  }

  /**
   * The chromosome number a database chromosome name is kept under: "X" is
   * relabelled "23", then only the labels "1" .. "23" pass the filter.
   */
  function ChromosomeNumber(name: string): (r: Option<nat>)
    ensures r.Some? <==> name == "X" || exists k: nat :: 1 <= k <= 23 && Decimal(k) == name
    ensures r.Some? ==> 1 <= r.value <= 23
    ensures name == "X" ==> r == Some(23)
    ensures r.Some? && name != "X" ==> Decimal(r.value) == name
  {
    if name == "X" then Some(23)
    else
      var r := FindChromosome(name, 1);
      assert r.Some? ==> Decimal(r.value) == name;
      r
  }

  /** Every numbered chromosome 1..23 is kept under its own number. */
  lemma NumberedChromosomeKept(k: nat)
    requires 1 <= k <= 23
    ensures ChromosomeNumber(Decimal(k)) == Some(k)
  {
    var name := Decimal(k);
    assert name != "X" by { assert IsDigit(name[0]); }
    var r := ChromosomeNumber(name);
    assert r.Some?;
    DecimalInjective(r.value, k);
  }

  /** Names other than "X" with any non-digit (Y, MT, scaffold names) are dropped. */
  lemma NonNumericChromosomeDropped(name: string, i: nat)
    requires name != "X" && i < |name| && !IsDigit(name[i])
    ensures ChromosomeNumber(name) == None
  {
  }

  /** The record a kept row becomes before absolute positions are added (abspos starts as the gene start). */
  function Relabel(row: BiomartRow): GeneRecord
    requires ChromosomeNumber(row.chromosome).Some?
  {
    GeneRecord(row.name, row.id, ChromosomeNumber(row.chromosome).value, row.start, row.end, row.start)
  }

  /** The rows whose chromosome is kept, relabelled, in their original order. */
  function SelectChromosomes(rows: seq<BiomartRow>): (r: seq<GeneRecord>)
    ensures |r| <= |rows|
    ensures forall g :: g in r ==> 1 <= g.chr <= 23 && g.abspos == g.start
    ensures forall g :: g in r <==>
      exists row :: row in rows && ChromosomeNumber(row.chromosome).Some? && g == Relabel(row)
  {
    if rows == [] then []
    else
      assert rows == [rows[0]] + rows[1..];
      var rest := SelectChromosomes(rows[1..]);
      if ChromosomeNumber(rows[0].chromosome).Some? then [Relabel(rows[0])] + rest else rest
  }

  /** The total length of the first `i` chromosomes of the table. */
  function PrefixSum(lengths: seq<nat>, i: nat): nat
    requires i <= |lengths|
  {
    if i == 0 then 0 else PrefixSum(lengths, i - 1) + lengths[i - 1]
  }

  /**
   * What is added to a gene start on chromosome `chr`: the total length of
   * chromosomes 1 .. chr-1. A chromosome beyond the end of the table gets nothing.
   */
  function Offset(lengths: seq<nat>, chr: nat): (r: nat)
    ensures chr == 1 ==> r == 0
    ensures chr == 0 || chr > |lengths| ==> r == 0
  {
    if 1 <= chr <= |lengths| then PrefixSum(lengths, chr - 1) else 0
  }

  /** The offset of a chromosome is the offset of the one before it plus that one's length. */
  lemma OffsetStep(lengths: seq<nat>, chr: nat)
    requires 2 <= chr <= |lengths|
    ensures Offset(lengths, chr) == Offset(lengths, chr - 1) + lengths[chr - 2]
  {
  }

  lemma {:induction false} PrefixSumMonotone(lengths: seq<nat>, i: nat, j: nat)
    requires i < j <= |lengths|
    ensures PrefixSum(lengths, i) + lengths[i] <= PrefixSum(lengths, j)
    decreases j
  {
    if i + 1 < j {
      PrefixSumMonotone(lengths, i, j - 1);
    }
  }

  /**
   * Absolute positions follow (chromosome, start) order strictly, provided the
   * earlier gene starts inside its own chromosome.
   */
  lemma AbsposOrdered(lengths: seq<nat>, chrA: nat, startA: nat, chrB: nat, startB: nat)
    requires 1 <= chrA <= |lengths| && 1 <= chrB <= |lengths|
    requires startA < lengths[chrA - 1]
    requires chrA < chrB || (chrA == chrB && startA < startB)
    ensures startA + Offset(lengths, chrA) < startB + Offset(lengths, chrB)
  {
    if chrA < chrB {
      PrefixSumMonotone(lengths, chrA - 1, chrB - 1);
    }
  }

  function ChrStartKey(g: GeneRecord): Key {
    Key(g.chr, g.start)
  }

  function AbsposKey(g: GeneRecord): Key {
    Key(g.abspos, 0)
  }

  /** A record with its absolute position: start plus the offset of its chromosome. */
  function Positioned(g: GeneRecord, lengths: seq<nat>): GeneRecord {
    g.(abspos := g.start + Offset(lengths, g.chr))
  }

  function PositionWith(lengths: seq<nat>): GeneRecord -> GeneRecord {
    g => Positioned(g, lengths)
  }

  /** The reference gene map, up to order: every kept row with its absolute position. */
  function Annotate(rows: seq<BiomartRow>, lengths: seq<nat>): seq<GeneRecord> {
    Apply(SelectChromosomes(rows), PositionWith(lengths))
  }

  /** Membership in the gene map: exactly the kept rows, each at start plus its chromosome offset. */
  lemma AnnotateMembers(rows: seq<BiomartRow>, lengths: seq<nat>)
    ensures forall g :: g in Annotate(rows, lengths) ==>
      1 <= g.chr <= 23 && g.abspos == g.start + Offset(lengths, g.chr)
    ensures forall g :: g in Annotate(rows, lengths) <==>
      exists row :: row in rows && ChromosomeNumber(row.chromosome).Some? && g == Positioned(Relabel(row), lengths)
  {
    var sel := SelectChromosomes(rows);
    var ann := Annotate(rows, lengths);
    forall g | g in ann
      ensures exists row :: row in rows && ChromosomeNumber(row.chromosome).Some? && g == Positioned(Relabel(row), lengths)
    {
      var j :| 0 <= j < |ann| && ann[j] == g;
      assert sel[j] in sel;
    }
    forall row | row in rows && ChromosomeNumber(row.chromosome).Some?
      ensures Positioned(Relabel(row), lengths) in ann
    {
      assert Relabel(row) in sel;
      var j :| 0 <= j < |sel| && sel[j] == Relabel(row);
      assert ann[j] == Positioned(Relabel(row), lengths);
    }
  }

  /**
   * Fills in the `abspos` column: it starts as the gene start, then chromosome
   * by chromosome the length of all lower-numbered chromosomes is added to the
   * genes of that chromosome.
   */
  method AddAbsolutePositions(genes: seq<GeneRecord>, lengths: seq<nat>) returns (r: seq<GeneRecord>)
    ensures |r| == |genes|
    ensures forall j :: 0 <= j < |genes| ==>
      r[j] == genes[j].(abspos := genes[j].start + Offset(lengths, genes[j].chr))
  {
    r := seq(|genes|, j requires 0 <= j < |genes| => genes[j].(abspos := genes[j].start));
    var i := 0;
    while i < |lengths|
      invariant 0 <= i <= |lengths|
      invariant |r| == |genes|
      invariant forall j :: 0 <= j < |genes| ==>
        r[j] == genes[j].(abspos := genes[j].start + (if 1 <= genes[j].chr <= i then PrefixSum(lengths, genes[j].chr - 1) else 0))
    {
      var base := PrefixSum(lengths, i);
      var j := 0;
      while j < |r|
        invariant 0 <= j <= |r| == |genes|
        invariant forall k :: 0 <= k < j ==>
          r[k] == genes[k].(abspos := genes[k].start + (if 1 <= genes[k].chr <= i + 1 then PrefixSum(lengths, genes[k].chr - 1) else 0))
        invariant forall k :: j <= k < |r| ==>
          r[k] == genes[k].(abspos := genes[k].start + (if 1 <= genes[k].chr <= i then PrefixSum(lengths, genes[k].chr - 1) else 0))
      {
        if r[j].chr == i + 1 {
          r := r[j := r[j].(abspos := r[j].abspos + base)];
        }
        j := j + 1;
      }
      i := i + 1;
    }
  }

  /**
   * Builds the gene map from the rows of the annotation query: a permutation
   * of the reference map `Annotate`, ordered by (chromosome, start).
   */
  method BuildGeneMap(query: seq<BiomartRow>, lengths: seq<nat>) returns (gmap: seq<GeneRecord>)
    ensures multiset(gmap) == multiset(Annotate(query, lengths))
    ensures SortedBy(gmap, ChrStartKey)
    ensures forall g :: g in gmap ==> 1 <= g.chr <= 23 && g.abspos == g.start + Offset(lengths, g.chr)
    ensures forall row :: row in query && ChromosomeNumber(row.chromosome).Some? ==>
      Positioned(Relabel(row), lengths) in gmap
    ensures forall g :: g in gmap ==>
      exists row :: row in query && ChromosomeNumber(row.chromosome).Some? && g == Positioned(Relabel(row), lengths)
  {
    var selected := SelectChromosomes(query);
    var sorted := SortBy(selected, ChrStartKey);
    gmap := AddAbsolutePositions(sorted, lengths);
    GeneMapFromSorted(query, lengths, sorted, gmap);
  }

  /** Positioning the sorted selection yields a sorted permutation of the reference map. */
  lemma GeneMapFromSorted(query: seq<BiomartRow>, lengths: seq<nat>, sorted: seq<GeneRecord>, gmap: seq<GeneRecord>)
    requires multiset(sorted) == multiset(SelectChromosomes(query)) && SortedBy(sorted, ChrStartKey)
    requires |gmap| == |sorted|
    requires forall j :: 0 <= j < |sorted| ==> gmap[j] == sorted[j].(abspos := sorted[j].start + Offset(lengths, sorted[j].chr))
    ensures multiset(gmap) == multiset(Annotate(query, lengths))
    ensures SortedBy(gmap, ChrStartKey)
    ensures forall g :: g in gmap ==> 1 <= g.chr <= 23 && g.abspos == g.start + Offset(lengths, g.chr)
    ensures forall row :: row in query && ChromosomeNumber(row.chromosome).Some? ==>
      Positioned(Relabel(row), lengths) in gmap
    ensures forall g :: g in gmap ==>
      exists row :: row in query && ChromosomeNumber(row.chromosome).Some? && g == Positioned(Relabel(row), lengths)
  {
    var positioned := Apply(sorted, PositionWith(lengths));
    forall j | 0 <= j < |gmap| ensures gmap[j] == positioned[j] {
      assert positioned[j] == PositionWith(lengths)(sorted[j]) == Positioned(sorted[j], lengths);
    }
    assert gmap == positioned;
    ApplyPermutation(sorted, SelectChromosomes(query), PositionWith(lengths));
    AnnotateMembers(query, lengths);
    SameMembers(gmap, Annotate(query, lengths));
    PositionedKeepsOrder(sorted, lengths);
  }

  lemma PositionedKeepsOrder(gs: seq<GeneRecord>, lengths: seq<nat>)
    requires SortedBy(gs, ChrStartKey)
    ensures SortedBy(Apply(gs, PositionWith(lengths)), ChrStartKey)
  {
    var r := Apply(gs, PositionWith(lengths));
    forall i, j | 0 <= i < j < |r| ensures KeyLeq(ChrStartKey(r[i]), ChrStartKey(r[j])) {
      assert ChrStartKey(r[i]) == ChrStartKey(gs[i]) && ChrStartKey(r[j]) == ChrStartKey(gs[j]);
    }
  }

  /** Every record lies on a chromosome of the length table and starts inside that chromosome. */
  ghost predicate StartsInside(gmap: seq<GeneRecord>, lengths: seq<nat>) {
    forall g :: g in gmap ==> 1 <= g.chr <= |lengths| && g.start < lengths[g.chr - 1]
  }

  /**
   * A gene map ordered by (chromosome, start), whose genes start inside their
   * chromosomes, is also ordered by absolute position.
   */
  lemma GeneMapSortedByAbspos(gmap: seq<GeneRecord>, lengths: seq<nat>)
    requires SortedBy(gmap, ChrStartKey)
    requires forall g :: g in gmap ==>
      1 <= g.chr <= |lengths| && g.start < lengths[g.chr - 1] && g.abspos == g.start + Offset(lengths, g.chr)
    ensures SortedBy(gmap, AbsposKey)
  {
    forall i, j | 0 <= i < j < |gmap| ensures KeyLeq(AbsposKey(gmap[i]), AbsposKey(gmap[j])) {
      var a, b := gmap[i], gmap[j];
      assert a in gmap && b in gmap;
      assert KeyLeq(ChrStartKey(a), ChrStartKey(b));
      if a.chr != b.chr || a.start != b.start {
        AbsposOrdered(lengths, a.chr, a.start, b.chr, b.start);
      }
    }
  }
}
