/**
 * Excess exclusion: on every chromosome, drop `count mod bin_size` genes so
 * that the chromosome's gene count becomes a multiple of the bin size. The
 * genes dropped are the first ones when the chromosome's genes are sorted by
 * (number of expressing cells, position): the least detected go first, and
 * among equally detected genes the earlier position goes first.
 */
module Exclusion {
  import opened Sorting

  /**
   * A row of the expression table once it carries genomic coordinates: the
   * gene name, its per-cell UMI counts, chromosome, start, absolute position
   * and the number of cells in which it is detected.
   */
  datatype Gene = Gene(name: string, counts: seq<nat>, chr: nat, start: nat, abspos: nat, detected: nat)

  /** Exclusion order of the text-file path: (expressed cells, gene start). */
  function TextKey(g: Gene): Key {
    Key(g.detected, g.start)
  }

  /** Exclusion order of the annotated-matrix path: (n_cells, abspos). */
  function AnnDataKey(g: Gene): Key {
    Key(g.detected, g.abspos)
  }

  /** Genome order: by absolute position. */
  function PositionKey(g: Gene): Key {
    Key(g.abspos, 0)
  }

  /**
   * On one chromosome the two exclusion orders agree, since there the absolute
   * position is the start plus one and the same offset.
   */
  lemma ExclusionKeysAgree(a: Gene, b: Gene, offset: nat)
    requires a.chr == b.chr && a.abspos == a.start + offset && b.abspos == b.start + offset
    ensures KeyLeq(TextKey(a), TextKey(b)) <==> KeyLeq(AnnDataKey(a), AnnDataKey(b))
  {
  }

  /** The genes of chromosome `c`, in table order. */
  function OnChrom(s: seq<Gene>, c: nat): (r: seq<Gene>)
    ensures |r| <= |s|
    ensures forall g :: g in r <==> g in s && g.chr == c
  {
    if s == [] then []
    else if s[0].chr == c then [s[0]] + OnChrom(s[1..], c)
    else OnChrom(s[1..], c)
  }

  /** How many genes of the table lie on chromosome `c` (pandas' `value_counts`). */
  function CountOn(s: seq<Gene>, c: nat): nat {
    |OnChrom(s, c)|
  }

  lemma {:induction false} OnChromAppend(a: seq<Gene>, b: seq<Gene>, c: nat)
    ensures OnChrom(a + b, c) == OnChrom(a, c) + OnChrom(b, c)
  {
    if a == [] {
      assert a + b == b;
    } else {
      var ab := a + b;
      assert ab[0] == a[0] && ab[1..] == a[1..] + b;
      OnChromAppend(a[1..], b, c);
    }
  }

  lemma {:induction false} OnChromAll(s: seq<Gene>, c: nat)
    requires forall g :: g in s ==> g.chr == c
    ensures OnChrom(s, c) == s
  {
    if s != [] {
      OnChromAll(s[1..], c);
    }
  }

  lemma {:induction false} OnChromNone(s: seq<Gene>, c: nat)
    requires forall g :: g in s ==> g.chr != c
    ensures OnChrom(s, c) == []
  {
    if s != [] {
      OnChromNone(s[1..], c);
    }
  }

  /** A table with no gene on any chromosome is empty. */
  lemma NoGenesAnywhere(s: seq<Gene>)
    requires forall c :: CountOn(s, c) == 0
    ensures s == []
  {
    FirstGeneCounted(s);
  }

  lemma FirstGeneCounted(s: seq<Gene>)
    ensures s != [] ==> CountOn(s, s[0].chr) > 0
  {
    if s != [] {
      assert s[0] in OnChrom(s, s[0].chr);
    }
  }

  /** Drops one row equal to `x`: the first one, which by value is no different from any other. */
  function RemoveOne(s: seq<Gene>, x: Gene): (r: seq<Gene>)
    ensures multiset(r) <= multiset(s)
    ensures x in s ==> multiset(r) == multiset(s) - multiset{x}
    ensures x !in s ==> r == s
  {
    if s == [] then []
    else
      assert s == [s[0]] + s[1..];
      if s[0] == x then s[1..] else [s[0]] + RemoveOne(s[1..], x)
  }

  /** Drops one row for each element of `v` (pandas' `drop(index=...)`). */
  function RemoveAll(s: seq<Gene>, v: seq<Gene>): (r: seq<Gene>)
    ensures multiset(r) <= multiset(s)
    ensures multiset(v) <= multiset(s) ==> multiset(r) == multiset(s) - multiset(v)
    decreases |v|
  {
    if v == [] then s
    else
      RemoveFirstStep(s, v);
      RemoveAll(RemoveOne(s, v[0]), v[1..])
  }

  lemma RemoveFirstStep(s: seq<Gene>, v: seq<Gene>)
    requires v != []
    ensures multiset(v) <= multiset(s) ==>
      && multiset(v[1..]) <= multiset(RemoveOne(s, v[0]))
      && multiset(s) - multiset(v) == multiset(RemoveOne(s, v[0])) - multiset(v[1..])
  {
    assert v == [v[0]] + v[1..];
    if multiset(v) <= multiset(s) {
      assert v[0] in multiset(s);
    }
  }

  lemma {:induction false} OnChromRemoveOne(s: seq<Gene>, x: Gene, c: nat)
    ensures OnChrom(RemoveOne(s, x), c) == if x.chr == c then RemoveOne(OnChrom(s, c), x) else OnChrom(s, c)
  {
    if s != [] {
      OnChromRemoveOne(s[1..], x, c);
    }
  }

  /** Dropping rows of chromosome `c` leaves every other chromosome as it was. */
  lemma {:induction false} OnChromRemoveOther(s: seq<Gene>, v: seq<Gene>, c: nat)
    requires forall g :: g in v ==> g.chr != c
    ensures OnChrom(RemoveAll(s, v), c) == OnChrom(s, c)
    decreases |v|
  {
    if v != [] {
      OnChromRemoveOne(s, v[0], c);
      OnChromRemoveOther(RemoveOne(s, v[0]), v[1..], c);
    }
  }

  /** Dropping rows of chromosome `c` from the table is dropping them from that chromosome's rows. */
  lemma {:induction false} OnChromRemoveSame(s: seq<Gene>, v: seq<Gene>, c: nat)
    requires forall g :: g in v ==> g.chr == c
    ensures OnChrom(RemoveAll(s, v), c) == RemoveAll(OnChrom(s, c), v)
    decreases |v|
  {
    if v != [] {
      OnChromRemoveOne(s, v[0], c);
      OnChromRemoveSame(RemoveOne(s, v[0]), v[1..], c);
    }
  }

  lemma {:induction false} RemoveOneSorted(s: seq<Gene>, x: Gene, key: Gene -> Key)
    requires SortedBy(s, key)
    ensures SortedBy(RemoveOne(s, x), key)
  {
    if s != [] && s[0] != x {
      RemoveOneSorted(s[1..], x, key);
      var tail := RemoveOne(s[1..], x);
      forall y | y in tail ensures KeyLeq(key(s[0]), key(y)) {
        assert y in multiset(s[1..]) by { assert y in multiset(tail); }
        var j :| 0 <= j < |s| - 1 && s[1..][j] == y;
        assert s[j + 1] == y;
      }
      ConsSorted(s[0], tail, key);
    }
  }

  /** Dropping rows keeps the rest in their order. */
  lemma {:induction false} RemoveAllSorted(s: seq<Gene>, v: seq<Gene>, key: Gene -> Key)
    requires SortedBy(s, key)
    ensures SortedBy(RemoveAll(s, v), key)
    decreases |v|
  {
    if v != [] {
      RemoveOneSorted(s, v[0], key);
      RemoveAllSorted(RemoveOne(s, v[0]), v[1..], key);
    }
  }

  /** The genes dropped from chromosome `c`: the first `n` in `key` order. */
  function Victims(s: seq<Gene>, c: nat, n: nat, key: Gene -> Key): (r: seq<Gene>)
    requires n <= CountOn(s, c)
  {
    SortBy(OnChrom(s, c), key)[..n]
  }

  /** The victims are `n` rows of chromosome `c` taken from the table. */
  lemma VictimsOfChromosome(s: seq<Gene>, c: nat, n: nat, key: Gene -> Key)
    requires n <= CountOn(s, c)
    ensures var v := Victims(s, c, n, key);
      && |v| == n
      && (forall g :: g in v ==> g.chr == c)
      && multiset(v) <= multiset(s)
  {
    var on := OnChrom(s, c);
    var sorted := SortBy(on, key);
    var v := sorted[..n];
    assert sorted == v + sorted[n..];
    SameMembers(sorted, on);
    forall g | g in v ensures g.chr == c {
      assert g in sorted;
    }
    OnChromSub(s, c);
    assert multiset(v) <= multiset(sorted);
  }

  /** Dropping the victims lowers chromosome `c` by `n` rows and leaves the other chromosomes alone. */
  lemma VictimsRemoved(s: seq<Gene>, c: nat, n: nat, key: Gene -> Key)
    requires n <= CountOn(s, c)
    ensures var v := Victims(s, c, n, key);
      && multiset(RemoveAll(s, v)) + multiset(v) == multiset(s)
      && CountOn(RemoveAll(s, v), c) == CountOn(s, c) - n
      && (forall d :: d != c ==> OnChrom(RemoveAll(s, v), d) == OnChrom(s, d))
  {
    var v := Victims(s, c, n, key);
    VictimsOfChromosome(s, c, n, key);
    RemoveAllCount(s, v);
    VictimsCount(s, c, n, key);
    forall d | d != c ensures OnChrom(RemoveAll(s, v), d) == OnChrom(s, d) {
      OnChromRemoveOther(s, v, d);
    }
  }

  lemma RemoveAllCount(s: seq<Gene>, v: seq<Gene>)
    requires multiset(v) <= multiset(s)
    ensures multiset(RemoveAll(s, v)) + multiset(v) == multiset(s)
  {
  }

  lemma VictimsCount(s: seq<Gene>, c: nat, n: nat, key: Gene -> Key)
    requires n <= CountOn(s, c)
    ensures CountOn(RemoveAll(s, Victims(s, c, n, key)), c) == CountOn(s, c) - n
  {
    var v := Victims(s, c, n, key);
    var on := OnChrom(s, c);
    VictimsOfChromosome(s, c, n, key);
    OnChromRemoveSame(s, v, c);
    PrefixSub(SortBy(on, key), n);
    RemoveAllLength(on, v);
  }

  lemma RemoveAllLength(s: seq<Gene>, v: seq<Gene>)
    requires multiset(v) <= multiset(s)
    ensures |RemoveAll(s, v)| == |s| - |v|
  {
    assert |multiset(RemoveAll(s, v))| == |multiset(s)| - |multiset(v)|;
  }

  lemma PrefixSub(s: seq<Gene>, n: nat)
    requires n <= |s|
    ensures multiset(s[..n]) <= multiset(s)
  {
    assert s == s[..n] + s[n..];
  }

  /** Removing the first `n` of a sorted copy of `on` from `on` leaves the rest of the sorted copy. */
  lemma RestIsSuffix(on: seq<Gene>, sorted: seq<Gene>, n: nat)
    requires multiset(sorted) == multiset(on) && n <= |sorted|
    ensures multiset(RemoveAll(on, sorted[..n])) == multiset(sorted[n..])
  {
    assert sorted == sorted[..n] + sorted[n..];
    assert multiset(sorted) == multiset(sorted[..n]) + multiset(sorted[n..]);
  }

  /** Every victim comes no later in `key` order than any row of chromosome `c` that stays. */
  lemma VictimsFirst(s: seq<Gene>, c: nat, n: nat, key: Gene -> Key)
    requires n <= CountOn(s, c)
    ensures var v := Victims(s, c, n, key);
      forall x, y :: x in v && y in RemoveAll(s, v) && y.chr == c ==> KeyLeq(key(x), key(y))
  {
    var on := OnChrom(s, c);
    var sorted := SortBy(on, key);
    var v := Victims(s, c, n, key);
    var rest := RemoveAll(s, v);
    VictimsOfChromosome(s, c, n, key);
    OnChromRemoveSame(s, v, c);
    RestIsSuffix(on, sorted, n);
    forall x, y | x in v && y in rest && y.chr == c ensures KeyLeq(key(x), key(y)) {
      assert y in OnChrom(rest, c);
      assert y in multiset(sorted[n..]) by { assert y in multiset(RemoveAll(on, v)); }
      PrefixBeforeSuffix(sorted, key, n, x, y);
    }
  }

  lemma {:induction false} OnChromSub(s: seq<Gene>, c: nat)
    ensures multiset(OnChrom(s, c)) <= multiset(s)
  {
    if s != [] {
      OnChromSub(s[1..], c);
      assert s == [s[0]] + s[1..];
    }
  }

  /** What holds of the table after the chromosomes outside `todo` have been processed. */
  ghost predicate ExclusionInvariant(genes: seq<Gene>, kept: seq<Gene>, dropped: seq<Gene>, todo: set<nat>, binSize: nat, key: Gene -> Key)
    requires binSize > 0
  {
    && multiset(kept) + multiset(dropped) == multiset(genes)
    && (forall c :: c in todo ==> CountOn(kept, c) == CountOn(genes, c))
    && (forall c :: c !in todo ==> CountOn(kept, c) == CountOn(genes, c) - CountOn(genes, c) % binSize)
    && (forall c :: CountOn(dropped, c) + CountOn(kept, c) == CountOn(genes, c))
    && (forall x, y :: x in dropped && y in kept && x.chr == y.chr ==> KeyLeq(key(x), key(y)))
    && (SortedBy(genes, PositionKey) ==> SortedBy(kept, PositionKey))
    && (dropped == [] ==> kept == genes)
  }

  /** One round of the loop: processing chromosome `c` keeps the invariant. */
  lemma ExclusionStep(genes: seq<Gene>, kept: seq<Gene>, dropped: seq<Gene>, todo: set<nat>, binSize: nat, key: Gene -> Key, c: nat, n: nat)
    requires binSize > 0 && c in todo
    requires n == CountOn(kept, c) % binSize && n <= CountOn(kept, c)
    requires ExclusionInvariant(genes, kept, dropped, todo, binSize, key)
    ensures var v := Victims(kept, c, n, key);
      ExclusionInvariant(genes, RemoveAll(kept, v), dropped + v, todo - {c}, binSize, key)
  {
    var v := Victims(kept, c, n, key);
    var rest := RemoveAll(kept, v);
    VictimsOfChromosome(kept, c, n, key);
    VictimsRemoved(kept, c, n, key);
    StepCounts(genes, kept, dropped, todo, binSize, key, c, n);
    StepOrder(kept, dropped, key, c, n);
    if SortedBy(kept, PositionKey) {
      RemoveAllSorted(kept, v, PositionKey);
    }
    assert multiset(dropped + v) == multiset(dropped) + multiset(v);
  }

  lemma StepCounts(genes: seq<Gene>, kept: seq<Gene>, dropped: seq<Gene>, todo: set<nat>, binSize: nat, key: Gene -> Key, c: nat, n: nat)
    requires binSize > 0 && c in todo
    requires n == CountOn(kept, c) % binSize && n <= CountOn(kept, c)
    requires forall d :: d in todo ==> CountOn(kept, d) == CountOn(genes, d)
    requires forall d :: d !in todo ==> CountOn(kept, d) == CountOn(genes, d) - CountOn(genes, d) % binSize
    requires forall d :: CountOn(dropped, d) + CountOn(kept, d) == CountOn(genes, d)
    ensures var v := Victims(kept, c, n, key);
      var rest := RemoveAll(kept, v);
      && (forall d :: d in todo - {c} ==> CountOn(rest, d) == CountOn(genes, d))
      && (forall d :: d !in todo - {c} ==> CountOn(rest, d) == CountOn(genes, d) - CountOn(genes, d) % binSize)
      && (forall d :: CountOn(dropped + v, d) + CountOn(rest, d) == CountOn(genes, d))
  {
    var v := Victims(kept, c, n, key);
    var rest := RemoveAll(kept, v);
    forall d | d in todo - {c} ensures CountOn(rest, d) == CountOn(genes, d) {
      StepCountAt(kept, dropped, key, c, n, d);
    }
    forall d | d !in todo - {c}
      ensures CountOn(rest, d) == CountOn(genes, d) - CountOn(genes, d) % binSize
    {
      StepCountAt(kept, dropped, key, c, n, d);
    }
    forall d ensures CountOn(dropped + v, d) + CountOn(rest, d) == CountOn(genes, d) {
      StepCountAt(kept, dropped, key, c, n, d);
    }
  }

  /** Moving the victims of chromosome `c` changes the counts of `c` only, by their number. */
  lemma StepCountAt(kept: seq<Gene>, dropped: seq<Gene>, key: Gene -> Key, c: nat, n: nat, d: nat)
    requires n <= CountOn(kept, c)
    ensures CountOn(dropped + Victims(kept, c, n, key), d) == CountOn(dropped, d) + (if d == c then n else 0)
    ensures CountOn(RemoveAll(kept, Victims(kept, c, n, key)), d) == CountOn(kept, d) - (if d == c then n else 0)
  {
    var v := Victims(kept, c, n, key);
    VictimsOfChromosome(kept, c, n, key);
    VictimsRemoved(kept, c, n, key);
    OnChromAppend(dropped, v, d);
    if d == c {
      OnChromAll(v, c);
    } else {
      OnChromNone(v, d);
    }
  }

  lemma StepOrder(kept: seq<Gene>, dropped: seq<Gene>, key: Gene -> Key, c: nat, n: nat)
    requires n <= CountOn(kept, c)
    requires forall x, y :: x in dropped && y in kept && x.chr == y.chr ==> KeyLeq(key(x), key(y))
    ensures var v := Victims(kept, c, n, key);
      forall x, y :: x in dropped + v && y in RemoveAll(kept, v) && x.chr == y.chr ==> KeyLeq(key(x), key(y))
  {
    var v := Victims(kept, c, n, key);
    var rest := RemoveAll(kept, v);
    VictimsOfChromosome(kept, c, n, key);
    VictimsFirst(kept, c, n, key);
    forall y | y in rest ensures y in kept {
      assert y in multiset(rest);
    }
  }

  /**
   * Drops, chromosome by chromosome, the `count mod binSize` genes that come
   * first in `key` order, and returns the remaining table and the dropped rows.
   */
  method ExcludeExcess(genes: seq<Gene>, binSize: nat, key: Gene -> Key) returns (kept: seq<Gene>, dropped: seq<Gene>)
    requires binSize > 0
    ensures multiset(kept) + multiset(dropped) == multiset(genes)
    ensures forall c :: CountOn(kept, c) == CountOn(genes, c) - CountOn(genes, c) % binSize
    ensures forall c :: CountOn(kept, c) % binSize == 0
    ensures forall c :: CountOn(dropped, c) == CountOn(genes, c) % binSize
    ensures forall x, y :: x in dropped && y in kept && x.chr == y.chr ==> KeyLeq(key(x), key(y))
    ensures SortedBy(genes, PositionKey) ==> SortedBy(kept, PositionKey)
    ensures (forall c :: CountOn(genes, c) % binSize == 0) ==> kept == genes && dropped == []
  {
    var todo := set g | g in genes :: g.chr;
    kept, dropped := genes, [];
    ExclusionStart(genes, todo, binSize, key);
    while todo != {}
      invariant ExclusionInvariant(genes, kept, dropped, todo, binSize, key)
      decreases todo
    {
      var c :| c in todo;
      var n := CountOn(kept, c) % binSize;
      ModAtMost(CountOn(kept, c), binSize);
      var victims := Victims(kept, c, n, key);
      ExclusionStep(genes, kept, dropped, todo, binSize, key, c, n);
      kept := RemoveAll(kept, victims);
      dropped := dropped + victims;
      todo := todo - {c};
    }
    ExclusionDone(genes, kept, dropped, binSize, key);
  }

  /** Before the loop nothing is dropped and every chromosome with genes is still to do. */
  lemma ExclusionStart(genes: seq<Gene>, todo: set<nat>, binSize: nat, key: Gene -> Key)
    requires binSize > 0 && todo == set g | g in genes :: g.chr
    ensures ExclusionInvariant(genes, genes, [], todo, binSize, key)
  {
    DivUnique(0, binSize, 0, 0);
    forall c | c !in todo ensures CountOn(genes, c) == CountOn(genes, c) - CountOn(genes, c) % binSize {
      OnChromNone(genes, c);
    }
    forall c ensures CountOn([], c) + CountOn(genes, c) == CountOn(genes, c) {
      assert OnChrom([], c) == [];
    }
    assert multiset(genes) + multiset([]) == multiset(genes);
  }

  /** Once every chromosome is done, the invariant gives the method's promises. */
  lemma ExclusionDone(genes: seq<Gene>, kept: seq<Gene>, dropped: seq<Gene>, binSize: nat, key: Gene -> Key)
    requires binSize > 0
    requires ExclusionInvariant(genes, kept, dropped, {}, binSize, key)
    ensures forall c :: CountOn(kept, c) == CountOn(genes, c) - CountOn(genes, c) % binSize
    ensures forall c :: CountOn(kept, c) % binSize == 0
    ensures forall c :: CountOn(dropped, c) == CountOn(genes, c) % binSize
    ensures (forall c :: CountOn(genes, c) % binSize == 0) ==> kept == genes && dropped == []
  {
    forall c ensures CountOn(kept, c) % binSize == 0 {
      DropRemainder(CountOn(genes, c), binSize);
    }
    if forall c :: CountOn(genes, c) % binSize == 0 {
      NoGenesAnywhere(dropped);
    }
  }

  /** Removing the remainder leaves a multiple, with the same quotient. */
  lemma DropRemainder(count: nat, binSize: nat)
    requires binSize > 0
    ensures (count - count % binSize) % binSize == 0
    ensures (count - count % binSize) / binSize == count / binSize
  {
    DivUnique(count - count % binSize, binSize, count / binSize, 0);
  }

  /** Euclidean division has one quotient and one remainder. */
  lemma DivUnique(x: int, b: int, q: int, r: int)
    requires b > 0 && 0 <= r < b && x == b * q + r
    ensures x / b == q && x % b == r
  {
    var q', r' := x / b, x % b;
    assert x == b * q' + r';
    assert b * (q - q') == r' - r;
    MulBound(b, q - q');
  }

  lemma ModAtMost(x: nat, b: nat)
    requires b > 0
    ensures x % b <= x
  {
    assert x == b * (x / b) + x % b;
    MulBound(b, x / b);
  }

  lemma MulBound(b: int, k: int)
    requires b > 0
    ensures k >= 1 ==> b * k >= b
    ensures k <= -1 ==> b * k <= -b
  {
    if k >= 1 {
      assert b * k == b * (k - 1) + b;
    } else if k <= -1 {
      assert b * k == b * (k + 1) - b;
    }
  }

  /** Each gene occurs on its own chromosome's list as often as in the table, and on no other list. */
  lemma {:induction false} OnChromCount(s: seq<Gene>, c: nat, x: Gene)
    ensures multiset(OnChrom(s, c))[x] == if x.chr == c then multiset(s)[x] else 0
  {
    if s != [] {
      OnChromCount(s[1..], c, x);
      assert s == [s[0]] + s[1..];
    }
  }

  /** The per-chromosome counts do not depend on the order of the rows. */
  lemma CountOnPermutation(a: seq<Gene>, b: seq<Gene>, c: nat)
    requires multiset(a) == multiset(b)
    ensures CountOn(a, c) == CountOn(b, c)
  {
    forall x ensures multiset(OnChrom(a, c))[x] == multiset(OnChrom(b, c))[x] {
      OnChromCount(a, c, x);
      OnChromCount(b, c, x);
    }
    assert multiset(OnChrom(a, c)) == multiset(OnChrom(b, c));
    assert |OnChrom(a, c)| == |multiset(OnChrom(a, c))|;
    assert |OnChrom(b, c)| == |multiset(OnChrom(b, c))|;
  }
}
