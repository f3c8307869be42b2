/**
 * Sorting on one or two integer columns, the way the binning code uses
 * pandas' `sort_values`. The contracts say only "sorted by the key" and
 * "a permutation of the input": the relative order of rows whose keys are
 * equal is left open, as it is with pandas' default sort.
 */
module Sorting {
  /** A two-column sort key, compared lexicographically (major column first). */
  datatype Key = Key(major: int, minor: int)

  predicate KeyLeq(a: Key, b: Key) {
    a.major < b.major || (a.major == b.major && a.minor <= b.minor)
  }

  predicate SortedBy<T>(s: seq<T>, key: T -> Key) {
    forall i, j :: 0 <= i < j < |s| ==> KeyLeq(key(s[i]), key(s[j]))
  }

  /** Inserts `x` into the sorted sequence `s`. */
  function Insert<T(==)>(x: T, s: seq<T>, key: T -> Key): (r: seq<T>)
    requires SortedBy(s, key)
    ensures SortedBy(r, key)
    ensures multiset(r) == multiset(s) + multiset{x}
    ensures |r| == |s| + 1
    decreases |s|, 1
  {
    if s == [] then [x]
    else if KeyLeq(key(x), key(s[0])) then
      ConsSorted(x, s, key);
      [x] + s
    else
      InsertTail(x, s, key);
      [s[0]] + Insert(x, s[1..], key)
  }

  lemma InsertTail<T>(x: T, s: seq<T>, key: T -> Key)
    requires SortedBy(s, key) && s != [] && !KeyLeq(key(x), key(s[0]))
    ensures SortedBy([s[0]] + Insert(x, s[1..], key), key)
    ensures multiset([s[0]] + Insert(x, s[1..], key)) == multiset(s) + multiset{x}
    decreases |s|, 0
  {
    assert s == [s[0]] + s[1..];
    var tail := Insert(x, s[1..], key);
    forall y | y in tail ensures KeyLeq(key(s[0]), key(y)) {
      assert y in multiset(tail);
      if y != x {
        var j :| 0 <= j < |s| - 1 && s[1..][j] == y;
        assert s[j + 1] == y;
      }
    }
    ConsSorted(s[0], tail, key);
  }

  /** A sorted sequence stays sorted when an element no greater than all of it is put in front. */
  lemma ConsSorted<T>(h: T, t: seq<T>, key: T -> Key)
    requires SortedBy(t, key)
    requires forall y :: y in t ==> KeyLeq(key(h), key(y))
    ensures SortedBy([h] + t, key)
  {
    var s := [h] + t;
    forall i, j | 0 <= i < j < |s| ensures KeyLeq(key(s[i]), key(s[j])) {
      assert s[j] == t[j - 1];
      if i > 0 { assert s[i] == t[i - 1]; } else { assert s[j] in t; }
    }
  }

  /** Sorts `s` by `key`. */
  function SortBy<T(==)>(s: seq<T>, key: T -> Key): (r: seq<T>)
    ensures SortedBy(r, key)
    ensures multiset(r) == multiset(s)
    ensures |r| == |s|
  {
    if s == [] then []
    else
      assert s == [s[0]] + s[1..];
      Insert(s[0], SortBy(s[1..], key), key)
  }

  /** In a sorted sequence, everything before position `n` is at most everything from `n` on. */
  lemma PrefixBeforeSuffix<T>(s: seq<T>, key: T -> Key, n: nat, x: T, y: T)
    requires SortedBy(s, key) && n <= |s|
    requires x in s[..n] && y in s[n..]
    ensures KeyLeq(key(x), key(y))
  {
    var i :| 0 <= i < n && s[..n][i] == x;
    var j :| 0 <= j < |s| - n && s[n..][j] == y;
    assert s[i] == x && s[n + j] == y;
  }

  /** Two sequences that are permutations of each other have the same members. */
  lemma SameMembers<T>(a: seq<T>, b: seq<T>)
    requires multiset(a) == multiset(b)
    ensures forall x :: x in a <==> x in b
  {
    forall x ensures x in a <==> x in b {
      assert x in a <==> x in multiset(a);
      assert x in b <==> x in multiset(b);
    }
  }

  /** Taking the first element off one of two permutations, and a matching element off the other, leaves permutations. */
  lemma RemoveMatching<T>(a: seq<T>, b: seq<T>, k: nat)
    requires multiset(a) == multiset(b) && a != [] && k < |b| && b[k] == a[0]
    ensures multiset(a[1..]) == multiset(b[..k] + b[k + 1..])
  {
    assert a == [a[0]] + a[1..];
    assert b == b[..k] + [b[k]] + b[k + 1..];
    assert multiset(a[1..]) == multiset(a) - multiset{a[0]};
  }

  /** The elements of `s` that satisfy `p`, in their order (a boolean row mask). */
  function Filter<T(!new)>(s: seq<T>, p: T -> bool): (r: seq<T>)
    ensures |r| <= |s|
    ensures forall x :: x in r <==> x in s && p(x)
  {
    if s == [] then []
    else (if p(s[0]) then [s[0]] else []) + Filter(s[1..], p)
  }

  /** `f` applied to every element of `s`, in order (a column computed row by row). */
  function Apply<T, U>(s: seq<T>, f: T -> U): (r: seq<U>)
    ensures |r| == |s|
    ensures forall i :: 0 <= i < |s| ==> r[i] == f(s[i])
  {
    if s == [] then [] else [f(s[0])] + Apply(s[1..], f)
  }

  lemma {:induction false} ApplyAppend<T, U>(a: seq<T>, b: seq<T>, f: T -> U)
    ensures Apply(a + b, f) == Apply(a, f) + Apply(b, f)
  {
    if a == [] {
      assert a + b == b;
    } else {
      assert (a + b)[0] == a[0] && (a + b)[1..] == a[1..] + b;
      ApplyAppend(a[1..], b, f);
    }
  }

  /** How often a filter keeps each element: as often as the input holds it, if it passes. */
  lemma {:induction false} FilterCount<T(!new)>(s: seq<T>, p: T -> bool, x: T)
    ensures multiset(Filter(s, p))[x] == if p(x) then multiset(s)[x] else 0
  {
    if s != [] {
      FilterCount(s[1..], p, x);
      assert s == [s[0]] + s[1..];
    }
  }

  /** Filtering two permutations of each other gives permutations of each other. */
  lemma FilterPermutation<T(!new)>(a: seq<T>, b: seq<T>, p: T -> bool)
    requires multiset(a) == multiset(b)
    ensures multiset(Filter(a, p)) == multiset(Filter(b, p))
  {
    forall x ensures multiset(Filter(a, p))[x] == multiset(Filter(b, p))[x] {
      FilterCount(a, p, x);
      FilterCount(b, p, x);
    }
  }

  lemma ApplyCons<T, U>(x: T, t: seq<T>, f: T -> U)
    ensures multiset(Apply([x] + t, f)) == multiset{f(x)} + multiset(Apply(t, f))
  {
    assert ([x] + t)[1..] == t;
  }

  /** Splitting the input at position `k` splits the applied sequence the same way. */
  lemma ApplySplit<T, U>(b: seq<T>, k: nat, f: T -> U)
    requires k < |b|
    ensures multiset(Apply(b, f)) == multiset(Apply(b[..k], f)) + (multiset{f(b[k])} + multiset(Apply(b[k + 1..], f)))
  {
    SplitAt(b, k);
    ApplyAppend(b[..k], [b[k]] + b[k + 1..], f);
    ApplyCons(b[k], b[k + 1..], f);
  }

  lemma SplitAt<T>(b: seq<T>, k: nat)
    requires k < |b|
    ensures b == b[..k] + ([b[k]] + b[k + 1..])
  {
  }

  /** Taking out position `k` takes `f(b[k])` out of the applied sequence. */
  lemma ApplySplice<T, U>(b: seq<T>, k: nat, f: T -> U)
    requires k < |b|
    ensures multiset(Apply(b, f)) == multiset{f(b[k])} + multiset(Apply(b[..k] + b[k + 1..], f))
  {
    ApplySplit(b, k, f);
    ApplyAppend(b[..k], b[k + 1..], f);
    MultisetRegroup(multiset(Apply(b[..k], f)), multiset(Apply(b[k + 1..], f)), f(b[k]));
  }

  lemma MultisetRegroup<U>(before: multiset<U>, after: multiset<U>, y: U)
    ensures before + (multiset{y} + after) == multiset{y} + (before + after)
  {
  }

  /** Applying a function to two permutations of each other gives permutations of each other. */
  lemma {:induction false} ApplyPermutation<T, U>(a: seq<T>, b: seq<T>, f: T -> U)
    requires multiset(a) == multiset(b)
    ensures multiset(Apply(a, f)) == multiset(Apply(b, f))
  {
    if a == [] {
      assert |b| == |multiset(b)| == 0;
    } else {
      assert a[0] in multiset(b);
      var k :| 0 <= k < |b| && b[k] == a[0];
      RemoveMatching(a, b, k);
      ApplyPermutation(a[1..], b[..k] + b[k + 1..], f);
      SplitAt(a, 0);
      ApplyCons(a[0], a[1..], f);
      ApplySplice(b, k, f);
    }
  }

  /** A filter keeps a sorted sequence sorted. */
  lemma {:induction false} FilterSorted<T(!new)>(s: seq<T>, p: T -> bool, key: T -> Key)
    requires SortedBy(s, key)
    ensures SortedBy(Filter(s, p), key)
  {
    if s != [] {
      var tail := Filter(s[1..], p);
      FilterSorted(s[1..], p, key);
      if p(s[0]) {
        forall y | y in tail ensures KeyLeq(key(s[0]), key(y)) {
          var j :| 0 <= j < |s| - 1 && s[1..][j] == y;
          assert s[j + 1] == y;
        }
        ConsSorted(s[0], tail, key);
      } else {
        assert [] + tail == tail;
      }
    }
  }
}
