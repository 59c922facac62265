/**
 * Sequence helpers that stand for the JavaScript and Python collection idioms
 * the system uses: `Array.prototype.filter`, `[...new Set(xs)]`, stable
 * `sort` with a comparator, and grouping into a record keyed by a field
 * (a record is an association list here: keys in insertion order, each once).
 */
module Collections {
  import opened Wrappers

  // ---------------------------------------------------------------------------
  // Filter, count, subsequences
  // ---------------------------------------------------------------------------

  /** `xs.filter(p)`: the elements satisfying `p`, in order. */
  function Filter<T(==)>(xs: seq<T>, p: T -> bool): (r: seq<T>)
    ensures |r| <= |xs|
    ensures forall i :: 0 <= i < |r| ==> r[i] in xs && p(r[i])
    ensures forall i :: 0 <= i < |xs| && p(xs[i]) ==> xs[i] in r
  {
    if xs == [] then []
    else Filter(xs[..|xs| - 1], p) + (if p(xs[|xs| - 1]) then [xs[|xs| - 1]] else [])
  }

  /** Membership in a sequence split before its last element. */
  lemma InSnoc<T>(xs: seq<T>, x: T)
    requires xs != []
    ensures x in xs <==> x in xs[..|xs| - 1] || xs[|xs| - 1] == x
  {
    assert xs == xs[..|xs| - 1] + [xs[|xs| - 1]];
  }

  lemma FilterAppend<T>(xs: seq<T>, ys: seq<T>, p: T -> bool)
    ensures Filter(xs + ys, p) == Filter(xs, p) + Filter(ys, p)
    decreases |ys|
  {
    if ys == [] {
      assert xs + ys == xs;
    } else {
      assert (xs + ys)[..|xs + ys| - 1] == xs + ys[..|ys| - 1];
      FilterAppend(xs, ys[..|ys| - 1], p);
    }
  }

  /** The images of `f` of the elements that satisfy `p`, in order. */
  function FilterMap<T, U>(xs: seq<T>, p: T -> bool, f: T -> U): (r: seq<U>)
    ensures |r| <= |xs|
  {
    if xs == [] then []
    else
      var rest := FilterMap(xs[1..], p, f);
      if p(xs[0]) then [f(xs[0])] + rest else rest
  }

  /** A filter-map yields nothing exactly when no element satisfies its predicate. */
  lemma {:induction false} FilterMapEmpty<T, U>(xs: seq<T>, p: T -> bool, f: T -> U)
    ensures FilterMap(xs, p, f) == [] <==> forall i :: 0 <= i < |xs| ==> !p(xs[i])
  {
    if xs != [] {
      FilterMapEmpty(xs[1..], p, f);
      if forall i :: 0 <= i < |xs[1..]| ==> !p(xs[1..][i]) {
        forall i | 1 <= i < |xs| ensures !p(xs[i]) { assert xs[i] == xs[1..][i - 1]; }
      }
    }
  }

  lemma {:induction false} FilterAll<T>(xs: seq<T>, p: T -> bool)
    requires forall x :: x in xs ==> p(x)
    ensures Filter(xs, p) == xs
  {
    if xs != [] {
      var init, last := xs[..|xs| - 1], xs[|xs| - 1];
      forall x | x in init ensures p(x) { InSnoc(xs, x); }
      FilterAll(init, p);
      assert p(last);
      assert xs == init + [last];
    }
  }

  /** Filtering twice with the same predicate changes nothing the second time. */
  lemma FilterIdempotent<T>(xs: seq<T>, p: T -> bool)
    ensures Filter(Filter(xs, p), p) == Filter(xs, p)
  {
    FilterAll(Filter(xs, p), p);
  }

  /** Filtering by `p` then `q` is filtering by their conjunction. */
  lemma {:induction false} FilterFilter<T>(xs: seq<T>, p: T -> bool, q: T -> bool)
    ensures Filter(Filter(xs, p), q) == Filter(xs, x => p(x) && q(x))
  {
    if xs != [] {
      var init, last := xs[..|xs| - 1], xs[|xs| - 1];
      FilterFilter(init, p, q);
      FilterAppend(Filter(init, p), if p(last) then [last] else [], q);
    }
  }

  /** Filters by predicates that agree on every element of the input give the same result. */
  lemma {:induction false} FilterExt<T>(xs: seq<T>, p: T -> bool, q: T -> bool)
    requires forall x :: x in xs ==> p(x) == q(x)
    ensures Filter(xs, p) == Filter(xs, q)
  {
    if xs != [] {
      FilterExt(xs[..|xs| - 1], p, q);
    }
  }

  /** Filtering by `p` then `q` is filtering by any predicate that agrees with their conjunction. */
  lemma {:induction false} FilterFilterAs<T>(xs: seq<T>, p: T -> bool, q: T -> bool, both: T -> bool)
    requires forall x :: x in xs ==> both(x) == (p(x) && q(x))
    ensures Filter(Filter(xs, p), q) == Filter(xs, both)
  {
    if xs != [] {
      var init, last := xs[..|xs| - 1], xs[|xs| - 1];
      FilterFilterAs(init, p, q, both);
      FilterAppend(Filter(init, p), if p(last) then [last] else [], q);
    }
  }

  /** Number of elements satisfying `p`. */
  function Count<T(==)>(xs: seq<T>, p: T -> bool): (n: nat)
    ensures n == |Filter(xs, p)|
  {
    if xs == [] then 0
    else Count(xs[..|xs| - 1], p) + (if p(xs[|xs| - 1]) then 1 else 0)
  }

  /** The elements of `b` whose position is marked in `mask`, in order. */
  function Pick<T>(b: seq<T>, mask: seq<bool>): seq<T>
    requires |mask| == |b|
  {
    if b == [] then []
    else Pick(b[..|b| - 1], mask[..|b| - 1]) + (if mask[|b| - 1] then [b[|b| - 1]] else [])
  }

  /** `a` is an order-preserving subsequence of `b`: some selection of positions of `b` yields it. */
  ghost predicate IsSubsequence<T>(a: seq<T>, b: seq<T>) {
    exists mask: seq<bool> :: |mask| == |b| && a == Pick(b, mask)
  }

  /** The filter of a sequence is an order-preserving subsequence of it. */
  lemma FilterIsSubsequence<T>(xs: seq<T>, p: T -> bool)
    ensures IsSubsequence(Filter(xs, p), xs)
  {
    FilterIsPick(xs, p);
  }

  lemma {:induction false} FilterIsPick<T>(xs: seq<T>, p: T -> bool)
    ensures Filter(xs, p) == Pick(xs, Map(xs, p))
  {
    if xs != [] {
      FilterIsPick(xs[..|xs| - 1], p);
      assert Map(xs, p)[..|xs| - 1] == Map(xs[..|xs| - 1], p);
    }
  }

  // ---------------------------------------------------------------------------
  // Distinctness and `[...new Set(xs)]`
  // ---------------------------------------------------------------------------

  predicate Distinct<T(==)>(xs: seq<T>) {
    forall i, j :: 0 <= i < j < |xs| ==> xs[i] != xs[j]
  }

  /** `[...new Set(xs)]`: each value once, at the position of its first occurrence. */
  function Dedup<T(==)>(xs: seq<T>): (r: seq<T>)
    ensures Distinct(r)
    ensures forall i :: 0 <= i < |r| ==> r[i] in xs
    ensures forall i :: 0 <= i < |xs| ==> xs[i] in r
    ensures |r| <= |xs|
  {
    if xs == [] then []
    else
      var d := Dedup(xs[..|xs| - 1]);
      if xs[|xs| - 1] in d then d else d + [xs[|xs| - 1]]
  }

  /** Marks the first occurrence of every value. */
  function FirstOccurrences<T(==)>(xs: seq<T>): (mask: seq<bool>)
    ensures |mask| == |xs|
  {
    if xs == [] then []
    else FirstOccurrences(xs[..|xs| - 1]) + [xs[|xs| - 1] !in xs[..|xs| - 1]]
  }

  /** Deduplication keeps the order of first occurrences: it is a subsequence of its input. */
  lemma DedupIsSubsequence<T>(xs: seq<T>)
    ensures IsSubsequence(Dedup(xs), xs)
  {
    DedupIsPick(xs);
  }

  lemma {:induction false} DedupIsPick<T>(xs: seq<T>)
    ensures Dedup(xs) == Pick(xs, FirstOccurrences(xs))
  {
    if xs != [] {
      var init := xs[..|xs| - 1];
      DedupIsPick(init);
      assert FirstOccurrences(xs)[..|xs| - 1] == FirstOccurrences(init);
      var d := Dedup(init);
      assert xs[|xs| - 1] in d <==> xs[|xs| - 1] in init by {
        if xs[|xs| - 1] in init {
          var j :| 0 <= j < |init| && init[j] == xs[|xs| - 1];
        }
      }
    }
  }

  lemma DedupSnoc<T>(xs: seq<T>, x: T)
    ensures Dedup(xs + [x]) == if x in Dedup(xs) then Dedup(xs) else Dedup(xs) + [x]
  {
    assert (xs + [x])[..|xs + [x]| - 1] == xs;
  }

  lemma DedupOfDistinct<T>(xs: seq<T>)
    requires Distinct(xs)
    ensures Dedup(xs) == xs
  {
    if xs != [] {
      DedupOfDistinct(xs[..|xs| - 1]);
    }
  }

  /** `xs.map(f)` */
  function Map<T(==), U(==)>(xs: seq<T>, f: T -> U): (r: seq<U>)
    ensures |r| == |xs|
    ensures forall i :: 0 <= i < |xs| ==> r[i] == f(xs[i])
  {
    if xs == [] then [] else [f(xs[0])] + Map(xs[1..], f)
  }

  // ---------------------------------------------------------------------------
  // Orders and stable insertion sort
  // ---------------------------------------------------------------------------

  lemma {:induction false} MapAppend<T, U>(xs: seq<T>, ys: seq<T>, f: T -> U)
    ensures Map(xs + ys, f) == Map(xs, f) + Map(ys, f)
  {
    if xs != [] {
      assert (xs + ys)[1..] == xs[1..] + ys;
      MapAppend(xs[1..], ys, f);
    }
  }

  ghost predicate TotalPreorder<T(!new)>(leq: (T, T) -> bool) {
    && (forall a, b :: leq(a, b) || leq(b, a))
    && (forall a, b, c :: leq(a, b) && leq(b, c) ==> leq(a, c))
  }

  predicate Sorted<T(==)>(xs: seq<T>, leq: (T, T) -> bool) {
    forall i, j :: 0 <= i < j < |xs| ==> leq(xs[i], xs[j])
  }

  /** Inserts `x` before the first element it is not above, so that equal elements keep their order. */
  function Insert<T(==)>(x: T, s: seq<T>, leq: (T, T) -> bool): (r: seq<T>)
    ensures multiset(r) == multiset(s) + multiset{x}
    ensures |r| == |s| + 1
  {
    if s == [] then [x]
    else if leq(x, s[0]) then [x] + s
    else
      assert s == [s[0]] + s[1..];
      [s[0]] + Insert(x, s[1..], leq)
  }

  lemma {:induction false} InsertSorted<T(!new)>(x: T, s: seq<T>, leq: (T, T) -> bool)
    requires TotalPreorder(leq) && Sorted(s, leq)
    ensures Sorted(Insert(x, s, leq), leq)
  {
    if s != [] && !leq(x, s[0]) {
      InsertSorted(x, s[1..], leq);
      var r := Insert(x, s, leq);
      assert leq(s[0], x);
      forall j | 0 < j < |r| ensures leq(r[0], r[j]) {
        assert r[j] in multiset(Insert(x, s[1..], leq));
        assert r[j] == x || r[j] in multiset(s[1..]);
        if r[j] != x {
          var k :| 0 <= k < |s[1..]| && s[1..][k] == r[j];
          assert leq(s[0], s[k + 1]);
        }
      }
    }
  }

  /** A stable sort with comparator `leq` (JavaScript's `Array.prototype.sort`, Python's `sorted`). */
  function SortBy<T(==)>(s: seq<T>, leq: (T, T) -> bool): (r: seq<T>)
    ensures multiset(r) == multiset(s)
    ensures |r| == |s|
  {
    if s == [] then []
    else
      assert s == [s[0]] + s[1..];
      Insert(s[0], SortBy(s[1..], leq), leq)
  }

  /** The sort yields a sorted permutation of its input. */
  lemma {:induction false} SortBySorted<T(!new)>(s: seq<T>, leq: (T, T) -> bool)
    requires TotalPreorder(leq)
    ensures Sorted(SortBy(s, leq), leq)
  {
    if s != [] {
      SortBySorted(s[1..], leq);
      InsertSorted(s[0], SortBy(s[1..], leq), leq);
    }
  }

  /** The elements that `leq` ranks level with `x`, in both directions. */
  function TiedWith<T>(leq: (T, T) -> bool, x: T): T -> bool {
    y => leq(x, y) && leq(y, x)
  }

  /** Inserting `a` places it after every element it does not strictly precede. */
  lemma {:induction false} InsertKeepsTies<T>(a: T, t: seq<T>, leq: (T, T) -> bool, p: T -> bool)
    requires forall y :: p(a) && p(y) ==> leq(a, y)
    ensures Filter(Insert(a, t, leq), p) == Filter([a], p) + Filter(t, p)
  {
    if t == [] {
      assert [a] + t == [a];
    } else if leq(a, t[0]) {
      FilterAppend([a], t, p);
    } else {
      var rest := Insert(a, t[1..], leq);
      InsertKeepsTies(a, t[1..], leq, p);
      FilterAppend([t[0]], rest, p);
      assert t == [t[0]] + t[1..];
      FilterAppend([t[0]], t[1..], p);
      SwapUntied(a, t[0], t[1..], p);
    }
  }

  /** An element not tied with `a` commutes with it under the filter. */
  lemma SwapUntied<T>(a: T, b: T, u: seq<T>, p: T -> bool)
    requires !(p(a) && p(b))
    ensures Filter([b], p) + (Filter([a], p) + Filter(u, p)) == Filter([a], p) + (Filter([b], p) + Filter(u, p))
  {
    FilterSingle(a, p);
    FilterSingle(b, p);
  }

  lemma FilterSingle<T>(a: T, p: T -> bool)
    ensures Filter([a], p) == if p(a) then [a] else []
  {
    assert [a][..0] == [];
  }

  /** The sort is stable: the elements tied with any `x` appear in their input order. */
  lemma {:induction false} SortByStable<T(!new)>(s: seq<T>, leq: (T, T) -> bool, x: T)
    requires TotalPreorder(leq)
    ensures Filter(SortBy(s, leq), TiedWith(leq, x)) == Filter(s, TiedWith(leq, x))
  {
    if s != [] {
      SortByStable(s[1..], leq, x);
      var p := TiedWith(leq, x);
      forall y | p(s[0]) && p(y) ensures leq(s[0], y) {
        assert leq(s[0], x) && leq(x, y);
      }
      InsertKeepsTies(s[0], SortBy(s[1..], leq), leq, p);
      assert s == [s[0]] + s[1..];
      FilterAppend([s[0]], s[1..], TiedWith(leq, x));
    }
  }

  lemma SortByMembers<T>(s: seq<T>, leq: (T, T) -> bool)
    ensures forall x :: x in SortBy(s, leq) <==> x in s
  {
    var r := SortBy(s, leq);
    assert forall x :: x in r <==> x in multiset(r);
    assert forall x :: x in s <==> x in multiset(s);
  }

  lemma DistinctOfPermutation<T>(a: seq<T>, b: seq<T>)
    requires multiset(a) == multiset(b) && Distinct(a)
    ensures Distinct(b)
  {
    if !Distinct(b) {
      var i, j :| 0 <= i < j < |b| && b[i] == b[j];
      assert multiset(b)[b[i]] >= 2 by {
        assert b == b[..i] + [b[i]] + b[i + 1..j] + [b[j]] + b[j + 1..];
        assert multiset(b) == multiset(b[..i]) + multiset{b[i]} + multiset(b[i + 1..j]) + multiset{b[j]} + multiset(b[j + 1..]);
      }
      MultisetCountDistinct(a, b[i]);
    }
  }

  lemma {:induction false} MultisetCountDistinct<T>(a: seq<T>, x: T)
    requires Distinct(a)
    ensures multiset(a)[x] <= 1
  {
    if a != [] {
      MultisetCountDistinct(a[1..], x);
      assert a == [a[0]] + a[1..];
      if a[0] == x {
        assert x !in a[1..];
      }
    }
  }

  /** Removing one occurrence from a sequence removes one from its multiset. */
  lemma RemoveAtMultiset<T>(b: seq<T>, j: int)
    requires 0 <= j < |b|
    ensures multiset(b[..j] + b[j + 1..]) == multiset(b) - multiset{b[j]}
  {
    assert b == b[..j] + [b[j]] + b[j + 1..];
  }

  lemma MapRemoveAt<T, U>(b: seq<T>, j: int, f: T -> U)
    requires 0 <= j < |b|
    ensures Map(b[..j] + b[j + 1..], f) == Map(b, f)[..j] + Map(b, f)[j + 1..]
  {
    var b' := b[..j] + b[j + 1..];
    var m := Map(b, f);
    var m' := Map(b', f);
    forall i | 0 <= i < |m'| ensures m'[i] == (m[..j] + m[j + 1..])[i] {
      if i < j {
        assert b'[i] == b[i];
      } else {
        assert b'[i] == b[i + 1];
      }
    }
  }

  /** Mapping commutes with permutation: permuted inputs give permuted images. */
  lemma {:induction false} MapPermutation<T, U>(a: seq<T>, b: seq<T>, f: T -> U)
    requires multiset(a) == multiset(b)
    ensures multiset(Map(a, f)) == multiset(Map(b, f))
    decreases |a|
  {
    if a == [] {
      assert |b| == |multiset(b)| == 0;
    } else {
      var j := PermutationHead(a, b);
      MapPermutation(a[1..], b[..j] + b[j + 1..], f);
      MapRemoveMultiset(b, j, f);
      assert Map(a, f) == [f(a[0])] + Map(a[1..], f);
    }
  }

  /** Where an element of a permutation sits in the original. */
  lemma PermutationIndex<T>(a: seq<T>, b: seq<T>, i: int) returns (j: int)
    requires multiset(a) == multiset(b) && 0 <= i < |b|
    ensures 0 <= j < |a| && a[j] == b[i]
  {
    assert b[i] in multiset(b);
    assert b[i] in a;
    j :| 0 <= j < |a| && a[j] == b[i];
  }

  /** Where the head of a sequence sits in a permutation of it. */
  lemma PermutationHead<T>(a: seq<T>, b: seq<T>) returns (j: int)
    requires a != [] && multiset(a) == multiset(b)
    ensures 0 <= j < |b| && b[j] == a[0]
    ensures multiset(a[1..]) == multiset(b[..j] + b[j + 1..])
  {
    HeadTailMultiset(a);
    assert a[0] in multiset(b);
    j :| 0 <= j < |b| && b[j] == a[0];
    RemoveAtMultiset(b, j);
  }

  lemma HeadTailMultiset<T>(a: seq<T>)
    requires a != []
    ensures a[0] in multiset(a)
    ensures multiset(a[1..]) == multiset(a) - multiset{a[0]}
  {
    assert a == [a[0]] + a[1..];
  }

  lemma MapRemoveMultiset<T, U>(b: seq<T>, j: int, f: T -> U)
    requires 0 <= j < |b|
    ensures multiset(Map(b, f)) == multiset{f(b[j])} + multiset(Map(b[..j] + b[j + 1..], f))
  {
    var mb := Map(b, f);
    MapRemoveAt(b, j, f);
    RemoveAtMultiset(mb, j);
  }

  /** Code-point lexicographic order on strings (Python's string order; JavaScript's default `sort`). */
  predicate LexLeq(a: string, b: string)
    decreases |a|
  {
    a == [] || (b != [] && (a[0] < b[0] || (a[0] == b[0] && LexLeq(a[1..], b[1..]))))
  }

  lemma {:induction false} LexLeqTotal(a: string, b: string)
    ensures LexLeq(a, b) || LexLeq(b, a)
    decreases |a|
  {
    if a != [] && b != [] && a[0] == b[0] {
      LexLeqTotal(a[1..], b[1..]);
    }
  }

  lemma {:induction false} LexLeqTransitive(a: string, b: string, c: string)
    requires LexLeq(a, b) && LexLeq(b, c)
    ensures LexLeq(a, c)
    decreases |a|
  {
    if a != [] && a[0] == b[0] && b[0] == c[0] {
      LexLeqTransitive(a[1..], b[1..], c[1..]);
    }
  }

  lemma {:induction false} LexLeqAntisymmetric(a: string, b: string)
    requires LexLeq(a, b) && LexLeq(b, a)
    ensures a == b
    decreases |a|
  {
    if a != [] {
      LexLeqAntisymmetric(a[1..], b[1..]);
      assert a == [a[0]] + a[1..] && b == [b[0]] + b[1..];
    }
  }

  lemma LexLeqIsTotalPreorder()
    ensures TotalPreorder(LexLeq)
  {
    forall a: string, b: string ensures LexLeq(a, b) || LexLeq(b, a) {
      LexLeqTotal(a, b);
    }
    forall a: string, b: string, c: string | LexLeq(a, b) && LexLeq(b, c) ensures LexLeq(a, c) {
      LexLeqTransitive(a, b, c);
    }
  }

  /** `xs.sort()` on strings: ascending code-point order, a permutation of the input. */
  function SortStrings(xs: seq<string>): (r: seq<string>)
    ensures multiset(r) == multiset(xs)
    ensures |r| == |xs|
    ensures Sorted(r, LexLeq)
  {
    LexLeqIsTotalPreorder();
    SortBySorted(xs, LexLeq);
    SortBy(xs, LexLeq)
  }

  function IntLeq(a: int, b: int): bool { a <= b }

  /** `xs.sort((a, b) => a - b)`: ascending numeric order, a permutation of the input. */
  function SortInts(xs: seq<int>): (r: seq<int>)
    ensures multiset(r) == multiset(xs)
    ensures |r| == |xs|
    ensures forall i, j :: 0 <= i < j < |r| ==> r[i] <= r[j]
  {
    SortBySorted(xs, IntLeq);
    SortBy(xs, IntLeq)
  }

  /** `[...new Set(xs)].sort()`: each value once, in ascending code-point order. */
  function SortedUnique(xs: seq<string>): (r: seq<string>)
    ensures Distinct(r)
    ensures Sorted(r, LexLeq)
    ensures forall x :: x in r <==> x in xs
  {
    var d := Dedup(xs);
    var r := SortBy(d, LexLeq);
    LexLeqIsTotalPreorder();
    SortBySorted(d, LexLeq);
    SortByMembers(d, LexLeq);
    DistinctOfPermutation(d, r);
    r
  }

  /** In a sorted list of distinct strings each one is strictly below the next. */
  lemma SortedUniqueStrictlyAscending(xs: seq<string>, i: int, j: int)
    requires 0 <= i < j < |SortedUnique(xs)|
    ensures LexLeq(SortedUnique(xs)[i], SortedUnique(xs)[j])
    ensures !LexLeq(SortedUnique(xs)[j], SortedUnique(xs)[i])
  {
    var r := SortedUnique(xs);
    if LexLeq(r[j], r[i]) {
      LexLeqAntisymmetric(r[i], r[j]);
    }
  }

  // ---------------------------------------------------------------------------
  // Association lists: a JavaScript record / Map with keys in insertion order
  // ---------------------------------------------------------------------------

  function Keys<K(==), V(==)>(al: seq<(K, V)>): (ks: seq<K>)
    ensures |ks| == |al|
    ensures forall i :: 0 <= i < |al| ==> ks[i] == al[i].0
  {
    if al == [] then [] else [al[0].0] + Keys(al[1..])
  }

  /** The position of a key that occurs in an association list. */
  lemma {:induction false} KeyIndex<K, V>(al: seq<(K, V)>, k: K) returns (i: int)
    requires k in Keys(al)
    ensures 0 <= i < |al| && al[i].0 == k
  {
    i :| 0 <= i < |Keys(al)| && Keys(al)[i] == k;
  }

  predicate DistinctKeys<K(==), V(==)>(al: seq<(K, V)>) {
    Distinct(Keys(al))
  }

  /** `record[k]` */
  function Lookup<K(==), V(==)>(al: seq<(K, V)>, k: K): (r: Option<V>)
    ensures r.None? <==> k !in Keys(al)
    ensures r.Some? ==> (k, r.value) in al
  {
    if al == [] then None
    else if al[0].0 == k then Some(al[0].1)
    else Lookup(al[1..], k)
  }

  /** A table value, unless it is missing or empty (JavaScript's `||` fallback). */
  function TableOr(table: seq<(string, string)>, code: string, fallback: string): (r: string)
    ensures Lookup(table, code).Some? && Lookup(table, code).value != "" ==> r == Lookup(table, code).value
    ensures Lookup(table, code).None? || Lookup(table, code).value == "" ==> r == fallback
  {
    match Lookup(table, code)
    case Some(v) => if v != "" then v else fallback
    case None => fallback
  }

  /** Looking up in a concatenation: the first list answers when it has the key. */
  lemma {:induction false} LookupAppend<K, V>(al: seq<(K, V)>, more: seq<(K, V)>, k: K)
    ensures Lookup(al + more, k) == if k in Keys(al) then Lookup(al, k) else Lookup(more, k)
  {
    if al != [] {
      assert (al + more)[1..] == al[1..] + more;
      assert Keys(al) == [al[0].0] + Keys(al[1..]);
      LookupAppend(al[1..], more, k);
    } else {
      assert al + more == more;
    }
  }

  /** With distinct keys, the value stored at a position is the one looked up. */
  lemma {:induction false} LookupAt<K, V>(al: seq<(K, V)>, i: int)
    requires DistinctKeys(al) && 0 <= i < |al|
    ensures Lookup(al, al[i].0) == Some(al[i].1)
  {
    if i > 0 {
      assert Keys(al)[0] != Keys(al)[i];
      assert DistinctKeys(al[1..]) by {
        assert Keys(al[1..]) == Keys(al)[1..];
      }
      LookupAt(al[1..], i - 1);
    }
  }

  /** `record[k] = v`: replace the value in place when `k` is present, append otherwise. */
  function Put<K(==), V>(al: seq<(K, V)>, k: K, v: V): (r: seq<(K, V)>)
    ensures k in Keys(al) ==> Keys(r) == Keys(al)
    ensures k !in Keys(al) ==> Keys(r) == Keys(al) + [k]
    ensures Lookup(r, k) == Some(v)
  {
    if al == [] then [(k, v)]
    else if al[0].0 == k then PutHere(al, v); [(k, v)] + al[1..]
    else
      var rest := Put(al[1..], k, v);
      PutLater(al, k, v, rest);
      [al[0]] + rest
  }

  /** Setting a key keeps the keys distinct. */
  lemma PutDistinctKeys<K, V>(al: seq<(K, V)>, k: K, v: V)
    requires DistinctKeys(al)
    ensures DistinctKeys(Put(al, k, v))
  {
    if k !in Keys(al) {
      DistinctSnoc(Keys(al), k);
    }
  }

  lemma DistinctSnoc<T>(xs: seq<T>, x: T)
    requires Distinct(xs) && x !in xs
    ensures Distinct(xs + [x])
  {
  }

  lemma PutHere<K, V>(al: seq<(K, V)>, v: V)
    requires al != []
    ensures Keys([(al[0].0, v)] + al[1..]) == Keys(al)
    ensures Lookup([(al[0].0, v)] + al[1..], al[0].0) == Some(v)
  {
    KeysCons((al[0].0, v), al[1..]);
    KeysCons(al[0], al[1..]);
    assert [al[0]] + al[1..] == al;
  }

  lemma PutLater<K, V>(al: seq<(K, V)>, k: K, v: V, rest: seq<(K, V)>)
    requires al != [] && al[0].0 != k
    requires k in Keys(al[1..]) ==> Keys(rest) == Keys(al[1..])
    requires k !in Keys(al[1..]) ==> Keys(rest) == Keys(al[1..]) + [k]
    requires Lookup(rest, k) == Some(v)
    ensures k in Keys(al) ==> Keys([al[0]] + rest) == Keys(al)
    ensures k !in Keys(al) ==> Keys([al[0]] + rest) == Keys(al) + [k]
    ensures Lookup([al[0]] + rest, k) == Some(v)
  {
    var x, tail := al[0], al[1..];
    assert [x] + tail == al;
    KeysCons(x, rest);
    KeysCons(x, tail);
    InConsKeys(x.0, Keys(tail), k);
    if k !in Keys(tail) {
      ConsSnoc(x.0, Keys(tail), k);
    }
    LookupCons(x, rest, k);
  }

  /** In a sub-list of a list with distinct keys, a pair is found under its own key. */
  lemma LookupInSublist<K, V>(al: seq<(K, V)>, sub: seq<(K, V)>, p: (K, V))
    requires DistinctKeys(al) && p in sub && p in al
    requires forall x :: x in sub ==> x in al
    ensures Lookup(sub, p.0) == Some(p.1)
  {
    var m :| 0 <= m < |sub| && sub[m] == p;
    assert Keys(sub)[m] == p.0;
    var v := Lookup(sub, p.0).value;
    assert (p.0, v) in al;
    var i :| 0 <= i < |al| && al[i] == p;
    var j :| 0 <= j < |al| && al[j] == (p.0, v);
    assert Keys(al)[j] == Keys(al)[i];
  }

  lemma InConsKeys<K>(a: K, ks: seq<K>, k: K)
    requires a != k
    ensures k in [a] + ks <==> k in ks
  {
  }

  lemma ConsSnoc<K>(a: K, ks: seq<K>, k: K)
    ensures [a] + (ks + [k]) == ([a] + ks) + [k]
  {
  }

  lemma LookupCons<K, V>(p: (K, V), rest: seq<(K, V)>, k: K)
    requires p.0 != k
    ensures Lookup([p] + rest, k) == Lookup(rest, k)
  {
    assert ([p] + rest)[1..] == rest;
  }

  /** The keys of a list with a first pair. */
  lemma KeysCons<K, V>(p: (K, V), rest: seq<(K, V)>)
    ensures Keys([p] + rest) == [p.0] + Keys(rest)
  {
    assert ([p] + rest)[1..] == rest;
  }

  /** Setting a key the list does not have appends it. */
  lemma {:induction false} PutAbsent<K, V>(al: seq<(K, V)>, k: K, v: V)
    requires k !in Keys(al)
    ensures Put(al, k, v) == al + [(k, v)]
  {
    if al != [] {
      assert Keys(al) == [al[0].0] + Keys(al[1..]);
      PutAbsent(al[1..], k, v);
    }
  }

  /** Setting one key leaves every other key's value as it was. */
  lemma {:induction false} PutOthers<K, V>(al: seq<(K, V)>, k: K, v: V, k': K)
    requires k' != k
    ensures Lookup(Put(al, k, v), k') == Lookup(al, k')
  {
    if al != [] && al[0].0 != k {
      PutOthers(al[1..], k, v, k');
    }
  }

  // ---------------------------------------------------------------------------
  // Grouping by a key, groups in order of first appearance
  // ---------------------------------------------------------------------------

  /** Appends `x` to the group of `k`, opening a new group at the end when there is none. */
  function AddToGroup<K(==), T(==)>(gs: seq<(K, seq<T>)>, k: K, x: T): (r: seq<(K, seq<T>)>)
    ensures k in Keys(gs) ==> Keys(r) == Keys(gs)
    ensures k !in Keys(gs) ==> Keys(r) == Keys(gs) + [k]
    ensures Lookup(r, k) == Some(Lookup(gs, k).GetOr([]) + [x])
  {
    Put(gs, k, Lookup(gs, k).GetOr([]) + [x])
  }

  /** Adding to one group leaves every other group as it was. */
  lemma AddToGroupOthers<K, T>(gs: seq<(K, seq<T>)>, k: K, x: T, k': K)
    requires k' != k
    ensures Lookup(AddToGroup(gs, k, x), k') == Lookup(gs, k')
  {
    PutOthers(gs, k, Lookup(gs, k).GetOr([]) + [x], k');
  }

  /** Groups `xs` by `key` the way `forEach` + `groups[key] ??= []` + `push` does. */
  function GroupBy<T(==), K(==)>(xs: seq<T>, key: T -> K): seq<(K, seq<T>)>
  {
    if xs == [] then []
    else AddToGroup(GroupBy(xs[..|xs| - 1], key), key(xs[|xs| - 1]), xs[|xs| - 1])
  }

  /** The elements of `xs` whose key is `k`, in order. */
  function Select<T(==), K(==)>(xs: seq<T>, key: T -> K, k: K): seq<T>
  {
    Filter(xs, x => key(x) == k)
  }

  /** An element is selected exactly when it is in the input and has the key. */
  lemma SelectMember<T, K>(xs: seq<T>, key: T -> K, k: K, x: T)
    ensures x in Select(xs, key, k) <==> x in xs && key(x) == k
  {
    var s := Select(xs, key, k);
    if x in s {
      var i :| 0 <= i < |s| && s[i] == x;
    }
    if x in xs && key(x) == k {
      var i :| 0 <= i < |xs| && xs[i] == x;
    }
  }

  /** The group keys are the distinct keys of the input, in order of first appearance. */
  lemma {:induction false} GroupByKeys<T, K>(xs: seq<T>, key: T -> K)
    ensures Keys(GroupBy(xs, key)) == Dedup(Map(xs, key))
    ensures DistinctKeys(GroupBy(xs, key))
  {
    if xs != [] {
      var init := xs[..|xs| - 1];
      GroupByKeys(init, key);
      assert Map(xs, key)[..|xs| - 1] == Map(init, key);
    }
  }

  /**
   * The group stored under `k` is exactly the in-order selection of the
   * elements whose key is `k`, and there is a group for `k` exactly when some
   * element has that key.
   */
  lemma {:induction false} GroupByLookup<T, K>(xs: seq<T>, key: T -> K, k: K)
    ensures Lookup(GroupBy(xs, key), k) ==
      (if k in Map(xs, key) then Some(Select(xs, key, k)) else None)
  {
    if xs != [] {
      var init, last := xs[..|xs| - 1], xs[|xs| - 1];
      var g0 := GroupBy(init, key);
      var g := AddToGroup(g0, key(last), last);
      assert GroupBy(xs, key) == g;
      GroupByLookup(init, key, k);
      SelectSnoc(xs, key, k);
      MapSnoc(xs, key);
      assert k in Map(xs, key) <==> k in Map(init, key) || key(last) == k;
      if key(last) != k {
        AddToGroupOthers(g0, key(last), last, k);
        assert Lookup(g, k) == Lookup(g0, k);
        assert Select(xs, key, k) == Select(init, key, k);
      } else {
        assert Lookup(g0, k).GetOr([]) == Select(init, key, k) by {
          if k !in Map(init, key) {
            SelectNone(init, key, k);
          }
        }
        assert Lookup(g, k) == Some(Select(init, key, k) + [last]);
        assert Select(xs, key, k) == Select(init, key, k) + [last];
      }
    }
  }

  lemma SelectSnoc<T, K>(xs: seq<T>, key: T -> K, k: K)
    requires xs != []
    ensures Select(xs, key, k) ==
      Select(xs[..|xs| - 1], key, k) + (if key(xs[|xs| - 1]) == k then [xs[|xs| - 1]] else [])
  {
  }

  /** De-duplicating the images of a list with one more element. */
  lemma DedupMapSnoc<T, U>(xs: seq<T>, f: T -> U)
    requires xs != []
    ensures Dedup(Map(xs, f)) ==
      var d := Dedup(Map(xs[..|xs| - 1], f));
      if f(xs[|xs| - 1]) in d then d else d + [f(xs[|xs| - 1])]
  {
    MapSnoc(xs, f);
    var m := Map(xs, f);
    assert m[..|m| - 1] == Map(xs[..|xs| - 1], f);
  }

  lemma MapTail<T, U>(xs: seq<T>, f: T -> U)
    requires xs != []
    ensures Map(xs, f)[1..] == Map(xs[1..], f)
  {
  }

  /** Putting the last element's key into an index of the earlier elements' keys indexes all of them. */
  lemma PutKeysSnoc<T, K, V>(xs: seq<T>, f: T -> K, al: seq<(K, V)>, v: V)
    requires xs != []
    requires DistinctKeys(al) && forall k :: k in Keys(al) <==> k in Map(xs[..|xs| - 1], f)
    ensures DistinctKeys(Put(al, f(xs[|xs| - 1]), v))
    ensures forall k :: k in Keys(Put(al, f(xs[|xs| - 1]), v)) <==> k in Map(xs, f)
  {
    var last := f(xs[|xs| - 1]);
    PutDistinctKeys(al, last, v);
    MapSnoc(xs, f);
    forall k ensures k in Map(xs, f) <==> k in Map(xs[..|xs| - 1], f) || k == last {
      InSnoc(Map(xs, f), k);
    }
  }

  lemma MapSnoc<T, U>(xs: seq<T>, f: T -> U)
    requires xs != []
    ensures Map(xs, f) == Map(xs[..|xs| - 1], f) + [f(xs[|xs| - 1])]
  {
    var a, b := Map(xs, f), Map(xs[..|xs| - 1], f) + [f(xs[|xs| - 1])];
    assert |a| == |b|;
    forall i | 0 <= i < |a|
      ensures a[i] == b[i]
    {
      if i < |xs| - 1 {
        assert b[i] == Map(xs[..|xs| - 1], f)[i];
      }
    }
  }

  lemma {:induction false} SelectNone<T, K>(xs: seq<T>, key: T -> K, k: K)
    requires k !in Map(xs, key)
    ensures Select(xs, key, k) == []
  {
    if xs != [] {
      MapSnoc(xs, key);
      SelectNone(xs[..|xs| - 1], key, k);
    }
  }

  /** Total number of elements over all groups. */
  function SumSizes<K, T>(gs: seq<(K, seq<T>)>): nat {
    if gs == [] then 0 else |gs[0].1| + SumSizes(gs[1..])
  }

  lemma {:induction false} SumSizesPut<K, T>(gs: seq<(K, seq<T>)>, k: K, v: seq<T>)
    ensures SumSizes(Put(gs, k, v)) + |Lookup(gs, k).GetOr([])| == SumSizes(gs) + |v|
  {
    if gs != [] && gs[0].0 != k {
      SumSizesPut(gs[1..], k, v);
    }
  }

  /** Grouping neither loses nor duplicates elements: the group sizes add up to the input length. */
  lemma {:induction false} GroupBySizes<T, K>(xs: seq<T>, key: T -> K)
    ensures SumSizes(GroupBy(xs, key)) == |xs|
  {
    if xs != [] {
      var init, last := xs[..|xs| - 1], xs[|xs| - 1];
      var g0 := GroupBy(init, key);
      GroupBySizes(init, key);
      SumSizesPut(g0, key(last), Lookup(g0, key(last)).GetOr([]) + [last]);
    }
  }

  /** Every element lies in exactly one group: the one keyed by its own key. */
  lemma GroupByPlacesEachOnce<T, K>(xs: seq<T>, key: T -> K, x: T, i: int)
    requires x in xs && 0 <= i < |GroupBy(xs, key)|
    ensures x in GroupBy(xs, key)[i].1 <==> GroupBy(xs, key)[i].0 == key(x)
  {
    var g := GroupBy(xs, key);
    GroupByKeys(xs, key);
    LookupAt(g, i);
    var k := g[i].0;
    assert k in Keys(g);
    GroupByLookup(xs, key, k);
    assert k in Map(xs, key) by {
      assert k in Dedup(Map(xs, key));
    }
    assert g[i].1 == Select(xs, key, k);
    if key(x) == k {
      var j :| 0 <= j < |xs| && xs[j] == x;
    }
  }
}
