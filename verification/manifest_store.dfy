/**
 * The scripts' manifest: a record from image key to entry, with the key
 * format, the next free sequence number of a country, lookup by hash,
 * insertion, key-prefix queries and statistics.
 */
module ManifestStore {
  import opened Wrappers
  import opened Strings
  import opened Collections

  /** One image; absent `processed` / `uploaded` flags read as false. */
  datatype StoreEntry = StoreEntry(
    source: string,
    originalUrl: string,
    scrapedAt: string,
    description: Option<string>,
    hash: Option<string>,
    processed: bool,
    uploaded: bool)

  /** The entries record in key insertion order; a record holds each key once. */
  datatype Store = Store(version: int, updatedAt: string, entries: seq<(string, StoreEntry)>)

  predicate ValidStore(m: Store) { DistinctKeys(m.entries) }

  const ManifestVersion := 1

  // ---------------------------------------------------------------------------
  // parseInt(s, 10)
  // ---------------------------------------------------------------------------

  /**
   * `parseInt(s, 10)`: skip leading white space, read an optional sign and
   * the longest run of decimal digits after it; `None` is NaN (no digits).
   */
  function ParseInt(s: string): (r: Option<int>)
    ensures var t := TrimStart(s);
      var signed := t != [] && (t[0] == '+' || t[0] == '-');
      var body := if signed then t[1..] else t;
      && (r.None? <==> DigitRun(body) == 0)
      && (r.Some? && !(signed && t[0] == '-') ==> r.value == DigitsValue(body[..DigitRun(body)]))
      && (r.Some? && signed && t[0] == '-' ==> r.value == 0 - DigitsValue(body[..DigitRun(body)]))
  {
    var t := TrimStart(s);
    var negative := t != [] && t[0] == '-';
    var body := if t != [] && (t[0] == '+' || t[0] == '-') then t[1..] else t;
    var n := DigitRun(body);
    if n == 0 then None
    else
      var v: int := DigitsValue(body[..n]);
      Some(if negative then -v else v)
  }

  /** A plain run of digits parses to its value. */
  lemma ParseIntOfDigits(s: string)
    requires s != [] && AllDigits(s)
    ensures ParseInt(s) == Some(DigitsValue(s))
  {
    assert !IsJsSpace(s[0]);
    assert TrimStart(s) == s;
    DigitRunOfDigits(s);
    assert s[..|s|] == s;
  }

  // ---------------------------------------------------------------------------
  // Keys and sequence numbers
  // ---------------------------------------------------------------------------

  /** "<category>/<cc>/<cc>-" with the country code lower-cased. */
  function SequencePrefix(category: string, countryCode: string): string {
    var cc := Lower(countryCode);
    category + "/" + cc + "/" + cc + "-"
  }

  /** The sequence number written with at least three digits. */
  function PaddedSequence(n: int): (s: string)
    ensures |s| >= 3
  {
    PadStart(IntToString(n), 3, '0')
  }

  /** "<category>/<cc>/<cc>-<sequence padded to three digits>". */
  function GenerateImageKey(category: string, countryCode: string, sequence: int): (key: string)
    ensures StartsWith(key, SequencePrefix(category, countryCode))
    ensures key[|SequencePrefix(category, countryCode)|..] == PaddedSequence(sequence)
  {
    var p := SequencePrefix(category, countryCode);
    var key := p + PaddedSequence(sequence);
    assert key[..|p|] == p;
    assert key[|p|..] == PaddedSequence(sequence);
    key
  }

  /** Reading the sequence back out of a generated key gives the sequence. */
  lemma GeneratedKeySequence(category: string, countryCode: string, n: nat)
    ensures ParseInt(GenerateImageKey(category, countryCode, n)[|SequencePrefix(category, countryCode)|..]) == Some(n)
  {
    var digits := NatToString(n);
    var padded := PaddedSequence(n);
    var zeros := if |digits| >= 3 then 0 else 3 - |digits|;
    assert padded == Repeat('0', zeros) + digits;
    DigitsValueLeadingZeros(zeros, digits);
    DigitsValueOfNatToString(n);
    ParseIntOfDigits(padded);
  }

  /** The sequence a key contributes: its parsed suffix after the prefix, if any. */
  function KeySequence(key: string, prefix: string): Option<int> {
    if StartsWith(key, prefix) then ParseInt(key[|prefix|..]) else None
  }

  /** The largest value present, and 0 when no value exceeds 0 (the loop's start). */
  function MaxSequence(vals: seq<Option<int>>): (r: int)
    ensures r >= 0
    ensures forall i :: 0 <= i < |vals| && vals[i].Some? ==> vals[i].value <= r
    ensures forall v :: Some(v) in vals ==> v <= r
    ensures r == 0 || Some(r) in vals
  {
    if vals == [] then 0
    else
      var prev := MaxSequence(vals[..|vals| - 1]);
      match vals[|vals| - 1]
      case Some(v) => if v > prev then v else prev
      case None => prev
  }

  /** The sequence each key contributes, in record order. */
  function KeySequences(m: Store, category: string, countryCode: string): seq<Option<int>> {
    var p := SequencePrefix(category, countryCode);
    Map(Keys(m.entries), key => KeySequence(key, p))
  }

  /**
   * One past the largest sequence used for this category and country: above
   * every sequence present, and either 1 or one past a sequence present.
   */
  function NextSequence(m: Store, category: string, countryCode: string): (n: int)
    ensures n >= 1
    ensures forall v :: Some(v) in KeySequences(m, category, countryCode) ==> v < n
    ensures n == 1 || Some(n - 1) in KeySequences(m, category, countryCode)
  {
    var vals := KeySequences(m, category, countryCode);
    var r := MaxSequence(vals);
    assert forall v :: Some(v) in vals ==> v <= r;
    r + 1
  }

  /** The country code's case does not matter. */
  lemma NextSequenceIgnoresCase(m: Store, category: string, countryCode: string)
    ensures NextSequence(m, category, Lower(countryCode)) == NextSequence(m, category, countryCode)
    ensures NextSequence(m, category, Upper(countryCode)) == NextSequence(m, category, countryCode)
  {
    LowerIdempotent(countryCode);
    LowerOfUpper(countryCode);
  }

  // ---------------------------------------------------------------------------
  // Record operations
  // ---------------------------------------------------------------------------

  /** `entries[key] = entry`. */
  function AddEntry(m: Store, key: string, entry: StoreEntry): (r: Store)
    ensures Lookup(r.entries, key) == Some(entry)
    ensures key in Keys(m.entries) ==> Keys(r.entries) == Keys(m.entries)
    ensures key !in Keys(m.entries) ==> Keys(r.entries) == Keys(m.entries) + [key]
    ensures ValidStore(m) ==> ValidStore(r)
    ensures r.version == m.version && r.updatedAt == m.updatedAt
  {
    m.(entries := Put(m.entries, key, entry))
  }

  /** Adding under one key leaves every other key's entry as it was. */
  lemma AddEntryOthers(m: Store, key: string, entry: StoreEntry, other: string)
    requires other != key
    ensures Lookup(AddEntry(m, key, entry).entries, other) == Lookup(m.entries, other)
  {
    PutOthers(m.entries, key, entry, other);
  }

  lemma MaxSequenceSnoc(vals: seq<Option<int>>, v: int)
    requires v > MaxSequence(vals)
    ensures MaxSequence(vals + [Some(v)]) == v
  {
    assert (vals + [Some(v)])[..|vals|] == vals;
  }

  /**
   * Storing an image under the key of the next sequence number advances the
   * next sequence number by exactly one.
   */
  lemma NextSequenceAfterAdd(m: Store, category: string, countryCode: string, entry: StoreEntry)
    ensures var n := NextSequence(m, category, countryCode);
      var key := GenerateImageKey(category, countryCode, n);
      NextSequence(AddEntry(m, key, entry), category, countryCode) == n + 1
  {
    var n := NextSequence(m, category, countryCode);
    var key := GenerateImageKey(category, countryCode, n);
    NextKeyIsFresh(m, category, countryCode);
    SequencesAfterAdd(m, category, countryCode, key, entry);
    GeneratedKeySequence(category, countryCode, n);
    MaxSequenceSnoc(KeySequences(m, category, countryCode), n);
  }

  /** No key in the record already carries the next sequence number. */
  lemma NextKeyIsFresh(m: Store, category: string, countryCode: string)
    ensures GenerateImageKey(category, countryCode, NextSequence(m, category, countryCode)) !in Keys(m.entries)
  {
    var n := NextSequence(m, category, countryCode);
    var p := SequencePrefix(category, countryCode);
    var key := GenerateImageKey(category, countryCode, n);
    GeneratedKeySequence(category, countryCode, n);
    assert KeySequence(key, p) == Some(n);
  }

  lemma SequencesAfterAdd(m: Store, category: string, countryCode: string, key: string, entry: StoreEntry)
    requires key !in Keys(m.entries)
    ensures KeySequences(AddEntry(m, key, entry), category, countryCode) ==
      KeySequences(m, category, countryCode) + [KeySequence(key, SequencePrefix(category, countryCode))]
  {
    var p := SequencePrefix(category, countryCode);
    var ks := Keys(m.entries);
    assert Keys(AddEntry(m, key, entry).entries) == ks + [key];
    MapAppend(ks, [key], k => KeySequence(k, p));
  }

  /** Whether an entry records the content hash `h`. */
  predicate HasStoreHash(e: StoreEntry, h: string) { e.hash == Some(h) }

  /** The first key, in record order, whose entry has the content hash `h`. */
  function FindByHash(m: Store, h: string): (r: Option<string>)
    ensures r.None? <==> forall i :: 0 <= i < |m.entries| ==> !HasStoreHash(m.entries[i].1, h)
    ensures r.Some? ==> exists i :: (0 <= i < |m.entries| && m.entries[i].0 == r.value
      && HasStoreHash(m.entries[i].1, h)
      && forall j :: 0 <= j < i ==> !HasStoreHash(m.entries[j].1, h))
  {
    FindHashFrom(m.entries, h)
  }

  function FindHashFrom(es: seq<(string, StoreEntry)>, h: string): (r: Option<string>)
    ensures r.None? <==> forall i :: 0 <= i < |es| ==> !HasStoreHash(es[i].1, h)
    ensures r.Some? ==> exists i :: (0 <= i < |es| && es[i].0 == r.value
      && HasStoreHash(es[i].1, h)
      && forall j :: 0 <= j < i ==> !HasStoreHash(es[j].1, h))
  {
    if es == [] then None
    else if HasStoreHash(es[0].1, h) then
      Some(es[0].0)
    else
      var r := FindHashFrom(es[1..], h);
      if r.Some? then
        var i :| 0 <= i < |es[1..]| && es[1..][i].0 == r.value
          && HasStoreHash(es[1..][i].1, h)
          && forall j :: 0 <= j < i ==> !HasStoreHash(es[1..][j].1, h);
        assert es[i + 1].0 == r.value && HasStoreHash(es[i + 1].1, h);
        assert forall j :: 0 <= j < i + 1 ==> !HasStoreHash(es[j].1, h) by {
          forall j | 0 <= j < i + 1 ensures !HasStoreHash(es[j].1, h) {
            if j > 0 {
              assert es[j] == es[1..][j - 1];
            }
          }
        }
        r
      else
        assert forall i :: 0 <= i < |es| ==> !HasStoreHash(es[i].1, h) by {
          forall i | 0 <= i < |es| ensures !HasStoreHash(es[i].1, h) {
            if i > 0 {
              assert es[i] == es[1..][i - 1];
            }
          }
        }
        r
  }

  /** With keys held once, the key found maps to an entry with that hash. */
  lemma FindByHashEntry(m: Store, h: string)
    requires ValidStore(m) && FindByHash(m, h).Some?
    ensures var e := Lookup(m.entries, FindByHash(m, h).value);
      e.Some? && HasStoreHash(e.value, h)
  {
    var k := FindByHash(m, h).value;
    var i :| 0 <= i < |m.entries| && m.entries[i].0 == k && HasStoreHash(m.entries[i].1, h);
    LookupAt(m.entries, i);
  }

  predicate KeyInCategory(kv: (string, StoreEntry), category: string) {
    StartsWith(kv.0, category + "/")
  }

  predicate KeyInCountry(kv: (string, StoreEntry), category: string, countryCode: string) {
    StartsWith(kv.0, category + "/" + Lower(countryCode) + "/")
  }

  /** The (key, entry) pairs whose key lies under "<category>/", in record order. */
  function EntriesByCategory(m: Store, category: string): (r: seq<(string, StoreEntry)>)
    ensures forall kv :: kv in r <==> kv in m.entries && KeyInCategory(kv, category)
    ensures IsSubsequence(r, m.entries)
  {
    FilterIsSubsequence(m.entries, kv => KeyInCategory(kv, category));
    Filter(m.entries, kv => KeyInCategory(kv, category))
  }

  /** The (key, entry) pairs whose key lies under "<category>/<lower cc>/", in record order. */
  function EntriesByCountry(m: Store, category: string, countryCode: string): (r: seq<(string, StoreEntry)>)
    ensures forall kv :: kv in r <==> kv in m.entries && KeyInCountry(kv, category, countryCode)
    ensures IsSubsequence(r, m.entries)
  {
    FilterIsSubsequence(m.entries, kv => KeyInCountry(kv, category, countryCode));
    Filter(m.entries, kv => KeyInCountry(kv, category, countryCode))
  }

  /** A country's entries are an in-order selection of its category's entries. */
  lemma CountryWithinCategory(m: Store, category: string, countryCode: string)
    ensures EntriesByCountry(m, category, countryCode) ==
      Filter(EntriesByCategory(m, category), kv => KeyInCountry(kv, category, countryCode))
    ensures forall kv :: kv in EntriesByCountry(m, category, countryCode) ==> kv in EntriesByCategory(m, category)
  {
    var p := (kv: (string, StoreEntry)) => KeyInCategory(kv, category);
    var q := (kv: (string, StoreEntry)) => KeyInCountry(kv, category, countryCode);
    forall kv: (string, StoreEntry) | q(kv) ensures p(kv) {
      var a := category + "/";
      assert (category + "/" + Lower(countryCode) + "/")[..|a|] == a;
    }
    FilterNarrower(m.entries, p, q);
  }

  lemma {:induction false} FilterNarrower<T>(xs: seq<T>, p: T -> bool, q: T -> bool)
    requires forall x :: q(x) ==> p(x)
    ensures Filter(xs, q) == Filter(Filter(xs, p), q)
  {
    if xs != [] {
      var init, last := xs[..|xs| - 1], xs[|xs| - 1];
      FilterNarrower(init, p, q);
      FilterAppend(Filter(init, p), if p(last) then [last] else [], q);
    }
  }

  // ---------------------------------------------------------------------------
  // Statistics
  // ---------------------------------------------------------------------------

  datatype Stats = Stats(
    total: int,
    byCategory: seq<(string, int)>,
    bySource: seq<(string, int)>,
    processed: int,
    uploaded: int)

  /** Occurrence counts of each value, values in order of first appearance. */
  function CountBy(xs: seq<string>): (counts: seq<(string, int)>)
    ensures Keys(counts) == Dedup(xs)
  {
    if xs == [] then []
    else
      var prev := CountBy(xs[..|xs| - 1]);
      var x := xs[|xs| - 1];
      Put(prev, x, Lookup(prev, x).GetOr(0) + 1)
  }

  /** Every value is counted as often as it occurs. */
  lemma {:induction false} CountByCounts(xs: seq<string>)
    ensures forall k :: k in xs ==> Lookup(CountBy(xs), k) == Some(multiset(xs)[k])
  {
    if xs != [] {
      var init := xs[..|xs| - 1];
      var x := xs[|xs| - 1];
      CountByCounts(init);
      assert xs == init + [x];
      CountByStep(init, x, CountBy(init), Lookup(CountBy(init), x).GetOr(0) + 1);
    }
  }

  lemma CountByStep<T>(init: seq<T>, x: T, prev: seq<(T, int)>, v: int)
    requires Keys(prev) == Dedup(init)
    requires forall k :: k in init ==> Lookup(prev, k) == Some(multiset(init)[k])
    requires v == Lookup(prev, x).GetOr(0) + 1
    ensures forall k :: k in init + [x] ==> Lookup(Put(prev, x, v), k) == Some(multiset(init + [x])[k])
  {
    forall k | k in init + [x] ensures Lookup(Put(prev, x, v), k) == Some(multiset(init + [x])[k]) {
      InSnoc(init + [x], k);
      assert (init + [x])[..|init|] == init;
      if k !in init {
        assert k !in Keys(prev);
      }
      CountByAt(init, x, prev, v, k);
    }
  }

  lemma CountByAt<T>(init: seq<T>, x: T, prev: seq<(T, int)>, v: int, k: T)
    requires k in init ==> Lookup(prev, k) == Some(multiset(init)[k])
    requires k !in init ==> Lookup(prev, k) == None
    requires v == Lookup(prev, x).GetOr(0) + 1
    requires k in init || k == x
    ensures Lookup(Put(prev, x, v), k) == Some(multiset(init + [x])[k])
  {
    var n := multiset(init)[k];
    MultisetSnocCount(init, x, k);
    CountStep(prev, x, k, n, v);
  }

  /** One more value: its count goes up by one and every other count stays. */
  lemma CountStep<T>(prev: seq<(T, int)>, x: T, k: T, n: int, v: int)
    requires Lookup(prev, k) == (if n == 0 then None else Some(n))
    requires v == Lookup(prev, x).GetOr(0) + 1
    ensures k == x ==> Lookup(Put(prev, x, v), k) == Some(n + 1)
    ensures k != x ==> Lookup(Put(prev, x, v), k) == Lookup(prev, k)
  {
    if k != x {
      PutOthers(prev, x, v, k);
    }
  }

  lemma MultisetSnocCount<T>(init: seq<T>, x: T, k: T)
    ensures multiset(init + [x])[k] == multiset(init)[k] + if k == x then 1 else 0
  {
    assert multiset(init + [x]) == multiset(init) + multiset{x};
  }

  function SumValues(al: seq<(string, int)>): int {
    if al == [] then 0 else al[0].1 + SumValues(al[1..])
  }

  lemma {:induction false} SumValuesPut(al: seq<(string, int)>, k: string, v: int)
    ensures SumValues(Put(al, k, v)) == SumValues(al) - Lookup(al, k).GetOr(0) + v
  {
    if al != [] && al[0].0 != k {
      SumValuesPut(al[1..], k, v);
    }
  }

  /** The counts add up to the number of values counted. */
  lemma {:induction false} CountBySum(xs: seq<string>)
    ensures SumValues(CountBy(xs)) == |xs|
  {
    if xs != [] {
      var prev := CountBy(xs[..|xs| - 1]);
      var x := xs[|xs| - 1];
      CountBySum(xs[..|xs| - 1]);
      SumValuesPut(prev, x, Lookup(prev, x).GetOr(0) + 1);
    }
  }

  /** The category part of a key: the text before its first "/". */
  function KeyCategory(key: string): (c: string)
    ensures '/' !in c
    ensures StartsWith(key, c)
  {
    var parts := Split(key, '/');
    SplitFirstIsPrefix(key, '/');
    parts[0]
  }

  lemma {:induction false} SplitFirstIsPrefix(s: string, d: char)
    ensures StartsWith(s, Split(s, d)[0])
  {
    if s != [] {
      SplitFirstIsPrefix(s[1..], d);
    }
  }

  function EntryKey(kv: (string, StoreEntry)): string { KeyCategory(kv.0) }
  function EntrySourceName(kv: (string, StoreEntry)): string { kv.1.source }
  predicate IsProcessed(kv: (string, StoreEntry)) { kv.1.processed }
  predicate IsUploaded(kv: (string, StoreEntry)) { kv.1.uploaded }

  /**
   * Counts per key category and per source, and how many entries are
   * processed and uploaded; none of the counts can exceed the total.
   */
  function GetStats(m: Store): (s: Stats)
    ensures s.total == |m.entries|
    ensures 0 <= s.processed <= s.total && 0 <= s.uploaded <= s.total
    ensures s.processed == |Filter(m.entries, IsProcessed)| && s.uploaded == |Filter(m.entries, IsUploaded)|
    ensures Keys(s.byCategory) == Dedup(Map(m.entries, EntryKey))
    ensures Keys(s.bySource) == Dedup(Map(m.entries, EntrySourceName))
    ensures forall c :: c in Map(m.entries, EntryKey) ==>
      Lookup(s.byCategory, c) == Some(multiset(Map(m.entries, EntryKey))[c])
    ensures forall src :: src in Map(m.entries, EntrySourceName) ==>
      Lookup(s.bySource, src) == Some(multiset(Map(m.entries, EntrySourceName))[src])
  {
    CountByCounts(Map(m.entries, EntryKey));
    CountByCounts(Map(m.entries, EntrySourceName));
    Stats(
      |m.entries|,
      CountBy(Map(m.entries, EntryKey)),
      CountBy(Map(m.entries, EntrySourceName)),
      Count(m.entries, IsProcessed),
      Count(m.entries, IsUploaded))
  }

  /** The per-category and the per-source counts each sum to the total. */
  lemma StatsAddUp(m: Store)
    ensures SumValues(GetStats(m).byCategory) == GetStats(m).total
    ensures SumValues(GetStats(m).bySource) == GetStats(m).total
  {
    CountBySum(Map(m.entries, EntryKey));
    CountBySum(Map(m.entries, EntrySourceName));
  }
}
