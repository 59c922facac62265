/**
 * The shared manifest schema: the format validators of its branded strings,
 * the entry and manifest records, and the manifest's queries and
 * hash-deduplicating merge.
 */
module ManifestSchema {
  import opened Wrappers
  import opened Strings
  import opened Collections
  import opened Categories

  // ---------------------------------------------------------------------------
  // Branded string formats
  // ---------------------------------------------------------------------------

  /** A JavaScript regular-expression `.`: anything but a line terminator. */
  predicate IsRegexDotChar(c: char) {
    c != '\n' && c != '\r' && c != '\U{2028}' && c != '\U{2029}'
  }

  /** `^https?:\/\/.+`: a scheme prefix followed by at least one non-line-terminator. */
  predicate IsUrl(s: string) {
    (StartsWith(s, "http://") && |s| > 7 && IsRegexDotChar(s[7]))
    || (StartsWith(s, "https://") && |s| > 8 && IsRegexDotChar(s[8]))
  }

  predicate IsLowerHexDigit(c: char) { '0' <= c <= '9' || 'a' <= c <= 'f' }

  /** `^[a-f0-9]{64}$` */
  predicate IsSha256Hash(s: string) {
    |s| == 64 && forall i :: 0 <= i < |s| ==> IsLowerHexDigit(s[i])
  }

  /** `^[A-Z]{2}$` */
  predicate IsCountryCode(s: string) {
    |s| == 2 && IsAsciiUpper(s[0]) && IsAsciiUpper(s[1])
  }

  // ---------------------------------------------------------------------------
  // Records
  // ---------------------------------------------------------------------------

  /** The storage paths of the three responsive widths. */
  datatype Variants = Variants(w400: string, w800: string, w1200: string)

  /** One scraped image; `scrapedAt` is a timestamp in milliseconds. */
  datatype Entry = Entry(
    id: string,
    category: Category,
    source: Source,
    country: string,
    countryCode: string,
    sourceUrl: string,
    contentHash: string,
    variants: Variants,
    scrapedAt: int)

  /** The field formats the schema enforces on decoding an entry. */
  predicate ValidEntry(e: Entry) {
    IsCountryCode(e.countryCode) && IsUrl(e.sourceUrl) && IsSha256Hash(e.contentHash)
  }

  datatype Manifest = Manifest(version: int, lastUpdated: int, entries: seq<Entry>)

  const PublicBaseUrl: string := "https://pub-3d7bacd76def438caae68643612e60f9.r2.dev"

  /** The 800-pixel variant under the public bucket URL. */
  function DefaultUrl(e: Entry): (url: string)
    ensures url == PublicBaseUrl + "/" + e.variants.w800
  {
    PublicBaseUrl + "/" + e.variants.w800
  }

  /** The three variant URLs with their width descriptors, comma-separated. */
  function EntrySrcset(e: Entry): (s: string)
    ensures StartsWith(s, PublicBaseUrl + "/" + e.variants.w400 + " 400w, ")
    ensures EndsWith(s, ", " + PublicBaseUrl + "/" + e.variants.w1200 + " 1200w")
    ensures Contains(s, DefaultUrl(e) + " 800w")
  {
    var a := PublicBaseUrl + "/" + e.variants.w400 + " 400w, ";
    var b := DefaultUrl(e) + " 800w";
    var c := ", " + PublicBaseUrl + "/" + e.variants.w1200 + " 1200w";
    assert (a + b + c)[|a|..|a| + |b|] == b;
    OccursAtContains(a + b + c, b, |a|);
    assert (a + b + c)[..|a|] == a;
    assert (a + b + c)[|a + b|..] == c;
    a + b + c
  }

  lemma OccursAtContains(s: string, sub: string, i: int)
    requires 0 <= i && i + |sub| <= |s| && s[i..i + |sub|] == sub
    ensures Contains(s, sub)
  {
    ContainsIffOccurs(s, sub);
    assert OccursAt(s, sub, i);
  }

  // ---------------------------------------------------------------------------
  // Queries
  // ---------------------------------------------------------------------------

  function EntryCategory(e: Entry): Category { e.category }
  function EntrySource(e: Entry): Source { e.source }
  function EntryCountry(e: Entry): string { e.countryCode }
  function EntryHash(e: Entry): string { e.contentHash }

  /**
   * Entries grouped by category, groups in order of first appearance: the
   * group of `c` is present exactly when some entry has category `c`, and then
   * it holds exactly those entries, in order.
   */
  function ByCategory(m: Manifest): (groups: seq<(Category, seq<Entry>)>)
    ensures DistinctKeys(groups)
    ensures Keys(groups) == Dedup(Map(m.entries, EntryCategory))
    ensures forall c :: (Lookup(groups, c) ==
      if c in Map(m.entries, EntryCategory) then Some(Select(m.entries, EntryCategory, c)) else None)
  {
    GroupByKeys(m.entries, EntryCategory);
    forall c ensures Lookup(GroupBy(m.entries, EntryCategory), c) ==
      (if c in Map(m.entries, EntryCategory) then Some(Select(m.entries, EntryCategory, c)) else None)
    {
      GroupByLookup(m.entries, EntryCategory, c);
    }
    GroupBy(m.entries, EntryCategory)
  }

  /** Entries grouped by source, with the same guarantees as `ByCategory`. */
  function BySource(m: Manifest): (groups: seq<(Source, seq<Entry>)>)
    ensures DistinctKeys(groups)
    ensures Keys(groups) == Dedup(Map(m.entries, EntrySource))
    ensures forall s :: (Lookup(groups, s) ==
      if s in Map(m.entries, EntrySource) then Some(Select(m.entries, EntrySource, s)) else None)
  {
    GroupByKeys(m.entries, EntrySource);
    forall s ensures Lookup(GroupBy(m.entries, EntrySource), s) ==
      (if s in Map(m.entries, EntrySource) then Some(Select(m.entries, EntrySource, s)) else None)
    {
      GroupByLookup(m.entries, EntrySource, s);
    }
    GroupBy(m.entries, EntrySource)
  }

  /** Entries grouped by country code, with the same guarantees as `ByCategory`. */
  function ByCountry(m: Manifest): (groups: seq<(string, seq<Entry>)>)
    ensures DistinctKeys(groups)
    ensures Keys(groups) == Dedup(Map(m.entries, EntryCountry))
    ensures forall cc :: (Lookup(groups, cc) ==
      if cc in Map(m.entries, EntryCountry) then Some(Select(m.entries, EntryCountry, cc)) else None)
  {
    GroupByKeys(m.entries, EntryCountry);
    forall cc ensures Lookup(GroupBy(m.entries, EntryCountry), cc) ==
      (if cc in Map(m.entries, EntryCountry) then Some(Select(m.entries, EntryCountry, cc)) else None)
    {
      GroupByLookup(m.entries, EntryCountry, cc);
    }
    GroupBy(m.entries, EntryCountry)
  }

  /** Every entry sits in exactly one category group: the one of its own category. */
  lemma ByCategoryPlacesEachOnce(m: Manifest, e: Entry, i: int)
    requires e in m.entries && 0 <= i < |ByCategory(m)|
    ensures e in ByCategory(m)[i].1 <==> ByCategory(m)[i].0 == e.category
  {
    GroupByPlacesEachOnce(m.entries, EntryCategory, e, i);
  }

  /** Every entry sits in exactly one source group: the one of its own source. */
  lemma BySourcePlacesEachOnce(m: Manifest, e: Entry, i: int)
    requires e in m.entries && 0 <= i < |BySource(m)|
    ensures e in BySource(m)[i].1 <==> BySource(m)[i].0 == e.source
  {
    GroupByPlacesEachOnce(m.entries, EntrySource, e, i);
  }

  /** Every entry sits in exactly one country group: the one of its own code. */
  lemma ByCountryPlacesEachOnce(m: Manifest, e: Entry, i: int)
    requires e in m.entries && 0 <= i < |ByCountry(m)|
    ensures e in ByCountry(m)[i].1 <==> ByCountry(m)[i].0 == e.countryCode
  {
    GroupByPlacesEachOnce(m.entries, EntryCountry, e, i);
  }

  /** The country codes present, each once, in order of first appearance. */
  function CountryCodes(m: Manifest): (codes: seq<string>)
    ensures Distinct(codes)
    ensures forall cc :: cc in codes <==> exists i :: 0 <= i < |m.entries| && m.entries[i].countryCode == cc
  {
    var r := Dedup(Map(m.entries, EntryCountry));
    assert forall cc :: cc in r <==> cc in Map(m.entries, EntryCountry);
    r
  }

  /** The categories present, each once, in order of first appearance. */
  function CategoriesOf(m: Manifest): (cats: seq<Category>)
    ensures Distinct(cats)
    ensures forall c :: c in cats <==> exists i :: 0 <= i < |m.entries| && m.entries[i].category == c
  {
    var r := Dedup(Map(m.entries, EntryCategory));
    assert forall c :: c in r <==> c in Map(m.entries, EntryCategory);
    r
  }

  predicate InSelection(e: Entry, category: Category, countryCode: Option<string>) {
    e.category == category && (countryCode.None? || e.countryCode == countryCode.value)
  }

  /**
   * The entries of a category, and of a country when one is given: exactly
   * the qualifying entries, in manifest order.
   */
  function FilterEntries(m: Manifest, category: Category, countryCode: Option<string>): (r: seq<Entry>)
    ensures forall e :: e in r <==> e in m.entries && InSelection(e, category, countryCode)
    ensures IsSubsequence(r, m.entries)
  {
    var p := (e: Entry) => InSelection(e, category, countryCode);
    FilterIsSubsequence(m.entries, p);
    Filter(m.entries, p)
  }

  /** Whether some entry carries the content hash `h`. */
  function HasHash(m: Manifest, h: string): (b: bool)
    ensures b <==> exists i :: 0 <= i < |m.entries| && m.entries[i].contentHash == h
  {
    h in Map(m.entries, EntryHash)
  }

  // ---------------------------------------------------------------------------
  // Merging
  // ---------------------------------------------------------------------------

  /** The new entries whose hash is not already in `existing`, in input order. */
  function UniqueNew(existing: seq<Entry>, batch: seq<Entry>): seq<Entry> {
    var hashes := Map(existing, EntryHash);
    Filter(batch, (e: Entry) => e.contentHash !in hashes)
  }

  /**
   * Adds a batch, skipping every entry whose hash the manifest already has;
   * `now` stands for the merge time.
   */
  function Merge(m: Manifest, batch: seq<Entry>, now: int): (r: Manifest)
    ensures r.version == m.version && r.lastUpdated == now
    ensures |m.entries| <= |r.entries| && r.entries[..|m.entries|] == m.entries
    ensures forall e :: e in r.entries[|m.entries|..] <==> e in batch && !HasHash(m, e.contentHash)
  {
    var u := UniqueNew(m.entries, batch);
    assert (m.entries + u)[..|m.entries|] == m.entries;
    assert (m.entries + u)[|m.entries|..] == u;
    Manifest(m.version, now, m.entries + u)
  }

  /** The appended part is the in-order filter of the batch, duplicates in the batch included. */
  lemma MergeAppendsInOrder(m: Manifest, batch: seq<Entry>, now: int)
    ensures Merge(m, batch, now).entries == m.entries + UniqueNew(m.entries, batch)
    ensures IsSubsequence(UniqueNew(m.entries, batch), batch)
  {
    FilterIsSubsequence(batch, (e: Entry) => e.contentHash !in Map(m.entries, EntryHash));
  }

  /** After a merge, a hash is present iff it was present before or came with the batch. */
  lemma MergeHasHash(m: Manifest, batch: seq<Entry>, now: int, h: string)
    ensures HasHash(Merge(m, batch, now), h) <==>
      HasHash(m, h) || exists i :: 0 <= i < |batch| && batch[i].contentHash == h
  {
    if HasHash(Merge(m, batch, now), h) {
      MergedHashOrigin(m, batch, now, h);
    }
    if !HasHash(m, h) && exists i :: 0 <= i < |batch| && batch[i].contentHash == h {
      var i :| 0 <= i < |batch| && batch[i].contentHash == h;
      BatchHashKept(m, batch, now, i);
    }
  }

  lemma MergedHashOrigin(m: Manifest, batch: seq<Entry>, now: int, h: string)
    requires HasHash(Merge(m, batch, now), h)
    ensures HasHash(m, h) || exists i :: 0 <= i < |batch| && batch[i].contentHash == h
  {
    var r := Merge(m, batch, now);
    var u := UniqueNew(m.entries, batch);
    var i :| 0 <= i < |r.entries| && r.entries[i].contentHash == h;
    if i < |m.entries| {
      assert r.entries[i] == m.entries[i];
    } else {
      assert r.entries[i] == u[i - |m.entries|];
      assert r.entries[i] in batch;
      var j :| 0 <= j < |batch| && batch[j] == r.entries[i];
    }
  }

  lemma BatchHashKept(m: Manifest, batch: seq<Entry>, now: int, i: int)
    requires 0 <= i < |batch| && !HasHash(m, batch[i].contentHash)
    ensures HasHash(Merge(m, batch, now), batch[i].contentHash)
  {
    var r := Merge(m, batch, now);
    var added := r.entries[|m.entries|..];
    assert batch[i] in batch;
    assert batch[i] in added;
    var j :| 0 <= j < |added| && added[j] == batch[i];
    assert r.entries[|m.entries| + j] == batch[i];
  }

  /** Merging the same batch a second time adds nothing. */
  lemma MergeTwice(m: Manifest, batch: seq<Entry>, now: int, later: int)
    ensures Merge(Merge(m, batch, now), batch, later).entries == Merge(m, batch, now).entries
  {
    var m1 := Merge(m, batch, now);
    forall i | 0 <= i < |batch|
      ensures HasHash(m1, batch[i].contentHash)
    {
      MergeHasHash(m, batch, now, batch[i].contentHash);
    }
    var p := (e: Entry) => e.contentHash !in Map(m1.entries, EntryHash);
    assert forall e :: e in batch ==> !p(e);
    FilterNone(batch, p);
    assert m1.entries + [] == m1.entries;
  }

  lemma {:induction false} FilterNone<T>(xs: seq<T>, p: T -> bool)
    requires forall x :: x in xs ==> !p(x)
    ensures Filter(xs, p) == []
  {
    if xs != [] {
      FilterNone(xs[..|xs| - 1], p);
    }
  }

  /** A new manifest: format version 1 and no entries. */
  function EmptyManifest(now: int): (m: Manifest)
    ensures m.version == 1 && m.entries == []
    ensures forall h :: !HasHash(m, h)
    ensures CountryCodes(m) == [] && CategoriesOf(m) == []
  {
    Manifest(1, now, [])
  }
}
