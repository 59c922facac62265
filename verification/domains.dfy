/**
 * The country-code top-level domain catalogue of the web app: the entries
 * built from the per-code domain data and the country metadata, the search
 * and filter helpers, the statistics, and the domains page's URL-parameter
 * validation, filtering and relevance ordering.
 */
module Domains {
  import opened Wrappers
  import opened Strings
  import opened Collections
  import CountryMeta

  /** How often a domain appears in street view. */
  datatype Frequency = Common | Uncommon | Rare

  /** The per-code domain data: the extension without its dot, and the notes. */
  datatype DomainData = DomainData(tld: string, mnemonic: Option<string>, frequency: Frequency, note: Option<string>)

  /**
   * `{ ...meta, ...data }`: the metadata fields and the domain fields side by
   * side (the two records share no field name).
   */
  datatype DomainEntry = DomainEntry(meta: CountryMeta.CountryMeta, data: DomainData)

  /** The domain data record, keyed by upper-case country code. */
  type DomainTable = seq<(string, DomainData)>

  // ---------------------------------------------------------------------------
  // domainEntries
  // ---------------------------------------------------------------------------

  /**
   * `countryMeta[code] || extendedCountryMeta[code]`: the main table wins, the
   * extended table is consulted only for codes the main table lacks.
   */
  function ResolveMeta(primary: CountryMeta.MetaTable, extended: CountryMeta.MetaTable, code: string): (r: Option<CountryMeta.CountryMeta>)
    ensures r.Some? <==> code in Keys(primary) || code in Keys(extended)
    ensures code in Keys(primary) ==> r == Lookup(primary, code)
    ensures code !in Keys(primary) ==> r == Lookup(extended, code)
  {
    var m := Lookup(primary, code);
    if m.Some? then m else Lookup(extended, code)
  }

  /** The map-then-filter step: known codes become entries, unknown codes are dropped. */
  function Built(primary: CountryMeta.MetaTable, extended: CountryMeta.MetaTable, data: DomainTable): (r: seq<DomainEntry>)
    ensures |r| <= |data|
  {
    if data == [] then []
    else
      var rest := Built(primary, extended, data[1..]);
      match ResolveMeta(primary, extended, data[0].0)
      case Some(meta) => [DomainEntry(meta, data[0].1)] + rest
      case None => rest
  }

  predicate ByEntryName(a: DomainEntry, b: DomainEntry) { LexLeq(a.meta.name, b.meta.name) }

  lemma ByEntryNameIsTotalPreorder()
    ensures TotalPreorder(ByEntryName)
  {
    forall a: DomainEntry, b: DomainEntry ensures ByEntryName(a, b) || ByEntryName(b, a) {
      LexLeqTotal(a.meta.name, b.meta.name);
    }
    forall a: DomainEntry, b: DomainEntry, c: DomainEntry | ByEntryName(a, b) && ByEntryName(b, c)
      ensures ByEntryName(a, c)
    {
      LexLeqTransitive(a.meta.name, b.meta.name, c.meta.name);
    }
  }

  /** `domainEntries`: the built entries sorted by country name. */
  function DomainEntries(primary: CountryMeta.MetaTable, extended: CountryMeta.MetaTable, data: DomainTable): (r: seq<DomainEntry>)
    ensures multiset(r) == multiset(Built(primary, extended, data))
    ensures Sorted(r, ByEntryName)
  {
    ByEntryNameIsTotalPreorder();
    SortBySorted(Built(primary, extended, data), ByEntryName);
    SortBy(Built(primary, extended, data), ByEntryName)
  }

  /** The domain record `item` yields the entry `e`. */
  predicate YieldsEntry(primary: CountryMeta.MetaTable, extended: CountryMeta.MetaTable, item: (string, DomainData), e: DomainEntry) {
    ResolveMeta(primary, extended, item.0) == Some(e.meta) && e.data == item.1
  }

  lemma {:induction false} BuiltEntry(primary: CountryMeta.MetaTable, extended: CountryMeta.MetaTable, data: DomainTable, i: int, e: DomainEntry)
    requires 0 <= i < |data| && YieldsEntry(primary, extended, data[i], e)
    ensures e in Built(primary, extended, data)
  {
    if i > 0 {
      BuiltEntry(primary, extended, data[1..], i - 1, e);
    }
  }

  lemma {:induction false} BuiltOrigin(primary: CountryMeta.MetaTable, extended: CountryMeta.MetaTable, data: DomainTable, e: DomainEntry) returns (i: int)
    requires e in Built(primary, extended, data)
    ensures 0 <= i < |data| && YieldsEntry(primary, extended, data[i], e)
  {
    BuiltCons(primary, extended, data, e);
    if YieldsEntry(primary, extended, data[0], e) {
      i := 0;
    } else {
      var j := BuiltOrigin(primary, extended, data[1..], e);
      i := j + 1;
      YieldsAt(primary, extended, data, i, e);
    }
  }

  lemma YieldsAt(primary: CountryMeta.MetaTable, extended: CountryMeta.MetaTable, data: DomainTable, i: int, e: DomainEntry)
    requires 0 < i < |data| && YieldsEntry(primary, extended, data[1..][i - 1], e)
    ensures YieldsEntry(primary, extended, data[i], e)
  {
    assert data[1..][i - 1] == data[i];
  }

  /** A built entry comes from the first record or from the rest. */
  lemma BuiltCons(primary: CountryMeta.MetaTable, extended: CountryMeta.MetaTable, data: DomainTable, e: DomainEntry)
    requires e in Built(primary, extended, data)
    ensures data != [] && (YieldsEntry(primary, extended, data[0], e) || e in Built(primary, extended, data[1..]))
  {
  }

  /** An entry is listed exactly when some domain record with known metadata yields it. */
  lemma DomainEntriesMembers(primary: CountryMeta.MetaTable, extended: CountryMeta.MetaTable, data: DomainTable, e: DomainEntry)
    ensures e in DomainEntries(primary, extended, data)
      <==> exists i :: 0 <= i < |data| && YieldsEntry(primary, extended, data[i], e)
  {
    var r := DomainEntries(primary, extended, data);
    var b := Built(primary, extended, data);
    assert e in r <==> e in b by {
      assert e in r <==> e in multiset(r);
      assert e in b <==> e in multiset(b);
    }
    if e in b {
      var i := BuiltOrigin(primary, extended, data, e);
    }
    if exists i :: 0 <= i < |data| && YieldsEntry(primary, extended, data[i], e) {
      var i :| 0 <= i < |data| && YieldsEntry(primary, extended, data[i], e);
      BuiltEntry(primary, extended, data, i, e);
    }
  }

  /** One entry per domain record whose code either metadata table knows. */
  lemma {:induction false} DomainEntriesCount(primary: CountryMeta.MetaTable, extended: CountryMeta.MetaTable, data: DomainTable)
    ensures |DomainEntries(primary, extended, data)|
      == Count(data, (item: (string, DomainData)) => item.0 in Keys(primary) || item.0 in Keys(extended))
  {
    BuiltCount(primary, extended, data);
  }

  lemma {:induction false} BuiltCount(primary: CountryMeta.MetaTable, extended: CountryMeta.MetaTable, data: DomainTable)
    ensures |Built(primary, extended, data)|
      == |Filter(data, (item: (string, DomainData)) => item.0 in Keys(primary) || item.0 in Keys(extended))|
  {
    var known := (item: (string, DomainData)) => item.0 in Keys(primary) || item.0 in Keys(extended);
    if data != [] {
      BuiltCount(primary, extended, data[1..]);
      assert data == [data[0]] + data[1..];
      FilterAppend([data[0]], data[1..], known);
    }
  }

  // ---------------------------------------------------------------------------
  // getDomainContinents
  // ---------------------------------------------------------------------------

  function ContinentOfEntry(e: DomainEntry): string { e.meta.continent }

  /** `getDomainContinents`: every continent with an entry, once each, sorted. */
  function DomainContinents(entries: seq<DomainEntry>): (r: seq<string>)
    ensures Distinct(r) && Sorted(r, LexLeq)
    ensures forall c :: c in r <==> exists i :: 0 <= i < |entries| && entries[i].meta.continent == c
  {
    var cs := Map(entries, ContinentOfEntry);
    assert forall c :: c in cs <==> exists i :: 0 <= i < |entries| && entries[i].meta.continent == c by {
      forall c | c in cs ensures exists i :: 0 <= i < |entries| && entries[i].meta.continent == c {
        var i :| 0 <= i < |cs| && cs[i] == c;
        assert entries[i].meta.continent == c;
      }
      forall c | exists i :: 0 <= i < |entries| && entries[i].meta.continent == c ensures c in cs {
        var i :| 0 <= i < |entries| && entries[i].meta.continent == c;
        assert cs[i] == c;
      }
    }
    SortedUnique(cs)
  }

  // ---------------------------------------------------------------------------
  // searchDomains, filterByContinent, getCommonDomains, domainStats
  // ---------------------------------------------------------------------------

  /** `s.replace(/^\./, "")`: one leading dot is dropped. */
  function StripLeadingDot(s: string): string {
    if s != [] && s[0] == '.' then s[1..] else s
  }

  /** The query as the catalogue compares it: lower-cased, one leading dot dropped. */
  function NormalizeQuery(query: string): string {
    StripLeadingDot(Lower(query))
  }

  /** The extension, the lower-cased name or the lower-cased code contains the query. */
  predicate MatchesDomain(e: DomainEntry, q: string) {
    Contains(e.data.tld, q) || Contains(Lower(e.meta.name), q) || Contains(Lower(e.meta.code), q)
  }

  /** `searchDomains`: an empty normalised query lists everything. */
  function SearchDomains(entries: seq<DomainEntry>, query: string): (r: seq<DomainEntry>)
    ensures NormalizeQuery(query) == "" ==> r == entries
    ensures forall e :: e in r <==> e in entries && (NormalizeQuery(query) == "" || MatchesDomain(e, NormalizeQuery(query)))
  {
    var q := NormalizeQuery(query);
    if q == "" then entries else Filter(entries, (e: DomainEntry) => MatchesDomain(e, q))
  }

  /** The search keeps the catalogue order. */
  lemma SearchDomainsSubsequence(entries: seq<DomainEntry>, query: string)
    ensures IsSubsequence(SearchDomains(entries, query), entries)
  {
    var q := NormalizeQuery(query);
    if q == "" {
      assert entries == Pick(entries, Map(entries, (e: DomainEntry) => true)) by {
        FilterIsPick(entries, (e: DomainEntry) => true);
        FilterAll(entries, (e: DomainEntry) => true);
      }
    } else {
      FilterIsSubsequence(entries, (e: DomainEntry) => MatchesDomain(e, q));
    }
  }

  /** Typing ".de" searches exactly as typing "de" does. */
  lemma SearchDomainsLeadingDot(entries: seq<DomainEntry>, query: string)
    requires query == [] || query[0] != '.'
    ensures SearchDomains(entries, "." + query) == SearchDomains(entries, query)
  {
    LowerConcat(".", query);
    assert Lower(".") == ".";
    assert ("." + Lower(query))[1..] == Lower(query);
  }

  /** `filterByContinent`: no continent (null or empty) lists everything. */
  function FilterByContinent(entries: seq<DomainEntry>, continent: Option<string>): (r: seq<DomainEntry>)
    ensures continent.None? || continent == Some("") ==> r == entries
    ensures forall e :: e in r <==> e in entries && PassesContinent(e, continent)
  {
    if continent.None? || continent.value == "" then entries
    else Filter(entries, (e: DomainEntry) => e.meta.continent == continent.value)
  }

  predicate IsCommon(e: DomainEntry) { e.data.frequency == Common }

  /** `getCommonDomains` */
  function CommonDomains(entries: seq<DomainEntry>): (r: seq<DomainEntry>)
    ensures forall e :: e in r <==> e in entries && e.data.frequency == Common
  {
    Filter(entries, IsCommon)
  }

  /** `entry.mnemonic` is truthy: present and non-empty. */
  predicate HasMnemonic(e: DomainEntry) { e.data.mnemonic.Some? && e.data.mnemonic.value != "" }

  /** `getDomainsWithMnemonics` */
  function DomainsWithMnemonics(entries: seq<DomainEntry>): (r: seq<DomainEntry>)
    ensures forall e :: e in r <==> e in entries && e.data.mnemonic.Some? && e.data.mnemonic.value != ""
  {
    Filter(entries, HasMnemonic)
  }

  datatype Stats = Stats(total: nat, common: nat, uncommon: nat, rare: nat)

  predicate IsUncommon(e: DomainEntry) { e.data.frequency == Uncommon }
  predicate IsRare(e: DomainEntry) { e.data.frequency == Rare }

  /** `domainStats`: the three frequency counts partition the total. */
  function DomainStats(entries: seq<DomainEntry>): (s: Stats)
    ensures s.total == |entries|
    ensures s.common + s.uncommon + s.rare == s.total
    ensures s.common == |CommonDomains(entries)|
  {
    FrequencyCountsAddUp(entries);
    Stats(|entries|, Count(entries, IsCommon), Count(entries, IsUncommon), Count(entries, IsRare))
  }

  lemma {:induction false} FrequencyCountsAddUp(entries: seq<DomainEntry>)
    ensures Count(entries, IsCommon) + Count(entries, IsUncommon) + Count(entries, IsRare) == |entries|
  {
    if entries != [] {
      FrequencyCountsAddUp(entries[..|entries| - 1]);
    }
  }

  // ---------------------------------------------------------------------------
  // The domains page
  // ---------------------------------------------------------------------------

  /** The `continent` URL parameter is honoured only when it names a continent with entries. */
  function SelectedContinent(entries: seq<DomainEntry>, param: Option<string>): (r: Option<string>)
    ensures r.Some? <==> param.Some? && param.value != "" && param.value in DomainContinents(entries)
    ensures r.Some? ==> r == param && exists i :: 0 <= i < |entries| && entries[i].meta.continent == r.value
  {
    if param.Some? && param.value != "" && param.value in DomainContinents(entries) then param else None
  }

  function FrequencyName(f: Frequency): string {
    match f
    case Common => "common"
    case Uncommon => "uncommon"
    case Rare => "rare"
  }

  /** The `frequency` URL parameter is accepted only when it is one of the three names. */
  function SelectedFrequency(param: Option<string>): (r: Option<Frequency>)
    ensures r.Some? <==> param.Some? && param.value in ["common", "uncommon", "rare"]
    ensures r.Some? ==> FrequencyName(r.value) == param.value
  {
    if param == Some("common") then Some(Common)
    else if param == Some("uncommon") then Some(Uncommon)
    else if param == Some("rare") then Some(Rare)
    else None
  }

  /** Each frequency's own name selects it. */
  lemma SelectedFrequencyOfName(f: Frequency)
    ensures SelectedFrequency(Some(FrequencyName(f))) == Some(f)
  {
  }

  predicate PassesContinent(e: DomainEntry, continent: Option<string>) {
    continent.None? || continent.value == "" || e.meta.continent == continent.value
  }

  predicate PassesFrequency(e: DomainEntry, frequency: Option<Frequency>) {
    frequency.None? || e.data.frequency == frequency.value
  }

  /** All three filters of the page; `q` is the normalised query. */
  predicate PassesFilters(e: DomainEntry, continent: Option<string>, frequency: Option<Frequency>, q: string) {
    PassesContinent(e, continent) && PassesFrequency(e, frequency) && (q == "" || MatchesDomain(e, q))
  }

  /**
   * The relevance rank of an entry for a query, smaller first: the page's
   * comparator weighs an exact extension (4), then an extension starting with
   * the query (2), then a name starting with it (1).
   */
  function Rank(e: DomainEntry, q: string): (k: nat)
    ensures k < 8
    ensures k < 4 <==> e.data.tld == q
    ensures k < 2 ==> StartsWith(e.data.tld, q)
  {
    (if e.data.tld == q then 0 else 4)
    + (if StartsWith(e.data.tld, q) then 0 else 2)
    + (if StartsWith(Lower(e.meta.name), q) then 0 else 1)
  }

  /** The page's comparator, case by case: exact extension, extension prefix, name prefix, then name. */
  predicate RelevanceLeq(q: string, a: DomainEntry, b: DomainEntry) {
    var ea, eb := a.data.tld == q, b.data.tld == q;
    var ta, tb := StartsWith(a.data.tld, q), StartsWith(b.data.tld, q);
    var na, nb := StartsWith(Lower(a.meta.name), q), StartsWith(Lower(b.meta.name), q);
    if ea != eb then ea
    else if ta != tb then ta
    else if na != nb then na
    else LexLeq(a.meta.name, b.meta.name)
  }

  /** The comparator orders by rank first and by name within a rank. */
  lemma RelevanceLeqIsRankOrder(q: string, a: DomainEntry, b: DomainEntry)
    ensures RelevanceLeq(q, a, b)
      <==> Rank(a, q) < Rank(b, q) || (Rank(a, q) == Rank(b, q) && LexLeq(a.meta.name, b.meta.name))
  {
  }

  lemma RelevanceIsTotalPreorder(q: string)
    ensures TotalPreorder((a: DomainEntry, b: DomainEntry) => RelevanceLeq(q, a, b))
  {
    forall a: DomainEntry, b: DomainEntry ensures RelevanceLeq(q, a, b) || RelevanceLeq(q, b, a) {
      RelevanceLeqIsRankOrder(q, a, b);
      RelevanceLeqIsRankOrder(q, b, a);
      LexLeqTotal(a.meta.name, b.meta.name);
    }
    forall a: DomainEntry, b: DomainEntry, c: DomainEntry | RelevanceLeq(q, a, b) && RelevanceLeq(q, b, c)
      ensures RelevanceLeq(q, a, c)
    {
      RelevanceLeqIsRankOrder(q, a, b);
      RelevanceLeqIsRankOrder(q, b, c);
      RelevanceLeqIsRankOrder(q, a, c);
      if Rank(a, q) == Rank(b, q) == Rank(c, q) {
        LexLeqTransitive(a.meta.name, b.meta.name, c.meta.name);
      }
    }
  }

  /** The entries left by the continent and frequency filters, in catalogue order. */
  function Narrowed(entries: seq<DomainEntry>, continent: Option<string>, frequency: Option<Frequency>): seq<DomainEntry> {
    var byContinent := if continent.Some? && continent.value != ""
      then Filter(entries, (e: DomainEntry) => e.meta.continent == continent.value)
      else entries;
    if frequency.Some? then Filter(byContinent, (e: DomainEntry) => e.data.frequency == frequency.value)
    else byContinent
  }

  lemma NarrowedMembers(entries: seq<DomainEntry>, continent: Option<string>, frequency: Option<Frequency>, e: DomainEntry)
    ensures e in Narrowed(entries, continent, frequency)
      <==> e in entries && PassesContinent(e, continent) && PassesFrequency(e, frequency)
  {
  }

  /** The page's search step: the passing entries, sorted by relevance. */
  function Ranked(narrowed: seq<DomainEntry>, q: string): (r: seq<DomainEntry>)
    ensures forall e :: e in r <==> e in narrowed && MatchesDomain(e, q)
  {
    var found := Filter(narrowed, (e: DomainEntry) => MatchesDomain(e, q));
    SortByMembers(found, (a: DomainEntry, b: DomainEntry) => RelevanceLeq(q, a, b));
    SortBy(found, (a: DomainEntry, b: DomainEntry) => RelevanceLeq(q, a, b))
  }

  /** `filteredDomains`: the entries passing every filter; sorted by relevance when there is a query. */
  function FilteredDomains(entries: seq<DomainEntry>, continent: Option<string>, frequency: Option<Frequency>, searchQuery: string): (r: seq<DomainEntry>)
    ensures forall e :: e in r <==> e in entries && PassesFilters(e, continent, frequency, NormalizeQuery(searchQuery))
  {
    var narrowed := Narrowed(entries, continent, frequency);
    var q := NormalizeQuery(searchQuery);
    forall e ensures e in narrowed <==> e in entries && PassesContinent(e, continent) && PassesFrequency(e, frequency) {
      NarrowedMembers(entries, continent, frequency, e);
    }
    if q != "" then Ranked(narrowed, q) else narrowed
  }

  /** Without a query the page keeps the catalogue order: it is a plain filter. */
  lemma FilteredDomainsKeepOrder(entries: seq<DomainEntry>, continent: Option<string>, frequency: Option<Frequency>, searchQuery: string)
    requires NormalizeQuery(searchQuery) == ""
    ensures FilteredDomains(entries, continent, frequency, searchQuery)
      == Filter(entries, (e: DomainEntry) => PassesFilters(e, continent, frequency, ""))
  {
    assert FilteredDomains(entries, continent, frequency, searchQuery) == Narrowed(entries, continent, frequency);
    NarrowedIsFilter(entries, continent, frequency);
  }

  lemma NarrowedIsFilter(entries: seq<DomainEntry>, continent: Option<string>, frequency: Option<Frequency>)
    ensures Narrowed(entries, continent, frequency)
      == Filter(entries, (e: DomainEntry) => PassesFilters(e, continent, frequency, ""))
  {
    var pass := (e: DomainEntry) => PassesFilters(e, continent, frequency, "");
    if continent.Some? && continent.value != "" {
      var byC := (e: DomainEntry) => e.meta.continent == continent.value;
      if frequency.Some? {
        var byF := (e: DomainEntry) => e.data.frequency == frequency.value;
        assert Narrowed(entries, continent, frequency) == Filter(Filter(entries, byC), byF);
        FilterFilterAs(entries, byC, byF, pass);
      } else {
        assert Narrowed(entries, continent, frequency) == Filter(entries, byC);
        FilterExt(entries, byC, pass);
      }
    } else if frequency.Some? {
      var byF := (e: DomainEntry) => e.data.frequency == frequency.value;
      assert Narrowed(entries, continent, frequency) == Filter(entries, byF);
      FilterExt(entries, byF, pass);
    } else {
      FilterAll(entries, pass);
    }
  }

  /** With a query the results are the passing entries, reordered by relevance. */
  lemma FilteredDomainsRanked(entries: seq<DomainEntry>, continent: Option<string>, frequency: Option<Frequency>, searchQuery: string)
    requires NormalizeQuery(searchQuery) != ""
    ensures var q := NormalizeQuery(searchQuery);
      var r := FilteredDomains(entries, continent, frequency, searchQuery);
      && Sorted(r, (a: DomainEntry, b: DomainEntry) => RelevanceLeq(q, a, b))
      && multiset(r) == multiset(Filter(Narrowed(entries, continent, frequency), (e: DomainEntry) => MatchesDomain(e, q)))
  {
    var q := NormalizeQuery(searchQuery);
    var found := Filter(Narrowed(entries, continent, frequency), (e: DomainEntry) => MatchesDomain(e, q));
    assert FilteredDomains(entries, continent, frequency, searchQuery) == Ranked(Narrowed(entries, continent, frequency), q);
    RelevanceIsTotalPreorder(q);
    SortBySorted(found, (a: DomainEntry, b: DomainEntry) => RelevanceLeq(q, a, b));
  }

  /**
   * With a query, an earlier result never has a worse rank than a later one,
   * and within a rank the names ascend; so exact extensions come first and
   * extensions starting with the query before the other entries.
   */
  lemma FilteredDomainsRankOrder(entries: seq<DomainEntry>, continent: Option<string>, frequency: Option<Frequency>, searchQuery: string, i: int, j: int)
    requires NormalizeQuery(searchQuery) != ""
    requires 0 <= i < j < |FilteredDomains(entries, continent, frequency, searchQuery)|
    ensures var q := NormalizeQuery(searchQuery);
      var r := FilteredDomains(entries, continent, frequency, searchQuery);
      && Rank(r[i], q) <= Rank(r[j], q)
      && (Rank(r[i], q) == Rank(r[j], q) ==> LexLeq(r[i].meta.name, r[j].meta.name))
      && (r[j].data.tld == q ==> r[i].data.tld == q)
      && (StartsWith(r[j].data.tld, q) ==> StartsWith(r[i].data.tld, q))
  {
    var q := NormalizeQuery(searchQuery);
    var r := FilteredDomains(entries, continent, frequency, searchQuery);
    FilteredDomainsRanked(entries, continent, frequency, searchQuery);
    assert RelevanceLeq(q, r[i], r[j]);
    RelevanceLeqIsRankOrder(q, r[i], r[j]);
  }
}
