/**
 * The central country metadata of the web app: lookup by code, the
 * continent and region lists of the filters, the region test, and the merge
 * of per-feature data with the metadata.
 */
module CountryMeta {
  import opened Wrappers
  import opened Strings
  import opened Collections

  datatype CountryMeta = CountryMeta(code: string, name: string, continent: string, regions: Option<seq<string>>)

  /** The metadata record keyed by upper-case code. */
  type MetaTable = seq<(string, CountryMeta)>

  /** Every key of the table equals the code field of its entry. */
  predicate KeysAgree(t: MetaTable) {
    forall i :: 0 <= i < |t| ==> t[i].0 == t[i].1.code
  }

  // ---------------------------------------------------------------------------
  // countryMeta
  // ---------------------------------------------------------------------------

  /**
   * `countryMeta` as the source writes it, continent by continent: each key
   * is written separately from the `code` field of its record.
   */
  const CountryMetaTable: MetaTable :=
    AfricaMeta + AsiaMeta + EuropeMetaFirst + EuropeMetaSecond + NorthAmericaMeta + OceaniaMeta + SouthAmericaMeta

  const AfricaMeta: MetaTable := [
    ("BW", CountryMeta("BW", "Botswana", "Africa", None)),
    ("SZ", CountryMeta("SZ", "Eswatini", "Africa", None)),
    ("GH", CountryMeta("GH", "Ghana", "Africa", None)),
    ("KE", CountryMeta("KE", "Kenya", "Africa", None)),
    ("LS", CountryMeta("LS", "Lesotho", "Africa", None)),
    ("NG", CountryMeta("NG", "Nigeria", "Africa", None)),
    ("SN", CountryMeta("SN", "Senegal", "Africa", None)),
    ("ZA", CountryMeta("ZA", "South Africa", "Africa", None)),
    ("TN", CountryMeta("TN", "Tunisia", "Africa", None))
  ]

  const AsiaMeta: MetaTable := [
    ("BD", CountryMeta("BD", "Bangladesh", "Asia", None)),
    ("KH", CountryMeta("KH", "Cambodia", "Asia", None)),
    ("IN", CountryMeta("IN", "India", "Asia", None)),
    ("ID", CountryMeta("ID", "Indonesia", "Asia", None)),
    ("IL", CountryMeta("IL", "Israel", "Asia", Some(["Middle East", "Europe"]))),
    ("JP", CountryMeta("JP", "Japan", "Asia", None)),
    ("JO", CountryMeta("JO", "Jordan", "Asia", Some(["Middle East"]))),
    ("KG", CountryMeta("KG", "Kyrgyzstan", "Asia", None)),
    ("LA", CountryMeta("LA", "Laos", "Asia", None)),
    ("MY", CountryMeta("MY", "Malaysia", "Asia", None)),
    ("MN", CountryMeta("MN", "Mongolia", "Asia", None)),
    ("PS", CountryMeta("PS", "Palestine", "Asia", Some(["Middle East"]))),
    ("PH", CountryMeta("PH", "Philippines", "Asia", None)),
    ("SG", CountryMeta("SG", "Singapore", "Asia", None)),
    ("KR", CountryMeta("KR", "South Korea", "Asia", None)),
    ("LK", CountryMeta("LK", "Sri Lanka", "Asia", None)),
    ("TW", CountryMeta("TW", "Taiwan", "Asia", None)),
    ("TH", CountryMeta("TH", "Thailand", "Asia", None)),
    ("TR", CountryMeta("TR", "Turkey", "Asia", Some(["Europe", "Middle East"]))),
    ("AE", CountryMeta("AE", "United Arab Emirates", "Asia", Some(["Middle East"]))),
    ("VN", CountryMeta("VN", "Vietnam", "Asia", None))
  ]

  const EuropeMetaFirst: MetaTable := [
    ("AL", CountryMeta("AL", "Albania", "Europe", None)),
    ("AD", CountryMeta("AD", "Andorra", "Europe", None)),
    ("AT", CountryMeta("AT", "Austria", "Europe", None)),
    ("BE", CountryMeta("BE", "Belgium", "Europe", None)),
    ("BG", CountryMeta("BG", "Bulgaria", "Europe", None)),
    ("HR", CountryMeta("HR", "Croatia", "Europe", None)),
    ("CZ", CountryMeta("CZ", "Czechia", "Europe", None)),
    ("DK", CountryMeta("DK", "Denmark", "Europe", None)),
    ("EE", CountryMeta("EE", "Estonia", "Europe", None)),
    ("FO", CountryMeta("FO", "Faroe Islands", "Europe", None)),
    ("FI", CountryMeta("FI", "Finland", "Europe", None)),
    ("FR", CountryMeta("FR", "France", "Europe", None)),
    ("DE", CountryMeta("DE", "Germany", "Europe", None)),
    ("GR", CountryMeta("GR", "Greece", "Europe", None)),
    ("HU", CountryMeta("HU", "Hungary", "Europe", None)),
    ("IS", CountryMeta("IS", "Iceland", "Europe", None)),
    ("IE", CountryMeta("IE", "Ireland", "Europe", None)),
    ("IM", CountryMeta("IM", "Isle of Man", "Europe", None)),
    ("IT", CountryMeta("IT", "Italy", "Europe", None)),
    ("JE", CountryMeta("JE", "Jersey", "Europe", None)),
    ("LV", CountryMeta("LV", "Latvia", "Europe", None))
  ]

  const EuropeMetaSecond: MetaTable := [
    ("LT", CountryMeta("LT", "Lithuania", "Europe", None)),
    ("LU", CountryMeta("LU", "Luxembourg", "Europe", None)),
    ("MT", CountryMeta("MT", "Malta", "Europe", None)),
    ("ME", CountryMeta("ME", "Montenegro", "Europe", None)),
    ("NL", CountryMeta("NL", "Netherlands", "Europe", None)),
    ("MK", CountryMeta("MK", "North Macedonia", "Europe", None)),
    ("NO", CountryMeta("NO", "Norway", "Europe", None)),
    ("PL", CountryMeta("PL", "Poland", "Europe", None)),
    ("PT", CountryMeta("PT", "Portugal", "Europe", None)),
    ("RO", CountryMeta("RO", "Romania", "Europe", None)),
    ("RU", CountryMeta("RU", "Russia", "Europe", Some(["Asia"]))),
    ("SM", CountryMeta("SM", "San Marino", "Europe", None)),
    ("RS", CountryMeta("RS", "Serbia", "Europe", None)),
    ("SK", CountryMeta("SK", "Slovakia", "Europe", None)),
    ("SI", CountryMeta("SI", "Slovenia", "Europe", None)),
    ("ES", CountryMeta("ES", "Spain", "Europe", None)),
    ("SE", CountryMeta("SE", "Sweden", "Europe", None)),
    ("CH", CountryMeta("CH", "Switzerland", "Europe", None)),
    ("UA", CountryMeta("UA", "Ukraine", "Europe", None)),
    ("GB", CountryMeta("GB", "United Kingdom", "Europe", None))
  ]

  const NorthAmericaMeta: MetaTable := [
    ("BM", CountryMeta("BM", "Bermuda", "North America", None)),
    ("CA", CountryMeta("CA", "Canada", "North America", None)),
    ("CR", CountryMeta("CR", "Costa Rica", "North America", Some(["Central America", "Latin America"]))),
    ("DO", CountryMeta("DO", "Dominican Republic", "North America", Some(["Caribbean", "Latin America"]))),
    ("GL", CountryMeta("GL", "Greenland", "North America", None)),
    ("GT", CountryMeta("GT", "Guatemala", "North America", Some(["Central America", "Latin America"]))),
    ("MX", CountryMeta("MX", "Mexico", "North America", Some(["Latin America"]))),
    ("PR", CountryMeta("PR", "Puerto Rico", "North America", Some(["Caribbean", "Latin America"]))),
    ("US", CountryMeta("US", "United States", "North America", None))
  ]

  const OceaniaMeta: MetaTable := [
    ("AU", CountryMeta("AU", "Australia", "Oceania", None)),
    ("CX", CountryMeta("CX", "Christmas Island", "Oceania", None)),
    ("CC", CountryMeta("CC", "Cocos (Keeling) Islands", "Oceania", None)),
    ("GU", CountryMeta("GU", "Guam", "Oceania", None)),
    ("NZ", CountryMeta("NZ", "New Zealand", "Oceania", None))
  ]

  const SouthAmericaMeta: MetaTable := [
    ("AR", CountryMeta("AR", "Argentina", "South America", Some(["Latin America"]))),
    ("BO", CountryMeta("BO", "Bolivia", "South America", Some(["Latin America"]))),
    ("BR", CountryMeta("BR", "Brazil", "South America", Some(["Latin America"]))),
    ("CL", CountryMeta("CL", "Chile", "South America", Some(["Latin America"]))),
    ("CO", CountryMeta("CO", "Colombia", "South America", Some(["Latin America"]))),
    ("EC", CountryMeta("EC", "Ecuador", "South America", Some(["Latin America"]))),
    ("PE", CountryMeta("PE", "Peru", "South America", Some(["Latin America"]))),
    ("UY", CountryMeta("UY", "Uruguay", "South America", Some(["Latin America"])))
  ]

  /** In the source's table every key is the code of its record. */
  lemma {:induction false} CountryMetaKeysAgree()
    ensures KeysAgree(CountryMetaTable)
  {
    AfricaAsiaKeysAgree();
    EuropeKeysAgree();
    AmericasOceaniaKeysAgree();
    KeysAgreeAppend(AfricaMeta, AsiaMeta);
    KeysAgreeAppend(AfricaMeta + AsiaMeta, EuropeMetaFirst);
    KeysAgreeAppend(AfricaMeta + AsiaMeta + EuropeMetaFirst, EuropeMetaSecond);
    KeysAgreeAppend(AfricaMeta + AsiaMeta + EuropeMetaFirst + EuropeMetaSecond, NorthAmericaMeta);
    KeysAgreeAppend(AfricaMeta + AsiaMeta + EuropeMetaFirst + EuropeMetaSecond + NorthAmericaMeta, OceaniaMeta);
    KeysAgreeAppend(AfricaMeta + AsiaMeta + EuropeMetaFirst + EuropeMetaSecond + NorthAmericaMeta + OceaniaMeta, SouthAmericaMeta);
  }

  lemma AfricaAsiaKeysAgree()
    ensures KeysAgree(AfricaMeta) && KeysAgree(AsiaMeta)
  {
  }

  lemma EuropeKeysAgree()
    ensures KeysAgree(EuropeMetaFirst) && KeysAgree(EuropeMetaSecond)
  {
  }

  lemma AmericasOceaniaKeysAgree()
    ensures KeysAgree(NorthAmericaMeta) && KeysAgree(OceaniaMeta) && KeysAgree(SouthAmericaMeta)
  {
  }

  lemma KeysAgreeAppend(a: MetaTable, b: MetaTable)
    requires KeysAgree(a) && KeysAgree(b)
    ensures KeysAgree(a + b)
  {
    forall i | 0 <= i < |a + b| ensures (a + b)[i].0 == (a + b)[i].1.code {
      if i >= |a| { assert (a + b)[i] == b[i - |a|]; }
    }
  }

  /** `getCountryMeta`: the entry under the upper-cased code. */
  function GetCountryMeta(t: MetaTable, code: string): (r: Option<CountryMeta>)
    ensures r.Some? <==> Upper(code) in Keys(t)
    ensures KeysAgree(t) && r.Some? ==> r.value.code == Upper(code)
  {
    var r := Lookup(t, Upper(code));
    if r.Some? && KeysAgree(t) then
      LookupEntryIn(t, Upper(code));
      r
    else r
  }

  lemma LookupEntryIn(t: MetaTable, k: string)
    requires Lookup(t, k).Some? && KeysAgree(t)
    ensures Lookup(t, k).value.code == k
  {
    var j :| 0 <= j < |t| && t[j] == (k, Lookup(t, k).value);
  }

  /** On the source's table a lookup finds the record whose code is the upper-cased query. */
  lemma GetCountryMetaOfTable(code: string)
    ensures GetCountryMeta(CountryMetaTable, code).Some? ==> GetCountryMeta(CountryMetaTable, code).value.code == Upper(code)
  {
    CountryMetaKeysAgree();
  }

  /** The lookup does not depend on the case of the code. */
  lemma GetCountryMetaCaseInsensitive(t: MetaTable, code: string)
    ensures GetCountryMeta(t, Lower(code)) == GetCountryMeta(t, code)
  {
    UpperOfLower(code);
  }

  function ContinentOf(e: (string, CountryMeta)): string { e.1.continent }

  /** `getContinents`: the distinct continents, sorted. */
  function Continents(t: MetaTable): (r: seq<string>)
    ensures Distinct(r) && Sorted(r, LexLeq)
    ensures forall x :: x in r <==> exists i :: 0 <= i < |t| && t[i].1.continent == x
  {
    var cs := Map(t, ContinentOf);
    assert forall x :: x in cs <==> exists i :: 0 <= i < |t| && t[i].1.continent == x by {
      forall x | x in cs ensures exists i :: 0 <= i < |t| && t[i].1.continent == x {
        var i :| 0 <= i < |cs| && cs[i] == x;
        assert t[i].1.continent == x;
      }
      forall x | exists i :: 0 <= i < |t| && t[i].1.continent == x ensures x in cs {
        var i :| 0 <= i < |t| && t[i].1.continent == x;
        assert cs[i] == x;
      }
    }
    SortedUnique(cs)
  }

  /** The continent of a country followed by its additional regions. */
  function RegionsOf(m: CountryMeta): seq<string> {
    [m.continent] + m.regions.GetOr([])
  }

  /** Every region name the table mentions, country by country. */
  function AllRegionNames(t: MetaTable): (r: seq<string>)
    ensures forall x :: x in r <==> exists i :: 0 <= i < |t| && x in RegionsOf(t[i].1)
  {
    if t == [] then []
    else
      var rest := AllRegionNames(t[1..]);
      RegionNamesCons(t, rest);
      RegionsOf(t[0].1) + rest
  }

  lemma RegionNamesCons(t: MetaTable, rest: seq<string>)
    requires t != []
    requires forall x :: x in rest <==> exists i :: 0 <= i < |t[1..]| && x in RegionsOf(t[1..][i].1)
    ensures forall x :: x in RegionsOf(t[0].1) + rest <==> exists i :: 0 <= i < |t| && x in RegionsOf(t[i].1)
  {
    forall x | x in RegionsOf(t[0].1) + rest
      ensures exists i :: 0 <= i < |t| && x in RegionsOf(t[i].1)
    {
      if x !in RegionsOf(t[0].1) {
        var i :| 0 <= i < |t[1..]| && x in RegionsOf(t[1..][i].1);
        assert t[1..][i] == t[i + 1];
      }
    }
    forall x | exists i :: 0 <= i < |t| && x in RegionsOf(t[i].1)
      ensures x in RegionsOf(t[0].1) + rest
    {
      var i :| 0 <= i < |t| && x in RegionsOf(t[i].1);
      if i > 0 {
        assert t[1..][i - 1] == t[i];
      }
    }
  }

  /** `getAllRegions`: exactly the continents and additional regions, distinct and sorted. */
  function AllRegions(t: MetaTable): (r: seq<string>)
    ensures Distinct(r) && Sorted(r, LexLeq)
    ensures forall x :: x in r <==> exists i :: 0 <= i < |t| && x in RegionsOf(t[i].1)
  {
    SortedUnique(AllRegionNames(t))
  }

  /** Every continent is also offered among all regions. */
  lemma ContinentsWithinRegions(t: MetaTable, x: string)
    requires x in Continents(t)
    ensures x in AllRegions(t)
  {
    var i :| 0 <= i < |t| && t[i].1.continent == x;
    assert x in RegionsOf(t[i].1);
  }

  /**
   * `matchesRegion`: no filter (absent or empty) matches everything;
   * otherwise the continent or one of the additional regions must equal it.
   */
  predicate MatchesRegion(c: CountryMeta, region: Option<string>) {
    region.None? || region.value == "" || c.continent == region.value
    || (c.regions.Some? && region.value in c.regions.value)
  }

  /** A country of the table matches a non-empty filter only when the filter is one of all regions. */
  lemma MatchingRegionIsOffered(t: MetaTable, i: int, region: string)
    requires 0 <= i < |t| && region != "" && MatchesRegion(t[i].1, Some(region))
    ensures region in AllRegions(t)
  {
    assert region in RegionsOf(t[i].1);
  }

  // ---------------------------------------------------------------------------
  // enrichWithMeta
  // ---------------------------------------------------------------------------

  /** A field value of a plain object. */
  datatype Value = Text(text: string) | TextList(texts: seq<string>) | Number(n: int)

  /** A plain object: its own fields in insertion order. */
  type Obj = seq<(string, Value)>

  /** The metadata entry as an object; `regions` is present only when the entry has it. */
  function MetaObj(m: CountryMeta): (o: Obj)
    ensures DistinctKeys(o)
  {
    [("code", Text(m.code)), ("name", Text(m.name)), ("continent", Text(m.continent))]
      + (if m.regions.Some? then [("regions", TextList(m.regions.value))] else [])
  }

  /** `{ ...a, ...b }`: the fields of `b` written over those of `a`. */
  function Spread(a: Obj, b: Obj): (r: Obj)
    decreases |b|
  {
    if b == [] then a else Spread(Put(a, b[0].0, b[0].1), b[1..])
  }

  /** A field of the spread comes from the second object when it has it, else from the first. */
  lemma {:induction false} SpreadLookup(a: Obj, b: Obj, f: string)
    requires DistinctKeys(b)
    ensures Lookup(Spread(a, b), f) == if f in Keys(b) then Lookup(b, f) else Lookup(a, f)
    decreases |b|
  {
    if b != [] {
      assert Keys(b) == [b[0].0] + Keys(b[1..]);
      SpreadLookup(Put(a, b[0].0, b[0].1), b[1..], f);
      if f != b[0].0 {
        PutOthers(a, b[0].0, b[0].1, f);
      }
    }
  }

  /** The name field used by the final sort; an object without a text name sorts as "". */
  function NameOf(o: Obj): string {
    var v := Lookup(o, "name");
    if v.Some? && v.value.Text? then v.value.text else ""
  }

  predicate ByName(a: Obj, b: Obj) { LexLeq(NameOf(a), NameOf(b)) }

  lemma ByNameIsTotalPreorder()
    ensures TotalPreorder(ByName)
  {
    forall a: Obj, b: Obj ensures ByName(a, b) || ByName(b, a) {
      LexLeqTotal(NameOf(a), NameOf(b));
    }
    forall a: Obj, b: Obj, c: Obj | ByName(a, b) && ByName(b, c) ensures ByName(a, c) {
      LexLeqTransitive(NameOf(a), NameOf(b), NameOf(c));
    }
  }

  /** The map-then-filter step: known codes become merged objects, unknown codes are dropped. */
  function Merged(t: MetaTable, featureData: seq<(string, Obj)>): (r: seq<Obj>)
    ensures |r| <= |featureData|
  {
    if featureData == [] then []
    else
      var rest := Merged(t, featureData[1..]);
      match Lookup(t, featureData[0].0)
      case Some(meta) => [Spread(MetaObj(meta), featureData[0].1)] + rest
      case None => rest
  }

  /** `enrichWithMeta`: the merged objects sorted by name. */
  function EnrichWithMeta(t: MetaTable, featureData: seq<(string, Obj)>): (r: seq<Obj>)
    ensures multiset(r) == multiset(Merged(t, featureData))
    ensures Sorted(r, ByName)
  {
    ByNameIsTotalPreorder();
    SortBySorted(Merged(t, featureData), ByName);
    SortBy(Merged(t, featureData), ByName)
  }

  /** Exactly the feature entries whose code the table knows produce a result, one each. */
  lemma {:induction false} MergedCount(t: MetaTable, featureData: seq<(string, Obj)>)
    ensures |Merged(t, featureData)| == |Filter(featureData, (e: (string, Obj)) => e.0 in Keys(t))|
  {
    if featureData != [] {
      MergedCount(t, featureData[1..]);
      assert featureData == [featureData[0]] + featureData[1..];
      FilterAppend([featureData[0]], featureData[1..], (e: (string, Obj)) => e.0 in Keys(t));
    }
  }

  /** The entry for a known code is its metadata object with the feature fields written over it. */
  lemma {:induction false} MergedEntry(t: MetaTable, featureData: seq<(string, Obj)>, i: int)
    requires 0 <= i < |featureData| && featureData[i].0 in Keys(t)
    ensures Spread(MetaObj(Lookup(t, featureData[i].0).value), featureData[i].1) in Merged(t, featureData)
  {
    if i > 0 {
      assert featureData[1..][i - 1] == featureData[i];
      MergedEntry(t, featureData[1..], i - 1);
      MergedTailIn(t, featureData, Spread(MetaObj(Lookup(t, featureData[i].0).value), featureData[i].1));
    } else {
      MergedHeadIn(t, featureData);
    }
  }

  lemma MergedHeadIn(t: MetaTable, featureData: seq<(string, Obj)>)
    requires featureData != [] && featureData[0].0 in Keys(t)
    ensures Spread(MetaObj(Lookup(t, featureData[0].0).value), featureData[0].1) in Merged(t, featureData)
  {
  }

  lemma MergedTailIn(t: MetaTable, featureData: seq<(string, Obj)>, o: Obj)
    requires featureData != [] && o in Merged(t, featureData[1..])
    ensures o in Merged(t, featureData)
  {
  }

  /** Every result is such a merge for some known code of the feature data. */
  lemma {:induction false} MergedOrigin(t: MetaTable, featureData: seq<(string, Obj)>, o: Obj) returns (i: int)
    requires o in Merged(t, featureData)
    ensures 0 <= i < |featureData| && featureData[i].0 in Keys(t)
    ensures o == Spread(MetaObj(Lookup(t, featureData[i].0).value), featureData[i].1)
  {
    var rest := Merged(t, featureData[1..]);
    if Lookup(t, featureData[0].0).Some? && o == Spread(MetaObj(Lookup(t, featureData[0].0).value), featureData[0].1) {
      i := 0;
    } else {
      var j := MergedOrigin(t, featureData[1..], o);
      i := j + 1;
    }
  }

  /** In an enriched entry a feature field wins over a metadata field of the same name. */
  lemma EnrichedField(t: MetaTable, featureData: seq<(string, Obj)>, i: int, f: string)
    requires 0 <= i < |featureData| && featureData[i].0 in Keys(t) && DistinctKeys(featureData[i].1)
    ensures var o := Spread(MetaObj(Lookup(t, featureData[i].0).value), featureData[i].1);
      && o in EnrichWithMeta(t, featureData)
      && Lookup(o, f) == if f in Keys(featureData[i].1) then Lookup(featureData[i].1, f)
                         else Lookup(MetaObj(Lookup(t, featureData[i].0).value), f)
  {
    var o := Spread(MetaObj(Lookup(t, featureData[i].0).value), featureData[i].1);
    MergedEntry(t, featureData, i);
    assert o in multiset(Merged(t, featureData));
    SpreadLookup(MetaObj(Lookup(t, featureData[i].0).value), featureData[i].1, f);
  }
}
