/**
 * The country catalogue of the language pages: countries grouped by region
 * with each group sorted by name, and the country search.
 */
module Countries {
  import opened Wrappers
  import opened Strings
  import opened Collections

  datatype Country = Country(code: string, name: string, region: string, subregion: Option<string>)

  function RegionOf(c: Country): string { c.region }

  /** `a.name.localeCompare(b.name)`, with code-point order standing in for the locale's collation. */
  predicate NameLeq(a: Country, b: Country) { LexLeq(a.name, b.name) }

  lemma NameLeqIsTotalPreorder()
    ensures TotalPreorder(NameLeq)
  {
    forall a: Country, b: Country ensures NameLeq(a, b) || NameLeq(b, a) {
      LexLeqTotal(a.name, b.name);
    }
    forall a: Country, b: Country, c: Country | NameLeq(a, b) && NameLeq(b, c)
      ensures NameLeq(a, c)
    {
      LexLeqTransitive(a.name, b.name, c.name);
    }
  }

  /** The second pass of `getCountriesByRegion`: every group sorted by name, keys untouched. */
  function SortGroups(gs: seq<(string, seq<Country>)>): (r: seq<(string, seq<Country>)>)
    ensures Keys(r) == Keys(gs)
  {
    if gs == [] then [] else [(gs[0].0, SortBy(gs[0].1, NameLeq))] + SortGroups(gs[1..])
  }

  lemma {:induction false} SortGroupsLookup(gs: seq<(string, seq<Country>)>, k: string)
    ensures Lookup(SortGroups(gs), k) ==
      (if Lookup(gs, k).Some? then Some(SortBy(Lookup(gs, k).value, NameLeq)) else None)
  {
    if gs != [] && gs[0].0 != k {
      SortGroupsLookup(gs[1..], k);
    }
  }

  /** `getCountriesByRegion`: one group per region, in order of first appearance. */
  function CountriesByRegion(countries: seq<Country>): (r: seq<(string, seq<Country>)>)
    ensures DistinctKeys(r)
    ensures Keys(r) == Dedup(Map(countries, RegionOf))
  {
    GroupByKeys(countries, RegionOf);
    SortGroups(GroupBy(countries, RegionOf))
  }

  /**
   * The group of a region holds exactly the countries of that region, sorted
   * by name; a region no country has has no group.
   */
  lemma CountriesByRegionLookup(countries: seq<Country>, region: string)
    ensures var g := Lookup(CountriesByRegion(countries), region);
      && (g.Some? <==> region in Map(countries, RegionOf))
      && (g.Some? ==> && multiset(g.value) == multiset(Select(countries, RegionOf, region))
                      && Sorted(g.value, NameLeq))
  {
    GroupByLookup(countries, RegionOf, region);
    SortGroupsLookup(GroupBy(countries, RegionOf), region);
    NameLeqIsTotalPreorder();
    if region in Map(countries, RegionOf) {
      SortBySorted(Select(countries, RegionOf, region), NameLeq);
    }
  }

  /** Every country is in the group of its own region and in no other. */
  lemma CountryInItsRegion(countries: seq<Country>, c: Country, i: int)
    requires c in countries && 0 <= i < |CountriesByRegion(countries)|
    ensures c in CountriesByRegion(countries)[i].1 <==> CountriesByRegion(countries)[i].0 == c.region
  {
    var r := CountriesByRegion(countries);
    GroupAt(countries, i);
    SelectMember(countries, RegionOf, r[i].0, c);
    assert c in r[i].1 <==> c in multiset(r[i].1);
  }

  /** The group at a position holds the countries of its region. */
  lemma GroupAt(countries: seq<Country>, i: int)
    requires 0 <= i < |CountriesByRegion(countries)|
    ensures var r := CountriesByRegion(countries);
      multiset(r[i].1) == multiset(Select(countries, RegionOf, r[i].0))
  {
    var r := CountriesByRegion(countries);
    var k := r[i].0;
    LookupAt(r, i);
    assert k in Map(countries, RegionOf) by {
      assert Keys(r)[i] == k;
    }
    CountriesByRegionLookup(countries, k);
  }

  /** The search test: code, name, region or subregion contains the term (each lower-cased). */
  predicate CountryMatches(c: Country, term: string) {
    || Contains(Lower(c.code), term)
    || Contains(Lower(c.name), term)
    || Contains(Lower(c.region), term)
    || (c.subregion.Some? && Contains(Lower(c.subregion.value), term))
  }

  /**
   * `searchCountries`: nothing for a blank query; otherwise the countries
   * matching the lower-cased (untrimmed) query, in catalogue order.
   */
  function SearchCountries(countries: seq<Country>, query: string): (r: seq<Country>)
    ensures AllSpace(query) ==> r == []
    ensures forall c :: c in r <==> !AllSpace(query) && c in countries && CountryMatches(c, Lower(query))
  {
    TrimEmptyIffAllSpace(query);
    if Trim(query) == [] then [] else Filter(countries, c => CountryMatches(c, Lower(query)))
  }

  lemma SearchCountriesSubsequence(countries: seq<Country>, query: string)
    ensures IsSubsequence(SearchCountries(countries, query), countries)
  {
    if AllSpace(query) {
      EmptySubsequence(countries);
    } else {
      assert SearchCountries(countries, query) == Filter(countries, c => CountryMatches(c, Lower(query))) by {
        TrimEmptyIffAllSpace(query);
      }
      FilterIsSubsequence(countries, c => CountryMatches(c, Lower(query)));
    }
  }

  lemma EmptySubsequence<T>(b: seq<T>)
    ensures IsSubsequence([], b)
  {
    PickNone(b);
    var mask := seq(|b|, _ => false);
    assert |mask| == |b| && [] == Pick(b, mask);
  }

  lemma {:induction false} PickNone<T>(b: seq<T>)
    ensures Pick(b, seq(|b|, _ => false)) == []
  {
    if b != [] {
      PickNone(b[..|b| - 1]);
      assert seq(|b|, _ => false)[..|b| - 1] == seq(|b| - 1, _ => false);
    }
  }
}
