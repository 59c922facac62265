/**
 * Case-insensitive lookup of the bollard countries by ISO code, through an
 * index keyed by the lower-cased code.
 */
module CountryLookup {
  import opened Wrappers
  import opened Strings
  import opened Collections
  import opened BollardsGen

  function LowerCode(c: BollardCountry): string { Lower(c.code) }

  /** `new Map(countries.map(c => [lower(code), c]))`: a later country replaces an earlier one under the same key. */
  function IndexByCode(countries: seq<BollardCountry>): (idx: seq<(string, BollardCountry)>)
    ensures DistinctKeys(idx)
    ensures forall k :: k in Keys(idx) <==> k in Map(countries, LowerCode)
  {
    if countries == [] then []
    else
      var init := countries[..|countries| - 1];
      var c := countries[|countries| - 1];
      PutKeysSnoc(countries, LowerCode, IndexByCode(init), c);
      Put(IndexByCode(init), LowerCode(c), c)
  }

  /** The last country whose lower-cased code is `k`. */
  function LastWithCode(countries: seq<BollardCountry>, k: string): (r: Option<BollardCountry>)
    ensures r.Some? ==> r.value in countries && LowerCode(r.value) == k
  {
    if countries == [] then None
    else if LowerCode(countries[|countries| - 1]) == k then Some(countries[|countries| - 1])
    else LastWithCode(countries[..|countries| - 1], k)
  }

  /** The index holds, under each key, the last country with that code. */
  lemma {:induction false} IndexLookup(countries: seq<BollardCountry>, k: string)
    ensures Lookup(IndexByCode(countries), k) == LastWithCode(countries, k)
  {
    if countries != [] {
      var init := countries[..|countries| - 1];
      var c := countries[|countries| - 1];
      IndexLookup(init, k);
      if LowerCode(c) != k {
        PutOthers(IndexByCode(init), LowerCode(c), c, k);
      }
    }
  }

  /** `findCountryByCode`: the country under the lower-cased code. */
  function FindCountryByCode(countries: seq<BollardCountry>, code: string): (r: Option<BollardCountry>)
    ensures r.Some? ==> r.value in countries && Lower(r.value.code) == Lower(code)
    ensures r.None? <==> forall c :: c in countries ==> Lower(c.code) != Lower(code)
  {
    IndexLookup(countries, Lower(code));
    var r := Lookup(IndexByCode(countries), Lower(code));
    assert r.None? ==> forall c :: c in countries ==> Lower(c.code) != Lower(code) by {
      if r.None? {
        forall c | c in countries ensures Lower(c.code) != Lower(code) {
          var j :| 0 <= j < |countries| && countries[j] == c;
          assert Map(countries, LowerCode)[j] == Lower(c.code);
        }
      }
    }
    r
  }

  /** The lookup ignores letter case. */
  lemma FindCountryByCodeCaseInsensitive(countries: seq<BollardCountry>, code: string)
    ensures FindCountryByCode(countries, Upper(code)) == FindCountryByCode(countries, code)
  {
    LowerOfUpper(code);
  }

  /** `getAllCountryCodes`: one lower-cased code per country, in data order. */
  function AllCountryCodes(countries: seq<BollardCountry>): (codes: seq<string>)
    ensures |codes| == |countries|
    ensures forall i :: 0 <= i < |codes| ==> codes[i] == Lower(countries[i].code)
  {
    Map(countries, LowerCode)
  }

  /** `isValidCountryCode`: whether the index has the lower-cased code. */
  function IsValidCountryCode(countries: seq<BollardCountry>, code: string): (b: bool)
    ensures b <==> FindCountryByCode(countries, code).Some?
    ensures b <==> Lower(code) in AllCountryCodes(countries)
  {
    Lower(code) in Keys(IndexByCode(countries))
  }

  /** With distinct codes, looking a country up by its own code finds it. */
  lemma {:induction false} FindOwnCode(countries: seq<BollardCountry>, i: int)
    requires 0 <= i < |countries| && Distinct(AllCountryCodes(countries))
    ensures FindCountryByCode(countries, countries[i].code) == Some(countries[i])
  {
    var k := Lower(countries[i].code);
    IndexLookup(countries, k);
    var codes := AllCountryCodes(countries);
    assert forall a, b :: 0 <= a < b < |countries| ==> LowerCode(countries[a]) != LowerCode(countries[b]) by {
      forall a, b | 0 <= a < b < |countries| ensures LowerCode(countries[a]) != LowerCode(countries[b]) {
        assert codes[a] != codes[b];
      }
    }
    LastWithCodeDistinct(countries, i);
  }

  lemma {:induction false} LastWithCodeDistinct(countries: seq<BollardCountry>, i: int)
    requires 0 <= i < |countries|
    requires forall a, b :: 0 <= a < b < |countries| ==> LowerCode(countries[a]) != LowerCode(countries[b])
    ensures LastWithCode(countries, LowerCode(countries[i])) == Some(countries[i])
  {
    var n := |countries| - 1;
    if i < n {
      var init := countries[..n];
      assert LowerCode(countries[i]) != LowerCode(countries[n]);
      assert init[i] == countries[i];
      LastWithCodeDistinct(init, i);
    }
  }
}
