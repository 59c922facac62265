/**
 * The bollard data generator: reads the image keys of the scripts' manifest,
 * keeps the bollard images, groups their sequence numbers by country and
 * emits the country list sorted by name.
 */
module BollardsGen {
  import opened Wrappers
  import opened Strings
  import opened Collections

  /** Country names by lower-case code. */
  const CountryNames: seq<(string, string)> := [
    ("ad", "Andorra"), ("ae", "United Arab Emirates"), ("al", "Albania"),
    ("ar", "Argentina"), ("at", "Austria"), ("au", "Australia"),
    ("bd", "Bangladesh"), ("be", "Belgium"), ("bg", "Bulgaria"),
    ("bm", "Bermuda"), ("bo", "Bolivia"), ("br", "Brazil"),
    ("bw", "Botswana"), ("ca", "Canada"), ("ch", "Switzerland"),
    ("cl", "Chile"), ("co", "Colombia"), ("cx", "Christmas Island"),
    ("cz", "Czechia"), ("de", "Germany"), ("dk", "Denmark"),
    ("do", "Dominican Republic"), ("ec", "Ecuador"), ("ee", "Estonia"),
    ("es", "Spain"), ("fi", "Finland"), ("fo", "Faroe Islands"),
    ("fr", "France"), ("gb", "United Kingdom"), ("gh", "Ghana"),
    ("gl", "Greenland"), ("gr", "Greece"), ("gt", "Guatemala"),
    ("gu", "Guam"), ("hr", "Croatia"), ("hu", "Hungary"),
    ("id", "Indonesia"), ("ie", "Ireland"), ("il", "Israel"),
    ("im", "Isle of Man"), ("in", "India"), ("is", "Iceland"),
    ("it", "Italy"), ("je", "Jersey"), ("jp", "Japan"),
    ("ke", "Kenya"), ("kg", "Kyrgyzstan"), ("kh", "Cambodia"),
    ("kr", "South Korea"), ("la", "Laos"), ("lk", "Sri Lanka"),
    ("ls", "Lesotho"), ("lt", "Lithuania"), ("lu", "Luxembourg"),
    ("lv", "Latvia"), ("mc", "Monaco"), ("me", "Montenegro"),
    ("mk", "North Macedonia"), ("mn", "Mongolia"), ("mt", "Malta"),
    ("mx", "Mexico"), ("my", "Malaysia"), ("nl", "Netherlands"),
    ("no", "Norway"), ("nz", "New Zealand"), ("pe", "Peru"),
    ("ph", "Philippines"), ("pl", "Poland"), ("pr", "Puerto Rico"),
    ("pt", "Portugal"), ("ro", "Romania"), ("rs", "Serbia"),
    ("ru", "Russia"), ("se", "Sweden"), ("sg", "Singapore"),
    ("si", "Slovenia"), ("sk", "Slovakia"), ("sm", "San Marino"),
    ("sn", "Senegal"), ("sz", "Eswatini"), ("th", "Thailand"),
    ("tn", "Tunisia"), ("tr", "Turkey"), ("tw", "Taiwan"),
    ("ua", "Ukraine"), ("us", "United States"), ("uy", "Uruguay"),
    ("vn", "Vietnam"), ("za", "South Africa")
  ]

  /** Continents by lower-case code. */
  const CountryContinents: seq<(string, string)> := [
    ("ad", "Europe"), ("ae", "Asia"), ("al", "Europe"),
    ("ar", "South America"), ("at", "Europe"), ("au", "Oceania"),
    ("bd", "Asia"), ("be", "Europe"), ("bg", "Europe"),
    ("bm", "North America"), ("bo", "South America"), ("br", "South America"),
    ("bw", "Africa"), ("ca", "North America"), ("ch", "Europe"),
    ("cl", "South America"), ("co", "South America"), ("cx", "Oceania"),
    ("cz", "Europe"), ("de", "Europe"), ("dk", "Europe"),
    ("do", "North America"), ("ec", "South America"), ("ee", "Europe"),
    ("es", "Europe"), ("fi", "Europe"), ("fo", "Europe"),
    ("fr", "Europe"), ("gb", "Europe"), ("gh", "Africa"),
    ("gl", "North America"), ("gr", "Europe"), ("gt", "North America"),
    ("gu", "Oceania"), ("hr", "Europe"), ("hu", "Europe"),
    ("id", "Asia"), ("ie", "Europe"), ("il", "Asia"),
    ("im", "Europe"), ("in", "Asia"), ("is", "Europe"),
    ("it", "Europe"), ("je", "Europe"), ("jp", "Asia"),
    ("ke", "Africa"), ("kg", "Asia"), ("kh", "Asia"),
    ("kr", "Asia"), ("la", "Asia"), ("lk", "Asia"),
    ("ls", "Africa"), ("lt", "Europe"), ("lu", "Europe"),
    ("lv", "Europe"), ("mc", "Europe"), ("me", "Europe"),
    ("mk", "Europe"), ("mn", "Asia"), ("mt", "Europe"),
    ("mx", "North America"), ("my", "Asia"), ("nl", "Europe"),
    ("no", "Europe"), ("nz", "Oceania"), ("pe", "South America"),
    ("ph", "Asia"), ("pl", "Europe"), ("pr", "North America"),
    ("pt", "Europe"), ("ro", "Europe"), ("rs", "Europe"),
    ("ru", "Europe"), ("se", "Europe"), ("sg", "Asia"),
    ("si", "Europe"), ("sk", "Europe"), ("sm", "Europe"),
    ("sn", "Africa"), ("sz", "Africa"), ("th", "Asia"),
    ("tn", "Africa"), ("tr", "Asia"), ("tw", "Asia"),
    ("ua", "Europe"), ("us", "North America"), ("uy", "South America"),
    ("vn", "Asia"), ("za", "Africa")
  ]

  datatype BollardCountry = BollardCountry(code: string, name: string, continent: string, images: seq<int>)

  // ---------------------------------------------------------------------------
  // Reading a key "bollards/<cc>/<cc>-<sequence>"
  // ---------------------------------------------------------------------------

  /** `/-(\d+)$/` finds a match: the name ends in "-" and a non-empty digit run. */
  predicate HasSequenceSuffix(filename: string) {
    var n := TrailingDigits(filename);
    1 <= n < |filename| && filename[|filename| - n - 1] == '-'
  }

  /** The captured digits of `/-(\d+)$/`, read as a number. */
  function SequenceSuffix(filename: string): nat
    requires HasSequenceSuffix(filename)
  {
    DigitsValue(filename[|filename| - TrailingDigits(filename)..])
  }

  /** A name of the form `<anything>-<digits>` has its digits captured. */
  lemma SequenceSuffixOf(prefix: string, digits: string)
    requires digits != [] && AllDigits(digits)
    ensures HasSequenceSuffix(prefix + "-" + digits)
    ensures SequenceSuffix(prefix + "-" + digits) == DigitsValue(digits)
  {
    var f := prefix + "-" + digits;
    TrailingDigitsOf(prefix + "-", digits);
    assert f[|f| - |digits|..] == digits;
  }

  predicate IsBollardKey(key: string) { StartsWith(key, "bollards/") }

  /** A bollard key without a third segment: reading its file name throws. */
  predicate Malformed(key: string) {
    IsBollardKey(key) && |Split(key, '/')| < 3
  }

  /** A bollard key whose file name ends in "-<digits>". */
  predicate Contributes(key: string) {
    var parts := Split(key, '/');
    IsBollardKey(key) && |parts| >= 3 && HasSequenceSuffix(parts[2])
  }

  /** The country segment and the sequence number a contributing key adds. */
  function ContributionOf(key: string): (string, int) {
    var parts := Split(key, '/');
    if Contributes(key) then (parts[1], SequenceSuffix(parts[2])) else ("", 0)
  }

  /**
   * The loop over the keys: the (country, sequence) pairs in key order, or
   * the failure of the first malformed bollard key.
   */
  function Contributions(keys: seq<string>): (r: Result<seq<(string, int)>, string>)
    ensures r.Failure? <==> exists i :: 0 <= i < |keys| && Malformed(keys[i])
    ensures r.Success? ==> r.value == Map(Filter(keys, Contributes), ContributionOf)
  {
    if keys == [] then Success([])
    else
      var init, last := keys[..|keys| - 1], keys[|keys| - 1];
      var prev := Contributions(init);
      MalformedSnoc(keys);
      if prev.Failure? then prev
      else if Malformed(last) then Failure("TypeError: the key has no file name segment")
      else
        var add := if Contributes(last) then [ContributionOf(last)] else [];
        ContributionsSnoc(keys);
        Success(prev.value + add)
  }

  predicate AnyMalformed(keys: seq<string>) {
    exists i :: 0 <= i < |keys| && Malformed(keys[i])
  }

  lemma MalformedSnoc(keys: seq<string>)
    requires keys != []
    ensures AnyMalformed(keys) <==> AnyMalformed(keys[..|keys| - 1]) || Malformed(keys[|keys| - 1])
  {
    var init := keys[..|keys| - 1];
    if exists i :: 0 <= i < |keys| && Malformed(keys[i]) {
      var i :| 0 <= i < |keys| && Malformed(keys[i]);
      if i < |init| { assert init[i] == keys[i]; }
    }
    if exists i :: 0 <= i < |init| && Malformed(init[i]) {
      var i :| 0 <= i < |init| && Malformed(init[i]);
      assert keys[i] == init[i];
    }
  }

  lemma ContributionsSnoc(keys: seq<string>)
    requires keys != []
    ensures var init, last := keys[..|keys| - 1], keys[|keys| - 1];
      Map(Filter(keys, Contributes), ContributionOf) ==
      Map(Filter(init, Contributes), ContributionOf) + (if Contributes(last) then [ContributionOf(last)] else [])
  {
    var init, last := keys[..|keys| - 1], keys[|keys| - 1];
    MapAppend(Filter(init, Contributes), if Contributes(last) then [last] else [], ContributionOf);
  }

  // ---------------------------------------------------------------------------
  // Building the country list
  // ---------------------------------------------------------------------------

  function PairCountry(p: (string, int)): string { p.0 }
  function PairSequence(p: (string, int)): int { p.1 }

  /** One country: code upper-cased, name and continent from the tables, sequences ascending. */
  function MakeCountry(code: string, pairs: seq<(string, int)>, names: seq<(string, string)>, continents: seq<(string, string)>): (c: BollardCountry)
    ensures c.code == Upper(code)
    ensures c.name == TableOr(names, code, Upper(code))
    ensures c.continent == TableOr(continents, code, "Unknown")
    ensures multiset(c.images) == multiset(Map(pairs, PairSequence))
    ensures forall i, j :: 0 <= i < j < |c.images| ==> c.images[i] <= c.images[j]
  {
    BollardCountry(Upper(code), TableOr(names, code, Upper(code)), TableOr(continents, code, "Unknown"), SortInts(Map(pairs, PairSequence)))
  }

  predicate NameLeq(a: BollardCountry, b: BollardCountry) { LexLeq(a.name, b.name) }

  lemma NameLeqIsTotalPreorder()
    ensures TotalPreorder(NameLeq)
  {
    forall a: BollardCountry, b: BollardCountry ensures NameLeq(a, b) || NameLeq(b, a) {
      LexLeqTotal(a.name, b.name);
    }
    forall a: BollardCountry, b: BollardCountry, c: BollardCountry | NameLeq(a, b) && NameLeq(b, c)
      ensures NameLeq(a, c)
    {
      LexLeqTransitive(a.name, b.name, c.name);
    }
  }

  /** The country groups in order of first appearance, keyed by the key's country segment. */
  function CountryGroups(contribs: seq<(string, int)>): seq<(string, seq<(string, int)>)> {
    GroupBy(contribs, PairCountry)
  }

  /** The unsorted country list, one per group. */
  function Unsorted(contribs: seq<(string, int)>, names: seq<(string, string)>, continents: seq<(string, string)>): (r: seq<BollardCountry>)
    ensures |r| == |CountryGroups(contribs)|
  {
    Map(CountryGroups(contribs), (g: (string, seq<(string, int)>)) => MakeCountry(g.0, g.1, names, continents))
  }

  /**
   * The generator's data: a failure for a malformed bollard key, otherwise
   * the countries sorted by name.
   */
  function Generate(keys: seq<string>, names: seq<(string, string)>, continents: seq<(string, string)>): (r: Result<seq<BollardCountry>, string>)
    ensures r.Failure? <==> exists i :: 0 <= i < |keys| && Malformed(keys[i])
    ensures r.Success? ==> Sorted(r.value, NameLeq)
    ensures r.Success? ==> multiset(r.value) == multiset(Unsorted(Contributions(keys).value, names, continents))
  {
    match Contributions(keys)
    case Failure(e) => Failure(e)
    case Success(contribs) =>
      var u := Unsorted(contribs, names, continents);
      NameLeqIsTotalPreorder();
      SortBySorted(u, NameLeq);
      Success(SortBy(u, NameLeq))
  }

  /** The generator as the script runs it, with its own name and continent tables. */
  function GenerateBollardData(keys: seq<string>): Result<seq<BollardCountry>, string> {
    Generate(keys, CountryNames, CountryContinents)
  }

  /**
   * Each country segment that occurs yields exactly one country in the
   * output, built from exactly the sequences contributed under it.
   */
  lemma GeneratedCountryOf(keys: seq<string>, names: seq<(string, string)>, continents: seq<(string, string)>, code: string)
    requires Generate(keys, names, continents).Success?
    requires code in Map(Contributions(keys).value, PairCountry)
    ensures var contribs := Contributions(keys).value;
      MakeCountry(code, Select(contribs, PairCountry, code), names, continents) in Generate(keys, names, continents).value
  {
    CountryInOutput(Contributions(keys).value, names, continents, Generate(keys, names, continents).value, code);
  }

  lemma CountryInOutput(contribs: seq<(string, int)>, names: seq<(string, string)>, continents: seq<(string, string)>, out: seq<BollardCountry>, code: string)
    requires multiset(out) == multiset(Unsorted(contribs, names, continents))
    requires code in Map(contribs, PairCountry)
    ensures MakeCountry(code, Select(contribs, PairCountry, code), names, continents) in out
  {
    var groups := CountryGroups(contribs);
    GroupByLookup(contribs, PairCountry, code);
    GroupByKeys(contribs, PairCountry);
    var i := KeyIndex(groups, code);
    LookupAt(groups, i);
    var u := Unsorted(contribs, names, continents);
    assert u[i] == MakeCountry(code, Select(contribs, PairCountry, code), names, continents);
    assert u[i] in multiset(u);
    assert u[i] in multiset(out);
  }

  /** Every output country comes from one country segment and its sequences. */
  lemma GeneratedCountryFrom(keys: seq<string>, names: seq<(string, string)>, continents: seq<(string, string)>, c: BollardCountry)
    requires Generate(keys, names, continents).Success?
    requires c in Generate(keys, names, continents).value
    ensures exists code :: BuiltFrom(c, Contributions(keys).value, code, names, continents)
  {
    OutputCountryBuilt(Contributions(keys).value, names, continents, Generate(keys, names, continents).value, c);
  }

  lemma OutputCountryBuilt(contribs: seq<(string, int)>, names: seq<(string, string)>, continents: seq<(string, string)>, out: seq<BollardCountry>, c: BollardCountry)
    requires multiset(out) == multiset(Unsorted(contribs, names, continents))
    requires c in out
    ensures exists code :: BuiltFrom(c, contribs, code, names, continents)
  {
    var u := Unsorted(contribs, names, continents);
    assert c in multiset(out);
    assert c in multiset(u);
    var i :| 0 <= i < |u| && u[i] == c;
    var code := GroupCountry(contribs, names, continents, i);
    assert BuiltFrom(c, contribs, code, names, continents);
  }

  /** `c` is the country built from the sequences contributed under the segment `code`. */
  predicate BuiltFrom(c: BollardCountry, contribs: seq<(string, int)>, code: string, names: seq<(string, string)>, continents: seq<(string, string)>) {
    code in Map(contribs, PairCountry) && c == MakeCountry(code, Select(contribs, PairCountry, code), names, continents)
  }

  lemma GroupCountry(contribs: seq<(string, int)>, names: seq<(string, string)>, continents: seq<(string, string)>, i: int)
    returns (code: string)
    requires 0 <= i < |CountryGroups(contribs)|
    ensures code in Map(contribs, PairCountry)
    ensures Unsorted(contribs, names, continents)[i] == MakeCountry(code, Select(contribs, PairCountry, code), names, continents)
  {
    var groups := CountryGroups(contribs);
    code := groups[i].0;
    GroupByKeys(contribs, PairCountry);
    LookupAt(groups, i);
    GroupByLookup(contribs, PairCountry, code);
    assert code in Keys(groups);
    assert code in Map(contribs, PairCountry) by {
      assert code in Dedup(Map(contribs, PairCountry));
    }
  }

  /** The reported image total: one image per contributing key. */
  lemma TotalImages(keys: seq<string>)
    requires Contributions(keys).Success?
    ensures SumSizes(CountryGroups(Contributions(keys).value)) == Count(keys, Contributes)
  {
    GroupBySizes(Contributions(keys).value, PairCountry);
  }
}
