/**
 * The character-to-countries map of the web app: regional tables from
 * letter strings to the countries using those letters are folded into one
 * map from each single character to its countries, appending and never
 * repeating a country already recorded.
 */
module CharacterMap {
  import opened Wrappers
  import opened Strings
  import opened Collections

  /** Each character (a code point) with the countries recorded for it, in insertion order. */
  type CharMap = seq<(char, seq<string>)>

  /** A regional table: letter strings, each with the countries that use them. */
  type RegionTable = seq<(string, seq<string>)>

  /** Every character occurs once and has at least one country. */
  predicate WellFormed(m: CharMap) {
    DistinctKeys(m) && forall i :: 0 <= i < |m| ==> m[i].1 != []
  }

  /** No character lists a country twice. */
  predicate NoRepeatedCountries(m: CharMap) {
    forall i :: 0 <= i < |m| ==> Distinct(m[i].1)
  }

  /** `map.get(char) || []` */
  function FindCountries(m: CharMap, c: char): seq<string> {
    Lookup(m, c).GetOr([])
  }

  /** The countries of `countries` not yet recorded in `existing`, in order. */
  function NewCountries(existing: seq<string>, countries: seq<string>): seq<string> {
    Filter(countries, x => x !in existing)
  }

  /**
   * One inner step: append to the character's list the countries it does not
   * have yet, and change nothing when there are none.
   */
  function AddCountries(m: CharMap, c: char, countries: seq<string>): (r: CharMap)
    ensures NewCountries(FindCountries(m, c), countries) == [] ==> r == m
    ensures NewCountries(FindCountries(m, c), countries) != [] ==>
      Lookup(r, c) == Some(FindCountries(m, c) + NewCountries(FindCountries(m, c), countries))
    ensures forall d :: d != c ==> Lookup(r, d) == Lookup(m, d)
    ensures WellFormed(m) ==> WellFormed(r)
  {
    var existing := FindCountries(m, c);
    var added := NewCountries(existing, countries);
    if added == [] then m
    else
      var r := Put(m, c, existing + added);
      forall d | d != c ensures Lookup(r, d) == Lookup(m, d) {
        PutOthers(m, c, existing + added, d);
      }
      if WellFormed(m) then
        PutWellFormed(m, c, existing + added);
        r
      else r
  }

  lemma {:induction false} PutWellFormed(m: CharMap, c: char, l: seq<string>)
    requires WellFormed(m) && l != []
    ensures WellFormed(Put(m, c, l))
  {
    var r := Put(m, c, l);
    assert Distinct(Keys(r)) by {
      if c !in Keys(m) {
        assert Keys(r) == Keys(m) + [c];
      }
    }
    forall i | 0 <= i < |r| ensures r[i].1 != [] {
      PutValues(m, c, l, i);
    }
  }

  lemma {:induction false} PutValues<K, V>(al: seq<(K, V)>, k: K, v: V, i: int)
    requires 0 <= i < |Put(al, k, v)|
    ensures Put(al, k, v)[i].1 == v || Put(al, k, v)[i] in al
  {
    if al != [] && al[0].0 != k && i > 0 {
      PutValues(al[1..], k, v, i - 1);
    }
  }

  /** `for (const char of charPair)`: the step applied to each character in turn. */
  function ProcessChars(m: CharMap, chars: string, countries: seq<string>): (r: CharMap)
    ensures WellFormed(m) ==> WellFormed(r)
  {
    if chars == [] then m
    else AddCountries(ProcessChars(m, chars[..|chars| - 1], countries), chars[|chars| - 1], countries)
  }

  /** `processRegion`: every entry of the table in order. */
  function ProcessRegion(m: CharMap, table: RegionTable): (r: CharMap)
    ensures WellFormed(m) ==> WellFormed(r)
  {
    if table == [] then m
    else
      var e := table[|table| - 1];
      ProcessChars(ProcessRegion(m, table[..|table| - 1]), e.0, e.1)
  }

  /** The module's map: the regional tables processed in order, starting from nothing. */
  function BuildMap(regions: seq<RegionTable>): (m: CharMap)
    ensures WellFormed(m)
  {
    if regions == [] then []
    else ProcessRegion(BuildMap(regions[..|regions| - 1]), regions[|regions| - 1])
  }

  // ---------------------------------------------------------------------------
  // Append-only and duplicate-free
  // ---------------------------------------------------------------------------

  /** A step only appends: a recorded list stays a prefix of the new one. */
  lemma AddCountriesAppends(m: CharMap, c: char, countries: seq<string>, d: char)
    ensures FindCountries(m, d) <= FindCountries(AddCountries(m, c, countries), d)
  {
  }

  lemma {:induction false} ProcessCharsAppends(m: CharMap, chars: string, countries: seq<string>, d: char)
    ensures FindCountries(m, d) <= FindCountries(ProcessChars(m, chars, countries), d)
  {
    if chars != [] {
      var prev := ProcessChars(m, chars[..|chars| - 1], countries);
      ProcessCharsAppends(m, chars[..|chars| - 1], countries, d);
      AddCountriesAppends(prev, chars[|chars| - 1], countries, d);
    }
  }

  /** Processing a table only appends: countries already recorded for a character keep their order. */
  lemma {:induction false} ProcessRegionAppends(m: CharMap, table: RegionTable, d: char)
    ensures FindCountries(m, d) <= FindCountries(ProcessRegion(m, table), d)
  {
    if table != [] {
      var e := table[|table| - 1];
      var prev := ProcessRegion(m, table[..|table| - 1]);
      ProcessRegionAppends(m, table[..|table| - 1], d);
      ProcessCharsAppends(prev, e.0, e.1, d);
    }
  }

  lemma NewCountriesDistinct(existing: seq<string>, countries: seq<string>)
    requires Distinct(existing) && Distinct(countries)
    ensures Distinct(existing + NewCountries(existing, countries))
  {
    var added := NewCountries(existing, countries);
    FilterDistinct(countries, x => x !in existing);
    var s := existing + added;
    forall i, j | 0 <= i < j < |s| ensures s[i] != s[j] {
      if j >= |existing| && i < |existing| {
        assert s[j] in added;
      } else if i >= |existing| {
        assert s[i] == added[i - |existing|] && s[j] == added[j - |existing|];
      }
    }
  }

  lemma {:induction false} FilterDistinct<T>(xs: seq<T>, p: T -> bool)
    requires Distinct(xs)
    ensures Distinct(Filter(xs, p))
  {
    if xs != [] {
      var init := xs[..|xs| - 1];
      FilterDistinct(init, p);
      assert xs[|xs| - 1] !in init;
    }
  }

  lemma AddCountriesNoRepeats(m: CharMap, c: char, countries: seq<string>)
    requires WellFormed(m) && NoRepeatedCountries(m) && Distinct(countries)
    ensures NoRepeatedCountries(AddCountries(m, c, countries))
  {
    var r := AddCountries(m, c, countries);
    forall i | 0 <= i < |r| ensures Distinct(r[i].1) {
      var existing := FindCountries(m, c);
      assert Distinct(existing) by {
        if c in Keys(m) {
          var j := KeyIndex(m, c);
          LookupAt(m, j);
        }
      }
      NewCountriesDistinct(existing, countries);
      if r != m {
        PutValues(m, c, existing + NewCountries(existing, countries), i);
      }
    }
  }

  /**
   * When every table lists each country at most once per entry, no character
   * ever lists a country twice.
   */
  lemma {:induction false} ProcessRegionNoRepeats(m: CharMap, table: RegionTable)
    requires WellFormed(m) && NoRepeatedCountries(m)
    requires forall i :: 0 <= i < |table| ==> Distinct(table[i].1)
    ensures NoRepeatedCountries(ProcessRegion(m, table))
  {
    if table != [] {
      var e := table[|table| - 1];
      ProcessRegionNoRepeats(m, table[..|table| - 1]);
      ProcessCharsNoRepeats(ProcessRegion(m, table[..|table| - 1]), e.0, e.1);
    }
  }

  lemma {:induction false} ProcessCharsNoRepeats(m: CharMap, chars: string, countries: seq<string>)
    requires WellFormed(m) && NoRepeatedCountries(m) && Distinct(countries)
    ensures NoRepeatedCountries(ProcessChars(m, chars, countries))
  {
    if chars != [] {
      var prev := ProcessChars(m, chars[..|chars| - 1], countries);
      ProcessCharsNoRepeats(m, chars[..|chars| - 1], countries);
      AddCountriesNoRepeats(prev, chars[|chars| - 1], countries);
    }
  }

  // ---------------------------------------------------------------------------
  // Coverage
  // ---------------------------------------------------------------------------

  /** After a step, the character has every country it was given. */
  lemma AddCountriesCovers(m: CharMap, c: char, countries: seq<string>, x: string)
    requires x in countries
    ensures x in FindCountries(AddCountries(m, c, countries), c)
  {
    var existing := FindCountries(m, c);
    if x !in existing {
      assert x in NewCountries(existing, countries);
    }
  }

  lemma {:induction false} ProcessCharsCovers(m: CharMap, chars: string, countries: seq<string>, k: int, x: string)
    requires 0 <= k < |chars| && x in countries
    ensures x in FindCountries(ProcessChars(m, chars, countries), chars[k])
  {
    var n := |chars| - 1;
    var prev := ProcessChars(m, chars[..n], countries);
    if k == n {
      AddCountriesCovers(prev, chars[n], countries, x);
    } else {
      ProcessCharsCovers(m, chars[..n], countries, k, x);
      AddCountriesAppends(prev, chars[n], countries, chars[k]);
    }
  }

  /**
   * Every character of an entry's letter string ends up listing every
   * country of that entry.
   */
  lemma {:induction false} ProcessRegionCovers(m: CharMap, table: RegionTable, i: int, k: int, x: string)
    requires 0 <= i < |table| && 0 <= k < |table[i].0| && x in table[i].1
    ensures x in FindCountries(ProcessRegion(m, table), table[i].0[k])
  {
    var n := |table| - 1;
    var prev := ProcessRegion(m, table[..n]);
    if i == n {
      ProcessCharsCovers(prev, table[n].0, table[n].1, k, x);
    } else {
      ProcessRegionCovers(m, table[..n], i, k, x);
      ProcessCharsAppends(prev, table[n].0, table[n].1, table[i].0[k]);
    }
  }

  // ---------------------------------------------------------------------------
  // Queries
  // ---------------------------------------------------------------------------

  /** `getAllMappedCharacters`: the characters in insertion order. */
  function AllMappedCharacters(m: CharMap): (cs: seq<char>)
    ensures |cs| == |m|
  {
    Keys(m)
  }

  /** A character is listed exactly when it has countries; unlisted characters get none. */
  lemma MappedIffHasCountries(m: CharMap, c: char)
    requires WellFormed(m)
    ensures c in AllMappedCharacters(m) <==> FindCountries(m, c) != []
  {
    if c in Keys(m) {
      var i := KeyIndex(m, c);
      LookupAt(m, i);
    }
  }

  /** `getCharacterRarity`: the number of countries using the character. */
  function CharacterRarity(m: CharMap, c: char): (n: nat)
    ensures n == |FindCountries(m, c)|
    ensures n == 0 <==> Lookup(m, c).None? || Lookup(m, c).value == []
  {
    |FindCountries(m, c)|
  }

  /** Country names of the character map, by lower-case code. */
  const CountryNames: map<string, string> := map[
    "al" := "Albania", "bg" := "Bulgaria", "cz" := "Czech Republic", "dk" := "Denmark",
    "ee" := "Estonia", "fi" := "Finland", "hr" := "Croatia", "hu" := "Hungary",
    "is" := "Iceland", "lt" := "Lithuania", "lv" := "Latvia", "me" := "Montenegro",
    "mk" := "North Macedonia", "no" := "Norway", "pl" := "Poland", "ro" := "Romania",
    "rs" := "Serbia", "ru" := "Russia", "se" := "Sweden", "si" := "Slovenia",
    "sk" := "Slovakia", "tr" := "Turkey", "ua" := "Ukraine"
  ]

  /**
   * `getCountryName`: the table name of a code, or the code upper-cased when
   * the table has none. No table name is empty, so the `||` fallback is taken
   * exactly for the codes the table lacks.
   */
  function CountryName(code: string): (name: string)
    ensures code in CountryNames ==> name == CountryNames[code] && name != ""
    ensures code !in CountryNames ==> name == Upper(code)
  {
    if code in CountryNames && CountryNames[code] != "" then CountryNames[code] else Upper(code)
  }
}
