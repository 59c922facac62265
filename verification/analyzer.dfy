/**
 * The text analyzer of the web app: the distinct non-ASCII characters of a
 * text that the character map knows are collected, every country using one
 * of them is scored by how rare its matched characters are, and the
 * countries are ranked by that confidence.
 */
module Analyzer {
  import opened Wrappers
  import opened Strings
  import opened Collections
  import opened CharacterMap

  /** `ASCII_BASIC`: code points 0 to 0x7F. */
  predicate IsAsciiBasic(c: char) { c as int <= 0x7F }

  /** A character of the text takes part when it is outside basic ASCII and the map knows it. */
  predicate Counted(m: CharMap, c: char) { !IsAsciiBasic(c) && c in AllMappedCharacters(m) }

  // ---------------------------------------------------------------------------
  // Character extraction
  // ---------------------------------------------------------------------------

  /** The counted characters of a text, each once, in order of first appearance. */
  function UniqueCharacters(m: CharMap, text: string): (r: seq<char>)
    ensures Distinct(r)
    ensures forall c :: c in r <==> c in text && Counted(m, c)
  {
    if text == [] then []
    else
      var d := UniqueCharacters(m, text[..|text| - 1]);
      var c := text[|text| - 1];
      assert text == text[..|text| - 1] + [c];
      if !Counted(m, c) || c in d then d else d + [c]
  }

  /**
   * The unique characters are the counted characters of the text with
   * repeats dropped, keeping first occurrences.
   */
  lemma {:induction false} UniqueCharactersIsDedup(m: CharMap, text: string)
    ensures UniqueCharacters(m, text) == Dedup(Filter(text, c => Counted(m, c)))
  {
    var p := c => Counted(m, c);
    if text != [] {
      var init := text[..|text| - 1];
      var c := text[|text| - 1];
      UniqueCharactersIsDedup(m, init);
      var f := Filter(init, p);
      assert Filter(text, p) == f + if p(c) then [c] else [];
      assert c in UniqueCharacters(m, init) <==> c in Dedup(f);
      if p(c) {
        DedupSnoc(f, c);
      } else {
        assert f + [] == f;
      }
    }
  }

  /** `extractUniqueCharacters`: one pass with a set of characters already seen. */
  method ExtractUniqueCharacters(m: CharMap, text: string) returns (result: seq<char>)
    ensures result == UniqueCharacters(m, text)
  {
    var mapped := set c | c in AllMappedCharacters(m);
    var seen: set<char> := {};
    result := [];
    for i := 0 to |text|
      invariant result == UniqueCharacters(m, text[..i])
      invariant seen == set c | c in result
    {
      var c := text[i];
      assert text[..i + 1][..i] == text[..i];
      if IsAsciiBasic(c) {
        continue;
      }
      if c in seen {
        continue;
      }
      if c !in mapped {
        continue;
      }
      seen := seen + {c};
      result := result + [c];
    }
    assert text[..|text|] == text;
  }

  // ---------------------------------------------------------------------------
  // Confidence
  // ---------------------------------------------------------------------------

  /**
   * What one matched character adds to a country's score, by the number of
   * countries using it: rarer characters weigh more.
   */
  function Weight(countries: nat): (w: int)
    ensures 5 <= w <= 50
    ensures w == 50 <==> countries == 1
  {
    if countries == 1 then 50
    else if countries <= 3 then 30
    else if countries <= 6 then 15
    else 5
  }

  /** A character used by fewer countries never weighs less than a more common one. */
  lemma WeightAntitone(a: nat, b: nat)
    requires 1 <= a <= b
    ensures Weight(a) >= Weight(b)
  {
  }

  /** The raw score of a list of matched characters. */
  function Score(m: CharMap, chars: seq<char>): (s: int)
    ensures 5 * |chars| <= s <= 50 * |chars|
  {
    if chars == [] then 0
    else Weight(CharacterRarity(m, chars[0])) + Score(m, chars[1..])
  }

  lemma {:induction false} ScoreAppend(m: CharMap, a: seq<char>, b: seq<char>)
    ensures Score(m, a + b) == Score(m, a) + Score(m, b)
  {
    if a == [] {
      assert a + b == b;
    } else {
      assert (a + b)[0] == a[0];
      assert (a + b)[1..] == a[1..] + b;
      ScoreAppend(m, a[1..], b);
    }
  }

  /** The score depends only on which characters matched, not on their order. */
  lemma {:induction false} ScorePermutation(m: CharMap, a: seq<char>, b: seq<char>)
    requires multiset(a) == multiset(b)
    ensures Score(m, a) == Score(m, b)
    decreases |a|
  {
    if a == [] {
      assert |b| == |multiset(b)| == 0;
    } else {
      var j := PermutationHead(a, b);
      ScorePermutation(m, a[1..], b[..j] + b[j + 1..]);
      ScoreRemove(m, b, j);
    }
  }

  /** Taking one character out of a list takes its weight out of the score. */
  lemma ScoreRemove(m: CharMap, b: seq<char>, j: int)
    requires 0 <= j < |b|
    ensures Score(m, b) == Weight(CharacterRarity(m, b[j])) + Score(m, b[..j] + b[j + 1..])
  {
    var front, back := b[..j], b[j..];
    assert b == front + back;
    ScoreAppend(m, front, back);
    ScoreAppend(m, front, back[1..]);
    assert back[1..] == b[j + 1..];
  }

  /** `calculateConfidence`: the score capped at 100. */
  function Confidence(m: CharMap, chars: seq<char>): (c: int)
    ensures 0 <= c <= 100
    ensures c <= Score(m, chars)
    ensures chars != [] ==> c >= 5
    ensures |chars| >= 20 ==> c == 100
  {
    var s := Score(m, chars);
    if s < 100 then s else 100
  }

  // ---------------------------------------------------------------------------
  // Country matches
  // ---------------------------------------------------------------------------

  /** Each country with the set of matched characters it uses, in insertion order. */
  type Matches = seq<(string, seq<char>)>

  /** The characters matched so far for a country. */
  function Matched(gs: Matches, x: string): seq<char> {
    Lookup(gs, x).GetOr([])
  }

  /** Whether country `x` uses character `c` according to the map. */
  predicate Uses(m: CharMap, x: string, c: char) { x in FindCountries(m, c) }

  /** Records that `country` uses `c`, as a set: a character already present is not repeated. */
  function AddMatch(gs: Matches, country: string, c: char): (r: Matches)
    ensures DistinctKeys(gs) ==> DistinctKeys(r)
    ensures c in Matched(r, country)
  {
    var existing := Matched(gs, country);
    var added := if c in existing then existing else existing + [c];
    assert c in added;
    if DistinctKeys(gs) then PutDistinctKeys(gs, country, added); Put(gs, country, added)
    else Put(gs, country, added)
  }

  /** The inner loop: `c` recorded for each of its countries in turn. */
  function MatchCountries(gs: Matches, c: char, countries: seq<string>): (r: Matches)
    ensures DistinctKeys(gs) ==> DistinctKeys(r)
  {
    if countries == [] then gs
    else AddMatch(MatchCountries(gs, c, countries[..|countries| - 1]), countries[|countries| - 1], c)
  }

  /** The outer loop over the unique characters. */
  function CountryMatches(m: CharMap, chars: seq<char>): (r: Matches)
    ensures DistinctKeys(r)
  {
    if chars == [] then []
    else
      var c := chars[|chars| - 1];
      MatchCountries(CountryMatches(m, chars[..|chars| - 1]), c, FindCountries(m, c))
  }

  lemma {:induction false} MatchCountriesLookup(gs: Matches, c: char, countries: seq<string>, x: string)
    requires c !in Matched(gs, x)
    ensures Matched(MatchCountries(gs, c, countries), x) == Matched(gs, x) + (if x in countries then [c] else [])
  {
    if countries != [] {
      var init := countries[..|countries| - 1];
      var y := countries[|countries| - 1];
      var prev := MatchCountries(gs, c, init);
      MatchCountriesLookup(gs, c, init, x);
      InSnoc(countries, x);
      if y != x {
        PutOthers(prev, y, (var e := Matched(prev, y); if c in e then e else e + [c]), x);
      }
    }
  }

  lemma {:induction false} MatchCountriesKeys(gs: Matches, c: char, countries: seq<string>, x: string)
    ensures x in Keys(MatchCountries(gs, c, countries)) <==> x in Keys(gs) || x in countries
  {
    if countries != [] {
      var init := countries[..|countries| - 1];
      MatchCountriesKeys(gs, c, init, x);
      InSnoc(countries, x);
    }
  }

  /**
   * For distinct characters, a country's matched characters are exactly the
   * characters it uses, in the order of the input.
   */
  lemma {:induction false} CountryMatchesLookup(m: CharMap, chars: seq<char>, x: string)
    requires Distinct(chars)
    ensures Matched(CountryMatches(m, chars), x) == Filter(chars, c => Uses(m, x, c))
  {
    if chars != [] {
      var init := chars[..|chars| - 1];
      var c := chars[|chars| - 1];
      CountryMatchesLookup(m, init, x);
      assert c !in init;
      MatchCountriesLookup(CountryMatches(m, init), c, FindCountries(m, c), x);
    }
  }

  /** Some character of `chars` is used by country `x`. */
  predicate UsedBy(m: CharMap, x: string, chars: seq<char>) {
    exists c :: c in chars && Uses(m, x, c)
  }

  lemma UsedBySnoc(m: CharMap, x: string, chars: seq<char>)
    requires chars != []
    ensures UsedBy(m, x, chars) <==> UsedBy(m, x, chars[..|chars| - 1]) || Uses(m, x, chars[|chars| - 1])
  {
    var init := chars[..|chars| - 1];
    var last := chars[|chars| - 1];
    if UsedBy(m, x, chars) {
      var c :| c in chars && Uses(m, x, c);
      InSnoc(chars, c);
    }
    if UsedBy(m, x, init) {
      var c :| c in init && Uses(m, x, c);
      InSnoc(chars, c);
    }
    InSnoc(chars, last);
  }

  /** A country is matched exactly when one of the characters uses it. */
  lemma {:induction false} CountryMatchesKeys(m: CharMap, chars: seq<char>, x: string)
    ensures x in Keys(CountryMatches(m, chars)) <==> UsedBy(m, x, chars)
  {
    if chars != [] {
      var init := chars[..|chars| - 1];
      var c := chars[|chars| - 1];
      CountryMatchesKeys(m, init, x);
      MatchCountriesKeys(CountryMatches(m, init), c, FindCountries(m, c), x);
      UsedBySnoc(m, x, chars);
    }
  }

  // ---------------------------------------------------------------------------
  // Ranking
  // ---------------------------------------------------------------------------

  datatype AnalysisResult = AnalysisResult(
    countryCode: string,
    countryName: string,
    confidence: int,
    matchedCharacters: seq<char>)

  datatype AnalysisOutput = AnalysisOutput(results: seq<AnalysisResult>, characters: seq<char>)

  function CodeOf(r: AnalysisResult): string { r.countryCode }

  /** The result for one matched country. */
  function MakeResult(m: CharMap, e: (string, seq<char>)): AnalysisResult {
    AnalysisResult(e.0, CountryName(e.0), Confidence(m, e.1), e.1)
  }

  /** One result per matched country, in insertion order. */
  function Results(m: CharMap, gs: Matches): seq<AnalysisResult> {
    Map(gs, e => MakeResult(m, e))
  }

  /** The comparator `b.confidence - a.confidence`: higher confidence first. */
  predicate ByConfidence(a: AnalysisResult, b: AnalysisResult) { a.confidence >= b.confidence }

  lemma ByConfidenceIsTotalPreorder()
    ensures TotalPreorder(ByConfidence)
  {
  }

  /** `analyzeText`: the ranked countries and the characters they were scored on. */
  function AnalyzeText(m: CharMap, text: string): (out: AnalysisOutput)
    ensures out.characters == UniqueCharacters(m, text)
    ensures |out.results| == |Keys(CountryMatches(m, out.characters))|
  {
    var unique := UniqueCharacters(m, text);
    if unique == [] then AnalysisOutput([], [])
    else AnalysisOutput(SortBy(Results(m, CountryMatches(m, unique)), ByConfidence), unique)
  }

  /** The results run from the highest confidence to the lowest. */
  lemma AnalyzeTextSorted(m: CharMap, text: string)
    ensures forall i, j :: 0 <= i < j < |AnalyzeText(m, text).results| ==>
      AnalyzeText(m, text).results[i].confidence >= AnalyzeText(m, text).results[j].confidence
  {
    var unique := UniqueCharacters(m, text);
    if unique != [] {
      ByConfidenceIsTotalPreorder();
      SortBySorted(Results(m, CountryMatches(m, unique)), ByConfidence);
    }
  }

  /** Every result is one of the unsorted per-country results. */
  lemma ResultOrigin(m: CharMap, text: string, i: int) returns (j: int)
    requires 0 <= i < |AnalyzeText(m, text).results|
    ensures var gs := CountryMatches(m, UniqueCharacters(m, text));
      0 <= j < |gs| && AnalyzeText(m, text).results[i] == MakeResult(m, gs[j])
  {
    var gs := CountryMatches(m, UniqueCharacters(m, text));
    var rs := Results(m, gs);
    var out := AnalyzeText(m, text).results;
    j := PermutationIndex(rs, out, i);
  }

  /** No country is listed twice. */
  lemma AnalyzeTextCodesDistinct(m: CharMap, text: string)
    ensures Distinct(Map(AnalyzeText(m, text).results, CodeOf))
  {
    var unique := UniqueCharacters(m, text);
    if unique != [] {
      var gs := CountryMatches(m, unique);
      var rs := Results(m, gs);
      assert Map(rs, CodeOf) == Keys(gs);
      MapPermutation(rs, SortBy(rs, ByConfidence), CodeOf);
      DistinctOfPermutation(Map(rs, CodeOf), Map(AnalyzeText(m, text).results, CodeOf));
    }
  }

  /**
   * Each result lists exactly the unique characters its country uses (at
   * least one), is scored on them, and carries the country's display name.
   */
  lemma AnalyzeTextResult(m: CharMap, text: string, i: int)
    requires 0 <= i < |AnalyzeText(m, text).results|
    ensures var out := AnalyzeText(m, text);
      var r := out.results[i];
      && r.matchedCharacters == Filter(out.characters, c => Uses(m, r.countryCode, c))
      && r.matchedCharacters != []
      && r.confidence == Confidence(m, r.matchedCharacters)
      && r.countryName == CountryName(r.countryCode)
  {
    var unique := UniqueCharacters(m, text);
    var gs := CountryMatches(m, unique);
    var j := ResultOrigin(m, text, i);
    var x := gs[j].0;
    LookupAt(gs, j);
    CountryMatchesLookup(m, unique, x);
    assert x in Keys(gs);
    CountryMatchesKeys(m, unique, x);
    var c :| c in unique && Uses(m, x, c);
    assert c in Filter(unique, c => Uses(m, x, c));
  }

  /** Every country using one of the unique characters gets a result. */
  lemma AnalyzeTextComplete(m: CharMap, text: string, c: char, x: string)
    requires c in UniqueCharacters(m, text) && Uses(m, x, c)
    ensures x in Map(AnalyzeText(m, text).results, CodeOf)
  {
    var unique := UniqueCharacters(m, text);
    var gs := CountryMatches(m, unique);
    var rs := Results(m, gs);
    assert UsedBy(m, x, unique);
    CountryMatchesKeys(m, unique, x);
    var j := KeyIndex(gs, x);
    var out := AnalyzeText(m, text).results;
    var k := PermutationIndex(out, rs, j);
    assert Map(out, CodeOf)[k] == x;
  }

  /** On a well-formed map, there are results exactly when some character is counted. */
  lemma AnalyzeTextEmpty(m: CharMap, text: string)
    requires WellFormed(m)
    ensures AnalyzeText(m, text).results == [] <==> AnalyzeText(m, text).characters == []
  {
    var unique := UniqueCharacters(m, text);
    if unique != [] {
      var c := unique[0];
      assert c in unique;
      MappedIffHasCountries(m, c);
      var x := FindCountries(m, c)[0];
      CountryMatchesKeys(m, unique, x);
      assert x in Keys(CountryMatches(m, unique));
    }
  }
}
