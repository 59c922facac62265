/**
 * Searching the language-character tables: the record-to-list conversion,
 * the Cyrillic script test, the character filter of the search box, regular
 * expression escaping and match highlighting, and the cross-group search.
 */
module Search {
  import opened Wrappers
  import opened Strings
  import opened Collections

  // ---------------------------------------------------------------------------
  // Entries and scripts
  // ---------------------------------------------------------------------------

  /** A letter string and the countries using it. */
  datatype CharacterEntry = CharacterEntry(chars: string, countries: seq<string>)

  function CharsOf(e: CharacterEntry): string { e.chars }

  /** `entriesToArray`: one entry per key of the record, in key order. */
  function EntriesToArray(entries: seq<(string, seq<string>)>): (r: seq<CharacterEntry>)
    ensures Map(r, CharsOf) == Keys(entries)
  {
    if entries == [] then []
    else [CharacterEntry(entries[0].0, entries[0].1)] + EntriesToArray(entries[1..])
  }

  /** Each converted entry carries the countries its key maps to. */
  lemma {:induction false} EntriesToArrayLookup(entries: seq<(string, seq<string>)>, i: int)
    requires DistinctKeys(entries) && 0 <= i < |EntriesToArray(entries)|
    ensures Lookup(entries, EntriesToArray(entries)[i].chars) == Some(EntriesToArray(entries)[i].countries)
  {
    if i > 0 {
      assert Keys(entries[1..]) == Keys(entries)[1..];
      EntriesToArrayLookup(entries[1..], i - 1);
      assert entries[0].0 != entries[i].0 by {
        assert Keys(entries)[0] != Keys(entries)[i];
      }
    }
  }

  /** The Cyrillic block, U+0400 to U+04FF. */
  predicate IsCyrillicChar(c: char) { '\U{0400}' <= c <= '\U{04FF}' }

  /** `isCyrillic`: the string contains a character of the Cyrillic block. */
  function IsCyrillic(s: string): (b: bool)
    ensures b <==> exists i :: 0 <= i < |s| && IsCyrillicChar(s[i])
  {
    if s == [] then false
    else if IsCyrillicChar(s[0]) then true
    else
      var b := IsCyrillic(s[1..]);
      assert b ==> exists i :: 0 <= i < |s| && IsCyrillicChar(s[i]) by {
        if b {
          var i :| 0 <= i < |s[1..]| && IsCyrillicChar(s[1..][i]);
          assert IsCyrillicChar(s[i + 1]);
        }
      }
      assert (exists i :: 0 <= i < |s| && IsCyrillicChar(s[i])) ==> b by {
        if exists i :: 0 <= i < |s| && IsCyrillicChar(s[i]) {
          var i :| 0 <= i < |s| && IsCyrillicChar(s[i]);
          assert i > 0 && IsCyrillicChar(s[1..][i - 1]);
        }
      }
      b
  }

  datatype ScriptFilter = AllScripts | LatinOnly | CyrillicOnly

  predicate PassesScript(e: CharacterEntry, f: ScriptFilter) {
    match f
    case AllScripts => true
    case LatinOnly => !IsCyrillic(e.chars)
    case CyrillicOnly => IsCyrillic(e.chars)
  }

  // ---------------------------------------------------------------------------
  // The search-box filter
  // ---------------------------------------------------------------------------

  /** `query.toLowerCase().trim()` */
  function NormalizedQuery(query: string): string { Trim(Lower(query)) }

  /**
   * The query test of the filter: the letters, a country code or a country
   * display name contains the normalised query (each compared lower-cased).
   */
  predicate MatchesQuery(e: CharacterEntry, q: string, countryName: string -> string) {
    || Contains(Lower(e.chars), q)
    || (exists code :: code in e.countries && Contains(Lower(code), q))
    || (exists code :: code in e.countries && Contains(Lower(countryName(code)), q))
  }

  /** The whole test of `filterCharacters` for one entry. */
  predicate Kept(e: CharacterEntry, q: string, f: ScriptFilter, countryName: string -> string) {
    PassesScript(e, f) && (q == [] || MatchesQuery(e, q, countryName))
  }

  /** `filterCharacters`: the entries passing the script filter and the query, in order. */
  function FilterCharacters(es: seq<CharacterEntry>, query: string, f: ScriptFilter, countryName: string -> string): (r: seq<CharacterEntry>)
    ensures |r| <= |es|
    ensures forall e :: e in r <==> e in es && Kept(e, NormalizedQuery(query), f, countryName)
  {
    if es == [] then []
    else
      var init := FilterCharacters(es[..|es| - 1], query, f, countryName);
      var e := es[|es| - 1];
      assert forall x :: x in es <==> x in es[..|es| - 1] || x == e by {
        forall x { InSnoc(es, x); }
      }
      init + if Kept(e, NormalizedQuery(query), f, countryName) then [e] else []
  }

  /** The filter is `Array.prototype.filter` with the entry test, so it keeps input order. */
  lemma {:induction false} FilterCharactersIsFilter(es: seq<CharacterEntry>, query: string, f: ScriptFilter, countryName: string -> string)
    ensures FilterCharacters(es, query, f, countryName)
      == Filter(es, e => Kept(e, NormalizedQuery(query), f, countryName))
  {
    if es != [] {
      FilterCharactersIsFilter(es[..|es| - 1], query, f, countryName);
    }
  }

  lemma FilterCharactersSubsequence(es: seq<CharacterEntry>, query: string, f: ScriptFilter, countryName: string -> string)
    ensures IsSubsequence(FilterCharacters(es, query, f, countryName), es)
  {
    FilterCharactersIsFilter(es, query, f, countryName);
    FilterIsSubsequence(es, e => Kept(e, NormalizedQuery(query), f, countryName));
  }

  lemma LowerOfSpaces(s: string)
    requires AllSpace(s)
    ensures AllSpace(Lower(s))
  {
  }

  /**
   * A blank query applies only the script filter; with every script allowed
   * it returns the input unchanged.
   */
  lemma FilterCharactersBlankQuery(es: seq<CharacterEntry>, query: string, f: ScriptFilter, countryName: string -> string)
    requires AllSpace(query)
    ensures FilterCharacters(es, query, f, countryName) == Filter(es, e => PassesScript(e, f))
    ensures f == AllScripts ==> FilterCharacters(es, query, f, countryName) == es
  {
    LowerOfSpaces(query);
    TrimEmptyIffAllSpace(Lower(query));
    assert NormalizedQuery(query) == [];
    FilterCharactersIsFilter(es, query, f, countryName);
    FilterExt(es, e => Kept(e, NormalizedQuery(query), f, countryName), e => PassesScript(e, f));
    if f == AllScripts {
      FilterAll(es, e => PassesScript(e, f));
    }
  }

  /** "latin" drops every Cyrillic entry and "cyrillic" keeps only Cyrillic ones. */
  lemma FilterCharactersScript(es: seq<CharacterEntry>, query: string, f: ScriptFilter, countryName: string -> string, e: CharacterEntry)
    requires e in FilterCharacters(es, query, f, countryName)
    ensures f == LatinOnly ==> !IsCyrillic(e.chars)
    ensures f == CyrillicOnly ==> IsCyrillic(e.chars)
  {
  }

  /** A non-blank query keeps an entry of the right script exactly when it matches. */
  lemma FilterCharactersQuery(es: seq<CharacterEntry>, query: string, f: ScriptFilter, countryName: string -> string, e: CharacterEntry)
    requires NormalizedQuery(query) != [] && e in es && PassesScript(e, f)
    ensures e in FilterCharacters(es, query, f, countryName) <==> MatchesQuery(e, NormalizedQuery(query), countryName)
  {
  }

  // ---------------------------------------------------------------------------
  // Escaping and highlighting
  // ---------------------------------------------------------------------------

  /** The characters `escapeRegex` backslash-escapes. */
  predicate IsRegexSpecial(c: char) {
    c == '.' || c == '*' || c == '+' || c == '?' || c == '^' || c == '$' || c == '{' || c == '}'
    || c == '(' || c == ')' || c == '|' || c == '[' || c == ']' || c == '\\'
  }

  /** `escapeRegex`: a backslash before each special character, everything else unchanged. */
  function EscapeRegex(s: string): (r: string)
    ensures |s| <= |r| <= 2 * |s|
    ensures r == [] <==> s == []
  {
    if s == [] then []
    else (if IsRegexSpecial(s[0]) then ['\\', s[0]] else [s[0]]) + EscapeRegex(s[1..])
  }

  /** Reads an escaped string back: a backslash takes the next character literally. */
  function Unescape(s: string): string
    decreases |s|
  {
    if s == [] then []
    else if s[0] == '\\' && |s| >= 2 then [s[1]] + Unescape(s[2..])
    else [s[0]] + Unescape(s[1..])
  }

  /** Escaping loses nothing: reading the escaped string back gives the original. */
  lemma {:induction false} UnescapeEscapeRegex(s: string)
    ensures Unescape(EscapeRegex(s)) == s
  {
    if s != [] {
      UnescapeEscapeRegex(s[1..]);
      var r := EscapeRegex(s);
      if IsRegexSpecial(s[0]) {
        assert r[0] == '\\' && r[1] == s[0] && r[2..] == EscapeRegex(s[1..]);
      } else {
        assert r[0] == s[0] && r[1..] == EscapeRegex(s[1..]);
      }
    }
  }

  /** Characters that are not special pass through unchanged. */
  lemma {:induction false} EscapeRegexPlain(s: string)
    requires forall i :: 0 <= i < |s| ==> !IsRegexSpecial(s[i])
    ensures EscapeRegex(s) == s
  {
    if s != [] {
      EscapeRegexPlain(s[1..]);
    }
  }

  /** A piece of highlighted output: a character left as it was, or a marked match. */
  datatype Piece = Plain(c: char) | Marked(s: string)

  /**
   * `q` occurs at the start of `t`, ignoring the case of ASCII letters. This
   * models the regular expression's `i` flag, which also folds the case of
   * non-ASCII letters; the model leaves those as they are.
   */
  predicate MatchesAt(t: string, q: string) {
    |q| <= |t| && Lower(t[..|q|]) == Lower(q)
  }

  /**
   * The scan of a global replace with the escaped query: a match is taken
   * whenever one starts at the current position, and scanning resumes after it.
   */
  function Highlights(t: string, q: string): seq<Piece>
    requires q != []
    decreases |t|
  {
    if t == [] then []
    else if MatchesAt(t, q) then [Marked(t[..|q|])] + Highlights(t[|q|..], q)
    else [Plain(t[0])] + Highlights(t[1..], q)
  }

  /** The text of the pieces with the markup left out. */
  function TextOf(ps: seq<Piece>): string {
    if ps == [] then []
    else (match ps[0] case Plain(c) => [c] case Marked(s) => s) + TextOf(ps[1..])
  }

  const MarkOpen: string := "<mark class=\"bg-qwik-light-blue/30 text-white\">"
  const MarkClose: string := "</mark>"

  /** The pieces with each match wrapped in the mark element. */
  function Render(ps: seq<Piece>): string {
    if ps == [] then []
    else (match ps[0] case Plain(c) => [c] case Marked(s) => MarkOpen + s + MarkClose) + Render(ps[1..])
  }

  /** `highlightMatch`: an empty query leaves the text as it is. */
  function HighlightMatch(text: string, query: string): (r: string)
    ensures query == [] ==> r == text
  {
    if query == [] then text else Render(Highlights(text, query))
  }

  /** Highlighting only adds markup: without it the text is unchanged. */
  lemma {:induction false} HighlightsKeepText(t: string, q: string)
    requires q != []
    ensures TextOf(Highlights(t, q)) == t
    decreases |t|
  {
    if t != [] {
      if MatchesAt(t, q) {
        HighlightsKeepText(t[|q|..], q);
        TextOfCons(Marked(t[..|q|]), Highlights(t[|q|..], q));
        SplitAt(t, |q|);
      } else {
        HighlightsKeepText(t[1..], q);
        TextOfCons(Plain(t[0]), Highlights(t[1..], q));
        SplitAt(t, 1);
      }
    }
  }

  lemma TextOfCons(p: Piece, ps: seq<Piece>)
    ensures TextOf([p] + ps) == (match p case Plain(c) => [c] case Marked(s) => s) + TextOf(ps)
  {
    assert ([p] + ps)[1..] == ps;
  }

  lemma SplitAt(t: string, n: int)
    requires 0 <= n <= |t|
    ensures t == t[..n] + t[n..] && (n == 1 ==> t[..n] == [t[0]])
  {
  }

  /** Every marked piece is an occurrence of the query up to letter case. */
  lemma {:induction false} HighlightsMarkMatches(t: string, q: string, i: int)
    requires q != [] && 0 <= i < |Highlights(t, q)| && Highlights(t, q)[i].Marked?
    ensures Lower(Highlights(t, q)[i].s) == Lower(q)
    decreases |t|
  {
    if i > 0 {
      if MatchesAt(t, q) {
        HighlightsMarkMatches(t[|q|..], q, i - 1);
      } else {
        HighlightsMarkMatches(t[1..], q, i - 1);
      }
    }
  }

  /** A text with no occurrence of the query comes back unchanged. */
  lemma {:induction false} HighlightNoMatch(t: string, q: string)
    requires q != [] && forall i :: 0 <= i <= |t| ==> !MatchesAt(t[i..], q)
    ensures HighlightMatch(t, q) == t
    decreases |t|
  {
    if t != [] {
      assert t[0..] == t;
      forall i | 0 <= i <= |t[1..]| ensures !MatchesAt(t[1..][i..], q) {
        assert t[1..][i..] == t[i + 1..];
      }
      HighlightNoMatch(t[1..], q);
      assert t == [t[0]] + t[1..];
    }
  }

  // ---------------------------------------------------------------------------
  // Searching all character groups
  // ---------------------------------------------------------------------------

  /** A character of the tables; `letters` is the `char` field of the source. */
  datatype LanguageCharacter = LanguageCharacter(id: string, letters: string, countries: seq<string>, description: Option<string>)

  datatype CharacterGroup = CharacterGroup(id: string, name: string, characters: seq<LanguageCharacter>)

  /**
   * `getCountryName` of the character tables: the display name of the
   * upper-cased code, or the code itself when there is none.
   */
  function DisplayName(displayNames: string -> string, code: string): (name: string)
    ensures name != "" || code == ""
  {
    var n := displayNames(Upper(code));
    if n == "" then code else n
  }

  /** The three tests of the search, in the order the source tries them. */
  predicate CharacterMatches(c: LanguageCharacter, term: string, displayNames: string -> string) {
    || Contains(Lower(c.letters), term)
    || (c.description.Some? && Contains(Lower(c.description.value), term))
    || (exists code :: code in c.countries
          && (Contains(Lower(DisplayName(displayNames, code)), term) || Contains(Lower(code), term)))
  }

  /** Every character of every group, group by group. */
  function AllCharacters(groups: seq<CharacterGroup>): seq<LanguageCharacter> {
    if groups == [] then [] else AllCharacters(groups[..|groups| - 1]) + groups[|groups| - 1].characters
  }

  /** The inner `forEach`: the matching characters of one group, each pushed once. */
  function SearchGroup(cs: seq<LanguageCharacter>, term: string, displayNames: string -> string): (r: seq<LanguageCharacter>)
    ensures forall c :: c in r <==> c in cs && CharacterMatches(c, term, displayNames)
  {
    if cs == [] then []
    else
      var c := cs[|cs| - 1];
      assert forall x :: x in cs <==> x in cs[..|cs| - 1] || x == c by {
        forall x { InSnoc(cs, x); }
      }
      SearchGroup(cs[..|cs| - 1], term, displayNames) + if CharacterMatches(c, term, displayNames) then [c] else []
  }

  /** The outer `forEach` over the groups. */
  function SearchGroups(groups: seq<CharacterGroup>, term: string, displayNames: string -> string): (r: seq<LanguageCharacter>)
    ensures forall c :: c in r <==> c in AllCharacters(groups) && CharacterMatches(c, term, displayNames)
  {
    if groups == [] then []
    else SearchGroups(groups[..|groups| - 1], term, displayNames) + SearchGroup(groups[|groups| - 1].characters, term, displayNames)
  }

  /**
   * `searchCharacters`: nothing for a blank query, otherwise every character
   * of the groups that matches the lower-cased query.
   */
  function SearchCharacters(groups: seq<CharacterGroup>, query: string, displayNames: string -> string): (r: seq<LanguageCharacter>)
    ensures AllSpace(query) ==> r == []
    ensures forall c :: c in r <==> !AllSpace(query) && c in AllCharacters(groups) && CharacterMatches(c, Lower(query), displayNames)
  {
    TrimEmptyIffAllSpace(query);
    if Trim(query) == [] then [] else SearchGroups(groups, Lower(query), displayNames)
  }

  lemma {:induction false} SearchGroupIsFilter(cs: seq<LanguageCharacter>, term: string, displayNames: string -> string)
    ensures SearchGroup(cs, term, displayNames) == Filter(cs, c => CharacterMatches(c, term, displayNames))
  {
    if cs != [] {
      SearchGroupIsFilter(cs[..|cs| - 1], term, displayNames);
    }
  }

  /**
   * The results follow group order, then character order within a group, and
   * each character occurrence is pushed at most once.
   */
  lemma {:induction false} SearchGroupsIsFilter(groups: seq<CharacterGroup>, term: string, displayNames: string -> string)
    ensures SearchGroups(groups, term, displayNames) == Filter(AllCharacters(groups), c => CharacterMatches(c, term, displayNames))
  {
    if groups != [] {
      var init := groups[..|groups| - 1];
      var last := groups[|groups| - 1].characters;
      SearchGroupsIsFilter(init, term, displayNames);
      SearchGroupIsFilter(last, term, displayNames);
      FilterAppend(AllCharacters(init), last, c => CharacterMatches(c, term, displayNames));
    }
  }
}
