/**
 * The European special-character page: characters grouped by their first
 * letter (Cyrillic letters together), the search filter over characters and
 * country names, and the order of the group keys in the table of contents.
 */
module Europe {
  import opened Wrappers
  import opened Strings
  import opened Collections
  import Search

  /** A record from a character string (e.g. "Åå") to the codes of the countries using it. */
  type CharTable = seq<(string, seq<string>)>

  /** A record from a group key to the characters of that group. */
  type Groups = seq<(string, CharTable)>

  const CyrillicKey: string := "Cyrillic"

  /** Every character string has a first code point (`char[0]` exists; the source reads a UTF-16 code unit there). */
  predicate NonEmptyKeys(chars: CharTable) {
    forall i :: 0 <= i < |chars| ==> chars[i].0 != []
  }

  // ---------------------------------------------------------------------------
  // groupCharsByFirstLetter
  // ---------------------------------------------------------------------------

  /**
   * The group of a character string: "Cyrillic" when its upper-cased first
   * character lies in U+0400–U+04FF, otherwise that upper-cased character.
   */
  function GroupKey(c: string): (k: string)
    requires c != []
    ensures k == CyrillicKey <==> Search.IsCyrillicChar(ToUpperChar(c[0]))
    ensures k != CyrillicKey ==> |k| == 1 && k[0] == ToUpperChar(c[0]) && Lower(k) == Lower([c[0]])
  {
    var first := ToUpperChar(c[0]);
    if Search.IsCyrillicChar(first) then CyrillicKey
    else
      LowerOfUpper([c[0]]);
      [first]
  }

  /** The group key of a record entry; the empty string is never a group key of a real entry. */
  function KeyOf(e: (string, seq<string>)): string {
    if e.0 == [] then "" else GroupKey(e.0)
  }

  /** `groupCharsByFirstLetter`: `groups[key][char] = countries` for every entry, in order. */
  function GroupChars(chars: CharTable): (groups: Groups)
    requires NonEmptyKeys(chars)
  {
    if chars == [] then []
    else
      var init, last := chars[..|chars| - 1], chars[|chars| - 1];
      var groups := GroupChars(init);
      var k := GroupKey(last.0);
      Put(groups, k, Put(Lookup(groups, k).GetOr([]), last.0, last.1))
  }

  /** With distinct character strings the nested record is the plain grouping by key. */
  lemma {:induction false} GroupCharsIsGroupBy(chars: CharTable)
    requires NonEmptyKeys(chars) && DistinctKeys(chars)
    ensures GroupChars(chars) == GroupBy(chars, KeyOf)
  {
    if chars != [] {
      var n := |chars|;
      var init, last := chars[..n - 1], chars[n - 1];
      DistinctKeysInit(chars);
      GroupCharsIsGroupBy(init);
      var g0 := GroupBy(init, KeyOf);
      var k := GroupKey(last.0);
      var cur := Lookup(g0, k).GetOr([]);
      GroupByLookup(init, KeyOf, k);
      assert cur == [] || cur == Select(init, KeyOf, k);
      if cur != [] {
        KeysOfFilter(init, (e: (string, seq<string>)) => KeyOf(e) == k, last.0);
      }
      PutAbsent(cur, last.0, last.1);
      assert GroupChars(chars) == Put(g0, k, Put(cur, last.0, last.1));
      assert GroupBy(chars, KeyOf) == AddToGroup(g0, KeyOf(last), last);
    }
  }

  lemma DistinctKeysInit(chars: CharTable)
    requires chars != [] && DistinctKeys(chars)
    ensures DistinctKeys(chars[..|chars| - 1])
    ensures chars[|chars| - 1].0 !in Keys(chars[..|chars| - 1])
  {
    var n := |chars|;
    var init := chars[..n - 1];
    assert forall i :: 0 <= i < n - 1 ==> Keys(init)[i] == Keys(chars)[i];
  }

  /** A key absent from a list is absent from every filter of it. */
  lemma KeysOfFilter(xs: CharTable, p: ((string, seq<string>)) -> bool, c: string)
    requires c !in Keys(xs)
    ensures c !in Keys(Filter(xs, p))
  {
    var f := Filter(xs, p);
    forall m | 0 <= m < |f| ensures f[m].0 != c {
      var j :| 0 <= j < |xs| && xs[j] == f[m];
      assert Keys(xs)[j] == f[m].0;
    }
  }

  /** The groups appear in order of first use of their key, each key once. */
  lemma GroupCharsKeys(chars: CharTable)
    requires NonEmptyKeys(chars) && DistinctKeys(chars)
    ensures Keys(GroupChars(chars)) == Dedup(Map(chars, KeyOf))
    ensures DistinctKeys(GroupChars(chars))
  {
    GroupCharsIsGroupBy(chars);
    GroupByKeys(chars, KeyOf);
  }

  /** The group under a key holds exactly the entries with that key, in order and unchanged. */
  lemma GroupCharsLookup(chars: CharTable, k: string)
    requires NonEmptyKeys(chars) && DistinctKeys(chars)
    ensures Lookup(GroupChars(chars), k)
      == if k in Map(chars, KeyOf) then Some(Select(chars, KeyOf, k)) else None
  {
    GroupCharsIsGroupBy(chars);
    GroupByLookup(chars, KeyOf, k);
  }

  /** An entry lies in a group exactly when the group's key is the entry's key. */
  lemma GroupCharsPlacesEachOnce(chars: CharTable, i: int, j: int)
    requires NonEmptyKeys(chars) && DistinctKeys(chars)
    requires 0 <= i < |chars| && 0 <= j < |GroupChars(chars)|
    ensures chars[i] in GroupChars(chars)[j].1 <==> GroupChars(chars)[j].0 == GroupKey(chars[i].0)
  {
    GroupCharsIsGroupBy(chars);
    GroupByPlacesEachOnce(chars, KeyOf, chars[i], j);
  }

  /** Looking a character up in its own group gives back its country list unchanged. */
  lemma GroupCharsKeepsCountries(chars: CharTable, i: int)
    requires NonEmptyKeys(chars) && DistinctKeys(chars) && 0 <= i < |chars|
    ensures var g := Lookup(GroupChars(chars), GroupKey(chars[i].0));
      g.Some? && Lookup(g.value, chars[i].0) == Some(chars[i].1)
  {
    var k := GroupKey(chars[i].0);
    assert KeyOf(chars[i]) == k;
    assert k in Map(chars, KeyOf) by {
      assert Map(chars, KeyOf)[i] == k;
    }
    GroupCharsLookup(chars, k);
    var sel := Select(chars, KeyOf, k);
    SelectMember(chars, KeyOf, k, chars[i]);
    forall x | x in sel ensures x in chars {
      SelectMember(chars, KeyOf, k, x);
    }
    LookupInSublist(chars, sel, chars[i]);
  }

  /** Grouping neither loses nor duplicates characters. */
  lemma GroupCharsSizes(chars: CharTable)
    requires NonEmptyKeys(chars) && DistinctKeys(chars)
    ensures SumSizes(GroupChars(chars)) == |chars|
  {
    GroupCharsIsGroupBy(chars);
    GroupBySizes(chars, KeyOf);
  }

  // ---------------------------------------------------------------------------
  // filteredCharGroups
  // ---------------------------------------------------------------------------

  /**
   * A country matches when its English display name or its code contains the
   * lower-cased query; `displayNames` stands for `Intl.DisplayNames`, `None`
   * for an undefined name.
   */
  predicate CountryMatchesQuery(code: string, q: string, displayNames: string -> Option<string>) {
    var name := displayNames(Upper(code));
    (name.Some? && Contains(Lower(name.value), q)) || Contains(Lower(code), q)
  }

  /**
   * One character under the search: kept whole when the character string
   * matches, otherwise kept with only its matching countries, or dropped
   * when none match.
   */
  function FilterEntry(e: (string, seq<string>), q: string, displayNames: string -> Option<string>): (r: Option<(string, seq<string>)>)
    ensures Contains(Lower(e.0), q) ==> r == Some(e)
    ensures r.Some? ==> r.value.0 == e.0
    ensures !Contains(Lower(e.0), q) ==>
      (r.Some? <==> exists code :: code in e.1 && CountryMatchesQuery(code, q, displayNames))
    ensures !Contains(Lower(e.0), q) && r.Some? ==>
      forall code :: code in r.value.1 <==> code in e.1 && CountryMatchesQuery(code, q, displayNames)
  {
    if Contains(Lower(e.0), q) then Some(e)
    else
      var matching := Filter(e.1, (code: string) => CountryMatchesQuery(code, q, displayNames));
      assert (exists code :: code in e.1 && CountryMatchesQuery(code, q, displayNames)) ==> matching != [] by {
        if exists code :: code in e.1 && CountryMatchesQuery(code, q, displayNames) {
          var code :| code in e.1 && CountryMatchesQuery(code, q, displayNames);
          var i :| 0 <= i < |e.1| && e.1[i] == code;
        }
      }
      assert matching != [] ==> matching[0] in e.1 && CountryMatchesQuery(matching[0], q, displayNames);
      if matching != [] then Some((e.0, matching)) else None
  }

  /** `e` is what the search makes of some entry of `g`. */
  predicate KeptFrom(g: CharTable, e: (string, seq<string>), q: string, displayNames: string -> Option<string>) {
    exists i :: 0 <= i < |g| && FilterEntry(g[i], q, displayNames) == Some(e)
  }

  /** The filtered group: the kept entries in their order. */
  function FilterGroup(g: CharTable, q: string, displayNames: string -> Option<string>): (r: CharTable)
    ensures |r| <= |g|
    ensures forall i :: 0 <= i < |g| && FilterEntry(g[i], q, displayNames).Some? ==> FilterEntry(g[i], q, displayNames).value in r
    ensures forall e :: e in r ==> KeptFrom(g, e, q, displayNames)
  {
    if g == [] then []
    else
      var init := g[..|g| - 1];
      var rest := FilterGroup(init, q, displayNames);
      var kept := FilterEntry(g[|g| - 1], q, displayNames);
      var r := rest + (if kept.Some? then [kept.value] else []);
      assert forall e :: e in rest ==> KeptFrom(g, e, q, displayNames) by {
        forall e | e in rest ensures KeptFrom(g, e, q, displayNames) {
          var i :| 0 <= i < |init| && FilterEntry(init[i], q, displayNames) == Some(e);
          assert g[i] == init[i];
        }
      }
      assert forall i :: 0 <= i < |init| ==> g[i] == init[i];
      r
  }

  /** `g` is what the search makes of some group of `groups`. */
  predicate GroupKeptFrom(groups: Groups, g: (string, CharTable), q: string, displayNames: string -> Option<string>) {
    exists i :: 0 <= i < |groups| && g == (groups[i].0, FilterGroup(groups[i].1, q, displayNames)) && g.1 != []
  }

  /** Every group filtered with the lower-cased query; empty groups are left out. */
  function FilterGroupsWith(groups: Groups, q: string, displayNames: string -> Option<string>): (r: Groups)
    ensures forall j :: 0 <= j < |r| ==> r[j].1 != []
  {
    if groups == [] then []
    else
      var last := groups[|groups| - 1];
      var fg := FilterGroup(last.1, q, displayNames);
      FilterGroupsWith(groups[..|groups| - 1], q, displayNames) + (if fg != [] then [(last.0, fg)] else [])
  }

  /** Every group that keeps something is shown, with its filtered characters. */
  lemma {:induction false} FilterGroupsWithShows(groups: Groups, q: string, displayNames: string -> Option<string>, i: int)
    requires 0 <= i < |groups| && FilterGroup(groups[i].1, q, displayNames) != []
    ensures (groups[i].0, FilterGroup(groups[i].1, q, displayNames)) in FilterGroupsWith(groups, q, displayNames)
  {
    var init := groups[..|groups| - 1];
    if i < |groups| - 1 {
      assert groups[i] == init[i];
      FilterGroupsWithShows(init, q, displayNames, i);
    }
  }

  /** Every shown group comes from a group of the input. */
  lemma {:induction false} FilterGroupsWithOrigin(groups: Groups, q: string, displayNames: string -> Option<string>, g: (string, CharTable))
    requires g in FilterGroupsWith(groups, q, displayNames)
    ensures GroupKeptFrom(groups, g, q, displayNames)
  {
    var init := groups[..|groups| - 1];
    var last := groups[|groups| - 1];
    var fg := FilterGroup(last.1, q, displayNames);
    if g in FilterGroupsWith(init, q, displayNames) {
      FilterGroupsWithOrigin(init, q, displayNames, g);
      var i :| 0 <= i < |init| && g == (init[i].0, FilterGroup(init[i].1, q, displayNames)) && g.1 != [];
      assert groups[i] == init[i];
    } else {
      assert g == (last.0, fg) && fg != [];
    }
  }

  /**
   * `filteredCharGroups`: a blank query leaves the groups as they are;
   * otherwise the groups are filtered with the lower-cased, untrimmed query.
   */
  function FilterCharGroups(groups: Groups, query: string, displayNames: string -> Option<string>): (r: Groups)
    ensures AllSpace(query) ==> r == groups
    ensures !AllSpace(query) ==> forall j :: 0 <= j < |r| ==> r[j].1 != []
  {
    TrimEmptyIffAllSpace(query);
    if Trim(query) == "" then groups else FilterGroupsWith(groups, Lower(query), displayNames)
  }

  /**
   * With a non-blank query a group is shown exactly with its filtered
   * characters, and only when that leaves something.
   */
  lemma FilterCharGroupsShows(groups: Groups, query: string, displayNames: string -> Option<string>, g: (string, CharTable))
    requires !AllSpace(query)
    ensures g in FilterCharGroups(groups, query, displayNames)
      <==> GroupKeptFrom(groups, g, Lower(query), displayNames)
  {
    TrimEmptyIffAllSpace(query);
    var q := Lower(query);
    if g in FilterCharGroups(groups, query, displayNames) {
      FilterGroupsWithOrigin(groups, q, displayNames, g);
    }
    if GroupKeptFrom(groups, g, q, displayNames) {
      var i :| 0 <= i < |groups| && g == (groups[i].0, FilterGroup(groups[i].1, q, displayNames)) && g.1 != [];
      FilterGroupsWithShows(groups, q, displayNames, i);
    }
  }

  /** The countries kept for a character: all of them on a character match, else the non-empty matching ones. */
  ghost predicate KeepsCountries(original: (string, seq<string>), e: (string, seq<string>), q: string, displayNames: string -> Option<string>) {
    if Contains(Lower(e.0), q) then e.1 == original.1
    else e.1 != [] && forall code :: code in e.1 <==> code in original.1 && CountryMatchesQuery(code, q, displayNames)
  }

  /** A shown character either matches itself (and keeps all its countries) or keeps only matching ones. */
  lemma FilteredCharacterKept(g: CharTable, q: string, displayNames: string -> Option<string>, e: (string, seq<string>))
    requires e in FilterGroup(g, q, displayNames)
    ensures exists i :: 0 <= i < |g| && g[i].0 == e.0 && KeepsCountries(g[i], e, q, displayNames)
  {
    var i :| 0 <= i < |g| && FilterEntry(g[i], q, displayNames) == Some(e);
    EntryKeepsCountries(g[i], e, q, displayNames);
  }

  lemma EntryKeepsCountries(original: (string, seq<string>), e: (string, seq<string>), q: string, displayNames: string -> Option<string>)
    requires FilterEntry(original, q, displayNames) == Some(e)
    ensures original.0 == e.0 && KeepsCountries(original, e, q, displayNames)
  {
    if !Contains(Lower(e.0), q) {
      var code :| code in original.1 && CountryMatchesQuery(code, q, displayNames);
      assert code in e.1;
    }
  }

  // ---------------------------------------------------------------------------
  // groupKeys
  // ---------------------------------------------------------------------------

  /** The table-of-contents order: "Cyrillic" after everything, the rest by code point. */
  predicate CyrillicLastLeq(a: string, b: string) {
    if a == CyrillicKey then b == CyrillicKey
    else b == CyrillicKey || LexLeq(a, b)
  }

  lemma CyrillicLastIsTotalPreorder()
    ensures TotalPreorder(CyrillicLastLeq)
  {
    forall a: string, b: string ensures CyrillicLastLeq(a, b) || CyrillicLastLeq(b, a) {
      LexLeqTotal(a, b);
    }
    forall a: string, b: string, c: string | CyrillicLastLeq(a, b) && CyrillicLastLeq(b, c)
      ensures CyrillicLastLeq(a, c)
    {
      if a != CyrillicKey && b != CyrillicKey && c != CyrillicKey {
        LexLeqTransitive(a, b, c);
      }
    }
  }

  /** `groupKeys`: the keys of the filtered groups in table-of-contents order. */
  function GroupKeys(filtered: Groups): (r: seq<string>)
    ensures multiset(r) == multiset(Keys(filtered))
    ensures Sorted(r, CyrillicLastLeq)
  {
    CyrillicLastIsTotalPreorder();
    SortBySorted(Keys(filtered), CyrillicLastLeq);
    SortBy(Keys(filtered), CyrillicLastLeq)
  }

  /** "Cyrillic" comes after every other key, and the other keys ascend. */
  lemma GroupKeysCyrillicLast(filtered: Groups, i: int, j: int)
    requires 0 <= i < j < |GroupKeys(filtered)|
    ensures var r := GroupKeys(filtered);
      && (r[i] == CyrillicKey ==> r[j] == CyrillicKey)
      && (r[j] != CyrillicKey ==> r[i] != CyrillicKey && LexLeq(r[i], r[j]))
  {
    var r := GroupKeys(filtered);
    assert CyrillicLastLeq(r[i], r[j]);
  }
}
