/**
 * The pure decisions of the geomastr.com scraper: the category path, the
 * country code lookup, the country name read from an image path, the
 * grouping of a page's category images by country, the catch-all group when
 * none matched, and the empty-page failure.
 *
 * The page itself is not modelled: each `<img>` arrives as its two address
 * attributes.
 */
module GeomastrScraper {
  import opened Wrappers
  import opened Strings
  import opened Collections
  import opened Categories
  import opened ScrapeCommon

  const SiteUrl: string := "https://geomastr.com"

  /** The geomastr.com directory name of the five categories it has under another name. */
  function CategoryPath(c: Category): Option<string> {
    match c
    case Bollards => Some("bollards")
    case LicensePlates => Some("licenseplates")
    case RoadLines => Some("roadlines")
    case StreetSigns => Some("streetsigns")
    case UtilityPoles => Some("utilitypoles")
    case _ => None
  }

  /** The directory a category's images are looked for in: the mapped name, else the category name. */
  function MediaPath(c: Category): (p: string)
    ensures CategoryPath(c).Some? ==> p == CategoryPath(c).value
    ensures CategoryPath(c).None? ==> p == CategoryName(c)
  {
    CategoryPath(c).GetOr(CategoryName(c))
  }

  // ---------------------------------------------------------------------------
  // Country codes
  // ---------------------------------------------------------------------------

  /** The names this scraper maps after the common table. */
  const ExtraCountryCodes: seq<(string, string)> := [
    ("austria", "AT"), ("australia", "AU"), ("germany", "DE"), ("france", "FR"), ("spain", "ES"),
    ("italy", "IT"), ("netherlands", "NL"), ("belgium", "BE"), ("sweden", "SE"), ("norway", "NO"),
    ("denmark", "DK"), ("finland", "FI"), ("poland", "PL"), ("portugal", "PT"), ("switzerland", "CH"),
    ("ireland", "IE"), ("greece", "GR"), ("japan", "JP"), ("china", "CN"), ("india", "IN"),
    ("brazil", "BR"), ("argentina", "AR"), ("mexico", "MX"), ("canada", "CA"), ("russia", "RU")
  ]

  const CountryCodes: seq<(string, string)> := CommonCountryCodes + ExtraCountryCodes

  /** `getCountryCode`: the table entry of the lower-cased, trimmed name, else its first two code points upper-cased. */
  function GetCountryCode(name: string): (code: string)
    ensures Lookup(CountryCodes, Trim(Lower(name))).Some? ==> code == Lookup(CountryCodes, Trim(Lower(name))).value
    ensures Lookup(CountryCodes, Trim(Lower(name))).None? ==>
      |code| == (if |name| < 2 then |name| else 2)
      && forall k :: 0 <= k < |code| ==> code[k] == ToUpperChar(name[k])
  {
    Lookup(CountryCodes, Trim(Lower(name))).GetOr(Upper(Take(name, 2)))
  }

  // ---------------------------------------------------------------------------
  // Country names from image paths
  // ---------------------------------------------------------------------------

  function IsWordChar(c: char): bool { IsAsciiLetter(c) || IsDigit(c) || c == '_' }

  /**
   * `filename.replace(/\d*\.\w+$/, "")`: when the last '.' is followed by
   * word characters to the end, that extension and the digits just before
   * it are dropped; otherwise the name is kept whole.
   */
  function Slug(filename: string): (r: string)
    ensures StartsWith(filename, r)
  {
    match LastIndexOf(filename, '.')
    case Some(i) =>
      if i + 1 < |filename| && forall k :: i < k < |filename| ==> IsWordChar(filename[k]) then
        filename[..i - TrailingDigits(filename[..i])]
      else filename
    case None => filename
  }

  /** A stem not ending in a digit, a number and an extension: the slug is the stem. */
  lemma SlugOf(stem: string, digits: string, ext: string)
    requires stem != [] ==> !IsDigit(stem[|stem| - 1])
    requires AllDigits(digits)
    requires ext != [] && forall k :: 0 <= k < |ext| ==> IsWordChar(ext[k])
    ensures Slug(stem + digits + "." + ext) == stem
  {
    var front := stem + digits;
    var f := front + ['.'] + ext;
    assert stem + digits + "." + ext == f;
    ExtensionAfter(front, ext);
    SlugAt(f, |front|);
    assert f[..|front|] == front;
    TrailingDigitsOf(stem, digits);
    assert f[..|stem|] == stem;
  }

  /** With a word-character extension after the last '.', the slug drops it and the digits before it. */
  lemma SlugAt(f: string, i: nat)
    requires LastIndexOf(f, '.') == Some(i) && i + 1 < |f|
    requires forall k :: i < k < |f| ==> IsWordChar(f[k])
    ensures i <= |f| && Slug(f) == f[..i - TrailingDigits(f[..i])]
  {
  }

  /** In `front.ext` with a word-character extension, the last '.' is the one before `ext`. */
  lemma ExtensionAfter(front: string, ext: string)
    requires ext != [] && forall k :: 0 <= k < |ext| ==> IsWordChar(ext[k])
    ensures LastIndexOf(front + ['.'] + ext, '.') == Some(|front|)
    ensures forall k :: |front| < k < |front + ['.'] + ext| ==> IsWordChar((front + ['.'] + ext)[k])
  {
    assert '.' !in ext by {
      forall k | 0 <= k < |ext| ensures ext[k] != '.' { assert IsWordChar(ext[k]); }
    }
    LastIndexOfAfter(front, '.', ext);
  }

  lemma LastIndexOfAfter(front: string, c: char, tail: string)
    requires c !in tail
    ensures LastIndexOf(front + [c] + tail, c) == Some(|front|)
  {
    var f := front + [c] + tail;
    assert f[|front|] == c;
    assert f[|front| + 1..] == tail;
  }

  /** `word.charAt(0).toUpperCase() + word.slice(1)` */
  function TitleWord(w: string): (r: string)
    ensures |r| == |w|
  {
    if w == [] then [] else [ToUpperChar(w[0])] + w[1..]
  }

  /** `extractCountryFromPath`: the slug of the last path segment, its '-'-separated words title-cased and joined by spaces. */
  function ExtractCountryFromPath(path: string): string {
    Join(Map(Split(Slug(LastSegment(path, '/')), '-'), TitleWord), ' ')
  }

  /**
   * The same result, character by character: every '-' becomes a space, the
   * character after it (and the first one, when `atStart`) is upper-cased,
   * and every other character is kept.
   */
  function TitleFrom(s: string, atStart: bool): (r: string)
    ensures |r| == |s|
    ensures forall i :: 0 <= i < |s| ==> r[i] == TitleChar(s, i, atStart)
  {
    if s == [] then []
    else
      var rest := TitleFrom(s[1..], s[0] == '-');
      assert forall i :: 1 <= i < |s| ==> TitleChar(s, i, atStart) == TitleChar(s[1..], i - 1, s[0] == '-');
      [if s[0] == '-' then ' ' else if atStart then ToUpperChar(s[0]) else s[0]] + rest
  }

  /** Character `i` of the title-cased name. */
  function TitleChar(s: string, i: nat, atStart: bool): char
    requires i < |s|
  {
    if s[i] == '-' then ' '
    else if (i == 0 && atStart) || (i > 0 && s[i - 1] == '-') then ToUpperChar(s[i])
    else s[i]
  }

  /** The words after the first, title-cased, each preceded by a space. */
  function RestJoined(parts: seq<string>): string
    requires parts != []
  {
    if |parts| == 1 then [] else [' '] + Join(Map(parts[1..], TitleWord), ' ')
  }

  /** Splitting, title-casing each word and joining agrees with the character-level definition. */
  lemma {:induction false} TitleJoin(s: string)
    ensures TitleFrom(s, true) == Join(Map(Split(s, '-'), TitleWord), ' ')
    ensures TitleFrom(s, false) == Split(s, '-')[0] + RestJoined(Split(s, '-'))
  {
    if s != [] {
      TitleJoin(s[1..]);
      if s[0] == '-' {
        TitleJoinDash(s);
      } else {
        TitleJoinLetter(s);
      }
    }
  }

  /** The induction step when the name starts with a separator. */
  lemma TitleJoinDash(s: string)
    requires s != [] && s[0] == '-'
    requires TitleFrom(s[1..], true) == Join(Map(Split(s[1..], '-'), TitleWord), ' ')
    ensures TitleFrom(s, true) == Join(Map(Split(s, '-'), TitleWord), ' ')
    ensures TitleFrom(s, false) == Split(s, '-')[0] + RestJoined(Split(s, '-'))
  {
    var parts, rest := Split(s, '-'), Split(s[1..], '-');
    assert parts == [[]] + rest;
    assert TitleFrom(s, true) == [' '] + TitleFrom(s[1..], true);
    assert TitleFrom(s, false) == [' '] + TitleFrom(s[1..], true);
    JoinMapHead(parts);
    assert parts[1..] == rest;
  }

  /** The induction step when the name starts with a letter of its first word. */
  lemma TitleJoinLetter(s: string)
    requires s != [] && s[0] != '-'
    requires TitleFrom(s[1..], false) == Split(s[1..], '-')[0] + RestJoined(Split(s[1..], '-'))
    ensures TitleFrom(s, true) == Join(Map(Split(s, '-'), TitleWord), ' ')
    ensures TitleFrom(s, false) == Split(s, '-')[0] + RestJoined(Split(s, '-'))
  {
    var parts, rest := Split(s, '-'), Split(s[1..], '-');
    SplitLetter(s);
    TitleFromCons(s);
    JoinMapHead(parts);
    RestJoinedTail(parts, rest);
    TitleWordCons(s[0], rest[0]);
    ConcatAssoc([ToUpperChar(s[0])], rest[0], RestJoined(rest));
    ConcatAssoc([s[0]], rest[0], RestJoined(rest));
  }

  lemma SplitLetter(s: string)
    requires s != [] && s[0] != '-'
    ensures Split(s, '-')[0] == [s[0]] + Split(s[1..], '-')[0]
    ensures Split(s, '-')[1..] == Split(s[1..], '-')[1..]
  {
  }

  lemma TitleFromCons(s: string)
    requires s != [] && s[0] != '-'
    ensures TitleFrom(s, true) == [ToUpperChar(s[0])] + TitleFrom(s[1..], false)
    ensures TitleFrom(s, false) == [s[0]] + TitleFrom(s[1..], false)
  {
  }

  lemma TitleWordCons(c: char, w: string)
    ensures TitleWord([c] + w) == [ToUpperChar(c)] + w
  {
    assert ([c] + w)[1..] == w;
  }

  lemma ConcatAssoc<T>(a: seq<T>, b: seq<T>, c: seq<T>)
    ensures (a + b) + c == a + (b + c)
  {
  }

  /** Joining the title-cased words is the first one followed by the rest. */
  lemma JoinMapHead(parts: seq<string>)
    requires parts != []
    ensures Join(Map(parts, TitleWord), ' ') == TitleWord(parts[0]) + RestJoined(parts)
  {
    var m := Map(parts, TitleWord);
    if |parts| > 1 {
      JoinCons(m, ' ');
      MapTail(parts, TitleWord);
    }
  }

  lemma JoinCons(m: seq<string>, d: char)
    requires |m| > 1
    ensures Join(m, d) == m[0] + ([d] + Join(m[1..], d))
  {
  }

  /** The words after the first depend only on the tail of the split. */
  lemma RestJoinedTail(a: seq<string>, b: seq<string>)
    requires a != [] && b != [] && a[1..] == b[1..]
    ensures RestJoined(a) == RestJoined(b)
  {
    assert |a| == 1 <==> |b| == 1;
  }

  /** The name read from a path, character by character. */
  lemma ExtractCountryFromPathIsTitleCase(path: string)
    ensures ExtractCountryFromPath(path) == TitleFrom(Slug(LastSegment(path, '/')), true)
  {
    TitleJoin(Slug(LastSegment(path, '/')));
  }

  predicate IsSlugChar(c: char) { IsAsciiLower(c) || c == '-' }

  /**
   * An image file named by a lower-case slug of '-'-joined words, followed by
   * an optional number and an extension, is named by the slug title-cased,
   * and that name is looked up in the code table as the slug's words
   * joined by spaces.
   */
  lemma SlugFileCountry(dir: string, slug: string, digits: string, ext: string)
    requires slug != [] && slug[0] != '-' && slug[|slug| - 1] != '-'
    requires forall k :: 0 <= k < |slug| ==> IsSlugChar(slug[k])
    requires AllDigits(digits) && ext != [] && forall k :: 0 <= k < |ext| ==> IsWordChar(ext[k])
    ensures ExtractCountryFromPath(dir + "/" + slug + digits + "." + ext) == TitleFrom(slug, true)
    ensures Trim(Lower(TitleFrom(slug, true))) == ReplaceChar(slug, '-', ' ')
  {
    assert forall k :: 0 <= k < |slug| ==> slug[k] != '/' by {
      forall k | 0 <= k < |slug| ensures slug[k] != '/' { assert IsSlugChar(slug[k]); }
    }
    assert !IsDigit(slug[|slug| - 1]) by { assert IsSlugChar(slug[|slug| - 1]); }
    SlugFileName(dir, slug, digits, ext);
    SlugKey(slug);
  }

  /** The table key of a title-cased slug is the slug with its dashes turned into spaces. */
  lemma SlugKey(slug: string)
    requires slug != [] && slug[0] != '-' && slug[|slug| - 1] != '-'
    requires forall k :: 0 <= k < |slug| ==> IsSlugChar(slug[k])
    ensures Trim(Lower(TitleFrom(slug, true))) == ReplaceChar(slug, '-', ' ')
  {
    var key := ReplaceChar(slug, '-', ' ');
    LowerTitle(slug);
    assert !IsJsSpace(key[0]) && !IsJsSpace(key[|key| - 1]) by {
      assert key[0] == slug[0] && key[|key| - 1] == slug[|slug| - 1];
      SlugCharNotSpace(slug[0]);
      SlugCharNotSpace(slug[|slug| - 1]);
    }
    TrimUnpadded(key);
  }

  lemma SlugCharNotSpace(c: char)
    requires IsSlugChar(c) && c != '-'
    ensures !IsJsSpace(c)
  {
  }

  /** The name read from such a path is the slug title-cased. */
  lemma SlugFileName(dir: string, slug: string, digits: string, ext: string)
    requires slug != [] ==> !IsDigit(slug[|slug| - 1])
    requires forall k :: 0 <= k < |slug| ==> slug[k] != '/'
    requires AllDigits(digits) && ext != [] && forall k :: 0 <= k < |ext| ==> IsWordChar(ext[k])
    ensures ExtractCountryFromPath(dir + "/" + slug + digits + "." + ext) == TitleFrom(slug, true)
  {
    var file := slug + digits + "." + ext;
    NoSlashInFile(slug, digits, ext);
    FilePathShape(dir, slug, digits, ext);
    LastSegmentAfter(dir, '/', file);
    SlugOf(slug, digits, ext);
    ExtractCountryFromPathIsTitleCase(dir + "/" + file);
  }

  lemma NoSlashInFile(slug: string, digits: string, ext: string)
    requires forall k :: 0 <= k < |slug| ==> slug[k] != '/'
    requires AllDigits(digits) && forall k :: 0 <= k < |ext| ==> IsWordChar(ext[k])
    ensures '/' !in slug + digits + "." + ext
  {
    var file := slug + digits + "." + ext;
    forall k | 0 <= k < |file| ensures file[k] != '/' {
      if k < |slug| { assert file[k] == slug[k]; }
      else if k < |slug| + |digits| { assert file[k] == digits[k - |slug|]; }
      else if k > |slug| + |digits| { assert IsWordChar(ext[k - |slug| - |digits| - 1]); }
    }
  }

  /** Lower-casing a title-cased lower-case slug leaves its words separated by spaces. */
  lemma LowerTitle(slug: string)
    requires forall k :: 0 <= k < |slug| ==> IsSlugChar(slug[k])
    ensures Lower(TitleFrom(slug, true)) == ReplaceChar(slug, '-', ' ')
  {
    var name := TitleFrom(slug, true);
    var key := ReplaceChar(slug, '-', ' ');
    forall k | 0 <= k < |slug| ensures Lower(name)[k] == key[k] {
      assert IsSlugChar(slug[k]);
      if slug[k] != '-' {
        assert name[k] == slug[k] || name[k] == ToUpperChar(slug[k]);
        LowerUpper(slug[k]);
      }
    }
  }

  lemma LowerUpper(c: char)
    requires IsAsciiLower(c)
    ensures ToLowerChar(c) == c && ToLowerChar(ToUpperChar(c)) == c
  {
  }

  lemma FilePathShape(dir: string, slug: string, digits: string, ext: string)
    ensures dir + "/" + slug + digits + "." + ext == dir + ['/'] + (slug + digits + "." + ext)
  {
  }

  // ---------------------------------------------------------------------------
  // Grouping a page's images
  // ---------------------------------------------------------------------------

  /** A country group: its name, its code and its image addresses in page order. */
  datatype GeomastrCountry = GeomastrCountry(name: string, code: string, images: seq<string>)

  /** A category image found on the page, with the country it was read as. */
  datatype Found = Found(url: string, name: string, code: string)

  function CodeOf(f: Found): string { f.code }

  function UrlOf(f: Found): string { f.url }

  /** A site-relative address is made absolute; an absolute one is kept. */
  function FullUrl(src: string): (r: string)
    ensures StartsWith(src, "http") ==> r == src
    ensures !StartsWith(src, "http") ==> r == SiteUrl + src
  {
    if StartsWith(src, "http") then src else SiteUrl + src
  }

  predicate IsCategoryImage(c: Category, src: string) {
    Contains(src, "/assets/media/" + MediaPath(c) + "/") || Contains(src, "/" + MediaPath(c) + "/")
  }

  function FoundOf(src: string): (f: Found)
    ensures f.url == FullUrl(src)
    ensures f.name == ExtractCountryFromPath(src)
    ensures f.code == GetCountryCode(f.name)
  {
    var name := ExtractCountryFromPath(src);
    Found(FullUrl(src), name, GetCountryCode(name))
  }

  /** The category images of the page, in page order. */
  function FoundImages(c: Category, imgs: seq<ImgAttrs>): (r: seq<Found>)
    ensures r == [] <==> forall i :: 0 <= i < |imgs| ==> !IsCategoryImage(c, ImageSource(imgs[i]))
  {
    if imgs == [] then []
    else
      var rest := FoundImages(c, imgs[1..]);
      assert forall i :: 1 <= i < |imgs| ==> imgs[i] == imgs[1..][i - 1];
      var src := ImageSource(imgs[0]);
      if IsCategoryImage(c, src) then [FoundOf(src)] + rest else rest
  }

  /** One step of the grouping loop: join the group of the image's code, or open it with the image's name. */
  function AddFound(cm: seq<(string, GeomastrCountry)>, f: Found): (r: seq<(string, GeomastrCountry)>)
  {
    match Lookup(cm, f.code)
    case Some(g) => Put(cm, f.code, g.(images := g.images + [f.url]))
    case None => Put(cm, f.code, GeomastrCountry(f.name, f.code, [f.url]))
  }

  /** The `countryMap` after the loop: groups keyed by code in order of first appearance. */
  function CountryMap(fs: seq<Found>): seq<(string, GeomastrCountry)>
  {
    if fs == [] then [] else AddFound(CountryMap(fs[..|fs| - 1]), fs[|fs| - 1])
  }

  /** There is one group per distinct code, in order of first appearance. */
  lemma {:induction false} CountryMapKeys(fs: seq<Found>)
    ensures Keys(CountryMap(fs)) == Dedup(Map(fs, CodeOf))
  {
    if fs != [] {
      var init, last := fs[..|fs| - 1], fs[|fs| - 1];
      CountryMapKeys(init);
      AddFoundKeys(CountryMap(init), last);
      DedupMapSnoc(fs, CodeOf);
    }
  }

  /** Adding an image adds its code to the keys when it is new. */
  lemma AddFoundKeys(cm: seq<(string, GeomastrCountry)>, f: Found)
    ensures Keys(AddFound(cm, f)) == if f.code in Keys(cm) then Keys(cm) else Keys(cm) + [f.code]
  {
  }

  /** The group the images read as `k` should form: their addresses in page order, the first one's name. */
  function GroupOf(fs: seq<Found>, k: string): (g: GeomastrCountry)
    requires k in Map(fs, CodeOf)
  {
    SelectNonEmpty(fs, k);
    var sel := Select(fs, CodeOf, k);
    GeomastrCountry(sel[0].name, k, Map(sel, UrlOf))
  }

  /**
   * The group of a code holds exactly the addresses of the images read as
   * that code, in page order, and is named after the first of them.
   */
  lemma {:induction false} CountryMapLookup(fs: seq<Found>, k: string)
    ensures k in Map(fs, CodeOf) ==> Lookup(CountryMap(fs), k) == Some(GroupOf(fs, k))
    ensures k !in Map(fs, CodeOf) ==> Lookup(CountryMap(fs), k) == None
  {
    if k !in Map(fs, CodeOf) {
      CountryMapKeys(fs);
    } else {
      var init, last := fs[..|fs| - 1], fs[|fs| - 1];
      assert fs == init + [last];
      MapSnoc(fs, CodeOf);
      CountryMapLookup(init, k);
      if last.code != k {
        LookupOtherCode(init, last, k);
      } else if k in Map(init, CodeOf) {
        LookupJoinsGroup(init, last);
      } else {
        LookupOpensGroup(init, last);
      }
    }
  }

  lemma LookupOtherCode(init: seq<Found>, last: Found, k: string)
    requires last.code != k && k in Map(init, CodeOf)
    requires Lookup(CountryMap(init), k) == Some(GroupOf(init, k))
    ensures k in Map(init + [last], CodeOf)
    ensures Lookup(CountryMap(init + [last]), k) == Some(GroupOf(init + [last], k))
  {
    GroupOfOther(init, last, k);
    CountryMapSnoc(init, last);
    AddFoundOther(CountryMap(init), last, k);
  }

  /** The map after one more image is the map before it with that image added. */
  lemma CountryMapSnoc(init: seq<Found>, last: Found)
    ensures CountryMap(init + [last]) == AddFound(CountryMap(init), last)
  {
    var fs := init + [last];
    assert fs[..|fs| - 1] == init;
  }

  /** Adding an image read as another code leaves a code's group alone. */
  lemma AddFoundOther(cm: seq<(string, GeomastrCountry)>, f: Found, k: string)
    requires f.code != k
    ensures Lookup(AddFound(cm, f), k) == Lookup(cm, k)
  {
    match Lookup(cm, f.code)
    case Some(g) => PutOthers(cm, f.code, g.(images := g.images + [f.url]), k);
    case None => PutOthers(cm, f.code, GeomastrCountry(f.name, f.code, [f.url]), k);
  }

  /** An image read as another code changes neither a code's presence nor its group. */
  lemma GroupOfOther(init: seq<Found>, last: Found, k: string)
    requires last.code != k && k in Map(init, CodeOf)
    ensures k in Map(init + [last], CodeOf)
    ensures GroupOf(init + [last], k) == GroupOf(init, k)
  {
    var fs := init + [last];
    assert fs[..|fs| - 1] == init;
    assert k in Map(fs, CodeOf) by {
      MapSnoc(fs, CodeOf);
    }
    assert Select(fs, CodeOf, k) == Select(init, CodeOf, k) by {
      SelectSnoc(fs, CodeOf, k);
    }
  }

  lemma LookupJoinsGroup(init: seq<Found>, last: Found)
    requires last.code in Map(init, CodeOf)
    requires Lookup(CountryMap(init), last.code) == Some(GroupOf(init, last.code))
    ensures last.code in Map(init + [last], CodeOf)
    ensures Lookup(CountryMap(init + [last]), last.code) == Some(GroupOf(init + [last], last.code))
  {
    var fs := init + [last];
    var k := last.code;
    assert fs[..|fs| - 1] == init;
    MapSnoc(fs, CodeOf);
    SelectSnoc(fs, CodeOf, k);
    var sel0 := Select(init, CodeOf, k);
    SelectNonEmpty(init, k);
    assert Select(fs, CodeOf, k) == sel0 + [last];
    assert (sel0 + [last])[0] == sel0[0];
    MapAppend(sel0, [last], UrlOf);
    assert Map([last], UrlOf) == [last.url];
  }

  lemma LookupOpensGroup(init: seq<Found>, last: Found)
    requires last.code !in Map(init, CodeOf)
    requires Lookup(CountryMap(init), last.code) == None
    ensures last.code in Map(init + [last], CodeOf)
    ensures Lookup(CountryMap(init + [last]), last.code) == Some(GroupOf(init + [last], last.code))
  {
    var fs := init + [last];
    var k := last.code;
    assert fs[..|fs| - 1] == init;
    MapSnoc(fs, CodeOf);
    SelectSnoc(fs, CodeOf, k);
    SelectNone(init, CodeOf, k);
    assert Select(fs, CodeOf, k) == [last];
    assert Map([last], UrlOf) == [last.url];
  }

  lemma SelectNonEmpty(fs: seq<Found>, k: string)
    requires k in Map(fs, CodeOf)
    ensures Select(fs, CodeOf, k) != []
  {
    var i :| 0 <= i < |fs| && Map(fs, CodeOf)[i] == k;
    assert fs[i] in Select(fs, CodeOf, k);
  }

  /** The groups as `Array.from(countryMap.values())` lists them. */
  function Groups(fs: seq<Found>): seq<GeomastrCountry> {
    Map(CountryMap(fs), (p: (string, GeomastrCountry)) => p.1)
  }

  /**
   * The listed groups follow the distinct codes in order of first
   * appearance, and each holds its code's images in page order under the
   * name of the first.
   */
  lemma GroupsSpec(fs: seq<Found>)
    ensures |Groups(fs)| == |Dedup(Map(fs, CodeOf))|
    ensures forall i :: 0 <= i < |Groups(fs)| ==>
      Dedup(Map(fs, CodeOf))[i] in Map(fs, CodeOf) && Groups(fs)[i] == GroupOf(fs, Dedup(Map(fs, CodeOf))[i])
  {
    var cm := CountryMap(fs);
    CountryMapKeys(fs);
    forall i | 0 <= i < |cm|
      ensures cm[i].0 in Map(fs, CodeOf) && cm[i].1 == GroupOf(fs, cm[i].0)
    {
      LookupAt(cm, i);
      CountryMapLookup(fs, cm[i].0);
    }
  }

  // ---------------------------------------------------------------------------
  // Parsing a page
  // ---------------------------------------------------------------------------

  /** Addresses of the catch-all group: every image whose `src ?? data-src` is non-empty and not a flag. */
  function FallbackUrls(imgs: seq<ImgAttrs>): (r: seq<string>)
    ensures r == [] <==> forall i :: 0 <= i < |imgs| ==> !IsFallbackImage(imgs[i])
  {
    if imgs == [] then []
    else
      var rest := FallbackUrls(imgs[1..]);
      assert forall i :: 1 <= i < |imgs| ==> imgs[i] == imgs[1..][i - 1];
      if IsFallbackImage(imgs[0]) then [FullUrl(SrcOrDataSrc(imgs[0]).value)] + rest else rest
  }

  predicate IsFallbackImage(a: ImgAttrs) {
    SrcOrDataSrc(a).Some? && SrcOrDataSrc(a).value != "" && !Contains(SrcOrDataSrc(a).value, "/flags/")
  }

  /** `parseCountryData`: the country groups, the catch-all group, or the failure. */
  function ParseCountryData(c: Category, imgs: seq<ImgAttrs>): (r: Result<seq<GeomastrCountry>, ParseError>)
    ensures r.Failure? <==> FoundImages(c, imgs) == [] && FallbackUrls(imgs) == []
    ensures r.Failure? ==> r.error == ParseError(ErrorSource(Geomastr, c), "No country data found in HTML")
    ensures FoundImages(c, imgs) != [] ==> r == Success(Groups(FoundImages(c, imgs)))
    ensures FoundImages(c, imgs) == [] && FallbackUrls(imgs) != [] ==>
      r == Success([GeomastrCountry("Unknown", "XX", FallbackUrls(imgs))])
  {
    var fs := FoundImages(c, imgs);
    var groups := Groups(fs);
    CountryMapKeys(fs);
    if fs != [] then
      assert fs[0].code in Dedup(Map(fs, CodeOf)) by { assert Map(fs, CodeOf)[0] == fs[0].code; }
      Success(groups)
    else
      var all := FallbackUrls(imgs);
      if all != [] then Success([GeomastrCountry("Unknown", "XX", all)])
      else Failure(ParseError(ErrorSource(Geomastr, c), "No country data found in HTML"))
  }
}
