/**
 * What the geohints and geomastr scrapers share: the image attributes they
 * read, their parse failure, and the manifest id and storage paths an
 * accepted image is written under.
 */
module ScrapeCommon {
  import opened Wrappers
  import opened Strings
  import opened Categories
  import opened ManifestSchema
  import opened ImageUrls

  /** A scraper's parse failure: where it happened and why. */
  datatype ParseError = ParseError(source: string, message: string)

  /** The two attributes an `<img>` element may carry its address in; `None` when absent. */
  datatype ImgAttrs = ImgAttrs(src: Option<string>, dataSrc: Option<string>)

  /** `attr("src") ?? attr("data-src")` */
  function SrcOrDataSrc(a: ImgAttrs): (r: Option<string>)
    ensures a.src.Some? ==> r == a.src
    ensures a.src.None? ==> r == a.dataSrc
  {
    if a.src.Some? then a.src else a.dataSrc
  }

  /** `attr("src") ?? attr("data-src") ?? ""` */
  function ImageSource(a: ImgAttrs): (r: string)
    ensures SrcOrDataSrc(a).Some? ==> r == SrcOrDataSrc(a).value
    ensures SrcOrDataSrc(a).None? ==> r == ""
  {
    SrcOrDataSrc(a).GetOr("")
  }

  /** The failure's `source` field: "<site>/<category>". */
  function ErrorSource(site: Source, category: Category): string {
    SourceName(site) + "/" + CategoryName(category)
  }

  /**
   * The country-name table every scraper's code lookup starts with: common
   * spellings whose first two letters are not the ISO 3166-1 alpha-2 code.
   */
  const CommonCountryCodes: seq<(string, string)> := [
    ("united states", "US"), ("usa", "US"), ("united kingdom", "GB"), ("uk", "GB"),
    ("south korea", "KR"), ("north korea", "KP"), ("south africa", "ZA"), ("new zealand", "NZ"),
    ("czech republic", "CZ"), ("czechia", "CZ"), ("uae", "AE"), ("united arab emirates", "AE")
  ]

  // ---------------------------------------------------------------------------
  // Manifest ids
  // ---------------------------------------------------------------------------

  /** "<category>-<source>-<lower-cased code>-<index>" */
  function EntryId(category: Category, site: Source, code: string, index: nat): (id: string)
    ensures LastSegment(id, '-') == NatToString(index)
  {
    var p := CategoryName(category) + "-" + SourceName(site) + "-" + Lower(code);
    LastSegmentAfter(p, '-', NatToString(index));
    p + "-" + NatToString(index)
  }

  lemma {:induction false} LastSegmentAfter(x: string, d: char, y: string)
    requires d !in y
    ensures LastSegment(x + [d] + y, d) == y
  {
    var s := x + [d] + y;
    if y != [] {
      var y' := y[..|y| - 1];
      assert s[..|s| - 1] == x + [d] + y';
      assert s[|s| - 1] == y[|y| - 1];
      LastSegmentAfter(x, d, y');
    }
  }

  /**
   * Within one category and source, the id determines the lower-cased code
   * and the index: images of different countries, or different images of one
   * country, never share an id.
   */
  lemma EntryIdInjective(category: Category, site: Source, a: string, i: nat, b: string, j: nat)
    requires EntryId(category, site, a, i) == EntryId(category, site, b, j)
    ensures Lower(a) == Lower(b) && i == j
  {
    assert NatToString(i) == NatToString(j);
    NatToStringInjective(i, j);
    var c, s := CategoryName(category), SourceName(site);
    IdShape(c, s, Lower(a), NatToString(i));
    IdShape(c, s, Lower(b), NatToString(i));
    SameFrame(c + "-" + s + "-", Lower(a), Lower(b), "-" + NatToString(i));
  }

  lemma IdShape(c: string, s: string, x: string, n: string)
    ensures c + "-" + s + "-" + x + "-" + n == (c + "-" + s + "-") + x + ("-" + n)
  {
  }

  lemma SameFrame(head: string, x: string, y: string, tail: string)
    requires head + x + tail == head + y + tail
    ensures x == y
  {
    var w := head + x + tail;
    assert x == w[|head|..|head| + |x|];
    assert y == w[|head|..|head| + |y|];
  }

  // ---------------------------------------------------------------------------
  // Storage paths
  // ---------------------------------------------------------------------------

  /** "<category>/<lower-cased code>" */
  function BasePath(category: Category, code: string): string {
    CategoryName(category) + "/" + Lower(code)
  }

  /** The file stem: the first 8 characters of the content hash. */
  function FileStem(contentHash: string): (stem: string)
    ensures StartsWith(contentHash, stem)
    ensures |contentHash| >= 8 ==> |stem| == 8
  {
    Take(contentHash, 8)
  }

  /** "<base>/<stem>.webp": where the original download is saved. */
  function OriginalPath(category: Category, code: string, contentHash: string): string {
    BasePath(category, code) + "/" + FileStem(contentHash) + ".webp"
  }

  /** "<base>/<stem>-<width>w.webp" */
  function VariantPath(category: Category, code: string, contentHash: string, w: Width): string {
    BasePath(category, code) + "/" + FileStem(contentHash) + VariantSuffix(w)
  }

  function VariantsFor(category: Category, code: string, contentHash: string): (v: Variants)
    ensures v.w400 == VariantPath(category, code, contentHash, W400)
    ensures v.w800 == VariantPath(category, code, contentHash, W800)
    ensures v.w1200 == VariantPath(category, code, contentHash, W1200)
  {
    Variants(
      VariantPath(category, code, contentHash, W400),
      VariantPath(category, code, contentHash, W800),
      VariantPath(category, code, contentHash, W1200))
  }

  /**
   * The stem of a SHA-256 hex digest is eight lower-case hex digits, and every
   * path of an image lies in its country's directory with that stem.
   */
  lemma PathsOfHash(category: Category, code: string, contentHash: string, w: Width)
    requires IsSha256Hash(contentHash)
    ensures var stem := FileStem(contentHash);
      |stem| == 8 && (forall k :: 0 <= k < 8 ==> IsLowerHexDigit(stem[k]))
      && VariantPath(category, code, contentHash, w) == BasePath(category, code) + "/" + stem + VariantSuffix(w)
      && StartsWith(VariantPath(category, code, contentHash, w), BasePath(category, code) + "/" + stem + "-")
  {
    var stem := FileStem(contentHash);
    forall k | 0 <= k < 8 ensures IsLowerHexDigit(stem[k]) {
      assert stem[k] == contentHash[k];
    }
    var p := BasePath(category, code) + "/" + stem;
    assert VariantPath(category, code, contentHash, w) == (p + "-") + (WidthText(w) + "w.webp");
  }

  /** The three widths, and the original, are stored under four different keys. */
  lemma PathsDistinct(category: Category, code: string, contentHash: string)
    ensures var v := VariantsFor(category, code, contentHash);
      v.w400 != v.w800 && v.w400 != v.w1200 && v.w800 != v.w1200
      && OriginalPath(category, code, contentHash) !in {v.w400, v.w800, v.w1200}
  {
    var p := BasePath(category, code) + "/" + FileStem(contentHash);
    var o := OriginalPath(category, code, contentHash);
    var a := VariantPath(category, code, contentHash, W400);
    var b := VariantPath(category, code, contentHash, W800);
    var c := VariantPath(category, code, contentHash, W1200);
    assert o == p + ".webp";
    assert a == p + "-400w.webp";
    assert b == p + "-800w.webp";
    assert c == p + "-1200w.webp";
    assert o[|p|] == '.' && a[|p|] == '-' && b[|p|] == '-' && c[|p|] == '-';
    assert a[|p| + 1] == '4' && b[|p| + 1] == '8' && c[|p| + 1] == '1';
  }

  // ---------------------------------------------------------------------------
  // Manifest entries
  // ---------------------------------------------------------------------------

  /** The code stored in the entry: the scraped code upper-cased and cut to two code points. */
  function EntryCountryCode(code: string): (r: string)
    ensures |r| == if |code| < 2 then |code| else 2
    ensures forall k :: 0 <= k < |r| ==> r[k] == ToUpperChar(code[k])
  {
    Take(Upper(code), 2)
  }

  /**
   * The manifest entry for one scraped image. `index` is the image's position
   * before any image is dropped: its place among the de-duplicated images of
   * the page (geohints) or within its country's image list (geomastr).
   */
  function MakeEntry(category: Category, site: Source, country: string, code: string,
                     sourceUrl: string, contentHash: string, index: nat, scrapedAt: int): (e: Entry)
    ensures e.id == EntryId(category, site, code, index)
    ensures e.category == category && e.source == site
    ensures e.country == country && e.sourceUrl == sourceUrl && e.contentHash == contentHash
    ensures e.countryCode == EntryCountryCode(code)
    ensures e.variants == VariantsFor(category, code, contentHash)
  {
    Entry(EntryId(category, site, code, index), category, site, country, EntryCountryCode(code),
          sourceUrl, contentHash, VariantsFor(category, code, contentHash), scrapedAt)
  }

  /**
   * The entry passes the manifest schema exactly when the digest is a SHA-256
   * hex string, the source address is a URL, and the scraped code begins with
   * two ASCII letters: the stored code is cast, never checked.
   */
  lemma MakeEntryValid(category: Category, site: Source, country: string, code: string,
                       sourceUrl: string, contentHash: string, index: nat, scrapedAt: int)
    ensures ValidEntry(MakeEntry(category, site, country, code, sourceUrl, contentHash, index, scrapedAt))
      <==> IsSha256Hash(contentHash) && IsUrl(sourceUrl)
           && |code| >= 2 && IsAsciiLetter(code[0]) && IsAsciiLetter(code[1])
  {
    EntryCountryCodeValid(code);
  }

  lemma EntryCountryCodeValid(code: string)
    ensures IsCountryCode(EntryCountryCode(code)) <==> |code| >= 2 && IsAsciiLetter(code[0]) && IsAsciiLetter(code[1])
  {
    var cc := EntryCountryCode(code);
    if |code| >= 2 {
      UpperLetter(code[0]);
      UpperLetter(code[1]);
      assert cc[0] == ToUpperChar(code[0]) && cc[1] == ToUpperChar(code[1]);
    }
  }

  lemma UpperLetter(c: char)
    ensures IsAsciiUpper(ToUpperChar(c)) <==> IsAsciiLetter(c)
  {
  }
}
