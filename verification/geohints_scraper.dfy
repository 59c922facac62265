/**
 * The pure decisions of the geohints.com scraper, in its two copies (the
 * current library and the older one): the category path guard, the country
 * code lookup, the filename patterns, the country-name priority, the two
 * collection passes over the page's images, the empty-page failure and the
 * de-duplication by image URL.
 *
 * The page itself is not modelled: each `<img>` arrives as its two address
 * attributes and the already trimmed texts the scraper reads around it.
 */
module GeohintsScraper {
  import opened Wrappers
  import opened Strings
  import opened Collections
  import opened Categories
  import opened ScrapeCommon

  const BaseUrl: string := "https://geohints.com"
  const CdnUrl: string := "https://ocsc00skc0wokcs8kw8g8k84.geohints.com/storage"

  /** The current scraper library, or its older copy with the smaller table and header-only naming. */
  datatype Variant = Current | Legacy

  /** The geohints.com path of a category; both copies share the table. */
  function CategoryPath(c: Category): (r: Option<string>)
    ensures r.Some? ==> r.value != ""
  {
    match c
    case Bollards => Some("bollards")
    case LicensePlates => Some("licensePlates")
    case RoadLines => Some("lines")
    case StreetSigns => Some("signs")
    case UtilityPoles => Some("utilityPoles")
    case PhoneBooths => Some("phoneNumbers")
    case PostBoxes => Some("postBoxes")
    case TrafficLights => Some("trafficLights")
    case HouseNumbers => Some("houseNumbers")
    case FollowCars => Some("followCars")
    case GoogleCars => Some("googleVehicles/cars")
    case Architecture => Some("architecture")
    case Scripts => Some("languages")
    case Languages => Some("languages")
    case SpeedLimits => Some("signs/speed")
    case _ => None
  }

  /** The path images of a category are looked for under: the mapped path, else the category name. */
  function CdnPath(c: Category): (p: string)
    ensures CategoryPath(c).Some? ==> p == CategoryPath(c).value
    ensures CategoryPath(c).None? ==> p == CategoryName(c)
  {
    CategoryPath(c).GetOr(CategoryName(c))
  }

  // ---------------------------------------------------------------------------
  // The category guard
  // ---------------------------------------------------------------------------

  /** The categories geohints.com has no page for. */
  predicate Unavailable(c: Category) {
    c in {Crosswalks, Guardrails, RoadMarkings, Vegetation, RoadSurfaces, RoadSigns}
  }

  /** The guard at the start of a scrape: the category page to fetch, or the failure. */
  function CategoryPage(c: Category): (r: Result<string, ParseError>)
    ensures r.Failure? <==> Unavailable(c)
    ensures r.Failure? ==> r.error == ParseError(ErrorSource(Geohints, c),
      "Category " + CategoryName(c) + " not available on geohints.com")
    ensures r.Success? ==> StartsWith(r.value, BaseUrl + "/meta/") && EndsWith(r.value, CdnPath(c))
    ensures r.Success? ==> r.value == BaseUrl + "/meta/" + CdnPath(c)
  {
    match CategoryPath(c)
    case Some(p) =>
      var url := BaseUrl + "/meta/" + p;
      assert url[..|BaseUrl + "/meta/"|] == BaseUrl + "/meta/";
      assert url[|url| - |p|..] == p;
      Success(url)
    case None =>
      Failure(ParseError(ErrorSource(Geohints, c), "Category " + CategoryName(c) + " not available on geohints.com"))
  }

  // ---------------------------------------------------------------------------
  // Country codes
  // ---------------------------------------------------------------------------

  /** The current copy's further special cases and the countries whose code is not their first two letters. */
  const ExtraSpecialCodes: seq<(string, string)> := [
    ("cocos (keeling) islands", "CC"), ("costa rica", "CR"), ("botswana", "BW"), ("bulgaria", "BG"),
    ("ireland", "IE"), ("israel", "IL"), ("japan", "JP"), ("jordan", "JO"), ("kenya", "KE"),
    ("malaysia", "MY"), ("mongolia", "MN"), ("montenegro", "ME"), ("nigeria", "NG"), ("norway", "NO"),
    ("palestine", "PS"), ("philippines", "PH"), ("russia", "RU"), ("spain", "ES"), ("tunisia", "TN"),
    ("canada", "CA"), ("denmark", "DK"), ("italy", "IT")
  ]

  /** The current copy's remaining common countries. */
  const ExtraCommonCodes: seq<(string, string)> := ExtraCommonFirst + ExtraCommonSecond

  const ExtraCommonFirst: seq<(string, string)> := [
    ("germany", "DE"), ("france", "FR"), ("brazil", "BR"), ("china", "CN"), ("india", "IN"),
    ("indonesia", "ID"), ("mexico", "MX"), ("netherlands", "NL"), ("poland", "PL"), ("portugal", "PT"),
    ("sweden", "SE"), ("switzerland", "CH"), ("thailand", "TH"), ("turkey", "TR"), ("ukraine", "UA"),
    ("vietnam", "VN"), ("argentina", "AR"), ("australia", "AU"), ("austria", "AT"), ("belgium", "BE")
  ]

  const ExtraCommonSecond: seq<(string, string)> := [
    ("chile", "CL"), ("colombia", "CO"), ("croatia", "HR"), ("egypt", "EG"), ("finland", "FI"),
    ("greece", "GR"), ("hungary", "HU"), ("iceland", "IS"), ("latvia", "LV"), ("lithuania", "LT"),
    ("luxembourg", "LU"), ("morocco", "MA"), ("pakistan", "PK"), ("peru", "PE"), ("romania", "RO"),
    ("serbia", "RS"), ("singapore", "SG"), ("slovakia", "SK"), ("slovenia", "SI"), ("taiwan", "TW"),
    ("uganda", "UG"), ("uruguay", "UY"), ("venezuela", "VE")
  ]

  function CountryTable(v: Variant): seq<(string, string)> {
    match v
    case Current => CommonCountryCodes + (ExtraSpecialCodes + ExtraCommonCodes)
    case Legacy => CommonCountryCodes
  }

  /** `extractCountryCode`: the table entry of the lower-cased, trimmed name, else its first two code points upper-cased. */
  function ExtractCountryCode(v: Variant, name: string): (code: string)
  {
    TableOr(CountryTable(v), Trim(Lower(name)), Upper(Take(name, 2)))
  }

  /**
   * A name in the table yields its code whatever its letter case and
   * surrounding whitespace; any other name yields its own first two
   * characters, upper-cased, with the whitespace left in.
   */
  lemma ExtractCountryCodeSpec(v: Variant, name: string)
    ensures var key := Trim(Lower(name));
      (Lookup(CountryTable(v), key).Some? ==> ExtractCountryCode(v, name) == Lookup(CountryTable(v), key).value)
      && (Lookup(CountryTable(v), key).None? ==>
            |ExtractCountryCode(v, name)| == (if |name| < 2 then |name| else 2)
            && forall k :: 0 <= k < |ExtractCountryCode(v, name)| ==> ExtractCountryCode(v, name)[k] == ToUpperChar(name[k]))
  {
    var key := Trim(Lower(name));
    CountryTableValues(v, key);
    CodeOrPrefix(CountryTable(v), key, name);
  }

  /** A table lookup falling back to the name's first two code points, upper-cased. */
  lemma CodeOrPrefix(table: seq<(string, string)>, key: string, name: string)
    requires Lookup(table, key).Some? ==> IsCodeShape(Lookup(table, key).value)
    ensures var r := TableOr(table, key, Upper(Take(name, 2)));
      (Lookup(table, key).Some? ==> r == Lookup(table, key).value)
      && (Lookup(table, key).None? ==>
            |r| == (if |name| < 2 then |name| else 2)
            && forall k :: 0 <= k < |r| ==> r[k] == ToUpperChar(name[k]))
  {
    var t := Take(name, 2);
    assert forall k :: 0 <= k < |t| ==> t[k] == name[k];
  }

  /** Every code in either table is two upper-case letters. */
  lemma CountryTableValues(v: Variant, key: string)
    ensures Lookup(CountryTable(v), key).Some? ==> IsCodeShape(Lookup(CountryTable(v), key).value)
  {
    CommonCodesShaped();
    ExtraCodesShaped();
    AllCodeShapedAppend(ExtraSpecialCodes, ExtraCommonCodes);
    AllCodeShapedAppend(CommonCountryCodes, ExtraSpecialCodes + ExtraCommonCodes);
    AllCodeShapedLookup(CountryTable(v), key);
  }

  lemma CommonCodesShaped()
    ensures AllCodeShaped(CommonCountryCodes)
  {
  }

  lemma ExtraCodesShaped()
    ensures AllCodeShaped(ExtraSpecialCodes) && AllCodeShaped(ExtraCommonCodes)
  {
    SpecialCodesShaped();
    ExtraCommonShaped();
  }

  lemma SpecialCodesShaped()
    ensures AllCodeShaped(ExtraSpecialCodes)
  {
  }

  lemma ExtraCommonShaped()
    ensures AllCodeShaped(ExtraCommonCodes)
  {
    ExtraFirstShaped();
    ExtraSecondShaped();
    AllCodeShapedAppend(ExtraCommonFirst, ExtraCommonSecond);
  }

  lemma ExtraFirstShaped()
    ensures AllCodeShaped(ExtraCommonFirst)
  {
  }

  lemma ExtraSecondShaped()
    ensures AllCodeShaped(ExtraCommonSecond)
  {
  }

  lemma AllCodeShapedAppend(a: seq<(string, string)>, b: seq<(string, string)>)
    requires AllCodeShaped(a) && AllCodeShaped(b)
    ensures AllCodeShaped(a + b)
  {
    forall i | 0 <= i < |a + b| ensures IsCodeShape((a + b)[i].1) {
      if i >= |a| { assert (a + b)[i] == b[i - |a|]; }
    }
  }

  lemma AllCodeShapedLookup(t: seq<(string, string)>, key: string)
    requires AllCodeShaped(t)
    ensures Lookup(t, key).Some? ==> IsCodeShape(Lookup(t, key).value)
  {
    match Lookup(t, key)
    case Some(code) =>
      var i :| 0 <= i < |t| && t[i] == (key, code);
    case None =>
  }

  predicate AllCodeShaped(t: seq<(string, string)>) {
    forall i :: 0 <= i < |t| ==> IsCodeShape(t[i].1)
  }

  predicate IsCodeShape(s: string) {
    |s| == 2 && IsAsciiUpper(s[0]) && IsAsciiUpper(s[1])
  }

  /** The older copy never disagrees with the current one: every name it maps, the current copy maps the same way. */
  lemma LegacyCodesAgree(name: string)
    requires Lookup(CountryTable(Legacy), Trim(Lower(name))).Some?
    ensures ExtractCountryCode(Legacy, name) == ExtractCountryCode(Current, name)
  {
    LookupAppend(CommonCountryCodes, ExtraSpecialCodes + ExtraCommonCodes, Trim(Lower(name)));
  }

  // ---------------------------------------------------------------------------
  // Names from filenames
  // ---------------------------------------------------------------------------

  predicate IsNameChar(c: char) { IsAsciiLetter(c) || c == '_' }

  predicate AllNameChars(s: string) { forall i :: 0 <= i < |s| ==> IsNameChar(s[i]) }

  /** Length of the leading run of `[A-Za-z_]`. */
  function NameRun(s: string): (n: nat)
    ensures n <= |s| && AllNameChars(s[..n])
    ensures n < |s| ==> !IsNameChar(s[n])
  {
    if s == [] || !IsNameChar(s[0]) then 0
    else
      var n := 1 + NameRun(s[1..]);
      assert s[..n] == [s[0]] + s[1..][..n - 1];
      n
  }

  /**
   * The capture of `^([A-Za-z_]+)(?:_\d+)?\.` in a filename. The greedy run
   * of name characters is the capture when a '.' follows it; otherwise, when
   * the run ends in '_' and digits then '.' follow, the capture is the run
   * without that '_'.
   */
  function FilenameCountry(f: string): (r: Option<string>)
    ensures r.Some? ==> r.value != [] && AllNameChars(r.value) && StartsWith(f, r.value)
    ensures r.Some? ==> (|r.value| < |f| &&
      (f[|r.value|] == '.' || (f[|r.value|] == '_' && NumberedDot(f[|r.value| + 1..]))))
  {
    var n := NameRun(f);
    if 0 < n < |f| && f[n] == '.' then
      Some(f[..n])
    else if 2 <= n && f[n - 1] == '_' && NumberedDot(f[n..]) then
      var g := f[..n - 1];
      assert AllNameChars(g) by {
        forall k | 0 <= k < n - 1 ensures IsNameChar(g[k]) { assert g[k] == f[..n][k]; }
      }
      assert f[|g| + 1..] == f[n..];
      Some(g)
    else None
  }

  /** `\d+\.` at the start of `s`. */
  predicate NumberedDot(s: string) {
    var d := DigitRun(s);
    0 < d < |s| && s[d] == '.'
  }

  /** A name of letters and underscores before an extension is captured whole. */
  lemma FilenameCountryOfName(name: string, ext: string)
    requires name != [] && AllNameChars(name)
    ensures FilenameCountry(name + "." + ext) == Some(name)
  {
    var f := name + "." + ext;
    assert f == name + ("." + ext);
    NameRunOfPrefix(name, "." + ext);
    assert f[|name|] == '.';
    assert f[..|name|] == name;
  }

  /** A name followed by "_<digits>" before the extension is captured without the number. */
  lemma FilenameCountryOfNumbered(name: string, digits: string, ext: string)
    requires name != [] && AllNameChars(name) && digits != [] && AllDigits(digits)
    ensures FilenameCountry(name + "_" + digits + "." + ext) == Some(name)
  {
    var a, b := name + "_", digits + "." + ext;
    assert name + "_" + digits + "." + ext == a + b && a[..|a| - 1] == name && a[|a| - 1] == '_' by {
      NumberedShape(name, digits, ext);
    }
    assert AllNameChars(a) by { NameCharsSnoc(name, '_'); }
    assert b[0] == digits[0] && NumberedDot(b) by {
      DigitRunOfDigitsThen(digits, "." + ext);
      assert b[|digits|] == '.';
    }
    NumberedFile(a, b);
  }

  lemma NumberedShape(name: string, digits: string, ext: string)
    ensures name + "_" + digits + "." + ext == (name + "_") + (digits + "." + ext)
    ensures (name + "_")[..|name|] == name && (name + "_")[|name|] == '_'
  {
  }

  lemma NameCharsSnoc(name: string, c: char)
    requires AllNameChars(name) && IsNameChar(c)
    ensures AllNameChars(name + [c])
  {
    assert forall k :: 0 <= k < |name| ==> (name + [c])[k] == name[k];
  }

  /** A run of name characters ending in '_' and followed by "<digits>." is captured without the underscore. */
  lemma NumberedFile(a: string, b: string)
    requires 2 <= |a| && a[|a| - 1] == '_' && AllNameChars(a)
    requires b != [] && IsDigit(b[0]) && NumberedDot(b)
    ensures FilenameCountry(a + b) == Some(a[..|a| - 1])
  {
    NameRunOfPrefix(a, b);
    assert (a + b)[|a|..] == b;
    assert (a + b)[..|a| - 1] == a[..|a| - 1];
    FilenameCountryNumbered(a + b, |a|);
  }

  /** A name run ending in '_' and followed by "<digits>." is captured without the underscore. */
  lemma FilenameCountryNumbered(f: string, n: int)
    requires 2 <= n == NameRun(f) && n < |f| && f[n - 1] == '_' && f[n] != '.' && NumberedDot(f[n..])
    ensures FilenameCountry(f) == Some(f[..n - 1])
  {
  }

  lemma NameRunOfPrefix(a: string, b: string)
    requires AllNameChars(a) && (b != [] ==> !IsNameChar(b[0]))
    ensures NameRun(a + b) == |a|
  {
    if a != [] {
      assert (a + b)[1..] == a[1..] + b;
      NameRunOfPrefix(a[1..], b);
    }
  }

  /** The country a CDN filename names: its capture with '_' read as ' ', or "Unknown". */
  function FileCountry(filename: string): string {
    match FilenameCountry(filename)
    case Some(g) => ReplaceChar(g, '_', ' ')
    case None => "Unknown"
  }

  function IsWordChar(c: char): bool { IsAsciiLetter(c) || IsDigit(c) || c == '_' }

  /** `s.replace(/\.\w+$/, "")`: only the last '.' can start the match, and only if word characters follow it to the end. */
  function StripExtension(s: string): (r: string)
    ensures StartsWith(s, r)
    ensures r != s ==> (s[|r|] == '.' && |r| + 1 < |s| && '.' !in s[|r| + 1..]
      && forall k :: |r| < k < |s| ==> IsWordChar(s[k]))
  {
    match LastIndexOf(s, '.')
    case Some(i) =>
      if i + 1 < |s| && forall k :: i < k < |s| ==> IsWordChar(s[k]) then s[..i] else s
    case None => s
  }

  /** A stem followed by an extension of word characters loses exactly the extension. */
  lemma StripExtensionOf(stem: string, ext: string)
    requires ext != [] && forall k :: 0 <= k < |ext| ==> IsWordChar(ext[k])
    ensures StripExtension(stem + "." + ext) == stem
  {
    var s := stem + "." + ext;
    assert '.' !in ext by {
      forall k | 0 <= k < |ext| ensures ext[k] != '.' { assert IsWordChar(ext[k]); }
    }
    assert s[|stem|] == '.' && s[|stem| + 1..] == ext;
    assert LastIndexOf(s, '.') == Some(|stem|);
    assert s[..|stem|] == stem;
  }

  /** The country a relative filename names: '-' and '_' read as ' ', the extension dropped. */
  function RelativeFileCountry(filename: string): string {
    StripExtension(ReplaceChar(ReplaceChar(filename, '-', ' '), '_', ' '))
  }

  // ---------------------------------------------------------------------------
  // Choosing the country name
  // ---------------------------------------------------------------------------

  /** Position of the value `a || b || ...` takes: the first non-empty string, else the last. */
  function FirstNonEmptyIndex(xs: seq<string>): (i: nat)
    requires xs != []
    ensures i < |xs|
    ensures forall k :: 0 <= k < i ==> xs[k] == ""
    ensures xs[i] == "" ==> i == |xs| - 1
  {
    if |xs| == 1 || xs[0] != "" then 0 else 1 + FirstNonEmptyIndex(xs[1..])
  }

  function FirstNonEmpty(xs: seq<string>): string
    requires xs != []
  {
    xs[FirstNonEmptyIndex(xs)]
  }

  /** One `<img>` with the trimmed texts the scraper reads around it. */
  datatype ImgElement = ImgElement(
    attrs: ImgAttrs,
    siblingSpan: string,
    prevSpan: string,
    parentSpan: string,
    header: string,
    parentText: string)

  /** Where each copy looks for the country name, highest priority first, the filename last. */
  function NameCandidates(v: Variant, img: ImgElement, fromFile: string): (cs: seq<string>)
    ensures cs != [] && cs[|cs| - 1] == fromFile
  {
    match v
    case Current => [img.siblingSpan, img.prevSpan, img.parentSpan, img.header, fromFile]
    case Legacy => [img.header, fromFile]
  }

  /** A scraped image; only images found through the CDN pass carry page text. */
  datatype GeohintImage = GeohintImage(country: string, countryCode: string, imageUrl: string, metadata: Option<string>)

  // ---------------------------------------------------------------------------
  // The two passes
  // ---------------------------------------------------------------------------

  predicate IsCdnImage(img: ImgElement) {
    var src := ImageSource(img.attrs);
    Contains(src, CdnUrl) || Contains(src, "/storage/")
  }

  /** An image of the first pass: absolute address, name by priority, the first 100 code points of page text. */
  function CdnImage(v: Variant, img: ImgElement): (r: GeohintImage)
    ensures r.country == FirstNonEmpty(NameCandidates(v, img, FileCountry(LastSegment(ImageSource(img.attrs), '/'))))
    ensures r.countryCode == ExtractCountryCode(v, r.country)
    ensures r.metadata.Some? && StartsWith(img.parentText, r.metadata.value) && |r.metadata.value| <= 100
  {
    var src := ImageSource(img.attrs);
    var url := if StartsWith(src, "http") then src else BaseUrl + src;
    var name := FirstNonEmpty(NameCandidates(v, img, FileCountry(LastSegment(src, '/'))));
    GeohintImage(name, ExtractCountryCode(v, name), url, Some(Take(img.parentText, 100)))
  }

  /** `img[src*=p], img[data-src*=p]` */
  predicate SelectorMatches(a: ImgAttrs, p: string) {
    (a.src.Some? && Contains(a.src.value, p)) || (a.dataSrc.Some? && Contains(a.dataSrc.value, p))
  }

  predicate IsRelativeImage(c: Category, img: ImgElement) {
    SelectorMatches(img.attrs, CdnPath(c)) && !Contains(ImageSource(img.attrs), CdnUrl)
  }

  /** An image of the second pass: rebased onto the CDN unless absolute, named by its filename. */
  function RelativeImage(v: Variant, c: Category, img: ImgElement): (r: GeohintImage)
    ensures r.country == RelativeFileCountry(LastSegment(ImageSource(img.attrs), '/'))
    ensures r.countryCode == ExtractCountryCode(v, r.country)
    ensures r.metadata.None?
  {
    var src := ImageSource(img.attrs);
    var file := LastSegment(src, '/');
    var url := if StartsWith(src, "http") then src else CdnUrl + "/" + CdnPath(c) + "/" + file;
    var name := RelativeFileCountry(file);
    GeohintImage(name, ExtractCountryCode(v, name), url, None)
  }

  /** The first pass: every CDN image, in page order. */
  function CdnPass(v: Variant, imgs: seq<ImgElement>): (r: seq<GeohintImage>)
    ensures |r| <= |imgs|
  {
    FilterMap(imgs, IsCdnImage, img => CdnImage(v, img))
  }

  /** The second pass: every image of the category's directory that is not on the CDN, in page order. */
  function RelativePass(v: Variant, c: Category, imgs: seq<ImgElement>): (r: seq<GeohintImage>)
    ensures |r| <= |imgs|
  {
    FilterMap(imgs, img => IsRelativeImage(c, img), img => RelativeImage(v, c, img))
  }

  /** Every image of the page is collected by a pass exactly when it matches one. */
  lemma PassesEmpty(v: Variant, c: Category, imgs: seq<ImgElement>)
    ensures CdnPass(v, imgs) + RelativePass(v, c, imgs) == [] <==>
      forall i :: 0 <= i < |imgs| ==> !IsCdnImage(imgs[i]) && !IsRelativeImage(c, imgs[i])
  {
    CdnPassEmpty(v, imgs);
    RelativePassEmpty(v, c, imgs);
  }

  lemma CdnPassEmpty(v: Variant, imgs: seq<ImgElement>)
    ensures CdnPass(v, imgs) == [] <==> forall i :: 0 <= i < |imgs| ==> !IsCdnImage(imgs[i])
  {
    FilterMapEmpty(imgs, IsCdnImage, img => CdnImage(v, img));
  }

  lemma RelativePassEmpty(v: Variant, c: Category, imgs: seq<ImgElement>)
    ensures RelativePass(v, c, imgs) == [] <==> forall i :: 0 <= i < |imgs| ==> !IsRelativeImage(c, imgs[i])
  {
    FilterMapEmpty(imgs, img => IsRelativeImage(c, img), img => RelativeImage(v, c, img));
  }

  // ---------------------------------------------------------------------------
  // De-duplication by address
  // ---------------------------------------------------------------------------

  function UrlOf(img: GeohintImage): string { img.imageUrl }

  /** `new Map(images.map(img => [img.imageUrl, img]))`: a key keeps its first position and takes its last value. */
  function UrlIndex(images: seq<GeohintImage>): (m: seq<(string, GeohintImage)>)
  {
    if images == [] then []
    else
      var last := images[|images| - 1];
      Put(UrlIndex(images[..|images| - 1]), last.imageUrl, last)
  }

  /** The position of the last image with address `u`. */
  function LastWithUrl(images: seq<GeohintImage>, u: string): (r: Option<nat>)
    ensures r.None? <==> forall k :: 0 <= k < |images| ==> images[k].imageUrl != u
    ensures r.Some? ==> (r.value < |images| && images[r.value].imageUrl == u
      && forall k :: r.value < k < |images| ==> images[k].imageUrl != u)
  {
    if images == [] then None
    else if images[|images| - 1].imageUrl == u then Some(|images| - 1)
    else LastWithUrl(images[..|images| - 1], u)
  }

  /** The index is keyed by the distinct addresses, in order of first appearance. */
  lemma {:induction false} UrlIndexKeys(images: seq<GeohintImage>)
    ensures Keys(UrlIndex(images)) == Dedup(Map(images, UrlOf))
  {
    if images != [] {
      var init, last := images[..|images| - 1], images[|images| - 1];
      UrlIndexKeys(init);
      DedupMapSnoc(images, UrlOf);
      assert UrlOf(last) == last.imageUrl;
    }
  }

  /** Each address is stored with the last image carrying it. */
  lemma {:induction false} UrlIndexLookup(images: seq<GeohintImage>, u: string)
    ensures Lookup(UrlIndex(images), u) ==
      match LastWithUrl(images, u) case Some(i) => Some(images[i]) case None => None
  {
    if images != [] {
      var init, last := images[..|images| - 1], images[|images| - 1];
      UrlIndexLookup(init, u);
      if last.imageUrl != u {
        PutOthers(UrlIndex(init), last.imageUrl, last, u);
        match LastWithUrl(init, u)
        case Some(i) => assert images[i] == init[i];
        case None =>
      }
    }
  }

  /** `Array.from(map.values())` */
  function DedupByUrl(images: seq<GeohintImage>): (r: seq<GeohintImage>)
  {
    Map(UrlIndex(images), (p: (string, GeohintImage)) => p.1)
  }

  /**
   * De-duplication keeps one image per address: the addresses are the
   * distinct addresses of the input in order of first appearance, and the
   * image kept for each is the last one collected with it.
   */
  lemma DedupByUrlSpec(images: seq<GeohintImage>)
    ensures Map(DedupByUrl(images), UrlOf) == Dedup(Map(images, UrlOf))
    ensures forall i :: 0 <= i < |DedupByUrl(images)| ==>
      LastWithUrl(images, DedupByUrl(images)[i].imageUrl).Some?
      && DedupByUrl(images)[i] == images[LastWithUrl(images, DedupByUrl(images)[i].imageUrl).value]
  {
    DedupByUrlAddresses(images);
    UrlIndexKeys(images);
    DedupByUrlLast(images);
  }

  lemma DedupByUrlAddresses(images: seq<GeohintImage>)
    ensures Map(DedupByUrl(images), UrlOf) == Keys(UrlIndex(images))
  {
    var m, r := UrlIndex(images), DedupByUrl(images);
    forall i | 0 <= i < |r| ensures UrlOf(r[i]) == Keys(m)[i] {
      UrlIndexEntry(images, i);
    }
  }

  lemma DedupByUrlLast(images: seq<GeohintImage>)
    ensures forall i :: 0 <= i < |DedupByUrl(images)| ==>
      LastWithUrl(images, DedupByUrl(images)[i].imageUrl).Some?
      && DedupByUrl(images)[i] == images[LastWithUrl(images, DedupByUrl(images)[i].imageUrl).value]
  {
    var m, r := UrlIndex(images), DedupByUrl(images);
    forall i | 0 <= i < |r|
      ensures LastWithUrl(images, r[i].imageUrl).Some? && r[i] == images[LastWithUrl(images, r[i].imageUrl).value]
    {
      UrlIndexEntry(images, i);
    }
  }

  /** Each entry of the index is keyed by its image's address and holds the last image with it. */
  lemma UrlIndexEntry(images: seq<GeohintImage>, i: int)
    requires 0 <= i < |UrlIndex(images)|
    ensures var m := UrlIndex(images);
      m[i].1.imageUrl == m[i].0
      && LastWithUrl(images, m[i].0).Some? && m[i].1 == images[LastWithUrl(images, m[i].0).value]
  {
    var m := UrlIndex(images);
    UrlIndexKeys(images);
    assert DistinctKeys(m);
    LookupAt(m, i);
    UrlIndexLookup(images, m[i].0);
  }

  // ---------------------------------------------------------------------------
  // Parsing a page
  // ---------------------------------------------------------------------------

  /** The images of both passes, in page order, first pass first. */
  function Collected(v: Variant, c: Category, imgs: seq<ImgElement>): seq<GeohintImage> {
    CdnPass(v, imgs) + RelativePass(v, c, imgs)
  }

  /** `parseGeohintImages`: the de-duplicated images, or a failure when neither pass found any. */
  function ParseImages(v: Variant, c: Category, imgs: seq<ImgElement>): (r: Result<seq<GeohintImage>, ParseError>)
    ensures r.Failure? <==> forall i :: 0 <= i < |imgs| ==> !IsCdnImage(imgs[i]) && !IsRelativeImage(c, imgs[i])
    ensures r.Failure? ==> r.error == ParseError(ErrorSource(Geohints, c), "No images found in HTML")
    ensures r.Success? ==> r.value != [] && Distinct(Map(r.value, UrlOf))
    ensures r.Success? ==> forall k :: 0 <= k < |Collected(v, c, imgs)| ==> Collected(v, c, imgs)[k].imageUrl in Map(r.value, UrlOf)
  {
    PassesEmpty(v, c, imgs);
    Deduplicated(c, Collected(v, c, imgs))
  }

  /** The images of both passes, de-duplicated, or the failure when there are none. */
  function Deduplicated(c: Category, all: seq<GeohintImage>): (r: Result<seq<GeohintImage>, ParseError>)
    ensures r.Failure? <==> all == []
    ensures r.Failure? ==> r.error == ParseError(ErrorSource(Geohints, c), "No images found in HTML")
    ensures r.Success? ==> r.value != [] && Distinct(Map(r.value, UrlOf))
    ensures r.Success? ==> forall k :: 0 <= k < |all| ==> all[k].imageUrl in Map(r.value, UrlOf)
  {
    if all == [] then Failure(ParseError(ErrorSource(Geohints, c), "No images found in HTML"))
    else
      DedupByUrlSpec(all);
      assert all[0].imageUrl == Map(all, UrlOf)[0];
      Success(DedupByUrl(all))
  }

  /**
   * A CDN image with no nearby text is named after its file: the capture
   * with underscores read as spaces, with or without a "_<number>" suffix.
   */
  lemma CdnImageNamedByFile(v: Variant, img: ImgElement, dir: string, name: string, suffix: string, ext: string)
    requires ImageSource(img.attrs) == dir + "/" + name + suffix + "." + ext
    requires name != [] && AllNameChars(name) && '/' !in ext
    requires suffix == "" || (|suffix| >= 2 && suffix[0] == '_' && AllDigits(suffix[1..]))
    requires img.siblingSpan == "" && img.prevSpan == "" && img.parentSpan == "" && img.header == ""
    ensures CdnImage(v, img).country == ReplaceChar(name, '_', ' ')
  {
    var file := name + suffix + "." + ext;
    FileCountryOf(name, suffix, ext);
    PathLastSegment(dir, name, suffix, ext);
    NamedByFileAlone(v, img, FileCountry(file));
  }

  lemma PathLastSegment(dir: string, name: string, suffix: string, ext: string)
    requires '/' !in name + suffix + "." + ext
    ensures LastSegment(dir + "/" + name + suffix + "." + ext, '/') == name + suffix + "." + ext
  {
    PathShape(dir, name, suffix, ext);
    LastSegmentAfter(dir, '/', name + suffix + "." + ext);
  }

  lemma PathShape(dir: string, name: string, suffix: string, ext: string)
    ensures dir + "/" + name + suffix + "." + ext == dir + ['/'] + (name + suffix + "." + ext)
  {
  }

  /** With no text around the image, the file's name is the only candidate left. */
  lemma NamedByFileAlone(v: Variant, img: ImgElement, fromFile: string)
    requires img.siblingSpan == "" && img.prevSpan == "" && img.parentSpan == "" && img.header == ""
    ensures FirstNonEmpty(NameCandidates(v, img, fromFile)) == fromFile
  {
    var cs := NameCandidates(v, img, fromFile);
    assert FirstNonEmptyIndex(cs) == |cs| - 1;
  }

  lemma FileCountryOf(name: string, suffix: string, ext: string)
    requires name != [] && AllNameChars(name) && '/' !in ext
    requires suffix == "" || (|suffix| >= 2 && suffix[0] == '_' && AllDigits(suffix[1..]))
    ensures '/' !in name + suffix + "." + ext
    ensures FileCountry(name + suffix + "." + ext) == ReplaceChar(name, '_', ' ')
  {
    var file := name + suffix + "." + ext;
    assert forall k :: 0 <= k < |name| ==> IsNameChar(name[k]);
    assert forall k :: 1 <= k < |suffix| ==> IsDigit(suffix[k]) by {
      forall k | 1 <= k < |suffix| ensures IsDigit(suffix[k]) { assert suffix[k] == suffix[1..][k - 1]; }
    }
    assert forall k :: 0 <= k < |file| ==> file[k] != '/' by {
      forall k | 0 <= k < |file| ensures file[k] != '/' {
        if k < |name| { assert file[k] == name[k]; }
        else if k < |name| + |suffix| { assert file[k] == suffix[k - |name|]; }
        else if k > |name| + |suffix| { assert file[k] == ext[k - |name| - |suffix| - 1]; }
      }
    }
    if suffix == "" {
      assert file == name + "." + ext;
      FilenameCountryOfName(name, ext);
    } else {
      assert file == name + "_" + suffix[1..] + "." + ext;
      FilenameCountryOfNumbered(name, suffix[1..], ext);
    }
  }
}
