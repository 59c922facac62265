/**
 * Public image URLs of the web app's bollard and follow-car pages: one
 * size variant, the three-width `srcset`, and the sorted continent lists.
 */
module ImageUrls {
  import opened Wrappers
  import opened Strings
  import opened Collections
  import opened ManifestStore
  import BollardsGen

  const R2BaseUrl: string := "https://pub-3d7bacd76def438caae68643612e60f9.r2.dev"

  /** The three widths the images are stored at; 800 is the default. */
  datatype Width = W400 | W800 | W1200

  const DefaultWidth: Width := W800

  function WidthText(w: Width): string {
    match w
    case W400 => "400"
    case W800 => "800"
    case W1200 => "1200"
  }

  /** "-<width>w.webp" */
  function VariantSuffix(w: Width): string { "-" + WidthText(w) + "w.webp" }

  // ---------------------------------------------------------------------------
  // Bollards
  // ---------------------------------------------------------------------------

  /** The URL of an image without its width suffix: ".../bollards/<cc>/<cc>-<padded sequence>". */
  function BollardBase(countryCode: string, sequence: int): string {
    var cc := Lower(countryCode);
    R2BaseUrl + "/bollards/" + cc + "/" + cc + "-" + PaddedSequence(sequence)
  }

  /** `getBollardImageUrl` */
  function BollardImageUrl(countryCode: string, sequence: int, size: Width): (url: string)
    ensures StartsWith(url, R2BaseUrl + "/bollards/")
    ensures EndsWith(url, VariantSuffix(size))
  {
    var cc := Lower(countryCode);
    var b := BollardBase(countryCode, sequence);
    PrefixOfChain(R2BaseUrl + "/bollards/", cc, "/", cc, "-", PaddedSequence(sequence), VariantSuffix(size));
    EndsWithConcat(b, VariantSuffix(size));
    b + VariantSuffix(size)
  }

  lemma PrefixOfChain(p: string, a: string, b: string, c: string, d: string, e: string, f: string)
    ensures StartsWith(p + a + b + c + d + e + f, p)
  {
    assert (p + a + b + c + d + e + f)[..|p|] == p;
  }

  lemma EndsWithConcat(b: string, t: string)
    ensures EndsWith(b + t, t)
  {
    assert (b + t)[|b + t| - |t|..] == t;
  }

  /**
   * The URL is the bucket address of the manifest key the scripts generate
   * for the same country and sequence, with the width suffix.
   */
  lemma BollardUrlIsStoreKey(countryCode: string, sequence: int, size: Width)
    ensures BollardImageUrl(countryCode, sequence, size)
      == R2BaseUrl + "/" + GenerateImageKey("bollards", countryCode, sequence) + VariantSuffix(size)
  {
    var p := SequencePrefix("bollards", countryCode);
    var key := GenerateImageKey("bollards", countryCode, sequence);
    assert key == key[..|p|] + key[|p|..];
    UrlShape(R2BaseUrl, Lower(countryCode), PaddedSequence(sequence), VariantSuffix(size));
  }

  lemma UrlShape(base: string, cc: string, pad: string, suffix: string)
    ensures base + "/bollards/" + cc + "/" + cc + "-" + pad + suffix
      == base + "/" + ("bollards" + "/" + cc + "/" + cc + "-" + pad) + suffix
  {
  }

  /** The sequence can be read back from the URL for every non-negative sequence. */
  lemma BollardUrlSequence(countryCode: string, n: nat, size: Width)
    ensures var url := BollardImageUrl(countryCode, n, size);
      var start := |R2BaseUrl + "/" + SequencePrefix("bollards", countryCode)|;
      var end := |url| - |VariantSuffix(size)|;
      start <= end && ParseInt(url[start..end]) == Some(n)
  {
    BollardUrlIsStoreKey(countryCode, n, size);
    GeneratedKeySequence("bollards", countryCode, n);
    var key := GenerateImageKey("bollards", countryCode, n);
    var url := BollardImageUrl(countryCode, n, size);
    var pre := R2BaseUrl + "/";
    var p := SequencePrefix("bollards", countryCode);
    assert url[|pre + p|..|url| - |VariantSuffix(size)|] == key[|p|..];
  }

  /** The country code's case does not matter. */
  lemma BollardImageUrlCaseInsensitive(countryCode: string, sequence: int, size: Width)
    ensures BollardImageUrl(Upper(countryCode), sequence, size) == BollardImageUrl(countryCode, sequence, size)
  {
    LowerOfUpper(countryCode);
  }

  /** A `srcset` entry: URL, a space and the width descriptor. */
  function SrcsetEntry(url: string, w: Width): string { url + " " + WidthText(w) + "w" }

  /** `getBollardSrcset` */
  function BollardSrcset(countryCode: string, sequence: int): (s: string)
    ensures StartsWith(s, BollardBase(countryCode, sequence))
  {
    var b := BollardBase(countryCode, sequence);
    var tail := "-400w.webp 400w, " + b + "-800w.webp 800w, " + b + "-1200w.webp 1200w";
    StartsWithConcat(b, tail);
    b + tail
  }

  lemma StartsWithConcat(b: string, t: string)
    ensures StartsWith(b + t, b)
  {
    assert (b + t)[..|b|] == b;
  }

  lemma FrontAssoc(b: string, m1: string, m2: string, m3: string)
    ensures b + (m1 + b + m2 + b + m3) == b + m1 + b + m2 + b + m3
  {
  }

  /** The `srcset` lists the 400, 800 and 1200 URLs of `getBollardImageUrl`, in that order. */
  lemma BollardSrcsetListsVariants(countryCode: string, sequence: int)
    ensures BollardSrcset(countryCode, sequence)
      == SrcsetEntry(BollardImageUrl(countryCode, sequence, W400), W400) + ", "
       + SrcsetEntry(BollardImageUrl(countryCode, sequence, W800), W800) + ", "
       + SrcsetEntry(BollardImageUrl(countryCode, sequence, W1200), W1200)
  {
    var b := BollardBase(countryCode, sequence);
    FrontAssoc(b, "-400w.webp 400w, ", "-800w.webp 800w, ", "-1200w.webp 1200w");
    SrcsetOfBase(b);
  }

  /** The `srcset` template written out from a base URL. */
  lemma SrcsetOfBase(b: string)
    ensures b + "-400w.webp 400w, " + b + "-800w.webp 800w, " + b + "-1200w.webp 1200w"
      == SrcsetEntry(b + VariantSuffix(W400), W400) + ", "
       + SrcsetEntry(b + VariantSuffix(W800), W800) + ", "
       + SrcsetEntry(b + VariantSuffix(W1200), W1200)
  {
    EntryOfBase(b, W400);
    EntryOfBase(b, W800);
    EntryOfBase(b, W1200);
    var m1, m2, m3 := "-400w.webp 400w", "-800w.webp 800w", "-1200w.webp 1200w";
    Marker400();
    Marker800();
    Marker1200();
    ThreeEntries(b, m1, m2, m3, ", ");
  }

  lemma Marker400()
    ensures "-" + WidthText(W400) + "w.webp " + WidthText(W400) + "w" == "-400w.webp 400w"
    ensures "-400w.webp 400w, " == "-400w.webp 400w" + ", "
  {
  }

  lemma Marker800()
    ensures "-" + WidthText(W800) + "w.webp " + WidthText(W800) + "w" == "-800w.webp 800w"
    ensures "-800w.webp 800w, " == "-800w.webp 800w" + ", "
  {
  }

  lemma Marker1200()
    ensures "-" + WidthText(W1200) + "w.webp " + WidthText(W1200) + "w" == "-1200w.webp 1200w"
  {
  }

  lemma ThreeEntries(b: string, m1: string, m2: string, m3: string, sep: string)
    ensures b + (m1 + sep) + b + (m2 + sep) + b + m3 == (b + m1) + sep + (b + m2) + sep + (b + m3)
  {
  }

  lemma EntryOfBase(b: string, w: Width)
    ensures SrcsetEntry(b + VariantSuffix(w), w) == b + ("-" + WidthText(w) + "w.webp " + WidthText(w) + "w")
  {
  }

  function BollardContinentOf(c: BollardsGen.BollardCountry): string { c.continent }

  /** `continents` of the bollard data: distinct and sorted, exactly those present. */
  function BollardContinents(countries: seq<BollardsGen.BollardCountry>): (r: seq<string>)
    ensures Distinct(r) && Sorted(r, LexLeq)
    ensures forall x :: x in r <==> x in Map(countries, BollardContinentOf)
  {
    SortedUnique(Map(countries, BollardContinentOf))
  }

  // ---------------------------------------------------------------------------
  // Follow cars
  // ---------------------------------------------------------------------------

  datatype FollowCarCountry = FollowCarCountry(code: string, name: string, continent: string, images: seq<string>)

  /** ".../follow-cars/<cc>/<hash>": the hash is used as given. */
  function FollowCarBase(countryCode: string, hash: string): string {
    R2BaseUrl + "/follow-cars/" + Lower(countryCode) + "/" + hash
  }

  /** `getFollowCarImageUrl` */
  function FollowCarImageUrl(countryCode: string, hash: string, size: Width): (url: string)
    ensures EndsWith(url, "/" + hash + VariantSuffix(size))
    ensures StartsWith(url, R2BaseUrl + "/follow-cars/" + Lower(countryCode) + "/")
  {
    var pre := R2BaseUrl + "/follow-cars/" + Lower(countryCode);
    var url := pre + "/" + hash + VariantSuffix(size);
    assert url[|url| - |"/" + hash + VariantSuffix(size)|..] == "/" + hash + VariantSuffix(size);
    assert url[..|pre + "/"|] == pre + "/";
    url
  }

  lemma FollowCarImageUrlCaseInsensitive(countryCode: string, hash: string, size: Width)
    ensures FollowCarImageUrl(Upper(countryCode), hash, size) == FollowCarImageUrl(countryCode, hash, size)
  {
    LowerOfUpper(countryCode);
  }

  /** Different hashes give different URLs. */
  lemma FollowCarImageUrlInjective(countryCode: string, h1: string, h2: string, size: Width)
    requires FollowCarImageUrl(countryCode, h1, size) == FollowCarImageUrl(countryCode, h2, size)
    ensures h1 == h2
  {
    var pre := R2BaseUrl + "/follow-cars/" + Lower(countryCode) + "/";
    var suf := VariantSuffix(size);
    var u := FollowCarImageUrl(countryCode, h1, size);
    assert u == pre + h1 + suf;
    assert u == pre + h2 + suf;
    assert h1 == u[|pre|..|u| - |suf|];
    assert h2 == u[|pre|..|u| - |suf|];
  }

  /** `getFollowCarSrcset` */
  function FollowCarSrcset(countryCode: string, hash: string): (s: string)
    ensures StartsWith(s, FollowCarBase(countryCode, hash))
  {
    var b := FollowCarBase(countryCode, hash);
    var s := b + "-400w.webp 400w, " + b + "-800w.webp 800w, " + b + "-1200w.webp 1200w";
    assert s[..|b|] == b;
    s
  }

  /** The `srcset` lists the 400, 800 and 1200 URLs of `getFollowCarImageUrl`, in that order. */
  lemma FollowCarSrcsetListsVariants(countryCode: string, hash: string)
    ensures FollowCarSrcset(countryCode, hash)
      == SrcsetEntry(FollowCarImageUrl(countryCode, hash, W400), W400) + ", "
       + SrcsetEntry(FollowCarImageUrl(countryCode, hash, W800), W800) + ", "
       + SrcsetEntry(FollowCarImageUrl(countryCode, hash, W1200), W1200)
  {
    var b := FollowCarBase(countryCode, hash);
    SrcsetOfBase(b);
    FollowCarUrlOfBase(countryCode, hash, W400);
    FollowCarUrlOfBase(countryCode, hash, W800);
    FollowCarUrlOfBase(countryCode, hash, W1200);
  }

  lemma FollowCarUrlOfBase(countryCode: string, hash: string, size: Width)
    ensures FollowCarImageUrl(countryCode, hash, size) == FollowCarBase(countryCode, hash) + VariantSuffix(size)
  {
  }

  function FollowCarContinentOf(c: FollowCarCountry): string { c.continent }

  /** `continents` of the follow-car data: distinct and sorted, exactly those present. */
  function FollowCarContinents(countries: seq<FollowCarCountry>): (r: seq<string>)
    ensures Distinct(r) && Sorted(r, LexLeq)
    ensures forall x :: x in r <==> x in Map(countries, FollowCarContinentOf)
  {
    SortedUnique(Map(countries, FollowCarContinentOf))
  }
}
