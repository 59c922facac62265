/**
 * The clustering assembler of the image-clustering proof of concept: the
 * filename parser, the partition of HDBSCAN labels into clusters and noise,
 * the summary counts and the ordered cluster/representative assembly.
 *
 * The embeddings, HDBSCAN and the centroid arithmetic are foreign: the model
 * takes, per image, whether its embedding succeeded, the label HDBSCAN gave
 * it, and its distance to its own cluster's centroid.
 */
module Clustering {
  import opened Wrappers
  import opened Strings
  import opened Collections

  // ---------------------------------------------------------------------------
  // Filename parsing
  // ---------------------------------------------------------------------------

  datatype ImageKind = Bollard | FollowCar | UnknownKind

  /** What `parse_image_id` extracts from a filename. */
  datatype ImageId = ImageId(country: string, identifier: string, kind: ImageKind)

  /** The image-data record: the filename followed by its parsed fields. */
  datatype ImageRecord = ImageRecord(filename: string, id: ImageId)

  predicate IsLowerPair(s: string) {
    |s| == 2 && IsAsciiLower(s[0]) && IsAsciiLower(s[1])
  }

  predicate IsLowerHex(c: char) { IsDigit(c) || 'a' <= c <= 'f' }

  predicate AllLowerHex(s: string) {
    forall i :: 0 <= i < |s| ==> IsLowerHex(s[i])
  }

  /** `\d+w\.webp` matched up to the end. */
  predicate IsWidthSuffix(s: string) {
    |s| > 6 && s[|s| - 6..] == "w.webp" && AllDigits(s[..|s| - 6])
  }

  /** Python's `$` also matches just before one final newline. */
  function StripFinalNewline(s: string): (r: string)
    ensures r == s || s == r + "\n"
  {
    if s != [] && s[|s| - 1] == '\n' then s[..|s| - 1] else s
  }

  /** `^([a-z]{2})-(\d+)-\d+w\.webp` matched against the whole string: the two groups. */
  function MatchBollardExact(s: string): Option<(string, string)>
  {
    if |s| >= 3 && IsLowerPair(s[..2]) && s[2] == '-' then
      var rest := s[3..];
      var n := DigitRun(rest);
      if 1 <= n < |rest| && rest[n] == '-' && IsWidthSuffix(rest[n + 1..]) then
        Some((s[..2], rest[..n]))
      else None
    else None
  }

  /** `^([a-z]{2})-([a-f0-9]{8})-\d+w\.webp` matched against the whole string: the two groups. */
  function MatchFollowCarExact(s: string): Option<(string, string)>
  {
    if |s| >= 12 && IsLowerPair(s[..2]) && s[2] == '-' && AllLowerHex(s[3..11]) && s[11] == '-'
       && IsWidthSuffix(s[12..])
    then Some((s[..2], s[3..11]))
    else None
  }

  /** `BOLLARD_PATTERN.match(s)` with its trailing `$`. */
  function MatchBollard(s: string): Option<(string, string)>
  {
    MatchBollardExact(StripFinalNewline(s))
  }

  /** `FOLLOW_CAR_PATTERN.match(s)` with its trailing `$`. */
  function MatchFollowCar(s: string): Option<(string, string)>
  {
    MatchFollowCarExact(StripFinalNewline(s))
  }

  /** A bollard filename: `<cc>-<digits>-<digits>w.webp`. */
  predicate BollardShape(s: string, cc: string, id: string, width: string) {
    && IsLowerPair(cc) && id != [] && AllDigits(id) && width != [] && AllDigits(width)
    && s == cc + "-" + id + "-" + width + "w.webp"
  }

  /** A follow-car filename: `<cc>-<8 lowercase hex digits>-<digits>w.webp`. */
  predicate FollowCarShape(s: string, cc: string, hash: string, width: string) {
    && IsLowerPair(cc) && |hash| == 8 && AllLowerHex(hash) && width != [] && AllDigits(width)
    && s == cc + "-" + hash + "-" + width + "w.webp"
  }

  lemma WidthSuffixOf(w: string)
    requires w != [] && AllDigits(w)
    ensures IsWidthSuffix(w + "w.webp")
    ensures (w + "w.webp")[..|w|] == w
  {
    var t := w + "w.webp";
    assert t[|t| - 6..] == "w.webp";
    assert t[..|t| - 6] == w;
  }

  lemma WidthSuffixSplit(t: string)
    requires IsWidthSuffix(t)
    ensures t == t[..|t| - 6] + "w.webp"
  {
    assert t == t[..|t| - 6] + t[|t| - 6..];
  }

  lemma BollardMatchSound(s: string, cc: string, id: string)
    requires MatchBollardExact(s) == Some((cc, id))
    ensures BollardShape(s, cc, id, s[|id| + 4..|s| - 6])
  {
    var tail := s[|id| + 4..];
    assert IsWidthSuffix(tail) && IsLowerPair(cc) && id != [] && AllDigits(id)
      && s == cc + "-" + id + "-" + tail by {
      BollardMatchParts(s, cc, id);
      Reassemble(s, cc, id);
    }
    WidthSuffixSplit(tail);
    var width := tail[..|tail| - 6];
    assert width == s[|id| + 4..|s| - 6];
    assert s == cc + "-" + id + "-" + width + "w.webp" by {
      ConcatAssoc4(cc + "-" + id + "-", width, "w.webp");
    }
  }

  lemma ConcatAssoc4(a: string, b: string, c: string)
    ensures a + (b + c) == a + b + c
  {
  }

  /** What a successful bollard match says about the pieces of the string. */
  lemma BollardMatchParts(s: string, cc: string, id: string)
    requires MatchBollardExact(s) == Some((cc, id))
    ensures |s| >= |id| + 4 && s[..2] == cc && IsLowerPair(cc) && s[2] == '-'
    ensures id != [] && AllDigits(id) && s[3..][..|id|] == id && s[3..][|id|] == '-'
    ensures IsWidthSuffix(s[3..][|id| + 1..])
  {
  }

  /** A string cut after a two-letter prefix, a dash, an identifier and another dash. */
  lemma Reassemble(s: string, cc: string, id: string)
    requires |s| >= |id| + 4 && s[..2] == cc && |cc| == 2 && s[2] == '-' && s[3..][..|id|] == id && s[3..][|id|] == '-'
    ensures s[3..][|id| + 1..] == s[|id| + 4..]
    ensures s == cc + "-" + id + "-" + s[|id| + 4..]
  {
    assert s == s[..2] + [s[2]] + s[3..|id| + 3] + [s[|id| + 3]] + s[|id| + 4..];
  }

  lemma BollardMatchComplete(s: string, cc: string, id: string, w: string)
    requires BollardShape(s, cc, id, w)
    ensures MatchBollardExact(s) == Some((cc, id))
  {
    var rest := id + ("-" + (w + "w.webp"));
    assert s == cc + ("-" + rest);
    PrefixPieces(s, cc, rest);
    RestPieces(id, w);
    BollardMatchOfParts(s, |id|);
  }

  lemma PrefixPieces(s: string, cc: string, rest: string)
    requires |cc| == 2 && s == cc + ("-" + rest)
    ensures |s| >= 3 && s[..2] == cc && s[2] == '-' && s[3..] == rest
  {
  }

  /** The bollard matcher accepts a string whose pieces have the bollard shape. */
  lemma BollardMatchOfParts(s: string, n: int)
    requires |s| >= 3 && IsLowerPair(s[..2]) && s[2] == '-'
    requires DigitRun(s[3..]) == n && 1 <= n < |s[3..]| && s[3..][n] == '-' && IsWidthSuffix(s[3..][n + 1..])
    ensures MatchBollardExact(s) == Some((s[..2], s[3..][..n]))
  {
  }

  lemma RestPieces(id: string, w: string)
    requires id != [] && AllDigits(id) && w != [] && AllDigits(w)
    ensures var rest := id + ("-" + (w + "w.webp"));
      && DigitRun(rest) == |id| && |id| < |rest| && rest[|id|] == '-'
      && rest[..|id|] == id && IsWidthSuffix(rest[|id| + 1..])
  {
    var tail := w + "w.webp";
    var rest := id + ("-" + tail);
    DigitRunOfDigitsThen(id, "-" + tail);
    assert rest[|id| + 1..] == tail;
    WidthSuffixOf(w);
  }

  /** The bollard matcher accepts exactly the bollard shape, and its groups are the shape's parts. */
  lemma BollardMatchIff(s: string, cc: string, id: string)
    ensures MatchBollardExact(s) == Some((cc, id)) <==> exists width :: BollardShape(s, cc, id, width)
  {
    if MatchBollardExact(s) == Some((cc, id)) {
      BollardMatchSound(s, cc, id);
    }
    if w :| BollardShape(s, cc, id, w) {
      BollardMatchComplete(s, cc, id, w);
    }
  }

  lemma FollowCarMatchSound(s: string, cc: string, hash: string)
    requires MatchFollowCarExact(s) == Some((cc, hash))
    ensures FollowCarShape(s, cc, hash, s[12..|s| - 6])
  {
    var tail := s[12..];
    WidthSuffixSplit(tail);
    var width := tail[..|tail| - 6];
    assert tail == width + "w.webp";
    assert s == s[..2] + [s[2]] + s[3..11] + [s[11]] + s[12..];
    assert width == s[12..|s| - 6];
  }

  lemma FollowCarMatchComplete(s: string, cc: string, hash: string, w: string)
    requires FollowCarShape(s, cc, hash, w)
    ensures MatchFollowCarExact(s) == Some((cc, hash))
  {
    var tail := w + "w.webp";
    assert s == cc + "-" + hash + "-" + tail;
    assert s[..2] == cc && s[2] == '-' && s[3..11] == hash && s[11] == '-' && s[12..] == tail;
    WidthSuffixOf(w);
  }

  /** The follow-car matcher accepts exactly the follow-car shape. */
  lemma FollowCarMatchIff(s: string, cc: string, hash: string)
    ensures MatchFollowCarExact(s) == Some((cc, hash)) <==> exists width :: FollowCarShape(s, cc, hash, width)
  {
    if MatchFollowCarExact(s) == Some((cc, hash)) {
      FollowCarMatchSound(s, cc, hash);
    }
    if w :| FollowCarShape(s, cc, hash, w) {
      FollowCarMatchComplete(s, cc, hash, w);
    }
  }

  /** The final component of a POSIX path, as `pathlib.Path(p).name` computes it. */
  function PathName(p: string): (r: string)
    ensures '/' !in r
  {
    var parts := Filter(Split(p, '/'), (seg: string) => seg != [] && seg != ".");
    if parts == [] then [] else parts[|parts| - 1]
  }

  /** `PurePath.stem` of a final component (the rule of Python 3.12 and 3.13). */
  function Stem(name: string): (r: string)
    ensures |r| <= |name| && r == name[..|r|]
  {
    match LastIndexOf(name, '.')
    case Some(i) => if 0 < i < |name| - 1 then name[..i] else name
    case None => name
  }

  /** `parse_image_id`: the bollard pattern first, then the follow-car pattern, then the fallback. */
  function ParseImageId(filename: string): (r: ImageId)
    ensures r.kind == Bollard <==> MatchBollard(Lower(filename)).Some?
    ensures r.kind == FollowCar <==> MatchBollard(Lower(filename)).None? && MatchFollowCar(Lower(filename)).Some?
    ensures r.kind != UnknownKind ==> |r.country| == 2 && IsAsciiUpper(r.country[0]) && IsAsciiUpper(r.country[1])
    ensures r.kind == Bollard ==> r.identifier != [] && AllDigits(r.identifier)
    ensures r.kind == FollowCar ==> |r.identifier| == 8 && AllLowerHex(r.identifier)
    ensures r.kind == UnknownKind ==> r.country == "XX"
  {
    var name := Lower(filename);
    match MatchBollard(name)
    case Some(g) => ImageId(Upper(g.0), g.1, Bollard)
    case None =>
      match MatchFollowCar(name)
      case Some(g) => ImageId(Upper(g.0), g.1, FollowCar)
      case None => ImageId("XX", Stem(PathName(filename)), UnknownKind)
  }

  /** A bollard filename, in any letter case, yields its upper-cased country and its sequence digits. */
  lemma ParseBollardName(filename: string, cc: string, id: string, width: string)
    requires BollardShape(Lower(filename), cc, id, width)
    ensures ParseImageId(filename) == ImageId(Upper(cc), id, Bollard)
  {
    BollardMatchIff(Lower(filename), cc, id);
  }

  /**
   * A follow-car filename yields its upper-cased country and its hash, unless
   * the hash is all decimal digits: then the bollard pattern, tried first, wins.
   */
  lemma ParseFollowCarName(filename: string, cc: string, hash: string, width: string)
    requires FollowCarShape(Lower(filename), cc, hash, width)
    ensures !AllDigits(hash) ==> ParseImageId(filename) == ImageId(Upper(cc), hash, FollowCar)
    ensures AllDigits(hash) ==> ParseImageId(filename) == ImageId(Upper(cc), hash, Bollard)
  {
    var s := Lower(filename);
    assert StripFinalNewline(s) == s by {
      assert s[|s| - 1] == 'p';
    }
    FollowCarMatchIff(s, cc, hash);
    if AllDigits(hash) {
      assert BollardShape(s, cc, hash, width);
      BollardMatchIff(s, cc, hash);
    } else if MatchBollardExact(s).Some? {
      BollardNeedsDigitHash(s, cc, hash, width);
    }
  }

  /** When a follow-car name also matches the bollard pattern, its hash is all digits. */
  lemma BollardNeedsDigitHash(s: string, cc: string, hash: string, width: string)
    requires FollowCarShape(s, cc, hash, width)
    requires MatchBollardExact(s).Some?
    ensures AllDigits(hash)
  {
    var g := MatchBollardExact(s).value;
    BollardMatchSound(s, g.0, g.1);
    assert s == cc + "-" + hash + "-" + width + "w.webp";
    assert s == g.0 + "-" + g.1 + "-" + s[|g.1| + 4..|s| - 6] + "w.webp";
    assert forall j :: 3 <= j < 11 ==> s[j] == hash[j - 3];
    assert |g.1| >= 8 by {
      assert s[3 + |g.1|] == '-';
      assert forall j :: 3 <= j < 11 ==> IsLowerHex(s[j]);
    }
    forall i | 0 <= i < 8
      ensures IsDigit(hash[i])
    {
      assert hash[i] == s[3 + i] == g.1[i];
    }
  }

  lemma PathNameOfPlainName(f: string)
    requires f != [] && f != "." && '/' !in f
    ensures PathName(f) == f
  {
    SplitWithoutSeparator(f, '/');
    assert Filter([f], (seg: string) => seg != [] && seg != ".") == [f] by {
      assert [f][..0] == [];
    }
  }

  lemma StemOfExtension(base: string, ext: string)
    requires base != [] && '.' !in base && |ext| >= 1 && '.' !in ext
    ensures Stem(base + "." + ext) == base
  {
    var f := base + "." + ext;
    assert f[|base|] == '.';
    assert f[|base| + 1..] == ext;
    assert f[..|base|] == base;
    assert LastIndexOf(f, '.') == Some(|base|);
  }

  /** Any other name falls back to country "XX" and the name without its extension. */
  lemma ParseFallback(base: string)
    requires base != [] && '/' !in base && '.' !in base
    requires MatchBollard(Lower(base + ".webp")).None? && MatchFollowCar(Lower(base + ".webp")).None?
    ensures ParseImageId(base + ".webp") == ImageId("XX", base, UnknownKind)
  {
    var f := base + ".webp";
    ParseUnknown(f);
    WebpName(base);
    PathNameOfPlainName(f);
    StemOfExtension(base, "webp");
  }

  lemma ParseUnknown(filename: string)
    requires MatchBollard(Lower(filename)).None? && MatchFollowCar(Lower(filename)).None?
    ensures ParseImageId(filename) == ImageId("XX", Stem(PathName(filename)), UnknownKind)
  {
  }

  lemma WebpName(base: string)
    requires base != [] && '/' !in base
    ensures base + ".webp" == base + "." + "webp"
    ensures '/' !in base + ".webp" && base + ".webp" != "."
  {
    var f := base + ".webp";
    assert forall i :: 0 <= i < |f| ==> f[i] == if i < |base| then base[i] else ".webp"[i - |base|];
  }

  lemma SplitWithoutSeparator(s: string, d: char)
    requires d !in s
    ensures Split(s, d) == [s]
  {
    if s != [] {
      SplitWithoutSeparator(s[1..], d);
      assert [s[0]] + s[1..] == s;
    }
  }

  // ---------------------------------------------------------------------------
  // Embedding loop: the two lists stay parallel
  // ---------------------------------------------------------------------------

  function Succeeded<E>(attempt: (string, Option<E>)): bool { attempt.1.Some? }

  /**
   * The loop over the sorted image files: an attempt whose embedding failed
   * (`None`) is appended to neither list.
   */
  function CollectImages<E(==)>(attempts: seq<(string, Option<E>)>): (r: (seq<E>, seq<ImageRecord>))
    ensures |r.0| == |r.1| == Count(attempts, Succeeded)
    ensures forall i :: 0 <= i < |r.1| ==>
      (r.1[i].filename, Some(r.0[i])) in attempts && r.1[i].id == ParseImageId(r.1[i].filename)
  {
    if attempts == [] then ([], [])
    else
      var init := CollectImages(attempts[..|attempts| - 1]);
      var last := attempts[|attempts| - 1];
      match last.1
      case None => init
      case Some(e) => (init.0 + [e], init.1 + [ImageRecord(last.0, ParseImageId(last.0))])
  }

  /** The records are those of the successful attempts, in file order. */
  lemma {:induction false} CollectImagesOrder<E>(attempts: seq<(string, Option<E>)>)
    ensures Map(CollectImages(attempts).1, (r: ImageRecord) => r.filename)
         == Map(Filter(attempts, Succeeded), (a: (string, Option<E>)) => a.0)
  {
    if attempts != [] {
      var init := attempts[..|attempts| - 1];
      CollectImagesOrder(init);
      var f := (r: ImageRecord) => r.filename;
      var g := (a: (string, Option<E>)) => a.0;
      MapAppend(CollectImages(init).1, if Succeeded(attempts[|attempts| - 1]) then [ImageRecord(attempts[|attempts| - 1].0, ParseImageId(attempts[|attempts| - 1].0))] else [], f);
      MapAppend(Filter(init, Succeeded), if Succeeded(attempts[|attempts| - 1]) then [attempts[|attempts| - 1]] else [], g);
    }
  }

  // ---------------------------------------------------------------------------
  // Partition of the labels
  // ---------------------------------------------------------------------------

  const Noise: int := -1

  /** The positions holding label `l`, ascending. */
  function IndicesWith(labels: seq<int>, l: int): (r: seq<int>)
    ensures forall i :: i in r <==> 0 <= i < |labels| && labels[i] == l
    ensures forall a, b :: 0 <= a < b < |r| ==> r[a] < r[b]
    ensures AllBelow(r, |labels|)
    ensures r != [] <==> l in labels
  {
    if labels == [] then []
    else
      var n := |labels| - 1;
      var r0 := IndicesWith(labels[..n], l);
      var r := if labels[n] == l then r0 + [n] else r0;
      IndicesSnocMembers(labels, l, r0, r);
      IndicesSnocOrdered(r0, n, r);
      r
  }

  lemma IndicesSnocMembers(labels: seq<int>, l: int, r0: seq<int>, r: seq<int>)
    requires labels != []
    requires forall i :: i in r0 <==> 0 <= i < |labels| - 1 && labels[..|labels| - 1][i] == l
    requires r == if labels[|labels| - 1] == l then r0 + [|labels| - 1] else r0
    ensures forall i :: i in r <==> 0 <= i < |labels| && labels[i] == l
    ensures r != [] <==> l in labels
  {
    var n := |labels| - 1;
    forall i ensures i in r <==> 0 <= i < |labels| && labels[i] == l {
      if 0 <= i < n { assert labels[..n][i] == labels[i]; }
    }
    if l in labels {
      var i :| 0 <= i < |labels| && labels[i] == l;
      assert i in r;
    }
    if r != [] {
      var i := r[0];
      assert i in r;
      assert 0 <= i < |labels| && labels[i] == l;
    }
  }

  lemma IndicesSnocOrdered(r0: seq<int>, n: nat, r: seq<int>)
    requires forall a, b :: 0 <= a < b < |r0| ==> r0[a] < r0[b]
    requires AllBelow(r0, n)
    requires r == r0 + [n] || r == r0
    ensures forall a, b :: 0 <= a < b < |r| ==> r[a] < r[b]
    ensures AllBelow(r, n + 1)
  {
  }

  /** `clusters_dict` (label to member indices, in insertion order) and `unclustered_indices`. */
  datatype Partition = Partition(clusters: seq<(int, seq<int>)>, unclustered: seq<int>)

  /** Every index is below `n`. */
  predicate AllBelow(xs: seq<int>, n: int) {
    forall a :: 0 <= a < |xs| ==> 0 <= xs[a] < n
  }

  /** Every group is non-empty and holds only indices below `n`. */
  predicate GroupsWithin(gs: seq<(int, seq<int>)>, n: nat) {
    forall i :: 0 <= i < |gs| ==> gs[i].1 != [] && AllBelow(gs[i].1, n)
  }

  function IsClusterLabel(l: int): bool { l != Noise }

  /** The grouping loop over `enumerate(labels)`. */
  function PartitionLabels(labels: seq<int>): (p: Partition)
    ensures DistinctKeys(p.clusters)
    ensures p.unclustered == IndicesWith(labels, Noise)
    ensures GroupsWithin(p.clusters, |labels|)
  {
    if labels == [] then Partition([], [])
    else
      var n := |labels| - 1;
      var p := PartitionLabels(labels[..n]);
      assert labels[..n] == labels[..|labels| - 1];
      if labels[n] == Noise then
        GroupsWithinGrow(p.clusters, n);
        Partition(p.clusters, p.unclustered + [n])
      else
        AddToGroupWithin(p.clusters, labels[n], n, n);
        AddToGroupDistinct<int, int>(p.clusters, labels[n], n);
        Partition(AddToGroup<int, int>(p.clusters, labels[n], n), p.unclustered)
  }

  /** The cluster labels are the distinct non-noise labels, in order of first appearance. */
  lemma {:induction false} PartitionKeys(labels: seq<int>)
    ensures Keys(PartitionLabels(labels).clusters) == Dedup(Filter(labels, IsClusterLabel))
  {
    if labels != [] {
      var n := |labels| - 1;
      var init := labels[..n];
      var p0 := PartitionLabels(init);
      PartitionKeys(init);
      var f0 := Filter(init, IsClusterLabel);
      var f := Filter(labels, IsClusterLabel);
      if IsClusterLabel(labels[n]) {
        assert f == f0 + [labels[n]];
        assert f[..|f| - 1] == f0;
        assert Dedup(f) == if labels[n] in Dedup(f0) then Dedup(f0) else Dedup(f0) + [labels[n]];
        assert PartitionLabels(labels).clusters == AddToGroup<int, int>(p0.clusters, labels[n], n);
      } else {
        assert f == f0;
        assert PartitionLabels(labels).clusters == p0.clusters;
      }
    }
  }

  lemma {:induction false} IndicesWithAbsent(labels: seq<int>, l: int)
    requires l !in labels
    ensures IndicesWith(labels, l) == []
  {
    if labels != [] {
      IndicesWithAbsent(labels[..|labels| - 1], l);
    }
  }

  /** The noise label never names a cluster. */
  lemma NoiseIsNoCluster(labels: seq<int>)
    ensures Noise !in Keys(PartitionLabels(labels).clusters)
  {
    PartitionKeys(labels);
    var f := Filter(labels, IsClusterLabel);
    var d := Dedup(f);
    forall j | 0 <= j < |d|
      ensures d[j] != Noise
    {
      assert d[j] in f;
      var k :| 0 <= k < |f| && f[k] == d[j];
      assert IsClusterLabel(f[k]);
    }
  }

  lemma GroupsWithinGrow(gs: seq<(int, seq<int>)>, n: nat)
    requires GroupsWithin(gs, n)
    ensures GroupsWithin(gs, n + 1)
  {
    forall i | 0 <= i < |gs|
      ensures AllBelow(gs[i].1, n + 1)
    {
      assert AllBelow(gs[i].1, n);
    }
  }

  lemma AddToGroupWithin(gs: seq<(int, seq<int>)>, k: int, x: nat, n: nat)
    requires GroupsWithin(gs, n) && x < n + 1
    ensures GroupsWithin(AddToGroup<int, int>(gs, k, x), n + 1)
  {
    var prev := Lookup(gs, k).GetOr([]);
    LookedUpWithin(gs, k, n);
    AppendWithin(prev, x, n);
    GroupsWithinGrow(gs, n);
    PutWithin(gs, k, prev + [x], n + 1);
  }

  /** Storing a non-empty group of indices below the bound keeps every group within it. */
  lemma PutWithin(gs: seq<(int, seq<int>)>, k: int, v: seq<int>, m: nat)
    requires GroupsWithin(gs, m) && v != [] && AllBelow(v, m)
    ensures GroupsWithin(Put(gs, k, v), m)
  {
    var r := Put(gs, k, v);
    PutElements(gs, k, v);
    forall i | 0 <= i < |r|
      ensures r[i].1 != [] && AllBelow(r[i].1, m)
    {
      if r[i] != (k, v) {
        var j :| 0 <= j < |gs| && gs[j] == r[i];
        assert AllBelow(gs[j].1, m);
      }
    }
  }

  lemma AppendWithin(prev: seq<int>, x: nat, n: nat)
    requires AllBelow(prev, n) && x < n + 1
    ensures prev + [x] != [] && AllBelow(prev + [x], n + 1)
  {
  }

  /** The group stored under a key holds only indices below the bound. */
  lemma LookedUpWithin(gs: seq<(int, seq<int>)>, k: int, n: nat)
    requires GroupsWithin(gs, n)
    ensures AllBelow(Lookup(gs, k).GetOr([]), n)
  {
    if Lookup(gs, k).Some? {
      var j :| 0 <= j < |gs| && gs[j] == (k, Lookup(gs, k).value);
      assert AllBelow(gs[j].1, n);
    }
  }

  /** Every pair of an updated list is the new pair or an old one. */
  lemma {:induction false} PutElements<K, V>(al: seq<(K, V)>, k: K, v: V)
    ensures forall i :: 0 <= i < |Put(al, k, v)| ==> Put(al, k, v)[i] == (k, v) || Put(al, k, v)[i] in al
  {
    if al != [] && al[0].0 != k {
      PutElements(al[1..], k, v);
    }
  }

  lemma AddToGroupDistinct<K, T>(gs: seq<(K, seq<T>)>, k: K, x: T)
    requires DistinctKeys(gs)
    ensures DistinctKeys(AddToGroup(gs, k, x))
  {
    var ks := Keys(gs);
    if k !in ks {
      assert Distinct(ks + [k]);
    }
  }

  /** The groups of `PartitionLabels` are exactly the ascending index lists of each non-noise label. */
  lemma {:induction false} PartitionLookup(labels: seq<int>, l: int)
    requires l != Noise
    ensures Lookup(PartitionLabels(labels).clusters, l) ==
      (if l in labels then Some(IndicesWith(labels, l)) else None)
  {
    if labels != [] {
      var n := |labels| - 1;
      var init := labels[..n];
      PartitionLookup(init, l);
      InSnoc(labels, l);
      if labels[n] != l {
        PartitionStepOther(labels, l);
      } else {
        PartitionStepSame(labels);
        if l !in init {
          IndicesWithAbsent(init, l);
        }
        assert Lookup(PartitionLabels(labels).clusters, l) == Some(IndicesWith(labels, l));
      }
    }
  }

  /** A label other than `l` at the end leaves the group of `l` as it was. */
  lemma PartitionStepOther(labels: seq<int>, l: int)
    requires labels != [] && labels[|labels| - 1] != l
    ensures Lookup(PartitionLabels(labels).clusters, l) == Lookup(PartitionLabels(labels[..|labels| - 1]).clusters, l)
    ensures IndicesWith(labels, l) == IndicesWith(labels[..|labels| - 1], l)
  {
    var n := |labels| - 1;
    var p0 := PartitionLabels(labels[..n]);
    if labels[n] != Noise {
      AddToGroupOthers<int, int>(p0.clusters, labels[n], n, l);
    }
  }

  /** A non-noise label at the end appends its index to its own group. */
  lemma PartitionStepSame(labels: seq<int>)
    requires labels != [] && labels[|labels| - 1] != Noise
    ensures var n := |labels| - 1;
      && Lookup(PartitionLabels(labels).clusters, labels[n])
         == Some(Lookup(PartitionLabels(labels[..n]).clusters, labels[n]).GetOr([]) + [n])
      && IndicesWith(labels, labels[n]) == IndicesWith(labels[..n], labels[n]) + [n]
  {
    var n := |labels| - 1;
    var p0 := PartitionLabels(labels[..n]);
    var c := AddToGroup<int, int>(p0.clusters, labels[n], n);
    assert PartitionLabels(labels).clusters == c;
    assert Lookup(c, labels[n]) == Some(Lookup(p0.clusters, labels[n]).GetOr([]) + [n]);
  }

  /** Every index lands in exactly one place: the noise list or the group of its own label. */
  lemma PlacedExactlyOnce(labels: seq<int>, i: int)
    requires 0 <= i < |labels|
    ensures i in PartitionLabels(labels).unclustered <==> labels[i] == Noise
    ensures forall j :: 0 <= j < |PartitionLabels(labels).clusters| ==>
      (i in PartitionLabels(labels).clusters[j].1 <==> PartitionLabels(labels).clusters[j].0 == labels[i])
  {
    var p := PartitionLabels(labels);
    forall j | 0 <= j < |p.clusters|
      ensures i in p.clusters[j].1 <==> p.clusters[j].0 == labels[i]
    {
      GroupIsIndices(labels, j);
    }
  }

  /** The group at position `j` holds exactly the indices of its own label. */
  lemma GroupIsIndices(labels: seq<int>, j: int)
    requires 0 <= j < |PartitionLabels(labels).clusters|
    ensures var g := PartitionLabels(labels).clusters[j];
      g.0 != Noise && g.0 in labels && g.1 == IndicesWith(labels, g.0)
  {
    var p := PartitionLabels(labels);
    var l := p.clusters[j].0;
    LookupAt(p.clusters, j);
    assert Keys(p.clusters)[j] == l;
    NoiseIsNoCluster(labels);
    PartitionLookup(labels, l);
  }

  // ---------------------------------------------------------------------------
  // Summary counts
  // ---------------------------------------------------------------------------

  /** The cluster sizes and the noise count add up to the number of labels. */
  lemma {:induction false} PartitionSizes(labels: seq<int>)
    ensures SumSizes(PartitionLabels(labels).clusters) + |PartitionLabels(labels).unclustered| == |labels|
  {
    if labels != [] {
      var n := |labels| - 1;
      var p := PartitionLabels(labels[..n]);
      PartitionSizes(labels[..n]);
      if labels[n] != Noise {
        SumSizesPut(p.clusters, labels[n], Lookup(p.clusters, labels[n]).GetOr([]) + [n]);
      }
    }
  }

  datatype Summary = Summary(totalImages: nat, numClusters: nat, numUnclustered: nat)

  datatype Settings = Settings(minClusterSize: int, metric: string)

  /**
   * One emitted cluster. The script's dict has no label field: `clusterLabel`
   * is kept beside `id` ("cluster-<label>") only so that the emission order
   * can be stated.
   */
  datatype ClusterInfo = ClusterInfo(
    clusterLabel: int,
    id: string,
    size: nat,
    representative: ImageRecord,
    members: seq<ImageRecord>)

  /** The JSON document; `generatedAt` is the ISO-8601 time of the run, passed in. */
  datatype ClusterResult = ClusterResult(
    generatedAt: string,
    model: string,
    settings: Settings,
    summary: Summary,
    clusters: seq<ClusterInfo>,
    unclustered: seq<ImageRecord>)

  const ModelName: string := "imgbeddings-clip-vit-b32"
  const Metric: string := "cosine"
  const DefaultMinClusterSize: int := 2

  // ---------------------------------------------------------------------------
  // Representative: the first arg-min
  // ---------------------------------------------------------------------------

  /** `numpy.argmin`: the first position holding the minimum. */
  function ArgMin(ds: seq<real>): (r: nat)
    requires ds != []
    ensures r < |ds|
    ensures forall j :: 0 <= j < |ds| ==> ds[r] <= ds[j]
    ensures forall j :: 0 <= j < r ==> ds[j] > ds[r]
  {
    if |ds| == 1 then 0
    else
      var r := ArgMin(ds[..|ds| - 1]);
      if ds[|ds| - 1] < ds[r] then |ds| - 1 else r
  }

  /** Only one position is a first minimum. */
  lemma ArgMinUnique(ds: seq<real>, k: nat)
    requires k < |ds|
    requires forall j :: 0 <= j < |ds| ==> ds[k] <= ds[j]
    requires forall j :: 0 <= j < k ==> ds[j] > ds[k]
    ensures ArgMin(ds) == k
  {
  }

  /** The records at the given positions: `[image_data[idx] for idx in indices]`. */
  function Records(data: seq<ImageRecord>, indices: seq<int>): (r: seq<ImageRecord>)
    requires AllBelow(indices, |data|)
    ensures |r| == |indices|
    ensures forall a :: 0 <= a < |r| ==> r[a] == data[indices[a]]
  {
    if indices == [] then [] else [data[indices[0]]] + Records(data, indices[1..])
  }

  function MemberDistances(dist: seq<real>, members: seq<int>): (r: seq<real>)
    requires AllBelow(members, |dist|)
    ensures |r| == |members|
    ensures forall a :: 0 <= a < |r| ==> r[a] == dist[members[a]]
  {
    if members == [] then [] else [dist[members[0]]] + MemberDistances(dist, members[1..])
  }

  /** Position `k` of `members` holds the first smallest distance. */
  predicate IsFirstMinimum(dist: seq<real>, members: seq<int>, k: int)
    requires AllBelow(members, |dist|)
  {
    && 0 <= k < |members|
    && (forall j :: 0 <= j < |members| ==> dist[members[k]] <= dist[members[j]])
    && (forall j :: 0 <= j < k ==> dist[members[j]] > dist[members[k]])
  }

  /** One entry of `result["clusters"]`. */
  function MakeCluster(data: seq<ImageRecord>, dist: seq<real>, lbl: int, members: seq<int>): (c: ClusterInfo)
    requires members != []
    requires AllBelow(members, |data|) && |dist| == |data|
    ensures c.clusterLabel == lbl && c.id == "cluster-" + IntToString(lbl)
    ensures c.size == |c.members| == |members|
    ensures c.members == Records(data, members)
    ensures c.representative in c.members
  {
    var k := ArgMin(MemberDistances(dist, members));
    var rs := Records(data, members);
    assert rs[k] == data[members[k]];
    ClusterInfo(lbl, "cluster-" + IntToString(lbl), |members|, data[members[k]], rs)
  }

  /** The representative is the member holding the first smallest distance to the centroid. */
  lemma RepresentativeIsFirstMinimum(data: seq<ImageRecord>, dist: seq<real>, lbl: int, members: seq<int>)
    requires members != []
    requires AllBelow(members, |data|) && |dist| == |data|
    ensures exists k ::
      (IsFirstMinimum(dist, members, k) && MakeCluster(data, dist, lbl, members).representative == data[members[k]])
  {
    var k := ArgMin(MemberDistances(dist, members));
    assert IsFirstMinimum(dist, members, k);
  }

  /** Every group found by label is non-empty and holds only indices below `n`. */
  predicate LookupsWithin(groups: seq<(int, seq<int>)>, n: int) {
    forall l :: l in Keys(groups) ==> Lookup(groups, l).Some? && Lookup(groups, l).value != [] && AllBelow(Lookup(groups, l).value, n)
  }

  lemma GroupsWithinLookups(groups: seq<(int, seq<int>)>, n: nat)
    requires GroupsWithin(groups, n)
    ensures LookupsWithin(groups, n)
  {
    forall l | l in Keys(groups)
      ensures Lookup(groups, l).Some? && Lookup(groups, l).value != [] && AllBelow(Lookup(groups, l).value, n)
    {
      var v := Lookup(groups, l).value;
      var j :| 0 <= j < |groups| && groups[j] == (l, v);
    }
  }

  /** The cluster entries for the labels `ls`, in that order. */
  function BuildClusters(data: seq<ImageRecord>, dist: seq<real>, groups: seq<(int, seq<int>)>, ls: seq<int>): (r: seq<ClusterInfo>)
    requires |dist| == |data|
    requires LookupsWithin(groups, |data|)
    requires forall a :: 0 <= a < |ls| ==> ls[a] in Keys(groups)
    ensures |r| == |ls|
    ensures forall a :: 0 <= a < |r| ==>
      r[a] == MakeCluster(data, dist, ls[a], Lookup(groups, ls[a]).value)
  {
    seq(|ls|, a requires 0 <= a < |ls| => ClusterOf(data, dist, groups, ls[a]))
  }

  /** The cluster entry of one label: its members as the grouping stored them. */
  function ClusterOf(data: seq<ImageRecord>, dist: seq<real>, groups: seq<(int, seq<int>)>, l: int): ClusterInfo
    requires |dist| == |data| && LookupsWithin(groups, |data|) && l in Keys(groups)
  {
    MakeCluster(data, dist, l, Lookup(groups, l).value)
  }

  /** The distinct non-noise labels, ascending: `sorted(clusters_dict.keys())`. */
  function SortedLabels(keys: seq<int>): (r: seq<int>)
    requires Distinct(keys)
    ensures forall l :: l in r <==> l in keys
    ensures forall a, b :: 0 <= a < b < |r| ==> r[a] < r[b]
    ensures multiset(r) == multiset(keys)
  {
    var r := SortBy(keys, IntLeq);
    SortBySorted(keys, IntLeq);
    SortByMembers(keys, IntLeq);
    DistinctOfPermutation(keys, r);
    r
  }

  /**
   * The whole result: summary, clusters in ascending label order with their
   * representative, then the noise records. One label and one distance per
   * image record, as HDBSCAN and the centroid step provide them.
   */
  function Assemble(data: seq<ImageRecord>, labels: seq<int>, dist: seq<real>, minClusterSize: int, generatedAt: string): (res: ClusterResult)
    requires |labels| == |data| && |dist| == |data|
    ensures res.generatedAt == generatedAt
    ensures res.model == ModelName && res.settings == Settings(minClusterSize, Metric)
    ensures res.summary.totalImages == |data|
    ensures res.summary.numClusters == |res.clusters|
    ensures res.summary.numUnclustered == |res.unclustered|
  {
    var p := PartitionLabels(labels);
    GroupsWithinLookups(p.clusters, |labels|);
    var ls := SortedLabels(Keys(p.clusters));
    ClusterResult(
      generatedAt,
      ModelName,
      Settings(minClusterSize, Metric),
      Summary(|data|, |p.clusters|, |p.unclustered|),
      BuildClusters(data, dist, p.clusters, ls),
      Records(data, p.unclustered))
  }

  /**
   * The script from the embedding step on: with no embedded image it stops
   * with "No embeddings generated" (exit status 1); otherwise it writes the
   * assembled result.
   */
  function RunClustering(data: seq<ImageRecord>, labels: seq<int>, dist: seq<real>, minClusterSize: int, generatedAt: string): (r: Result<ClusterResult, string>)
    requires |labels| == |data| && |dist| == |data|
    ensures r.Failure? <==> data == []
    ensures r.Failure? ==> r.error == "No embeddings generated"
    ensures r.Success? ==> r.value.summary.totalImages == |data| > 0 && r.value.generatedAt == generatedAt
    ensures r.Success? ==> r.value == Assemble(data, labels, dist, minClusterSize, generatedAt)
  {
    if data == [] then Failure("No embeddings generated")
    else Success(Assemble(data, labels, dist, minClusterSize, generatedAt))
  }

  /** The labels of the emitted clusters, in emission order. */
  function AssembledLabels(labels: seq<int>): (ls: seq<int>)
    ensures forall a, b :: 0 <= a < b < |ls| ==> ls[a] < ls[b]
    ensures forall l :: l in ls <==> l in labels && l != Noise
    ensures |ls| == |Dedup(Filter(labels, IsClusterLabel))|
  {
    var p := PartitionLabels(labels);
    PartitionKeys(labels);
    var ls := SortedLabels(Keys(p.clusters));
    forall l | l in ls
      ensures l in labels && l != Noise
    {
      GroupOfKey(labels, l);
    }
    forall l | l in labels && l != Noise
      ensures l in ls
    {
      PartitionLookup(labels, l);
    }
    ls
  }

  /** Clusters come out in ascending label order, one per distinct non-noise label. */
  lemma AssembleOrder(data: seq<ImageRecord>, labels: seq<int>, dist: seq<real>, minClusterSize: int, generatedAt: string)
    requires |labels| == |data| && |dist| == |data|
    ensures var cs := Assemble(data, labels, dist, minClusterSize, generatedAt).clusters;
      && |cs| == |AssembledLabels(labels)|
      && forall a :: 0 <= a < |cs| ==> cs[a].clusterLabel == AssembledLabels(labels)[a]
  {
  }

  /** Each cluster lists exactly the images carrying its label, in input order, and is well formed. */
  lemma AssembleCluster(data: seq<ImageRecord>, labels: seq<int>, dist: seq<real>, minClusterSize: int, generatedAt: string, a: int)
    requires |labels| == |data| && |dist| == |data|
    requires 0 <= a < |Assemble(data, labels, dist, minClusterSize, generatedAt).clusters|
    ensures var c := Assemble(data, labels, dist, minClusterSize, generatedAt).clusters[a];
      && c.clusterLabel in labels && c.clusterLabel != Noise
      && c == MakeCluster(data, dist, c.clusterLabel, IndicesWith(labels, c.clusterLabel))
  {
    var p := PartitionLabels(labels);
    var ls := SortedLabels(Keys(p.clusters));
    GroupOfKey(labels, ls[a]);
  }

  /** The unclustered list holds exactly the noise images, in input order. */
  lemma AssembleUnclustered(data: seq<ImageRecord>, labels: seq<int>, dist: seq<real>, minClusterSize: int, generatedAt: string)
    requires |labels| == |data| && |dist| == |data|
    ensures Assemble(data, labels, dist, minClusterSize, generatedAt).unclustered == Records(data, IndicesWith(labels, Noise))
  {
  }

  /** A cluster label is a non-noise label of the input, and its group is its index list. */
  lemma GroupOfKey(labels: seq<int>, l: int)
    requires l in Keys(PartitionLabels(labels).clusters)
    ensures l in labels && l != Noise
    ensures Lookup(PartitionLabels(labels).clusters, l) == Some(IndicesWith(labels, l))
  {
    NoiseIsNoCluster(labels);
    PartitionLookup(labels, l);
  }

  /** Summing the sizes over the emitted clusters. */
  function ClusterSizes(cs: seq<ClusterInfo>): nat {
    if cs == [] then 0 else cs[0].size + ClusterSizes(cs[1..])
  }

  /** `total_images` equals the sum of the cluster sizes plus `num_unclustered`. */
  lemma SummaryAddsUp(data: seq<ImageRecord>, labels: seq<int>, dist: seq<real>, minClusterSize: int, generatedAt: string)
    requires |labels| == |data| && |dist| == |data|
    ensures var res := Assemble(data, labels, dist, minClusterSize, generatedAt);
      ClusterSizes(res.clusters) + res.summary.numUnclustered == res.summary.totalImages
  {
    var p := PartitionLabels(labels);
    GroupsWithinLookups(p.clusters, |labels|);
    var ls := SortedLabels(Keys(p.clusters));
    ClusterSizesOfBuild(data, dist, p.clusters, ls);
    GroupSizesPermutation(p.clusters, Keys(p.clusters), ls);
    GroupSizesOverKeys(p.clusters);
    PartitionSizes(labels);
  }

  /** Sum of the sizes of the groups found under the labels `ls`. */
  function GroupSizes(gs: seq<(int, seq<int>)>, ls: seq<int>): nat {
    if ls == [] then 0 else |Lookup(gs, ls[0]).GetOr([])| + GroupSizes(gs, ls[1..])
  }

  lemma {:induction false} GroupSizesAppend(gs: seq<(int, seq<int>)>, a: seq<int>, b: seq<int>)
    ensures GroupSizes(gs, a + b) == GroupSizes(gs, a) + GroupSizes(gs, b)
  {
    if a != [] {
      assert (a + b)[0] == a[0];
      assert (a + b)[1..] == a[1..] + b;
      GroupSizesAppend(gs, a[1..], b);
    } else {
      assert a + b == b;
    }
  }

  /** The sum does not depend on the order of the labels. */
  lemma {:induction false} GroupSizesPermutation(gs: seq<(int, seq<int>)>, a: seq<int>, b: seq<int>)
    requires multiset(a) == multiset(b)
    ensures GroupSizes(gs, a) == GroupSizes(gs, b)
    decreases |a|
  {
    if a != [] {
      var i := PermutationHead(a, b);
      var b' := b[..i] + b[i + 1..];
      var rest := [b[i]] + b[i + 1..];
      assert b == b[..i] + rest;
      GroupSizesPermutation(gs, a[1..], b');
      GroupSizesAppend(gs, b[..i], rest);
      GroupSizesAppend(gs, b[..i], b[i + 1..]);
      assert rest[0] == b[i] && rest[1..] == b[i + 1..];
    } else {
      assert |b| == |multiset(b)|;
    }
  }

  lemma {:induction false} ClusterSizesOfBuild(data: seq<ImageRecord>, dist: seq<real>, groups: seq<(int, seq<int>)>, ls: seq<int>)
    requires |dist| == |data|
    requires LookupsWithin(groups, |data|)
    requires forall a :: 0 <= a < |ls| ==> ls[a] in Keys(groups)
    ensures ClusterSizes(BuildClusters(data, dist, groups, ls)) == GroupSizes(groups, ls)
  {
    if ls != [] {
      ClusterSizesOfBuild(data, dist, groups, ls[1..]);
      assert BuildClusters(data, dist, groups, ls)[1..] == BuildClusters(data, dist, groups, ls[1..]);
    }
  }

  /** With distinct keys, summing the looked-up group sizes over the keys gives all group sizes. */
  lemma {:induction false} GroupSizesOverKeys(gs: seq<(int, seq<int>)>)
    requires DistinctKeys(gs)
    ensures GroupSizes(gs, Keys(gs)) == SumSizes(gs)
  {
    if gs != [] {
      var rest := gs[1..];
      assert Keys(rest) == Keys(gs)[1..];
      assert DistinctKeys(rest);
      GroupSizesOverKeys(rest);
      assert gs[0].0 !in Keys(rest);
      GroupSizesTail(gs, Keys(rest));
    }
  }

  lemma {:induction false} GroupSizesTail(gs: seq<(int, seq<int>)>, ks: seq<int>)
    requires gs != [] && gs[0].0 !in ks
    ensures GroupSizes(gs, ks) == GroupSizes(gs[1..], ks)
  {
    if ks != [] {
      GroupSizesTail(gs, ks[1..]);
    }
  }
}
