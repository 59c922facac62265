# geohints: a Dafny model of its pure core

geohints is a GeoGuessr study aid. It scrapes regional "meta" images (bollards,
follow cars, licence plates and the like) from geohints.com and geomastr.com,
stores them in a bucket under a manifest, and serves a web app of country,
domain and alphabet references. This project models the deterministic logic
that all of that rests on, and proves what each piece promises:

- the image-clustering proof of concept: the filename parser, the label
  partition, the summary and the ordered cluster/representative assembly;
  and the sample downloader's filter, sort and stride (`Clustering`, `Sampling`);
- the shared manifest schema (format validators, grouping, filtering and the
  hash-deduplicating merge) and the script-side key/entry store (`ManifestSchema`,
  `ManifestStore`), plus the manifest-to-bollard-data transform (`BollardsGen`);
- the text analyser, the character-to-country map and the character search
  (`Analyzer`, `CharacterMap`, `Search`);
- the country, country-metadata and domain catalogues, the domain page's
  filter and relevance order, the European alphabet page's grouping, and the
  flag emoji built from regional indicator symbols (`Countries`, `CountryMeta`,
  `CountryLookup`, `Domains`, `Europe`, `Flags`);
- the image URL and srcset builders of the web app (`ImageUrls`);
- the scrapers' pure decisions: category guards, country-code extraction,
  country names from filenames and paths, URL de-duplication, per-country
  grouping, the empty-page failures, manifest ids and storage paths
  (`ScrapeCommon`, `GeohintsScraper`, `GeomastrScraper`), and the hex
  rendering of a content digest (`Hex`).

Shared vocabulary lives in `Wrappers` (`Option`, `Result`), `Strings` (ASCII
case mapping, JavaScript `trim`, padding, splitting, number rendering) and
`Collections` (filter, de-duplication, stable insertion sort, association
lists standing for JavaScript records and `Map`s, grouping in order of first
appearance). The page, network, file system, clock and the foreign libraries
(CLIP, HDBSCAN, sharp, Web Crypto) are not modelled: what they produce enters
as parameters.

## Model

| member | source | states |
|---|---|---|
| Clustering.BollardMatchIff | poc/image-clustering/cluster.py:31 | the bollard pattern accepts a whole name exactly when it is two lower-case letters, `-`, a digit run, `-`, a digit run and `w.webp`, and its groups are the letters and the first digit run |
| Clustering.FollowCarMatchIff | poc/image-clustering/cluster.py:32 | the follow-car pattern accepts a whole name exactly when it is two lower-case letters, `-`, eight lower-case hex digits, `-`, a digit run and `w.webp`, and its groups are the letters and the hash |
| Clustering.StripFinalNewline | poc/image-clustering/cluster.py:31-32 | the trailing `$` of both patterns also lets one final newline through: the name matched is the input or the input less one trailing newline |
| Clustering.PathName | poc/image-clustering/cluster.py:111 | the `name` of a path never contains a slash |
| Clustering.PathNameOfPlainName | poc/image-clustering/cluster.py:111 | a name without a slash that is not `.` is its own `name` |
| Clustering.Stem | poc/image-clustering/cluster.py:58 | the stem of a name is a prefix of the name |
| Clustering.StemOfExtension | poc/image-clustering/cluster.py:58 | the stem of `base.ext` is `base` when neither part contains a dot |
| Clustering.ParseImageId | poc/image-clustering/cluster.py:35-60 | the lower-cased name is tried against the bollard pattern first and the follow-car pattern second; a match yields an upper-case two-letter country with a digit run or an eight-digit hex hash, anything else yields country `XX` and kind unknown |
| Clustering.ParseBollardName | poc/image-clustering/cluster.py:37-45 | a bollard name in any letter case parses to its upper-cased country, its sequence digits and kind bollard |
| Clustering.ParseFollowCarName | poc/image-clustering/cluster.py:39-53 | a follow-car name parses to its upper-cased country and hash with kind follow-car, except an all-digit hash, which the bollard pattern claims first |
| Clustering.BollardNeedsDigitHash | poc/image-clustering/cluster.py:31-32 | a follow-car name that the bollard pattern also accepts has an all-digit hash |
| Clustering.ParseFallback | poc/image-clustering/cluster.py:55-60 | a `.webp` name matching neither pattern parses to country `XX`, its stem and kind unknown |
| Clustering.CollectImages | poc/image-clustering/cluster.py:104-117 | the embedding list and the image-data list have one element per successful attempt, and each record is the filename of a successful attempt with that name's parsed id |
| Clustering.CollectImagesOrder | poc/image-clustering/cluster.py:104-117 | the records list the filenames of the successful attempts in file order; failed attempts leave no trace |
| Clustering.IndicesWith | poc/image-clustering/cluster.py:143-149 | the positions holding a label, strictly ascending, non-empty exactly when the label occurs |
| Clustering.PartitionLabels | poc/image-clustering/cluster.py:140-149 | the grouping gives each label one group, every group is non-empty and in range, and the unclustered list is exactly the positions labelled -1 |
| Clustering.PartitionKeys | poc/image-clustering/cluster.py:143-149 | the dictionary's keys are the distinct non-noise labels in order of first appearance |
| Clustering.NoiseIsNoCluster | poc/image-clustering/cluster.py:144-145 | the noise label -1 never becomes a cluster key |
| Clustering.PartitionLookup | poc/image-clustering/cluster.py:146-149 | looking up a non-noise label gives exactly its positions in ascending order when it occurs, and nothing otherwise |
| Clustering.PlacedExactlyOnce | poc/image-clustering/cluster.py:143-149 | every position is in the unclustered list exactly when it is labelled -1, and in a group exactly when that group's key is its label |
| Clustering.GroupIsIndices | poc/image-clustering/cluster.py:143-149 | every stored group is keyed by a non-noise label of the input and holds exactly that label's positions |
| Clustering.PartitionSizes | poc/image-clustering/cluster.py:140-149 | the group sizes plus the number of noise positions equal the number of labels |
| Clustering.ArgMin | poc/image-clustering/cluster.py:176 | `argmin` returns a position of a smallest distance with every earlier distance strictly larger |
| Clustering.ArgMinUnique | poc/image-clustering/cluster.py:176 | a position with those two properties is the one `argmin` returns |
| Clustering.Records | poc/image-clustering/cluster.py:183 | the comprehension over member positions gives the records at those positions, in that order |
| Clustering.MakeCluster | poc/image-clustering/cluster.py:179-184 | a cluster entry is named `cluster-<label>`, its size is its member count, its members are the records of its positions, and its representative is one of them |
| Clustering.RepresentativeIsFirstMinimum | poc/image-clustering/cluster.py:173-182 | the representative is the member at the first smallest distance to the centroid |
| Clustering.BuildClusters | poc/image-clustering/cluster.py:169-185 | one cluster entry per requested label, in that order, each built from that label's group |
| Clustering.SortedLabels | poc/image-clustering/cluster.py:169 | the sorted keys are a strictly ascending permutation of the dictionary keys |
| Clustering.Assemble | poc/image-clustering/cluster.py:151-188 | the result carries the run's timestamp, names the model and the settings, and its summary counts the images, the emitted clusters and the unclustered records |
| Clustering.RunClustering | poc/image-clustering/cluster.py:119-166 | the run stops with "No embeddings generated" exactly when no image was embedded; otherwise it yields the assembled result for a non-empty image list |
| Clustering.AssembledLabels | poc/image-clustering/cluster.py:169 | the emitted labels are strictly ascending and are exactly the non-noise labels of the input |
| Clustering.AssembleOrder | poc/image-clustering/cluster.py:169-185 | the clusters come out one per distinct non-noise label, in ascending label order |
| Clustering.AssembleCluster | poc/image-clustering/cluster.py:169-185 | each emitted cluster carries a non-noise label of the input and lists exactly the images with that label, in input order |
| Clustering.AssembleUnclustered | poc/image-clustering/cluster.py:188 | the unclustered list holds exactly the noise images, in input order |
| Clustering.GroupOfKey | poc/image-clustering/cluster.py:147-149 | a dictionary key is a non-noise label of the input and its group is its position list |
| Clustering.SummaryAddsUp | poc/image-clustering/cluster.py:159-163 | the total image count equals the sum of the cluster sizes plus the unclustered count |
| Sampling.FloorDiv | poc/image-clustering/download_sample.py:94 | Python's `//` fails exactly on a zero divisor and otherwise rounds toward negative infinity, also for a negative divisor |
| Sampling.TakePy | poc/image-clustering/download_sample.py:95 | `xs[:k]` is a prefix of `xs` of length `k` capped at the length, and a negative `k` drops that many from the end |
| Sampling.Stride | poc/image-clustering/download_sample.py:95 | `xs[::step]` holds the elements at every multiple of the step, in order, and no multiple below the length is skipped |
| Sampling.StepFor | poc/image-clustering/download_sample.py:94 | the step is at least 1, and with at least `sample` candidates it is the largest step whose `sample` strides still fit in the candidate list |
| Sampling.SelectSample | poc/image-clustering/download_sample.py:84-95 | no objects is a failure, a zero sample is the floor-division error, anything else selects keys |
| Sampling.SampleIsStrided | poc/image-clustering/download_sample.py:93-95 | at most `sample` keys are chosen and the `i`-th is the sorted candidate at position `i * step` |
| Sampling.SampleKeysQualify | poc/image-clustering/download_sample.py:89 | every chosen key contains `-800w.webp` and is one of the listed keys |
| Sampling.SampleStartsWithSmallest | poc/image-clustering/download_sample.py:93-95 | a non-empty sample starts with the smallest candidate |
| Sampling.SampleHasRequestedSize | poc/image-clustering/download_sample.py:94-95 | with at least `sample` candidates exactly `sample` keys are chosen |
| Sampling.LocalFilename | poc/image-clustering/download_sample.py:103 | the local file name is the key's suffix after its last slash, or the whole key when it has none |
| ManifestSchema.EntrySrcset | libs/shared/src/schemas/manifest.ts:90-97 | the srcset starts with the 400-pixel URL and descriptor, ends with the 1200-pixel one, and contains the default 800-pixel URL with its descriptor |
| ManifestSchema.ByCategory | libs/shared/src/schemas/manifest.ts:133-141 | one group per category present, in order of first appearance, each holding exactly that category's entries in manifest order; absent categories have no group |
| ManifestSchema.BySource | libs/shared/src/schemas/manifest.ts:146-154 | one group per source present, in order of first appearance, each holding exactly that source's entries in manifest order |
| ManifestSchema.ByCountry | libs/shared/src/schemas/manifest.ts:159-167 | one group per country code present, in order of first appearance, each holding exactly that code's entries in manifest order |
| ManifestSchema.ByCategoryPlacesEachOnce | libs/shared/src/schemas/manifest.ts:133-141 | an entry lies in a category group exactly when the group is its own category's |
| ManifestSchema.BySourcePlacesEachOnce | libs/shared/src/schemas/manifest.ts:146-154 | an entry lies in a source group exactly when the group is its own source's |
| ManifestSchema.ByCountryPlacesEachOnce | libs/shared/src/schemas/manifest.ts:159-167 | an entry lies in a country group exactly when the group is its own code's |
| ManifestSchema.CountryCodes | libs/shared/src/schemas/manifest.ts:172-174 | the codes listed are distinct and are exactly the codes some entry carries |
| ManifestSchema.CategoriesOf | libs/shared/src/schemas/manifest.ts:179-181 | the categories listed are distinct and are exactly the categories some entry carries |
| ManifestSchema.FilterEntries | libs/shared/src/schemas/manifest.ts:186-191 | the result keeps the manifest order and holds exactly the entries of the category and, when a code is given, of that code |
| ManifestSchema.HasHash | libs/shared/src/schemas/manifest.ts:196-198 | true exactly when some entry carries the hash |
| ManifestSchema.Merge | libs/shared/src/schemas/manifest.ts:203-211 | the merge keeps the version and the old entries as a prefix, stamps the given time, and appends exactly the batch entries whose hash was not in the old manifest |
| ManifestSchema.MergeAppendsInOrder | libs/shared/src/schemas/manifest.ts:204-209 | the appended part is the batch filtered in order, so two batch entries sharing a new hash are both kept |
| ManifestSchema.MergeHasHash | libs/shared/src/schemas/manifest.ts:203-211 | after a merge a hash is present exactly when it was present before or some batch entry carries it |
| ManifestSchema.MergedHashOrigin | libs/shared/src/schemas/manifest.ts:203-211 | every hash after a merge was there before or came with the batch |
| ManifestSchema.BatchHashKept | libs/shared/src/schemas/manifest.ts:204-205 | a batch entry with a new hash makes it into the merged manifest |
| ManifestSchema.MergeTwice | libs/shared/src/schemas/manifest.ts:203-211 | merging the same batch a second time adds no entry |
| ManifestSchema.EmptyManifest | libs/shared/src/schemas/manifest.ts:221-226 | a new manifest has version 1, no entries, no hashes, no codes and no categories |
| ManifestStore.ParseInt | scripts/manifest.ts:69 | `parseInt(s, 10)` skips leading white space, takes an optional sign and the longest digit run after it, and is NaN exactly when that run is empty |
| ManifestStore.ParseIntOfDigits | scripts/manifest.ts:69 | a plain digit run parses to its decimal value |
| ManifestStore.PaddedSequence | scripts/manifest.ts:49 | the sequence is written with at least three characters |
| ManifestStore.GenerateImageKey | scripts/manifest.ts:44-52 | a key is `<category>/<cc>/<cc>-` with the code lower-cased, followed by the padded sequence |
| ManifestStore.GeneratedKeySequence | scripts/manifest.ts:44-77 | parsing the part of a generated key after its prefix gives back the sequence number |
| ManifestStore.MaxSequence | scripts/manifest.ts:65-74 | the running maximum starts at 0, bounds every parsed sequence, and is 0 or one of them |
| ManifestStore.NextSequence | scripts/manifest.ts:57-77 | the next sequence is at least 1, exceeds every sequence already used under the prefix, and is 1 or one more than a used one |
| ManifestStore.NextSequenceIgnoresCase | scripts/manifest.ts:62 | the country code's letter case does not change the next sequence |
| ManifestStore.AddEntry | scripts/manifest.ts:94-100 | the key maps to the new entry, an existing key keeps its place, a new key goes last, keys stay distinct, and version and timestamp are kept |
| ManifestStore.AddEntryOthers | scripts/manifest.ts:99 | every other key keeps its entry |
| ManifestStore.NextKeyIsFresh | scripts/manifest.ts:44-77 | the key generated from the next sequence is not yet in the record |
| ManifestStore.SequencesAfterAdd | scripts/manifest.ts:66-74 | adding a new key appends exactly that key's parsed sequence to the ones the loop scans |
| ManifestStore.NextSequenceAfterAdd | scripts/manifest.ts:44-100 | storing an image under the next sequence's key advances the next sequence by exactly one |
| ManifestStore.FindByHash | scripts/manifest.ts:82-89 | nothing is found exactly when no entry has the hash; otherwise the first key in record order whose entry has it is returned |
| ManifestStore.FindByHashEntry | scripts/manifest.ts:82-89 | the key found maps to an entry with that hash |
| ManifestStore.EntriesByCategory | scripts/manifest.ts:105-112 | the result holds exactly the pairs whose key starts with `<category>/`, in record order |
| ManifestStore.EntriesByCountry | scripts/manifest.ts:117-126 | the result holds exactly the pairs whose key starts with `<category>/<lower cc>/`, in record order |
| ManifestStore.CountryWithinCategory | scripts/manifest.ts:105-126 | a country's pairs are an in-order selection of its category's pairs |
| ManifestStore.CountBy | scripts/manifest.ts:145-146 | the counted values appear once each, in order of first appearance |
| ManifestStore.CountByCounts | scripts/manifest.ts:145-146 | each value's tally is the number of times it occurs (its multiplicity in the multiset of values) |
| ManifestStore.CountBySum | scripts/manifest.ts:145-146 | the counts add up to the number of values counted |
| ManifestStore.KeyCategory | scripts/manifest.ts:144 | a key's category is a slash-free prefix of the key |
| ManifestStore.GetStats | scripts/manifest.ts:131-158 | the total is the number of keys; processed and uploaded are the numbers of entries whose flag is set; the category and source tallies name each category and source once, in order of first appearance, with the number of entries that carry it |
| ManifestStore.StatsAddUp | scripts/manifest.ts:138-152 | the per-category counts and the per-source counts each add up to the total |
| Strings.TrailingDigits | scripts/generate-bollards-data.ts:158 | the counted run is all digits and is preceded by a non-digit or the start, so it is the longest digit suffix |
| BollardsGen.SequenceSuffixOf | scripts/generate-bollards-data.ts:158-161 | a file name `<anything>-<digits>` matches `/-(\d+)$/` and yields the digits' value |
| BollardsGen.Contributions | scripts/generate-bollards-data.ts:151-167 | the scan fails exactly when some bollard key has no file-name segment, and otherwise yields, in key order, the country segment and sequence of every bollard key whose file name ends in `-<digits>` |
| BollardsGen.MakeCountry | scripts/generate-bollards-data.ts:171-176 | a country carries the upper-cased code, the table name or the upper-cased code, the table continent or `Unknown`, and exactly its sequences in ascending order |
| BollardsGen.NameLeqIsTotalPreorder | scripts/generate-bollards-data.ts:177 | comparing countries by name is a total preorder, so the sort is well defined |
| BollardsGen.Generate | scripts/generate-bollards-data.ts:148-177 | the generator fails exactly on a malformed bollard key, and otherwise its output is sorted by name and is a permutation of the per-country list |
| BollardsGen.GeneratedCountryOf | scripts/generate-bollards-data.ts:163-176 | every country segment that contributes yields its country, built from all its sequences, in the output |
| BollardsGen.GeneratedCountryFrom | scripts/generate-bollards-data.ts:163-176 | every output country is built from one contributing segment and its sequences |
| BollardsGen.GroupCountry | scripts/generate-bollards-data.ts:163-176 | each group of the per-country record becomes the country built from its segment's sequences |
| BollardsGen.TotalImages | scripts/generate-bollards-data.ts:183 | the reported image total equals the number of contributing keys |
| Analyzer.UniqueCharacters | src/lib/analyzer.ts:23-37 | the extracted characters are distinct and are exactly the characters of the text that lie outside basic ASCII and appear in the character map |
| Analyzer.UniqueCharactersIsDedup | src/lib/analyzer.ts:23-37 | the extraction keeps the order of first appearance: it is the in-order filter of the text with repeats removed |
| Analyzer.ExtractUniqueCharacters | src/lib/analyzer.ts:23-37 | the loop with a set of characters already seen computes that extraction |
| Analyzer.Weight | src/lib/analyzer.ts:43-53 | a character weighs between 5 and 50, and 50 exactly when one country uses it |
| Analyzer.WeightAntitone | src/lib/analyzer.ts:45-53 | a character used by fewer countries never weighs less than a more widely used one |
| Analyzer.Score | src/lib/analyzer.ts:40-54 | the raw score lies between 5 and 50 points per matched character |
| Analyzer.ScoreAppend | src/lib/analyzer.ts:42-54 | the score of two lists together is the sum of their scores |
| Analyzer.ScorePermutation | src/lib/analyzer.ts:42-54 | the score does not depend on the order of the matched characters |
| Analyzer.Confidence | src/lib/analyzer.ts:39-57 | the confidence lies between 0 and 100, never exceeds the raw score, is at least 5 when anything matched, and is 100 from twenty matched characters on |
| Analyzer.MatchCountriesLookup | src/lib/analyzer.ts:72-78 | one character's inner loop adds it to the set of exactly the countries listed for it |
| Analyzer.MatchCountriesKeys | src/lib/analyzer.ts:72-78 | after the inner loop a country has a set exactly when it had one before or is listed for the character |
| Analyzer.CountryMatchesLookup | src/lib/analyzer.ts:69-79 | each country's set holds exactly the unique characters it uses, in text order |
| Analyzer.CountryMatchesKeys | src/lib/analyzer.ts:69-79 | a country is matched exactly when one of the unique characters is used by it |
| Analyzer.ByConfidenceIsTotalPreorder | src/lib/analyzer.ts:95 | the comparator orders results by descending confidence as a total preorder |
| Analyzer.AnalyzeText | src/lib/analyzer.ts:59-98 | the output characters are the extracted ones and there is one result per matched country |
| Analyzer.AnalyzeTextSorted | src/lib/analyzer.ts:95 | the results run from the highest confidence to the lowest |
| Collections.SortByStable | src/lib/analyzer.ts:95 | the sort is stable: elements the comparator ranks level with one another, such as results of equal confidence, keep their input order |
| Analyzer.ResultOrigin | src/lib/analyzer.ts:81-95 | every sorted result is the result built for one matched country |
| Analyzer.AnalyzeTextCodesDistinct | src/lib/analyzer.ts:69-95 | no country is listed twice |
| Analyzer.AnalyzeTextResult | src/lib/analyzer.ts:83-93 | each result lists exactly the unique characters its country uses, at least one, is scored on them and carries the country's name |
| Analyzer.AnalyzeTextComplete | src/lib/analyzer.ts:71-93 | every country that uses one of the unique characters gets a result |
| Analyzer.AnalyzeTextEmpty | src/lib/analyzer.ts:63-67 | on a map whose every character names a country, there are no results exactly when no character was extracted |
| CharacterMap.AddCountries | geohints-nx/apps/web/src/lib/character-map.ts:12-16 | one character step appends to the character's list exactly the given countries it lacks, changes nothing when there are none, leaves every other character alone and keeps the map well formed |
| CharacterMap.ProcessChars | geohints-nx/apps/web/src/lib/character-map.ts:11-17 | the step over every character of a letter string keeps the map well formed |
| CharacterMap.ProcessRegion | geohints-nx/apps/web/src/lib/character-map.ts:9-19 | processing a table keeps the map well formed: each character once, each with at least one country |
| CharacterMap.BuildMap | geohints-nx/apps/web/src/lib/character-map.ts:7-22 | the module's map, built from nothing by processing the regional tables in order, is well formed |
| CharacterMap.AddCountriesAppends | geohints-nx/apps/web/src/lib/character-map.ts:12-15 | a step only appends: every character's old list is a prefix of its new one |
| CharacterMap.ProcessRegionAppends | geohints-nx/apps/web/src/lib/character-map.ts:9-19 | processing a table only appends, so countries recorded earlier keep their order |
| CharacterMap.AddCountriesNoRepeats | geohints-nx/apps/web/src/lib/character-map.ts:12-15 | given a duplicate-free country list, a step never lists a country twice for a character |
| CharacterMap.ProcessRegionNoRepeats | geohints-nx/apps/web/src/lib/character-map.ts:9-19 | when every table entry lists each country once, no character ever lists a country twice |
| CharacterMap.AddCountriesCovers | geohints-nx/apps/web/src/lib/character-map.ts:12-15 | after a step the character lists every country it was given |
| CharacterMap.ProcessRegionCovers | geohints-nx/apps/web/src/lib/character-map.ts:9-19 | every character of an entry's letter string ends up listing every country of that entry |
| CharacterMap.AllMappedCharacters | geohints-nx/apps/web/src/lib/character-map.ts:28-30 | one listed character per map entry |
| CharacterMap.MappedIffHasCountries | geohints-nx/apps/web/src/lib/character-map.ts:24-30 | on a well-formed map a character is listed exactly when it has countries; any other character gets none |
| CharacterMap.CharacterRarity | geohints-nx/apps/web/src/lib/character-map.ts:32-35 | the rarity is the number of countries found, and is 0 exactly when the character is unmapped or its list is empty |
| CharacterMap.CountryName | geohints-nx/apps/web/src/lib/character-map.ts:37-65 | a code in the table is shown under its table name, which is never empty, so the upper-cased code is shown exactly for codes the table lacks |
| Search.EntriesToArray | src/lib/search.ts:4-9 | the converted entries carry the record's keys, in key order |
| Search.EntriesToArrayLookup | src/lib/search.ts:4-9 | each converted entry carries the countries its key maps to |
| Search.IsCyrillic | src/lib/search.ts:11-15 | a string is Cyrillic exactly when one of its characters lies in U+0400 to U+04FF |
| Search.FilterCharacters | src/lib/search.ts:17-42 | an entry is kept exactly when it passes the script filter and either the normalised query is empty or its letters, a country code or a country name contains the query, all lower-cased |
| Search.FilterCharactersIsFilter | src/lib/search.ts:24-41 | the filter keeps the input order |
| Search.FilterCharactersSubsequence | src/lib/search.ts:24-41 | the result is a subsequence of the input |
| Search.FilterCharactersBlankQuery | src/lib/search.ts:22-28 | a blank query keeps exactly the entries of the chosen script, so with all scripts it keeps everything |
| Search.FilterCharactersScript | src/lib/search.ts:25-26 | "latin" keeps no Cyrillic entry and "cyrillic" keeps only Cyrillic ones |
| Search.FilterCharactersQuery | src/lib/search.ts:28-40 | with a non-blank query, an entry of the right script is kept exactly when it matches the query |
| Search.EscapeRegex | src/lib/search.ts:44-46 | escaping at most doubles the length and only the empty string escapes to the empty string |
| Search.UnescapeEscapeRegex | src/lib/search.ts:44-46 | escaping loses nothing: reading the escaped query back, a backslash taking the next character literally, gives the query |
| Search.EscapeRegexPlain | src/lib/search.ts:44-46 | a string without special characters is its own escape |
| Search.HighlightMatch | src/lib/search.ts:48-52 | an empty query leaves the text as it is |
| Search.HighlightsKeepText | src/lib/search.ts:50-51 | highlighting only adds markup: with the markup removed the text is unchanged |
| Search.HighlightsMarkMatches | src/lib/search.ts:50-51 | every marked piece equals the query up to letter case |
| Search.HighlightNoMatch | src/lib/search.ts:48-52 | a text in which the query does not occur comes back unchanged |
| Search.DisplayName | src/data/languageCharacters.ts:320-325 | the display name falls back to the code, so it is empty only for the empty code |
| Search.SearchGroup | src/data/languageCharacters.ts:344-368 | one group contributes exactly its characters whose letters, description, country name or code contains the term |
| Search.SearchGroups | src/data/languageCharacters.ts:343-369 | the groups together contribute exactly the matching characters of all groups |
| Search.SearchCharacters | src/data/languageCharacters.ts:337-372 | a blank query finds nothing; otherwise a character is found exactly when it matches the lower-cased query |
| Search.SearchGroupIsFilter | src/data/languageCharacters.ts:344-368 | each character is pushed at most once, in table order |
| Search.SearchGroupsIsFilter | src/data/languageCharacters.ts:343-371 | the results are the matching characters in group order and table order, none repeated |
| Countries.NameLeqIsTotalPreorder | src/data/countries.ts:853 | comparing countries by name is a total preorder, so each region's sort is well defined |
| Countries.SortGroups | src/data/countries.ts:852-854 | sorting the groups keeps the regions and their order |
| Countries.SortGroupsLookup | src/data/countries.ts:852-854 | each region's group is its old group sorted by name |
| Countries.CountriesByRegion | src/data/countries.ts:841-857 | one group per region present, regions distinct and in order of first appearance |
| Countries.CountriesByRegionLookup | src/data/countries.ts:841-857 | a region has a group exactly when some country lies in it, and the group is a name-sorted permutation of that region's countries |
| Countries.CountryInItsRegion | src/data/countries.ts:844-849 | every country is in its own region's group and in no other |
| Countries.SearchCountries | src/data/countries.ts:860-872 | a blank query finds nothing; otherwise a country is found exactly when its code, name, region or subregion contains the lower-cased query |
| Countries.SearchCountriesSubsequence | src/data/countries.ts:864-871 | the results keep the catalogue order |
| CountryLookup.IndexByCode | apps/web/src/data/countries.ts:12-14 | the index holds each lower-cased code once, and exactly the codes of the data |
| CountryLookup.LastWithCode | apps/web/src/data/countries.ts:12-14 | a country found under a key is in the data and its lower-cased code is the key |
| CountryLookup.IndexLookup | apps/web/src/data/countries.ts:12-14 | under each key the index holds the last country with that code, as a `Map` built from pairs does |
| CountryLookup.FindCountryByCode | apps/web/src/data/countries.ts:21-23 | a country found has the code up to letter case, and nothing is found exactly when no country has it |
| CountryLookup.FindCountryByCodeCaseInsensitive | apps/web/src/data/countries.ts:21-23 | the lookup ignores letter case |
| CountryLookup.AllCountryCodes | apps/web/src/data/countries.ts:28-30 | one lower-cased code per country, in data order |
| CountryLookup.IsValidCountryCode | apps/web/src/data/countries.ts:35-37 | a code is valid exactly when the lookup finds a country, exactly when its lower-cased form is among all codes |
| CountryLookup.FindOwnCode | apps/web/src/data/countries.ts:12-23 | with distinct codes, looking a country up by its own code finds that country |
| CountryLookup.LastWithCodeDistinct | apps/web/src/data/countries.ts:12-14 | with distinct lower-cased codes, the last country with a code is the only one |
| CountryMeta.CountryMetaKeysAgree | apps/web/src/data/country-meta.ts:21-146 | in the literal `countryMeta` table, written key by key as the source writes it, every key equals the `code` field of its record |
| CountryMeta.GetCountryMetaOfTable | apps/web/src/data/country-meta.ts:21-153 | on that table, a record found by `getCountryMeta` carries the upper-cased query as its code |
| CountryMeta.GetCountryMeta | apps/web/src/data/country-meta.ts:151-153 | an entry is found exactly when the upper-cased code is a key, and on a table whose keys agree it carries that code |
| CountryMeta.GetCountryMetaCaseInsensitive | apps/web/src/data/country-meta.ts:151-153 | the lookup ignores the letter case of the code |
| CountryMeta.Continents | apps/web/src/data/country-meta.ts:158-160 | the continents are distinct, sorted, and exactly those some entry names |
| CountryMeta.AllRegions | apps/web/src/data/country-meta.ts:165-176 | all regions are distinct, sorted, and are exactly the continents and additional regions of the entries: nothing else is added |
| CountryMeta.ContinentsWithinRegions | apps/web/src/data/country-meta.ts:158-176 | every continent is also offered among all regions |
| CountryMeta.MatchingRegionIsOffered | apps/web/src/data/country-meta.ts:165-186 | a non-empty filter that some entry matches is one of all regions |
| CountryMeta.MetaObj | apps/web/src/data/country-meta.ts:202 | a metadata object names each field once |
| CountryMeta.SpreadLookup | apps/web/src/data/country-meta.ts:202 | a field of `{ ...a, ...b }` comes from `b` when `b` has it and from `a` otherwise |
| CountryMeta.ByNameIsTotalPreorder | apps/web/src/data/country-meta.ts:206 | comparing merged objects by name is a total preorder, so the sort is well defined |
| CountryMeta.Merged | apps/web/src/data/country-meta.ts:196-205 | the map-then-filter step yields at most one object per feature entry |
| CountryMeta.EnrichWithMeta | apps/web/src/data/country-meta.ts:193-207 | the enriched list is a name-sorted permutation of the merged objects |
| CountryMeta.MergedCount | apps/web/src/data/country-meta.ts:196-205 | exactly the feature entries whose code the table knows produce an object, one each; unknown codes are dropped |
| CountryMeta.MergedEntry | apps/web/src/data/country-meta.ts:197-202 | a known code yields its metadata with the feature fields written over it |
| CountryMeta.MergedOrigin | apps/web/src/data/country-meta.ts:197-205 | every merged object is such a merge for some known code of the feature data |
| CountryMeta.EnrichedField | apps/web/src/data/country-meta.ts:193-207 | in an enriched object a feature field wins over a metadata field of the same name, and every other field is the metadata's |
| Domains.ResolveMeta | apps/web/src/data/domains.ts:448 | metadata is found exactly when either table knows the code, and the primary table wins |
| Domains.Built | apps/web/src/data/domains.ts:445-455 | the map-then-filter step yields at most one entry per domain record |
| Domains.ByEntryNameIsTotalPreorder | apps/web/src/data/domains.ts:456 | comparing entries by country name is a total preorder, so the sort is well defined |
| Domains.DomainEntries | apps/web/src/data/domains.ts:445-456 | the catalogue is a name-sorted permutation of the built entries |
| Domains.BuiltEntry | apps/web/src/data/domains.ts:446-453 | every domain record with known metadata yields its merged entry |
| Domains.BuiltOrigin | apps/web/src/data/domains.ts:446-455 | every built entry comes from one domain record with known metadata |
| Domains.DomainEntriesMembers | apps/web/src/data/domains.ts:445-456 | an entry is in the catalogue exactly when some domain record with known metadata yields it |
| Domains.DomainEntriesCount | apps/web/src/data/domains.ts:445-456 | the catalogue has one entry per domain record whose code either table knows |
| Domains.DomainContinents | apps/web/src/data/domains.ts:462-468 | the continents are distinct, sorted, and exactly those of some entry |
| Domains.SearchDomains | apps/web/src/data/domains.ts:471-481 | an empty normalised query lists everything; otherwise an entry is found exactly when its extension, lower-cased name or lower-cased code contains the query |
| Domains.SearchDomainsSubsequence | apps/web/src/data/domains.ts:475-480 | the search keeps the catalogue order |
| Domains.SearchDomainsLeadingDot | apps/web/src/data/domains.ts:472 | typing `.de` searches exactly as typing `de` does |
| Domains.FilterByContinent | apps/web/src/data/domains.ts:484-487 | no continent, null or empty, lists everything; otherwise exactly the entries of the continent |
| Domains.CommonDomains | apps/web/src/data/domains.ts:490-492 | exactly the entries of frequency common |
| Domains.DomainsWithMnemonics | apps/web/src/data/domains.ts:495-497 | exactly the entries with a non-empty mnemonic |
| Domains.DomainStats | apps/web/src/data/domains.ts:503-508 | the total is the entry count and the three frequency counts partition it |
| Domains.FrequencyCountsAddUp | apps/web/src/data/domains.ts:503-508 | every entry is counted under exactly one frequency |
| Domains.SelectedContinent | apps/web/src/routes/domains/index.tsx:50-57 | the `continent` parameter is honoured exactly when it is non-empty and names a continent with entries |
| Domains.SelectedFrequency | apps/web/src/routes/domains/index.tsx:60-66 | the `frequency` parameter is accepted exactly when it is one of the three names, and selects the frequency of that name |
| Domains.SelectedFrequencyOfName | apps/web/src/routes/domains/index.tsx:60-66 | each frequency's own name selects it |
| Domains.Rank | apps/web/src/routes/domains/index.tsx:93-115 | the rank is below 4 exactly for an exact extension match, and below 2 only for an extension that starts with the query |
| Domains.RelevanceLeqIsRankOrder | apps/web/src/routes/domains/index.tsx:93-115 | the page's comparator orders by rank first and by name within a rank |
| Domains.RelevanceIsTotalPreorder | apps/web/src/routes/domains/index.tsx:93-115 | the comparator is a total preorder, so the sort is well defined |
| Domains.NarrowedMembers | apps/web/src/routes/domains/index.tsx:69-80 | after the continent and frequency filters an entry remains exactly when it passes both |
| Domains.NarrowedIsFilter | apps/web/src/routes/domains/index.tsx:69-80 | the two filters keep the catalogue order |
| Domains.Ranked | apps/web/src/routes/domains/index.tsx:84-115 | the search step keeps exactly the narrowed entries that match the query |
| Domains.FilteredDomains | apps/web/src/routes/domains/index.tsx:69-119 | an entry is shown exactly when it passes the continent, frequency and query filters |
| Domains.FilteredDomainsKeepOrder | apps/web/src/routes/domains/index.tsx:69-85 | without a query the page keeps the catalogue order |
| Domains.FilteredDomainsRanked | apps/web/src/routes/domains/index.tsx:84-116 | with a query the results are a relevance-sorted permutation of the matching narrowed entries |
| Domains.FilteredDomainsRankOrder | apps/web/src/routes/domains/index.tsx:93-115 | with a query, exact extension matches come first, then extensions starting with the query, and within a rank names ascend |
| Europe.GroupKey | src/routes/languages/europe/index.tsx:15-20 | the group key is `Cyrillic` exactly when the upper-cased first code point lies in U+0400 to U+04FF, and otherwise that upper-cased code point alone |
| Europe.GroupCharsIsGroupBy | src/routes/languages/europe/index.tsx:10-30 | with distinct character strings the nested record is the plain grouping of the entries by key |
| Europe.GroupCharsKeys | src/routes/languages/europe/index.tsx:13-27 | the groups appear in order of first use of their key, each key once |
| Europe.GroupCharsLookup | src/routes/languages/europe/index.tsx:13-27 | the group under a key holds exactly the entries with that key, in order and unchanged; other keys have no group |
| Europe.GroupCharsPlacesEachOnce | src/routes/languages/europe/index.tsx:13-27 | an entry lies in a group exactly when the group's key is the entry's key |
| Europe.GroupCharsKeepsCountries | src/routes/languages/europe/index.tsx:26 | looking a character up in its own group gives back its country list unchanged |
| Europe.GroupCharsSizes | src/routes/languages/europe/index.tsx:10-30 | grouping neither loses nor duplicates characters |
| Europe.FilterEntry | src/routes/languages/europe/index.tsx:196-217 | a character matching the query is kept whole; otherwise it is kept with exactly its countries whose display name or code contains the query, and dropped when there are none |
| Europe.FilterGroup | src/routes/languages/europe/index.tsx:194-217 | a filtered group contains every character the search keeps, and nothing the search did not make from one of its characters |
| Europe.FilterGroupsWith | src/routes/languages/europe/index.tsx:193-222 | no empty group is shown |
| Europe.FilterGroupsWithShows | src/routes/languages/europe/index.tsx:219-221 | every group that keeps something is shown with its filtered characters |
| Europe.FilterGroupsWithOrigin | src/routes/languages/europe/index.tsx:193-222 | every shown group is the filtering of a group of the input |
| Europe.FilterCharGroups | src/routes/languages/europe/index.tsx:187-225 | a blank query leaves the groups as they are; otherwise no shown group is empty |
| Europe.FilterCharGroupsShows | src/routes/languages/europe/index.tsx:187-225 | with a non-blank query a group is shown exactly when it is the non-empty filtering of an input group under the lower-cased query |
| Europe.FilteredCharacterKept | src/routes/languages/europe/index.tsx:196-217 | a shown character either matches itself and keeps all its countries, or keeps exactly its matching countries, at least one |
| Europe.CyrillicLastIsTotalPreorder | src/routes/languages/europe/index.tsx:229-234 | the table-of-contents comparator is a total preorder, so the sort is well defined |
| Europe.GroupKeys | src/routes/languages/europe/index.tsx:228-235 | the contents list is a permutation of the shown groups' keys, sorted by that comparator |
| Europe.GroupKeysCyrillicLast | src/routes/languages/europe/index.tsx:229-234 | `Cyrillic` comes after every other key, and the other keys ascend |
| Flags.CodeUnits | src/data/countries.ts:9-15 | `split("")` and `charCodeAt` see one code unit for a character up to U+FFFF and two otherwise, each below 0x10000 |
| Flags.SurrogatePairDecodes | src/data/countries.ts:9-15 | a character above U+FFFF is split into a high and a low surrogate that decode back to it |
| Flags.FlagEmoji | src/data/countries.ts:9-15 | the flag has one code point per code unit of the upper-cased code, each the unit plus 127397 |
| Flags.FlagEmojiCaseInsensitive | src/data/countries.ts:9-15 | the letter case of the code does not change the flag |
| Flags.FlagOfAlpha2 | src/data/countries.ts:9-15 | a two-letter code gives two regional indicator symbols, the i-th standing for its i-th letter |
| Flags.FlagLettersOfFlag | src/data/languageCharacters.ts:328-334 | for a code without surrogates, moving the flag's code points back down by the offset gives the upper-cased code |
| Flags.DomainFlagEmoji | apps/web/src/routes/domains/index.tsx:14-24 | `UK` shows the flag of GB, `EU`, `SU` and `XK` show none, and every other code shows its regional-indicator flag |
| ImageUrls.BollardImageUrl | apps/web/src/data/bollards.ts:556-564 | a bollard URL lies under the bucket's `bollards/` folder and ends with the width's `-<w>w.webp` suffix |
| ImageUrls.BollardUrlIsStoreKey | apps/web/src/data/bollards.ts:556-564 | a bollard URL is the bucket URL, the key the manifest script generates for that code and sequence, and the width suffix |
| ImageUrls.BollardUrlSequence | apps/web/src/data/bollards.ts:556-564 | the sequence can be read back from a bollard URL |
| ImageUrls.BollardImageUrlCaseInsensitive | apps/web/src/data/bollards.ts:561 | the letter case of the country code does not change the URL |
| ImageUrls.BollardSrcset | apps/web/src/data/bollards.ts:569-574 | the srcset starts with the image's base URL |
| ImageUrls.BollardSrcsetListsVariants | apps/web/src/data/bollards.ts:556-574 | the srcset lists the 400, 800 and 1200 pixel URLs of `getBollardImageUrl`, each with its width descriptor, in that order |
| ImageUrls.BollardContinents | apps/web/src/data/bollards.ts:551 | the continents are distinct, sorted, and exactly those of the data |
| ImageUrls.FollowCarImageUrl | apps/web/src/data/follow-cars.ts:126-133 | a follow-car URL lies under `follow-cars/<lower cc>/` and ends with the hash and the width suffix |
| ImageUrls.FollowCarImageUrlCaseInsensitive | apps/web/src/data/follow-cars.ts:131 | the letter case of the country code does not change the URL |
| ImageUrls.FollowCarImageUrlInjective | apps/web/src/data/follow-cars.ts:126-133 | different hashes give different URLs |
| ImageUrls.FollowCarSrcset | apps/web/src/data/follow-cars.ts:138-142 | the srcset starts with the image's base URL |
| ImageUrls.FollowCarSrcsetListsVariants | apps/web/src/data/follow-cars.ts:126-142 | the srcset lists the 400, 800 and 1200 pixel URLs of `getFollowCarImageUrl`, in that order |
| ImageUrls.FollowCarContinents | apps/web/src/data/follow-cars.ts:121 | the continents are distinct, sorted, and exactly those of the data |
| ScrapeCommon.SrcOrDataSrc | libs/scraper/src/scrapers/geomastr.ts:157 | `src` wins when present, and `data-src` is used only when `src` is absent |
| ScrapeCommon.ImageSource | libs/scraper/src/scrapers/geohints.ts:203 | the address is `src`, else `data-src`, else the empty string |
| ScrapeCommon.EntryId | libs/scraper/src/scrapers/geohints.ts:319 | the id's last `-`-separated segment is the image's index |
| ScrapeCommon.EntryIdInjective | libs/scraper/src/scrapers/geohints.ts:319 | within one category and source, equal ids mean the same code up to letter case and the same index |
| ScrapeCommon.FileStem | libs/scraper/src/scrapers/geohints.ts:323 | the file stem is a prefix of the hash, eight characters long when the hash has eight |
| ScrapeCommon.VariantsFor | libs/scraper/src/scrapers/geohints.ts:322-327 | each width is stored at `<category>/<lower cc>/<stem>-<w>w.webp` |
| ScrapeCommon.PathsOfHash | libs/scraper/src/scrapers/geohints.ts:322-327 | for a SHA-256 digest the stem is eight lower-case hex digits and every path lies in the country's directory under that stem |
| ScrapeCommon.PathsDistinct | libs/scraper/src/scrapers/geohints.ts:322-327 | the original and the three widths are stored under four different keys |
| ScrapeCommon.EntryCountryCode | libs/scraper/src/scrapers/geohints.ts:331 | the stored code is the scraped code's first two code points, upper-cased |
| ScrapeCommon.MakeEntry | libs/scraper/src/scrapers/geohints.ts:315-346 | the manifest entry carries the id, the category and source, the scraped country, the cut code, the source URL, the hash and the variant paths |
| ScrapeCommon.MakeEntryValid | libs/scraper/src/scrapers/geohints.ts:331-335 | the entry passes the manifest schema exactly when the digest is a SHA-256 hex string, the address is a URL and the scraped code begins with two ASCII letters, since the stored code is cast with `as CountryCode` and not checked before the `ManifestEntry` constructor validates it |
| GeohintsScraper.CategoryPath | libs/scraper/src/scrapers/geohints.ts:30-46 | every mapped geohints.com path is non-empty, so the guard's truthiness test is a presence test |
| GeohintsScraper.CdnPath | libs/scraper/src/scrapers/geohints.ts:200 | images are looked for under the mapped path, or under the category's own name when it has none |
| GeohintsScraper.CategoryPage | libs/scraper/src/scrapers/geohints.ts:350-363 | a scrape fails with "Category … not available on geohints.com" exactly for the unmapped categories, and otherwise fetches `https://geohints.com/meta/<path>` |
| GeohintsScraper.ExtractCountryCodeSpec | libs/scraper/src/scrapers/geohints.ts:86-178 | a name found in the table, after lower-casing and trimming, gets the table's code; any other name gets its first two code points upper-cased |
| GeohintsScraper.CountryTableValues | libs/scraper/src/scrapers/geohints.ts:89-169 | every code in either copy's table is two upper-case letters |
| GeohintsScraper.LegacyCodesAgree | geohints-nx/libs/scraper/src/scrapers/geohints.ts:88-112 | the older copy never disagrees with the current one on a name its smaller table maps |
| GeohintsScraper.NameRun | libs/scraper/src/scrapers/geohints.ts:212 | the counted run is the longest leading run of letters and underscores |
| GeohintsScraper.FilenameCountry | libs/scraper/src/scrapers/geohints.ts:212 | a capture of `/^([A-Za-z_]+)(?:_\d+)?\./` is a non-empty leading run of letters and underscores followed by the dot or by `_<digits>.` |
| GeohintsScraper.FilenameCountryOfName | libs/scraper/src/scrapers/geohints.ts:212 | a name of letters and underscores before an extension is captured whole |
| GeohintsScraper.FilenameCountryOfNumbered | libs/scraper/src/scrapers/geohints.ts:212 | a name followed by `_<digits>` before the extension is captured without the number |
| GeohintsScraper.StripExtension | libs/scraper/src/scrapers/geohints.ts:247 | `replace(/\.\w+$/, "")` removes a suffix only when it is the last dot followed by word characters up to the end |
| GeohintsScraper.StripExtensionOf | libs/scraper/src/scrapers/geohints.ts:247 | a stem followed by an extension of word characters loses exactly the extension |
| GeohintsScraper.FirstNonEmptyIndex | libs/scraper/src/scrapers/geohints.ts:226 | `a \|\| b \|\| …` takes the first non-empty string, and the last one when all are empty |
| GeohintsScraper.NameCandidates | libs/scraper/src/scrapers/geohints.ts:220-226 | the filename's country is always the last resort of the name priority |
| GeohintsScraper.CdnImage | libs/scraper/src/scrapers/geohints.ts:205-234 | an image of the first pass is named by the priority sibling span, previous span, parent span, header, filename, gets that name's code, and keeps at most the first 100 code points of its parent's text |
| GeohintsScraper.RelativeImage | libs/scraper/src/scrapers/geohints.ts:238-255 | an image of the second pass is named by its filename with `-` and `_` read as spaces and the extension dropped, gets that name's code, and carries no page text |
| GeohintsScraper.PassesEmpty | libs/scraper/src/scrapers/geohints.ts:201-257 | the two passes find nothing exactly when no image of the page matches either pass |
| GeohintsScraper.LastWithUrl | libs/scraper/src/scrapers/geohints.ts:268 | the position found is the last image with the address, and none is found exactly when no image has it |
| GeohintsScraper.UrlIndexKeys | libs/scraper/src/scrapers/geohints.ts:268 | the `Map` keyed by address holds the distinct addresses in order of first appearance |
| GeohintsScraper.UrlIndexLookup | libs/scraper/src/scrapers/geohints.ts:268 | each address is stored with the last image carrying it |
| GeohintsScraper.DedupByUrlSpec | libs/scraper/src/scrapers/geohints.ts:268 | de-duplication keeps one image per address, in order of first appearance, each the last image with that address |
| GeohintsScraper.ParseImages | libs/scraper/src/scrapers/geohints.ts:191-273 | parsing fails with "No images found in HTML" exactly when neither pass matches an image; otherwise the result is non-empty, its addresses are distinct, and every collected address is among them |
| GeohintsScraper.CdnImageNamedByFile | libs/scraper/src/scrapers/geohints.ts:209-226 | with no page text around it, a CDN image is named by its filename with underscores read as spaces and any `_<digits>` number dropped |
| GeomastrScraper.MediaPath | libs/scraper/src/scrapers/geomastr.ts:124 | images are looked for under the site's own directory name for the five mapped categories, and under the category's name otherwise |
| GeomastrScraper.GetCountryCode | libs/scraper/src/scrapers/geomastr.ts:89-92 | a name in the table, after lower-casing and trimming, gets the table's code; any other name gets at most two code points, its first ones upper-cased |
| GeomastrScraper.Slug | libs/scraper/src/scrapers/geomastr.ts:101 | the slug is a prefix of the filename, with trailing digits and the extension removed |
| GeomastrScraper.SlugOf | libs/scraper/src/scrapers/geomastr.ts:100-101 | a stem not ending in a digit, followed by a number and a word-character extension, has exactly the stem as slug |
| GeomastrScraper.TitleFrom | libs/scraper/src/scrapers/geomastr.ts:103-106 | title-casing keeps the length and upper-cases exactly the first letter of each dash-separated word, turning the dashes into spaces |
| GeomastrScraper.TitleJoin | libs/scraper/src/scrapers/geomastr.ts:103-106 | splitting on '-', capitalising each word and joining with spaces agrees with the character-level title case |
| GeomastrScraper.ExtractCountryFromPathIsTitleCase | libs/scraper/src/scrapers/geomastr.ts:98-107 | the name read from a path is the title-cased slug of its last '/'-segment |
| GeomastrScraper.SlugFileCountry | libs/scraper/src/scrapers/geomastr.ts:98-107 | a file named by a lower-case dashed slug, an optional number and an extension is read as the slug title-cased, and that name's table key is the slug with spaces for dashes |
| GeomastrScraper.FullUrl | libs/scraper/src/scrapers/geomastr.ts:132 | an address starting with "http" is kept and any other is prefixed with https://geomastr.com |
| GeomastrScraper.FoundOf | libs/scraper/src/scrapers/geomastr.ts:130-134 | each category image carries its absolute address, the country name read from its path and that name's code |
| GeomastrScraper.FoundImages | libs/scraper/src/scrapers/geomastr.ts:127-130 | no image is found exactly when no image's address contains the category directory |
| GeomastrScraper.CountryMapKeys | libs/scraper/src/scrapers/geomastr.ts:121-148 | the grouping holds one group per distinct code, in order of first appearance |
| GeomastrScraper.CountryMapLookup | libs/scraper/src/scrapers/geomastr.ts:136-146 | the group of a code holds every address read as that code, in page order, under the name of the first such image; a code never read has no group |
| GeomastrScraper.GroupsSpec | libs/scraper/src/scrapers/geomastr.ts:151 | the listed groups are, in order, the groups of the distinct codes |
| GeomastrScraper.FallbackUrls | libs/scraper/src/scrapers/geomastr.ts:153-162 | the catch-all addresses are empty exactly when no image has a non-empty source outside /flags/ |
| GeomastrScraper.ParseCountryData | libs/scraper/src/scrapers/geomastr.ts:113-182 | parsing returns the country groups when any category image exists, else a single "Unknown"/"XX" group of the catch-all addresses, and fails with "No country data found in HTML" exactly when both are empty |
| Hex.HexDigit | geohints-nx/libs/scraper/src/services/storage-service.ts:269 | a value below 16 is rendered as one lower-case hexadecimal digit |
| Hex.HexDigitValue | geohints-nx/libs/scraper/src/services/storage-service.ts:269 | a lower-case hex digit is read back as the value it renders |
| Hex.ToHexString | geohints-nx/libs/scraper/src/services/storage-service.ts:269 | `toString(16)` gives a non-empty string of lower-case hex digits, one digit long exactly for values below 16 |
| Hex.ByteHex | geohints-nx/libs/scraper/src/services/storage-service.ts:269 | a byte is rendered as exactly two lower-case hex digits |
| Hex.PaddedHexIsByteHex | geohints-nx/libs/scraper/src/services/storage-service.ts:269 | `toString(16)` padded to two places with `0` is the byte's two-digit rendering, high nibble first |
| Hex.HexEncodeAt | geohints-nx/libs/scraper/src/services/storage-service.ts:268-270 | the joined rendering is fixed-width: byte i occupies positions 2i and 2i+1 |
| Hex.HexEncodeIsLowerHex | geohints-nx/libs/scraper/src/services/storage-service.ts:268-270 | the rendering contains only lower-case hex digits |
| Hex.DigestHexIsSha256 | geohints-nx/libs/scraper/src/services/storage-service.ts:259-272 | the rendering of a 32-byte digest is a 64-digit lower-case string, so the `Sha256Hash` cast is sound |
| Hex.DecodeEncode | geohints-nx/libs/scraper/src/services/storage-service.ts:268-270 | reading the rendering two digits at a time gives back the digest |
| Hex.EncodeDecode | geohints-nx/libs/scraper/src/services/storage-service.ts:268-270 | every even-length lower-case hex string is the rendering of the bytes it reads as |
| Hex.HexEncodeInjective | geohints-nx/libs/scraper/src/services/storage-service.ts:268-270 | different digests never share a rendering |

`ScrapeCommon.MakeEntry` and its companions serve both scrapers: geomastr's
`processImage` (libs/scraper/src/scrapers/geomastr.ts:215-240) builds the same
id, code and paths as geohints' `processGeohintImage`, with "geomastr" as the source.

## Left out

- Network, file system and subprocess I/O: the HTTP services and their retry schedules, the R2 and wrangler uploads, `loadManifest`/`saveManifest`, the image downloads and the JSON dumps. The model starts from the strings and bytes they deliver.
- The page itself: cheerio's selectors are not modelled. Each `<img>` arrives as its extracted attributes and the texts of the spans and header around it, already in document order.
- CLIP embeddings, PIL loading, HDBSCAN and the numpy centroid and norm arithmetic. These are foreign libraries and floating point. The labels and each image's distance to its own centroid are inputs, and an arg-min over distances equals one over squared distances.
- The SHA-256 digest computed by Web Crypto (FIPS 180-4, section 6.2) is an input. Only its hex rendering is modelled. `Hex.HexDecode` is a reference inverse written for the proofs; the source has no decoder.
- Clocks: `scrapedAt`, `lastUpdated` and the clustering run's `generatedAt` are parameters; the ISO-8601 formatting of `datetime.now(UTC)` is not modelled, the string is taken as given.
- Effect stream concurrency and the progress counters that concurrent fibers share are not modelled. The operations are modelled one call at a time.
- Host functions:
  - `Intl.DisplayNames` is a function parameter.
  - `localeCompare` and the default `.sort()` are modelled as code-point lexicographic order. Locale collation is not modelled.
  - `String.fromCodePoint` is modelled as its code-point value.
- Case mapping: `toLowerCase`, `toUpperCase`, Python's `lower`/`upper` and the `i` flag of a regular expression are modelled on ASCII letters only. Every other character, accented Latin letters included, is kept as it is. The model therefore differs from the source wherever a name, filename or search text holds a non-ASCII letter: Python lower-cases U+212A KELVIN SIGN to `k`, so cluster.py reads "\u212Ar-001-800w.webp" as a KR bollard where the model falls back to XX; the scrapers' `slice(0, 2).toUpperCase()` turns "Österreich" into "ÖS" where the model gives "Ös"; and a query "TÜRKIYE" finds "Türkiye" in the source's searches but not in the model. For the ASCII codes, keys and filenames the core handles the mapping is exact.
- Regular expressions: each pattern is modelled by the language it accepts, not by a regex engine. `\d` and `\w` are ASCII only. That is exact for the JavaScript patterns, which have no `u` flag, but not for cluster.py: Python 3's `re` on a `str` pattern lets `\d` match every Unicode decimal digit, so `BOLLARD_PATTERN` reads "de-\u0661\u0662\u0663-800w.webp" (Arabic-Indic digits) as a DE bollard where `Clustering.ParseImageId` falls back to XX. Python's `$`, which also matches before one final newline, is modelled by stripping a single trailing "\n".
- JavaScript records and `Map`s are modelled as association lists in insertion order. `Object.keys` lists integer-like keys first; every key the core uses is a word or a code, so that ordering is not modelled. Lookups of inherited prototype keys such as `"constructor"` are not modelled.
- String lengths and positions: JavaScript's `slice`, `length` and `[i]` count UTF-16 code units, and the model counts code points. The two agree on every string without a character above U+FFFF. On a string that has one they differ: `ScrapeCommon.EntryCountryCode`, `GeohintsScraper.ExtractCountryCodeSpec` and `GeomastrScraper.GetCountryCode` keep two code points where `slice(0, 2)` keeps two code units, so "\u{1D504}b" keeps only "\u{1D504}" in the source and "\u{1D504}b" in the model; `GeohintsScraper.CdnImage`'s `slice(0, 100)` can split a surrogate pair in the source but not in the model; and `Europe.GroupKey`'s `char[0]` on such a key is a lone high surrogate in the source and the whole character in the model. Only `Flags.FlagEmoji` works on code units, through `Flags.CodeUnits`, because the flag arithmetic depends on them.
- Integer width: sequence numbers are exact integers, while JavaScript's `parseInt` returns a double that is exact only below 2^53. `ManifestStore.ParseInt`, `ManifestStore.NextSequence`, `ManifestStore.NextKeyIsFresh` and `BollardsGen.SequenceSuffixOf` therefore hold for the source only when every parsed sequence is below 2^53 - 1. On a record holding "bollards/us/us-9007199254740992", `maxSeq + 1` rounds back to 2^53 and the source generates that existing key again. A digit run longer than about 309 digits parses to Infinity, and `String(n)` switches to exponent notation from 1e21 on; neither is modelled.
- Sorting is modelled as an insertion sort under a total preorder. `Collections.SortByStable` proves it stable, which matches `Array.prototype.sort` and Python's `sorted`.
- Europe.GroupChars requires non-empty character keys, because the source would read `undefined` for an empty key and fail.
- Search.HighlightMatch: its own contract covers only the empty query. For a non-empty query, `HighlightsKeepText` and `HighlightsMarkMatches` state the rest. The case-insensitive regex of the escaped query is modelled as a literal case-insensitive scan, and `UnescapeEscapeRegex` shows that the escaping loses nothing.
- GeomastrScraper.SlugFileCountry states the table key that `getCountryCode` looks up (the slug with spaces for dashes), not the code found there; `GetCountryCode`'s own contract then gives the code.
- src/lib/utils.ts is not part of this model.
- src/lib/character-map.ts is not part of this model. `src/lib/analyzer.ts` imports it, and the `geohints-nx/apps/web/src/lib/character-map.ts` copy is modelled in its place.
- The language page's `domainContinents` constant, the UI components, the visualiser's HTML and the animation-delay arithmetic are presentation only.
- The follow-car and bollard pages' own continent grouping is not modelled separately, because it repeats the data helpers already modelled.
