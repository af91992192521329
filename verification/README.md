# Folk-music aggregation core, modelled in Dafny

This project models the data pipeline behind a folk-music browsing site. The pipeline has three stages:

- **Source adapters.** Four adapters (MusicBrainz, Internet Archive, Library of Congress and Smithsonian Folkways) each turn one API response into `FolkMusicEntry` records.
  - Each adapter filters the raw records.
  - Each derives an era from a parsed year.
  - MusicBrainz finds the region by looking up the artist's country code in a fixed table of 23 codes. A missing or unlisted code is Global.
  - The other three adapters (Internet Archive, Library of Congress and Smithsonian) take the region from free-form location text. They use an ordered cascade of substring rules where the first match wins.
- **Aggregator** (`fetchAllFolkMusic`). It concatenates the MusicBrainz, Library of Congress and Smithsonian results in that order. It then drops every entry whose normalised `title-artist` key has already been seen.
- **Browse page** (`Index.tsx`). It filters the entries by query, region, era and tags, then sorts them. It can also toggle one tag filter or reset all filters.

Modules:

| module | file | what it holds |
|---|---|---|
| `Wrappers` | wrappers.dfy | `Option` |
| `JsStrings` | js_strings.dfy | ASCII `toLowerCase`, ECMAScript `trim`, `includes`, `split`/`join` on a literal separator, JS truthiness of strings |
| `JsParseInt` | js_parse_int.dfy | `parseInt` with radix detection (`0x` prefix); `NaN` is `None` |
| `Seqs` | seqs.dfy | `Array.prototype.filter`, `slice(0, n)`, `map`, subsequences |
| `StableSort` | stable_sort.dfy | `Array.prototype.sort` with a numeric comparator, which is stable |
| `Taxonomy` | taxonomy.dfy | the century table `getEraFromYear`, region labels, and the first-match rule cascade of the three text-based adapters |
| `Music` | music.dfy | `FolkMusicEntry`, `FilterState`, and `Response` (records received, or a fetch failure) |
| `MusicBrainz`, `InternetArchive`, `LibraryOfCongress`, `Smithsonian` | one file each | the adapters |
| `Dedupe` | dedupe.dfy | the `seen`-set filter, generic in its key function |
| `UnifiedFetcher` | unified_fetcher.dfy | `normalizeForDedup`, `deduplicateEntries` and the combine step |
| `Browse` | browse.dfy | the `filteredEntries` memo, `handleTagToggle` and `handleResetFilters` |

Everything outside the pure logic is a parameter of the model:

- HTTP responses are `Response<T>` values. A failed request and a body lacking its `docs`/`rows`/`results` field are both `Failed(...)`.
- `encodeURIComponent` is a parameter `encode`.
- The bundled sample entries are a parameter `sample`.
- The Smithsonian key from the build environment is a parameter `apiKey`.
- The collation order of `localeCompare` is a parameter `rank`.

## Model

| member | source | states |
|---|---|---|
| Taxonomy.EraFromYear | src/utils/musicbrainz.ts:98-108 | A year gives "Traditional" exactly when it is absent or 0, the two falsy years; every other year gets a dated era. |
| Taxonomy.EraIsCentury | src/utils/musicbrainz.ts:98-108 | The century table: below 1000 (negatives included) is Ancient, 1000-1499 is Medieval, 1500-1999 is the (y/100+1)th century, and 2000 onwards is the 21st century. |
| Taxonomy.EraMonotone | src/utils/internetArchive.ts:72-82 | A later non-zero year never yields an earlier era. |
| Taxonomy.EraNameInjective | src/utils/libraryOfCongress.ts:70-80 | The era labels are pairwise distinct and all belong to the label list, so a label identifies its era. |
| Taxonomy.RegionNameInjective | src/utils/musicbrainz.ts:113-139 | The ten region labels are pairwise distinct and all belong to the label list. |
| Taxonomy.FirstMatch | src/utils/internetArchive.ts:84-108 | The cascade answers with the index of the first rule whose any-of words occur and whose none-of words do not. It answers nothing exactly when no rule matches. |
| Taxonomy.Classify | src/utils/smithsonianFolkways.ts:106-129 | The region is the first matching rule's region: every earlier rule fails, and "Global" is the answer when no rule matches. |
| Taxonomy.ClassifyStopsBy | src/utils/libraryOfCongress.ts:82-90 | If rule i matches, the answer comes from rule i or from an earlier rule. |
| JsStrings.Lower | src/utils/unifiedFetcher.ts:52 | Lower-casing keeps the length, maps each character separately and leaves no ASCII capital. |
| JsStrings.LowerIdempotent | src/utils/unifiedFetcher.ts:52 | Lower-casing twice equals lower-casing once. |
| JsStrings.Trim | src/utils/unifiedFetcher.ts:54 | The result neither starts nor ends with whitespace and occurs inside the input. It is empty exactly when the input is all whitespace, and a trimmed string is returned unchanged. |
| JsStrings.TrimStripsOnlySpace | src/utils/libraryOfCongress.ts:95 | The trimmed text sits in the input between an all-whitespace prefix and an all-whitespace suffix, so `trim` removes whitespace at the two ends and nothing else. |
| JsStrings.Contains | src/pages/Index.tsx:57-61 | `includes` holds exactly when the needle occurs at some offset. |
| JsStrings.Split | src/utils/libraryOfCongress.ts:94 | Splitting on a non-empty separator gives at least one piece. Joining the pieces with the separator rebuilds the input. No piece contains the separator, and there is one piece exactly when the separator does not occur. Every cut is at the leftmost occurrence: no piece but the last is followed by a separator that starts inside it. |
| JsStrings.SplitFirstPiece | src/utils/musicbrainz.ts:76 | For a one-character separator such as "-": when `p` does not contain it, the first piece of `p + sep + q` is `p`. |
| JsStrings.JoinEmpty | src/utils/libraryOfCongress.ts:63 | With a non-empty separator, a join is empty exactly when there are no parts or one empty part; this is when the description falls back to the fixed sentence. |
| JsStrings.ContainsTrans | src/utils/smithsonianFolkways.ts:119-124 | If a text contains a phrase and the phrase contains a word, the text contains the word. |
| JsParseInt.ParseIntSignAndDigits | src/utils/musicbrainz.ts:76 | A negative result needs a minus sign in the text, and text with no decimal digit is `NaN`. A number is read only when a decimal digit directly follows the leading whitespace and the optional sign; otherwise the result is `NaN`. |
| JsParseInt.ParseIntReadsDecimal | src/utils/internetArchive.ts:48 | Leading whitespace, then the decimal digits of n, then anything not starting with a digit, parses to n. A lone 0 must not be followed by "x". |
| JsParseInt.ParseIntReadsNegative | src/utils/libraryOfCongress.ts:49 | The same text with a minus sign before the digits parses to -n. |
| JsParseInt.ParseIntShowNat | src/utils/smithsonianFolkways.ts:72 | Parsing the decimal spelling of a natural number returns that number. |
| JsParseInt.ParseIntNoLeadingNumber | src/utils/libraryOfCongress.ts:49 | A date whose first non-blank character is neither a sign nor a digit, such as "c. 1920", is `NaN`, so its era is Traditional. |
| JsParseInt.ParseIntHexPrefix | src/utils/smithsonianFolkways.ts:72 | Whitespace, then `0x` or `0X`, then a non-empty run of hexadecimal digits d, then anything not starting with a hexadecimal digit, parses to the base-16 value of d. |
| JsParseInt.ParseIntHexYear | src/utils/smithsonianFolkways.ts:72 | The date "0x7D0" is read as the year 2000. |
| Seqs.Filter | src/utils/internetArchive.ts:37-39 | The kept records are input records that satisfy the predicate, in input order, and every input record that satisfies it is kept. |
| Seqs.FilterCounts | src/utils/internetArchive.ts:37-39 | Each value occurs in the result as often as in the input when it satisfies the predicate, and not at all otherwise. |
| Seqs.FilterFilter | src/pages/Index.tsx:53-80 | Filtering twice equals filtering once by the conjunction. |
| Seqs.FilterAppend | src/pages/Index.tsx:114 | Filtering a concatenation is the concatenation of the filtered parts. This is what lets an appended tag be filtered out again, and trailing punctuation be dropped by the key character filter (src/utils/unifiedFetcher.ts:53). |
| Seqs.Take | src/utils/musicbrainz.ts:50 | `slice(0, n)` is the prefix of length min(n, length). |
| Seqs.MapSeq | src/utils/musicbrainz.ts:51 | `map` keeps the length and applies the function at each position. |
| StableSort.SortByKey | src/pages/Index.tsx:83-95 | The output is ordered by the key and is a permutation of the input. |
| StableSort.SortByKeyStable | src/pages/Index.tsx:85 | Entries with equal keys keep their relative order. |
| MusicBrainz.BeginYear | src/utils/musicbrainz.ts:75-77 | The year read from the text before the first "-" of `life-span.begin` is never negative. A missing life span or a missing or empty begin date gives no year. |
| MusicBrainz.BeginYearOfBareYear | src/utils/musicbrainz.ts:75-77 | A begin date that is only a year, such as "1965", yields that year. |
| MusicBrainz.BeginYearOfIsoDate | src/utils/musicbrainz.ts:75-77 | A begin date of the form `yyyy-...` yields year yyyy, whatever the end date. |
| MusicBrainz.BeginYearOfNegativeDate | src/utils/musicbrainz.ts:75-77 | A begin date starting with "-" yields no year, because the piece before the first dash is empty. |
| MusicBrainz.RegionFromCountry | src/utils/musicbrainz.ts:110-140 | A country gets a non-Global region exactly when it is one of the 23 mapped codes. A missing or empty country is Global. |
| MusicBrainz.RegionFromCountryExact | src/utils/musicbrainz.ts:113-139 | The lookup is exact and case-sensitive: "IE" is Western Europe while "ie" and "" are Global. |
| MusicBrainz.ArtistTags | src/utils/musicbrainz.ts:81 | The tags are the names of at most the first 5 tags. When the tag array is absent they are ["folk"]. |
| MusicBrainz.EmptyTagArrayGivesNoTags | src/utils/musicbrainz.ts:81 | An empty tag array is truthy, so it yields no tags rather than ["folk"]. |
| MusicBrainz.ArtistToEntry | src/utils/musicbrainz.ts:74-96 | Title and artist are the artist name and the country defaults to "Unknown". Era and region come from the begin year and the country. The description is the disambiguation or the fallback sentence, the tags are the artist's tags, and the entry carries valid labels. |
| MusicBrainz.ProcessArtists | src/utils/musicbrainz.ts:40-51 | At most 50 entries. They are the mapped first 50 of the kept artists, in order, and each carries a valid region and era label with at most 5 tags. |
| MusicBrainz.NoAggregateArtists | src/utils/musicbrainz.ts:40-47 | No processed entry has the Various Artists id, and no processed title contains "various" or "compilation" in any letter case. |
| MusicBrainz.FetchFolkMusic | src/utils/musicbrainz.ts:21-56 | A failed fetch returns the sample entries; otherwise the result is the processed artists. |
| InternetArchive.RegionFromCoverage | src/utils/internetArchive.ts:84-108 | A missing or empty coverage is Global. Otherwise the region is that of the first of the nine rules, in source order, that matches the lower-cased coverage, and Global when no rule matches. |
| InternetArchive.CountryFromCoverage | src/utils/internetArchive.ts:110-115 | A missing or empty coverage gives "Unknown". Any other answer is non-empty, has no surrounding whitespace, contains no "," or ";", and occurs in the coverage text. |
| InternetArchive.CountryIsFirstSegment | src/utils/internetArchive.ts:110-115 | When the coverage is `p`, then a "," or ";", then anything, and `p` holds no separator, the country is `p` trimmed, or "Unknown" when that is blank. |
| InternetArchive.CountryWithoutSeparator | src/utils/internetArchive.ts:110-115 | Coverage with no "," or ";" gives the whole coverage trimmed, or "Unknown" when that is blank. |
| InternetArchive.DocToEntry | src/utils/internetArchive.ts:46-70 | The id is "archive-" plus the identifier. The audio URL is the download URL and is the only media item. The remaining fields follow the documented fallbacks, and the labels are valid. |
| InternetArchive.ProcessDocs | src/utils/internetArchive.ts:37-39 | Exactly the documents that have both a title and an identifier are mapped, in order. |
| InternetArchive.FetchInternetArchiveMusic | src/utils/internetArchive.ts:16-44 | A failure or a missing `docs` field gives no entries; otherwise the result is the processed documents. |
| InternetArchive.SubSaharanMeansAfricaNotNorth | src/utils/internetArchive.ts:84-91 | A Sub-Saharan answer means the coverage is present and, lower-cased, mentions "africa" but not "north". |
| InternetArchive.AfricaWithoutNorthIsSubSaharan | src/utils/internetArchive.ts:88-91 | Coverage mentioning "africa" but neither "north" nor a European word is Sub-Saharan, even when it also names Egypt. |
| InternetArchive.AmericaIsNorthAmerica | src/utils/internetArchive.ts:98-99 | Coverage that reaches the sixth rule and mentions "america" is North America. |
| InternetArchive.AmericaGoesNorth | src/utils/internetArchive.ts:98-103 | A Central- or South-American answer means the coverage does not mention "america" at all. |
| InternetArchive.SouthAmericaNeedsBrazilOrArgentina | src/utils/internetArchive.ts:98-103 | A South-American answer means the coverage names Brazil or Argentina. |
| LibraryOfCongress.RegionFromLocation | src/utils/libraryOfCongress.ts:82-90 | The answer is always one of five regions (never North Africa, East Asia, Central or South America, or Oceania), and an empty location is Global. Otherwise the region is that of the first of the location rules that matches the lower-cased location, and Global when none matches. |
| LibraryOfCongress.AnyAfricaIsSubSaharan | src/utils/libraryOfCongress.ts:84-85 | Any location mentioning "africa" but not "europe" is Sub-Saharan. |
| LibraryOfCongress.AnyAsiaIsSouthAsia | src/utils/libraryOfCongress.ts:84-86 | Any location mentioning "asia" but neither "europe" nor "africa" is South Asia. |
| LibraryOfCongress.CountryFromLocation | src/utils/libraryOfCongress.ts:92-96 | An empty location gives "Unknown". Any other answer is non-empty, has no surrounding whitespace and never contains "--". Without a "--" it is the whole trimmed location, and it is "Unknown" when that is blank. |
| LibraryOfCongress.CountryIsLastSegment | src/utils/libraryOfCongress.ts:92-96 | For a location `p + "--" + q` where `q` holds no "--" and `p` does not end in "-", the country is `q` trimmed, or "Unknown" when that is blank. |
| LibraryOfCongress.Description | src/utils/libraryOfCongress.ts:63 | A missing, empty, or single-empty-string description array gives the fixed sentence. Any other array gives its parts joined with a space. |
| LibraryOfCongress.DescriptionOfTwo | src/utils/libraryOfCongress.ts:63 | A two-part description array gives the first part, a space and the second part. |
| LibraryOfCongress.ResultToEntry | src/utils/libraryOfCongress.ts:47-68 | The id is "loc-" plus the result id and the artist is the first contributor or "Unknown Artist". The media list holds the URL exactly when there is one, and the labels are valid. |
| LibraryOfCongress.ProcessResults | src/utils/libraryOfCongress.ts:38-40 | Exactly the results with a title that, lower-cased, does not contain "collection" are mapped, in order. |
| LibraryOfCongress.FetchLibraryOfCongressMusic | src/utils/libraryOfCongress.ts:19-45 | A failure gives no entries; otherwise the result is the processed results. |
| Smithsonian.RegionFromPlace | src/utils/smithsonianFolkways.ts:106-129 | The region is that of the first of the nine rules that matches the lower-cased text `place + " " + culture`, and Global when none matches. |
| Smithsonian.Description | src/utils/smithsonianFolkways.ts:76-78 | The description is never empty. Non-empty notes win, then a non-empty physical description, then the fixed sentence. |
| Smithsonian.WesternEuropeFirst | src/utils/smithsonianFolkways.ts:109-110 | A text with a Western-European word is Western Europe, whatever else it mentions. |
| Smithsonian.AfricaBeatsEgypt | src/utils/smithsonianFolkways.ts:109-114 | "africa" without "north" and without a European word is Sub-Saharan, even if the text names Egypt or Morocco. |
| Smithsonian.SubSaharanMeansAfricaNotNorth | src/utils/smithsonianFolkways.ts:109-112 | A Sub-Saharan answer means the text mentions "africa" and not "north". |
| Smithsonian.IndiaBeforeAmerica | src/utils/smithsonianFolkways.ts:115-120 | A South-Asian word wins over "america" once the earlier rules fail. |
| Smithsonian.AmericaGoesNorth | src/utils/smithsonianFolkways.ts:119-124 | A Central- or South-American answer means the text does not mention "america". |
| Smithsonian.CentralAmericaNeedsMexico | src/utils/smithsonianFolkways.ts:119-122 | A Central-American answer means the text names Mexico, because "central america" already contains "america". |
| Smithsonian.SouthAmericaNeedsBrazilOrArgentina | src/utils/smithsonianFolkways.ts:119-124 | A South-American answer means the text names Brazil or Argentina. |
| Smithsonian.RowToEntry | src/utils/smithsonianFolkways.ts:65-92 | The id is "smithsonian-" plus the row id and the title prefers the descriptive title. The artist is the culture or "Traditional Artists" and the country is the place or "Unknown". Notes take precedence over the physical description in the description, and the labels are valid. |
| Smithsonian.ProcessRows | src/utils/smithsonianFolkways.ts:54-58 | Exactly the rows with an object type mentioning "sound" or "audio" (case-insensitively) are mapped, in order. |
| Smithsonian.FetchSmithsonianFolkways | src/utils/smithsonianFolkways.ts:29-63 | Without an API key the result is empty whatever the response. Otherwise a failure gives no entries and a success gives the processed rows. |
| Dedupe.DedupFrom | src/utils/unifiedFetcher.ts:38-48 | The kept entries are a subsequence of the input and none has a key already in `seen`. |
| Dedupe.DedupFromDistinct | src/utils/unifiedFetcher.ts:39-46 | The kept entries have pairwise distinct keys. |
| Dedupe.DedupFromKeys | src/utils/unifiedFetcher.ts:39-46 | The keys kept are exactly the input's keys minus `seen`, so no key is lost. |
| Dedupe.DedupFromFirst | src/utils/unifiedFetcher.ts:40-47 | Every kept entry is the first entry of the input with its key. |
| Dedupe.Dedup | src/utils/unifiedFetcher.ts:38-48 | The result is a subsequence with distinct keys that covers every input key, and each of its entries is the first occurrence of its key. |
| Dedupe.DedupIsFirstOccurrences | src/utils/unifiedFetcher.ts:38-48 | The result equals an independent definition: the input with every entry removed whose key occurs earlier. |
| Dedupe.DedupIdempotent | src/utils/unifiedFetcher.ts:38-48 | Deduplicating twice equals deduplicating once. |
| Dedupe.DedupFromAppend | src/utils/unifiedFetcher.ts:38-48 | Deduplicating a concatenation keeps the first part's result, then the second part without keys already seen. |
| Dedupe.DedupPrefixWins | src/utils/unifiedFetcher.ts:38-48 | Deduplicating `a + b` starts with the deduplicated `a` unchanged, and no later entry has a key that occurs in `a`. |
| UnifiedFetcher.Normalize | src/utils/unifiedFetcher.ts:51-54 | The result contains only lower-case letters and digits and is no longer than the input. |
| UnifiedFetcher.NormalizeFixedPoints | src/utils/unifiedFetcher.ts:51-54 | A string is left unchanged exactly when it already consists of lower-case letters and digits, so the trailing `trim` never changes anything. |
| UnifiedFetcher.NormalizeIdempotent | src/utils/unifiedFetcher.ts:51-54 | Normalising twice equals normalising once. |
| UnifiedFetcher.NormalizeIgnoresCase | src/utils/unifiedFetcher.ts:52 | Strings with the same lower-case form normalise alike. |
| UnifiedFetcher.NormalizeDropsPunctuation | src/utils/unifiedFetcher.ts:53 | Appending characters that are not ASCII letters or digits does not change the normalised form. |
| UnifiedFetcher.DedupKey | src/utils/unifiedFetcher.ts:56 | The key's only "-" sits right after the normalised title, because neither normal form holds a dash. The key therefore splits back into the two normal forms (see DedupKeyInjective). |
| UnifiedFetcher.DedupKeyInjective | src/utils/unifiedFetcher.ts:50-57 | Two keys are equal exactly when the normalised titles are equal and the normalised artists are equal. |
| UnifiedFetcher.KeyIgnoresCaseAndPunctuation | src/utils/unifiedFetcher.ts:50-57 | Titles and artists that differ only in ASCII case, or by trailing punctuation on the title, give the same key, so such entries collapse. |
| UnifiedFetcher.DedupEntries | src/utils/unifiedFetcher.ts:38-48 | Entry deduplication keeps a subsequence with distinct title-artist keys that covers every key of the input. |
| UnifiedFetcher.Combine | src/utils/unifiedFetcher.ts:16-20 | The combined list is the MusicBrainz entries, then the Library of Congress entries, then the Smithsonian entries. |
| UnifiedFetcher.Aggregate | src/utils/unifiedFetcher.ts:16-23 | The aggregate is a subsequence of the combined list with distinct keys covering the union of the three sources' keys. With all sources empty it is empty. |
| UnifiedFetcher.MusicBrainzWins | src/utils/unifiedFetcher.ts:16-23 | The deduplicated MusicBrainz entries come first unchanged. A later entry never repeats a MusicBrainz key. |
| UnifiedFetcher.FetchAllFolkMusic | src/utils/unifiedFetcher.ts:6-36 | The final list has distinct keys. Without a Smithsonian key it is the aggregate of the MusicBrainz and Library of Congress results alone. |
| UnifiedFetcher.AllFailedGivesSample | src/utils/unifiedFetcher.ts:9-23 | When both requests fail and there is no Smithsonian key, the result is the deduplicated sample data. |
| UnifiedFetcher.AggregateClassified | src/utils/unifiedFetcher.ts:16-23 | Deduplication and concatenation keep every entry's region and era labels valid. |
| UnifiedFetcher.AggregatedEntriesClassified | src/utils/unifiedFetcher.ts:6-31 | If the sample entries carry valid labels, every entry the aggregator returns carries valid labels. |
| Browse.PrefilterIsOneFilter | src/pages/Index.tsx:53-80 | The four guarded filter steps together equal one filter by the combined predicate (query, region, era and tags). |
| Browse.SortStep | src/pages/Index.tsx:83-95 | Sorting permutes the filtered entries. Relevance keeps their order. Newest orders by year (absent counts as 0), newest first, and keeps ties in their original order. Era and region order by the collation rank of the label and also keep ties in their original order. |
| Browse.FilteredEntries | src/pages/Index.tsx:49-98 | The shown list holds the same entries, with the same multiplicities, as the filtered list. Under relevance order it is exactly the filtered list. |
| Browse.ShownIffPasses | src/pages/Index.tsx:49-98 | An entry is shown exactly when it is loaded and passes every active filter. |
| Browse.DefaultShowsAll | src/pages/Index.tsx:23-98 | The initial filter state shows every loaded entry, in load order. |
| Browse.ToggleTag | src/pages/Index.tsx:110-117 | Toggling flips whether the tag is selected, leaves every other tag's membership unchanged and changes no other filter field. |
| Browse.ToggleTwiceAbsent | src/pages/Index.tsx:110-117 | Toggling an unselected tag twice restores the filter state exactly. |
| Browse.ToggleTwicePresent | src/pages/Index.tsx:110-117 | An example of two toggles on a selected tag: the first removes every copy, the second appends one, so the tag ends up once at the end. |
| Browse.ResetShowsAll | src/pages/Index.tsx:100-108 | After a reset, from any state, the page shows every loaded entry in load order. |

## Left out

- Network I/O, HTTP headers, JSON decoding and logging are not modelled. Each adapter receives its response as a `Response` value, and the console messages (including the source list logged at src/utils/unifiedFetcher.ts:25-29) are dropped.
- `Promise.all` concurrency: the three fetches are independent pure functions here, combined in the source's fixed order.
- The catch-all around the aggregator (src/utils/unifiedFetcher.ts:32-35) is not modelled. Each adapter already turns its own fetch failures into a value, so the catch only matters for an exception thrown after the fetches.
- UnifiedFetcher.FetchAllFolkMusic: does not model one such exception. A Smithsonian row with neither a descriptive title nor a `title` (src/utils/smithsonianFolkways.ts:68) gives an entry whose title is `undefined`, so `normalizeForDedup` throws on `toLowerCase` and the aggregator returns `[]`. The model treats the missing title as "" and keeps the entry.
- `fetchCoverArt` (src/utils/musicbrainz.ts:58-72) is not modelled, because nothing in the core calls it.
- `encodeURIComponent` is the parameter `encode`, and the image URL built with it is given no contract beyond its use.
- The bundled sample entries are the parameter `sample`, and `import.meta.env`'s Smithsonian key is the parameter `apiKey`.
- `localeCompare` is modelled as an integer `rank` of each label, i.e. as a total preorder; locale tailoring is not modelled.
- `toLowerCase` is modelled on ASCII letters only; Unicode case mapping (for instance of accented names) is not modelled.
- A year is `Option<int>`. `parseInt`'s `NaN` and an absent year are both `None`, which is faithful wherever the code tests `!year` or `year || 0`. Precision loss above 2^53 is not modelled.
- A missing required string (`title`, `identifier`) is modelled as the empty string, since the adapters' filters treat both as falsy. The exception is the Smithsonian title, which no filter checks (see `UnifiedFetcher.FetchAllFolkMusic` above). Non-string JSON values in string fields are not modelled.
- An Internet Archive `subject` delivered as a single string instead of an array is not modelled; `subject` is a list of strings.
- A missing `results` array in a Library of Congress body throws and is caught as a failure; here it is `Failed(MalformedBody)`, which gives the same empty result. The same holds for missing `docs`/`rows`.
- MusicBrainz.RegionFromCountry: treats the region table as a plain map. In JavaScript, inherited object keys such as "constructor" would return a truthy non-string; that case is not modelled.
- The Internet Archive adapter is modelled in full but the aggregator does not use it, because the source's `fetchAllFolkMusic` does not.
- The browse page loads its entries through MusicBrainz `fetchFolkMusic` (src/pages/Index.tsx:35-47), not the aggregator. `Browse` is therefore stated over any entry list.
- Loading and error flags, dialogs and rendering in `Index.tsx` are React UI and are not modelled.
- UnifiedFetcher.KeyIgnoresCaseAndPunctuation: proved as a law over all strings; particular literal titles are not evaluated.
- Text naming Egypt or Morocco is not guaranteed to be North Africa. The North-Africa rule comes after the Sub-Saharan rule, so "egypt, africa" (no "north") is Sub-Saharan in both the Internet Archive and the Smithsonian cascades (src/utils/internetArchive.ts:90-93, src/utils/smithsonianFolkways.ts:110-113). `InternetArchive.AfricaWithoutNorthIsSubSaharan` and `Smithsonian.AfricaBeatsEgypt` state this.
- An entry is not guaranteed to have tags. An empty MusicBrainz tag array is truthy, so it yields no tags instead of ["folk"] (src/utils/musicbrainz.ts:81, `MusicBrainz.EmptyTagArrayGivesNoTags`).
