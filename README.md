# LA Works volunteer scraper and zip-code map, modelled in Dafny

This project models the two data pipelines of the LA Works volunteer tooling.

The **scraper** (`scraper.py`) turns the rows of the LA Works search-results table into `Opportunity` records. The model covers:
- the ID extraction from the link;
- root-relative URL resolution against the site origin;
- type classification by the first CSS marker found in the link's class;
- the "Ongoing" date fallback and whitespace trimming;
- the bounded "Load more" loop;
- the per-row harvest that skips rows whose extraction raises.

The **map builder** (`visualize.py`) files opportunities by the zip code found in their location. Rows without one go to a "virtual" list. The model covers:
- detecting which property of the boundary polygons holds the zip code;
- joining each polygon whose zip code has a bucket with that bucket's opportunities. The result is a GeoJSON FeatureCollection (sections 3.2 and 3.3 of RFC 7946);
- the statistics and the virtual-opportunity list the page is generated from.

The modules follow the components of the system:

| file | module | component |
|---|---|---|
| `wrappers.dfy` | `Wrappers` | `Option` and `Result` |
| `sequences.dfy` | `Sequences` | the subsequence relation, for "keeps the input order" |
| `text.dfy` | `Text` | ASCII character classes, `str.strip()`, `str.lower()`, substring tests |
| `config.dfy` | `Config` | `BASE_URL`, `OPP_TYPE_CLASSES` (in order), `MAX_LOAD_MORE_CLICKS` |
| `models.dfy` | `Models` | the `Opportunity` record |
| `field_extractor.dfy` | `FieldExtractor` | `_extract_id_from_href` and `_extract_row` |
| `loader.dfy` | `Loader` | `_load_all_results` |
| `harvester.dfy` | `Harvester` | `_extract_all_rows` |
| `zip_aggregator.dfy` | `ZipAggregator` | `ZIP_RE`, `extract_zipcode`, `group_by_zip` |
| `boundary_matcher.dfy` | `BoundaryMatcher` | `_find_zip_property`, `build_choropleth_geojson` |
| `map_page.dfy` | `MapPage` | the virtual list and the statistics of `generate_html` |

The browser is an oracle.
- A row is a `RowView`: the list of elements each of `_extract_row`'s locators matches.
- The loader sees one `Round` per click number: the row count before the click, the state of the "Load more" control, whether scrolling to or clicking the control raises, and the row count when the wait ends.
- Python exceptions become `None` in `_extract_row`, whose row the harvester then skips; a `LoadExit` value in the loader (`NoGrowth` for the caught wait timeout, `ClickRaised` for the uncaught scroll or click); and `Result.Failure` in the map builder.
  - `KeyError` on a missing key is `MissingKey`.
  - `ValueError` is `ZipPropertyNotFound`.

The grouping lemmas of `ZipAggregator` take the key function as a parameter. `group_by_zip` uses `ZipOf`, the `extract_zipcode` of a row's `location` field. The partition, order and size facts hold for any key function.

Two invariants one might expect of the system are not enforced by the code where one would look for them. The model follows the code:
- An extracted opportunity could be expected to have a non-empty title and organisation. `_extract_row` does not check this: an empty link text gives an empty title (`FieldExtractor.EmptyTitleIsKept`).
- Every feature of the map could be expected to have a count of at least 1. The join does not check this. It holds only because `group_by_zip` never creates an empty bucket (`MapPage.JoinedStats`).

## Model

| member | source | states |
|---|---|---|
| Text.Strip | scraper.py:159 | `str.strip()` leaves no whitespace at either end and never lengthens the text |
| Text.StripSlice | scraper.py:159 | the stripped text is a slice of the original with only whitespace around it |
| Text.StripTrimmed | scraper.py:159 | stripping an already trimmed text changes nothing, so stripping is idempotent |
| Text.ToLower | scraper.py:177 | `lower()` keeps the length and lower-cases each ASCII letter in place |
| Text.LowerStripContains | scraper.py:176-177 | for a lower-case word, `word in text.strip().lower()` holds exactly when the text contains the word in any letter case |
| FieldExtractor.AlnumRunEnd | scraper.py:28 | the greedy `[a-zA-Z0-9]+` run ends at the first non-alphanumeric character or at the end |
| FieldExtractor.FirstIdFrom | scraper.py:28 | `re.search` finds the leftmost position where "/opportunity/" is followed by an alphanumeric character |
| FieldExtractor.ExtractIdFromHref | scraper.py:24-29 | a missing or empty href yields nothing; otherwise the ID is the non-empty alphanumeric run captured at the leftmost match; it is `None` exactly when no position matches |
| FieldExtractor.ResolveHref | scraper.py:139 | a non-empty href starting with "/" gets `BASE_URL` in front; every other href, `None` included, is kept; the result is never root-relative |
| FieldExtractor.ResolvedHrefKeepsId | scraper.py:139-140 | taking the ID from the raw href gives the same ID as taking it from the resolved URL |
| FieldExtractor.FirstMarker | scraper.py:145-148 | finds the first marker, in table order, that occurs in the class string; no earlier marker occurs |
| FieldExtractor.TypeFor | scraper.py:143-148 | the type is one of the four types; it is the default when no marker occurs, and otherwise the value of the first marker that occurs |
| FieldExtractor.ClassifyType | scraper.py:143-148 | the first-match loop with `break` computes `TypeFor` of the class string, with a missing class treated as "" |
| FieldExtractor.DateWithFallback | scraper.py:165-178 | a non-blank date is kept; a blank date becomes "Ongoing" exactly when the raw time-cell text contains "ongoing" in any case; otherwise the date keeps its prior value |
| FieldExtractor.OptionalText | scraper.py:166-172 | an optional span gives nothing exactly when it is absent; otherwise its text, trimmed |
| FieldExtractor.RowRecord | scraper.py:132-197 | a row yields a record exactly when every locator read succeeds: links present, one match per cell, at most one of each optional span |
| FieldExtractor.ExtractedRecordIsNormalised | scraper.py:132-197 | title, organisation, location and distance are trimmed, and so are date, time and duration when present; the type is one of four and is the first marker's type for the link's class; both URLs are resolved by the same root-relative rule; neither URL is root-relative; the ID comes from the raw href; `datetime_iso` is the raw `data-order` attribute; a row without a date span is "Ongoing" exactly when its time cell mentions "ongoing" |
| FieldExtractor.EmptyTitleIsKept | scraper.py:185 | some extractable row yields a record whose title is empty: the code does not reject empty titles |
| FieldExtractor.ExtractRow | scraper.py:132-197 | the reads, the type loop and the conditional date overwrite compute `RowRecord` |
| Loader.LoadAllResults | scraper.py:78-107 | at most `MAX_LOAD_MORE_CLICKS` clicks, each on a visible control whose scroll and click went through; it stops when the control is absent or hidden or the count did not grow, and raises (`ClickRaised`) when scrolling to or clicking a visible control fails, since that call is outside the `try`; every round that continued saw strict growth |
| Harvester.Outcomes | scraper.py:119-122 | one extraction outcome per row, the `_extract_row` result of that row |
| Harvester.ExtractAllRows | scraper.py:112-130 | the records are the successful outcomes in row-index order, with failing rows skipped |
| Harvester.Successes | scraper.py:119-128 | the records of the successful outcomes in order, never more than the outcomes; its other properties are `SuccessesAppend`, `SkipsFailedRow` and `SuccessesComplete` |
| Harvester.SuccessesAppend | scraper.py:119-128 | records from earlier rows come first, and each stretch of rows contributes independently |
| Harvester.SkipsFailedRow | scraper.py:122-128 | a row whose extraction raises adds nothing and leaves the records of the other rows unchanged |
| Harvester.SuccessesComplete | scraper.py:119-128 | one record per row exactly when no extraction raises |
| Harvester.OutcomeFails | scraper.py:122-128 | a row is lost exactly when one of `_extract_row`'s reads fails on it |
| ZipAggregator.ZipFullMatchIsZip | visualize.py:21 | a full match of `\b(\d{5})\b` is exactly a five-digit string |
| ZipAggregator.FirstZipFrom | visualize.py:29 | the `ZIP_RE.search` scan from left to right; its contract says only that a returned position starts five digits; the leftmost-match property is `FirstZipFromIsLeftmost` |
| ZipAggregator.FirstZipFromIsLeftmost | visualize.py:21 | `ZIP_RE.search` finds the leftmost five-digit run with no word character on either side; when it finds none, no position matches |
| ZipAggregator.ExtractZipcode | visualize.py:27-30 | a returned zip code is exactly five ASCII digits |
| ZipAggregator.ExtractZipcodeIsLeftmostMatch | visualize.py:27-30 | the result is `None` exactly when no standalone five-digit run exists, `None` location included; otherwise it is the leftmost one |
| ZipAggregator.ExtractZipcodeFindsZipPlusFour | visualize.py:27-30 | "CA 90065-1234" yields "90065" |
| ZipAggregator.ExtractZipcodeRejects | visualize.py:27-30 | "900651", "CA90065", `None` and "" yield nothing |
| ZipAggregator.ZipOf | visualize.py:39 | the zip code a row is filed under, found in its `location` field read as "" when missing; a found zip code is five digits |
| ZipAggregator.GroupByZip | visualize.py:33-44 | the buckets and the virtual list form the grouping of the rows by the zip code of their `location`; every key is a five-digit zip code with a non-empty bucket |
| ZipAggregator.GroupingSnoc | visualize.py:39-43 | filing one more row with `setdefault(...).append` or `virtual.append` keeps the grouping, for any key function |
| ZipAggregator.RoutedCount | visualize.py:39-43 | a row occurs in the bucket of its own zip code, or in the virtual list, as often as in the input, and in no other bucket |
| ZipAggregator.GroupingIsPartition | visualize.py:38-43 | the grouping is a total, disjoint partition: every row is in exactly one place |
| ZipAggregator.GroupingKeepsOrder | visualize.py:40-43 | each bucket and the virtual list keep the input order |
| ZipAggregator.GroupingSizes | visualize.py:38-43 | the bucket sizes plus the number of virtual rows equal the number of rows |
| BoundaryMatcher.Keys | visualize.py:91 | the sample lists the first feature's property names in order |
| BoundaryMatcher.FirstCandidate | visualize.py:71-74 | the first candidate key, in the fixed order, whose value is a five-digit string |
| BoundaryMatcher.FirstZipEntry | visualize.py:75-77 | the first property, in insertion order, whose value is a five-digit string; non-string values never count |
| BoundaryMatcher.FindZipProperty | visualize.py:68-78 | definition only (candidates first, then insertion order); its contract is `FindZipPropertyIsFirstHit` |
| BoundaryMatcher.FindZipPropertyIsFirstHit | visualize.py:68-78 | candidates win in their fixed order; only when none holds a zip code is the first property with a zip string taken; `None` exactly when neither exists |
| BoundaryMatcher.FoundKeyHoldsZip | visualize.py:71-77 | the detected key's value is a string of five digits |
| BoundaryMatcher.SearchedCount | visualize.py:86 | the search looks at `min(5, len(features))` features |
| BoundaryMatcher.DetectZipKey | visualize.py:85-89 | definition only (the key of the first of at most five features that yields one); its contract is `DetectZipKeyIsFirstHit` |
| BoundaryMatcher.DetectZipKeyIsFirstHit | visualize.py:85-90 | the key comes from the first of the first five features that yields a non-empty key; there is none exactly when none of them yields one |
| BoundaryMatcher.DetectZipKeyIgnoresTail | visualize.py:86 | features after the fifth do not influence the detected key |
| BoundaryMatcher.NoKeyError | visualize.py:90-92 | definition only: the `ValueError` listing the first feature's property names, none for no features, or the `KeyError` when that feature lacks `properties`; used by `NoKeyNoOutput` |
| BoundaryMatcher.NoKeyNoOutput | visualize.py:90-92 | without a key in the first five features, nothing is produced and the ValueError lists the first feature's property names; it lists none for an empty feature list |
| BoundaryMatcher.Summarize | visualize.py:108-115 | `title` and `organization` are copied and required; the other four fields default to "" |
| BoundaryMatcher.Summaries | visualize.py:107-117 | definition only (the `opportunities` comprehension); its contract is `SummariesAreRowwise` |
| BoundaryMatcher.SummariesAreRowwise | visualize.py:107-117 | one summary per bucket row, in bucket order, or the error of the first row lacking a required field |
| BoundaryMatcher.Emit | visualize.py:97-121 | definition only (one pass of the join loop: skip, raise or emit one feature); its contract is `EmitShape` |
| BoundaryMatcher.Join | visualize.py:94-121 | definition only (the join loop as a value); its contract is `JoinFollowsEmitted` with `JoinFailureSticks` |
| BoundaryMatcher.JoinFailureSticks | visualize.py:96-121 | once the join loop raises, later features change nothing |
| BoundaryMatcher.Emitted | visualize.py:96-98 | the features the join keeps are those of the input whose zip code is a bucket key |
| BoundaryMatcher.EmittedIsSubsequence | visualize.py:96-98 | the kept features are in boundary order |
| BoundaryMatcher.EmittedCount | visualize.py:96-98 | a kept feature occurs as often as among the boundaries, duplicates included; any other feature never |
| BoundaryMatcher.JoinFollowsEmitted | visualize.py:96-121 | the join succeeds exactly when every feature can be read; it then emits one feature per kept boundary feature, in boundary order, duplicates included |
| BoundaryMatcher.EmitShape | visualize.py:97-119 | an output feature keeps the geometry, has the boundary's zip code as a bucket key, the bucket's size as count, and one summary per bucket row in order |
| BoundaryMatcher.Choropleth | visualize.py:81-127 | definition only (`build_choropleth_geojson` as a value); its contracts are `ChoroplethFeatures`, `ChoroplethZipcodes`, `NoKeyNoOutput` and `BuildChoroplethGeojson` |
| BoundaryMatcher.ChoroplethFeatures | visualize.py:96-121 | the output features correspond one to one with the kept boundary features, with geometry, zip code and count as above |
| BoundaryMatcher.ChoroplethZipcodes | visualize.py:121-125 | the output zip codes are exactly the bucket keys some boundary carries; the rest are only reported |
| BoundaryMatcher.JoinFeatures | visualize.py:94-121 | the append loop computes the join, and `matched` is the set of zip codes it emitted |
| BoundaryMatcher.BuildChoroplethGeojson | visualize.py:81-127 | the key search and the join compute `Choropleth`; `unmatched` is the bucket keys that no output feature carries |
| MapPage.VirtualEntry | visualize.py:699-707 | `title` and `organization` are required; date, type and url default to "" |
| MapPage.VirtualList | visualize.py:699-708 | definition only (the `virtual_list` comprehension); its contract is `VirtualListIsRowwise` |
| MapPage.VirtualListIsRowwise | visualize.py:699-708 | the virtual list has one entry per virtual row in the same order, or the first missing-field error |
| MapPage.TotalMapped | visualize.py:711 | definition only (the sum of the counts); its contract is `TotalMappedBounds` |
| MapPage.MaxCount | visualize.py:714-716 | the largest count, bounding every count and attained by one; 1 for no features |
| MapPage.TotalMappedBounds | visualize.py:711 | no count exceeds the total; with positive counts the total is at least the number of features |
| MapPage.MaxCountBounds | visualize.py:711-716 | `max_count` is at least 1 when no count is 0, and at most `total_mapped` when there are features |
| MapPage.GeneratePageData | visualize.py:696-716 | page data exists exactly when the virtual list can be built; `total_zips` is the number of features, `virtual_count` the number of virtual rows, `total_mapped` the sum of the counts and `max_count` the largest count (1 for no features), as `TotalMapped` and `MaxCount` characterise them |
| MapPage.JoinedStats | visualize.py:711-716 | on a join over a grouping, every count is a non-empty bucket's size, `max_count` is at least 1, and `total_mapped` is at least the number of features |

## Left out

- Unicode: Python 3's `\d`, `\b`, `\w`, `str.strip()` and `str.lower()` are Unicode-aware. The model works over ASCII only.
- Browser session: starting and stopping Playwright, `page.goto`, `wait_for_selector`, the wait timeouts, `asyncio.sleep` and logging are left out. They are asynchronous I/O, and the oracle values replace them.
- Loader.LoadAllResults: when several "Load more" controls match, the visibility test raises a strict-mode error that ends the scrape like `ClickRaised`; that case is not modelled.
- CSV reading in `group_by_zip` is left out, because it is file I/O. Rows are in-memory maps. A short CSV row, where `DictReader` fills `None`, is not modelled.
- Boundary download and cache (`download_boundaries`) are left out. They are network and file I/O, and the boundaries are a value.
- `properties` that is JSON `null` or not an object is not modelled: it would raise `AttributeError`.
- Property values: values other than strings are represented by their `str()` text.
- Duplicate JSON keys: a properties object is an ordered list of pairs, and lookups take the first entry. Python's `json` keeps the last value of a repeated key, at the position of its first occurrence. On such input `FindZipProperty` and `BoundaryZip` can give a different key or zip code than the code does.
- BoundaryMatcher.FoundKeyHoldsZip: requires distinct property keys, as a Python dict has them, because a duplicate key could hide the zip-code value behind an earlier entry.
- The printed warning about unmatched zip codes is left out. `BuildChoroplethGeojson` returns the unmatched set instead.
- `HTML_TEMPLATE` and the `.replace` chain of `generate_html` are left out: they are presentation. So are `json.dumps` and the page's JavaScript (`getColor`, `filterOpps`, `applyFilters`).
- `main.py` and `save_results` are left out. They are CLI and output plumbing.
- `scraped_at` in `models.py` reads the wall clock, so it is not part of `Opportunity`.
- `scrape_search_results`, the search-page navigation around the two loops, is left out. It is browser I/O.
