# Taco Bell price-heatmap pipeline, modelled in Dafny

This project models the three data transformations at the core of the Taco-Bell-Crawler
repository and proves properties of them:

1. **The Florida price-heatmap builder** (`create_florida_heatmap_data.py`). The script
   - keeps the location records whose `state` is `"FL"`;
   - looks up each store's menu file `Menu/fl_<store_number>_menu.json`;
   - searches the menu's categories, then their items, for the first item named `Classic Luxe Box`;
   - reads a number out of that item's price string with `\$?(\d+\.?\d*)`;
   - appends one heatmap entry per priced store;
   - prints the count and, only when there is an entry, the price range;
   - saves the entries.

   The module `Heatmap` (`heatmap.dfy`) holds the driver. `MenuSearch` (`menu_search.dfy`)
   holds the nested search and the price regular expression. `Decimal` (`decimal.dfy`) holds
   the exact decimal values.
2. **The CSV location loader** (`js/csvParser.js`). This part covers
   - `parseCSVLine`, the quote-aware splitter with ECMAScript global-match semantics (`CsvLine`, `csv_line.dfy`);
   - `extractCoordinates`, which reads `destination=<lat>,<lng>` with `parseFloat` (`Coordinates`, `coordinates.dfy`);
   - the line loop of `loadLocations` (`Loader`, `loader.dfy`).

   JavaScript's `trim` and `split` are in `Text` (`text.dfy`).
3. **The menu-category record builder** (`scrape/menu.py`, `parse_categories`). It turns
   the decoded product categories of a store's menu page into `{name, url, description}`
   records (`MenuCategories`, `menu_categories.dfy`).

The file system and the network are inputs:
- the menu directory is a map from path to `Absent | ParseFailure | Menu(document)`;
- the fetched CSV is a parameter;
- the decoded `__NEXT_DATA__` payload is a parameter.

The lines the heatmap script prints are values of the returned `Run`, and so is the list it
saves. JSON documents are modelled only as far as the code reaches into them. Each `…Other`
variant stands for a JSON value on which the Python code raises: a `.get` on a non-object,
`.items()` on a non-object, iteration over a number, or `re.search` on a non-string.
Prices and coordinates are exact decimals (`real`), not IEEE doubles.

The loops of the source are methods: `BuildHeatmap`, `FindClassicLuxePrice`,
`LoadLocations` and `ParseCategories`. Each is proved equal to a recursive specification
function, and the properties are proved about those functions.

In three places the code does something other than what the script evidently intends; the model
follows the code:
- A location without a `state` key does not just drop out of the filter. The comprehension at
  `create_florida_heatmap_data.py:10` is outside every `try`, so the KeyError ends the run
  before anything is written (`Heatmap.MissingStateAborts`).
- The price search does not always stop at the first matching item. The inner `break` fires
  on the first name match in a category even when its price has no digit. The outer `break`
  fires only once a numeric price exists. So a later category can still supply the price,
  but a later item in the same category cannot (`MenuSearch.LaterItemInSameCategoryIgnored`,
  `MenuSearch.LaterCategoryStillSearched`).
- Every exception inside the per-store `try` is reported and skipped, not only parse
  failures. That includes a location missing `lat`, `lng`, `county` or `url`, which is found
  only once a price exists (`Heatmap.MissingField`). A location without `store_number` raises
  outside the `try` and ends the run.

## Model

| member | source | states |
|---|---|---|
| `Heatmap.FloridaLocations` | create_florida_heatmap_data.py:10 | None exactly when some record lacks `state` (the uncaught KeyError); otherwise exactly the records whose state is "FL", as a subsequence in original order, each as many times as it occurs in the input |
| `Heatmap.MenuFilePathInjective` | create_florida_heatmap_data.py:18-19 | distinct store numbers name distinct menu files, so the join on store number is exact |
| `Heatmap.MissingField` | create_florida_heatmap_data.py:41-48 | the entry literal raises exactly when one of `lat`, `lng`, `county`, `url` is missing |
| `Heatmap.Prices` | create_florida_heatmap_data.py:57 | the price list has one price per entry, position by position |
| `Heatmap.MinOf` | create_florida_heatmap_data.py:58 | `min` of a non-empty list is one of its elements and at most every element |
| `Heatmap.MaxOf` | create_florida_heatmap_data.py:58 | `max` of a non-empty list is one of its elements and at least every element |
| `Heatmap.Summary` | create_florida_heatmap_data.py:56-58 | a range exists exactly when there is an entry; then min ≤ every price ≤ max, and both bounds are entry prices |
| `Heatmap.Summarise` | create_florida_heatmap_data.py:53-64 | the code after the loop computes the range only for a non-empty list and prints the count, the range if any, and the save |
| `Heatmap.ProcessStore` | create_florida_heatmap_data.py:18-51 | one loop iteration equals the per-store specification: an absent file is silent, an exception gives one error line naming the menu file, a price gives one entry |
| `Heatmap.BuildHeatmap` | create_florida_heatmap_data.py:9-64 | the script, with `heatmap_data` appended in a loop, equals the whole-run specification `HeatmapRun` |
| `Heatmap.StoresAreIndependent` | create_florida_heatmap_data.py:17-51 | processing `a + b` is processing `a` and then `b`; nothing carries over between stores except an escaped KeyError |
| `Heatmap.AbortIsFinal` | create_florida_heatmap_data.py:17-18 | once a KeyError escapes the loop, no later store is processed |
| `Heatmap.LoopStep` | create_florida_heatmap_data.py:17-51 | a store with a number appends its step's entries and lines and does not stop the loop |
| `Heatmap.StoppedRun` | create_florida_heatmap_data.py:18 | a store without `store_number` ends the run with the lines printed so far and nothing saved |
| `Heatmap.FinishedRun` | create_florida_heatmap_data.py:17-64 | a loop that finishes gives a completed run with the accumulated entries and the summary |
| `Heatmap.StepEntryIsBuilt` | create_florida_heatmap_data.py:40-48 | one store gives at most one entry, built from that location and its menu's price |
| `Heatmap.EntriesComeFromFloridaInOrder` | create_florida_heatmap_data.py:10-48 | every saved entry comes from a distinct location with state exactly "FL". It has exactly that location's `store_number`, `lat`, `lng`, `county`, `url` and the price found in its menu file. Entries keep their locations' order |
| `Heatmap.AbsentMenuLeavesNoTrace` | create_florida_heatmap_data.py:21 | a store whose menu file does not exist changes neither the entries nor the log: the run is as if it were not listed |
| `Heatmap.FailingStoreIsLoggedAndSkipped` | create_florida_heatmap_data.py:22-51 | a store whose processing raises adds exactly one error line naming its menu file and no entry; the stores after it are processed unchanged |
| `Heatmap.StoreStepReports` | create_florida_heatmap_data.py:21-51 | the whole outcome of one store: an absent file or a menu without the box adds nothing; an unparsable file, a search that raises and a priced store whose location lacks `lat`, `lng`, `county` or `url` each add exactly one error line naming the menu file, no entry, and do not stop the loop; a priced store with every member adds its entry and its price line |
| `Heatmap.PricedStoreIsAppended` | create_florida_heatmap_data.py:40-49 | a priced store with every member appends its entry and price line right after what the stores before it produced; the stores after it run unchanged |
| `Heatmap.PricedStoreHasEntry` | create_florida_heatmap_data.py:17-49 | in a store loop that does not abort, every priced store with every member has its entry |
| `Heatmap.PricedFloridaStoreHasEntry` | create_florida_heatmap_data.py:10-49 | in a completed run, every Florida location with a number, a priced menu file and every member has its entry in the saved data (the converse of `EntriesComeFromFloridaInOrder`) |
| `Heatmap.CompletedRunSummary` | create_florida_heatmap_data.py:53-62 | in a completed run the range exists exactly when there are entries and bounds every price; with no entries the log ends with count 0 and the save |
| `Heatmap.MissingStateAborts` | create_florida_heatmap_data.py:10 | a location without `state` aborts the run before anything is printed or saved |
| `Heatmap.SingleStoreScenario` | create_florida_heatmap_data.py:9-64 | one Florida store whose menu lists the box at "$5.00" gives exactly the entry (100, 1.0, 2.0, 5.0, Dade, u) and the range 5.0–5.0 |
| `MenuSearch.SearchFrom` | create_florida_heatmap_data.py:33 | `re.search` finds the leftmost match, and group 1 starts at a digit |
| `MenuSearch.ExtractPrice` | create_florida_heatmap_data.py:31-35 | there is no price exactly when the string holds no digit |
| `MenuSearch.NoMatchIffNoDigit` | create_florida_heatmap_data.py:33-34 | the regex fails exactly when no digit follows the search position |
| `MenuSearch.SearchFindsFirstDigit` | create_florida_heatmap_data.py:33 | group 1 starts at the first digit of the string, whether or not `$` precedes it |
| `MenuSearch.ExtractFirstDecimal` | create_florida_heatmap_data.py:33-35 | the first `digits.digits` run, preceded by no digit, gives exactly its decimal value |
| `MenuSearch.ExtractFirstInteger` | create_florida_heatmap_data.py:33-35 | the first run of digits without a point gives exactly its integer value |
| `MenuSearch.ExtractDollarFive` | create_florida_heatmap_data.py:31-35 | "$5.00" gives 5.0 |
| `MenuSearch.ExtractPlainFive` | create_florida_heatmap_data.py:31-35 | "5" gives 5.0 |
| `MenuSearch.ExtractEmbeddedPrice` | create_florida_heatmap_data.py:31-35 | "Price: $12.50 each" gives 12.5 |
| `MenuSearch.ExtractNoDigit` | create_florida_heatmap_data.py:31-35 | "Market Price" and the default '' for a missing price give no price |
| `MenuSearch.FindClassicLuxePrice` | create_florida_heatmap_data.py:26-38 | the nested loops with their two `break`s compute the search specification `MenuPrice`, including every exception case |
| `MenuSearch.OnlyFirstMatchExamined` | create_florida_heatmap_data.py:29-36 | within a category only the first item named Classic Luxe Box is examined; whatever follows it is never looked at |
| `MenuSearch.CategoriesScanIsFirstVerdict` | create_florida_heatmap_data.py:28-38 | the outer loop yields the verdict of the first category that does not end without a price, or no price when none does |
| `MenuSearch.FirstDecided` | create_florida_heatmap_data.py:28-38 | the index of the first category whose verdict is not "no price" |
| `MenuSearch.PricedComesFromFirstPricedCategory` | create_florida_heatmap_data.py:28-38 | the search finds price v exactly when some category gives v and every earlier category gave no price |
| `MenuSearch.FirstCategoryWins` | create_florida_heatmap_data.py:28-38 | with the box in two categories at $5.00 and $7.00, the first category's price wins |
| `MenuSearch.LaterItemInSameCategoryIgnored` | create_florida_heatmap_data.py:30-36 | a first match with no digits ends its category: a later priced match in the same category is ignored |
| `MenuSearch.LaterCategoryStillSearched` | create_florida_heatmap_data.py:37-38 | after a category whose match had no digits, a later category still supplies the price |
| `Decimal.DecimalValue` | create_florida_heatmap_data.py:35 | the exact value of `whole.frac` lies in [whole, whole + 1) |
| `Decimal.TrailingZeros` | create_florida_heatmap_data.py:35 | trailing zeros after the point do not change the value ("5.00" equals "5.0") |
| `Decimal.DigitRunEnd` | create_florida_heatmap_data.py:33 | the greedy `\d*` run ends at the first non-digit |
| `Decimal.DigitRunEndOf` | create_florida_heatmap_data.py:33 | a digit run followed by a non-digit is exactly what the greedy run takes |
| `CsvLine.QuotedEnd` | js/csvParser.js:3 | the quoted alternative, backtracking included, ends just after a closing quote |
| `CsvLine.PlainEnd` | js/csvParser.js:3 | `[^,]*` stops at the next comma or at the end |
| `CsvLine.PlainEndStopsAtComma` | js/csvParser.js:3 | a plain field holds no comma |
| `CsvLine.MatchAt` | js/csvParser.js:3 | a match begins exactly at position 0 or at a comma |
| `CsvLine.NextMatch` | js/csvParser.js:3 | the global search returns the leftmost match at or after `lastIndex` |
| `CsvLine.ParseCsvLine` | js/csvParser.js:2-13 | as written: at least one field, and never null; the first field is the first match cleaned |
| `CsvLine.ParseCsvLineFixed` | js/csvParser.js:2-13 | the corrected splitter: at least one field |
| `CsvLine.MatchAllFromComma` | js/csvParser.js:3 | past position 0, the global search finds exactly the comma-led matches |
| `CsvLine.MatchAllShape` | js/csvParser.js:3 | as written, the search resumes one position late after an empty first field |
| `CsvLine.AsWrittenAgreesWithoutLeadingComma` | js/csvParser.js:2-13 | unless the line starts with a comma, the splitter as written equals the corrected one |
| `CsvLine.LeadingEmptyFieldDropsSecond` | js/csvParser.js:3 | as written, on a line starting with a comma whose second field is unquoted, exactly the second field is lost |
| `CsvLine.LeadingCommaExample` | js/csvParser.js:2-13 | ",b,c" gives ["", "c"] as written and ["", "b", "c"] corrected |
| `CsvLine.CleanAllConcat` | js/csvParser.js:6-12 | cleaning is applied match by match |
| `CsvLine.UnescapeEscape` | js/csvParser.js:9 | undoing doubled quotes inverts doubling them |
| `CsvLine.QuotedEndOf` | js/csvParser.js:3 | a quoted text with its inner quotes doubled is matched up to its own closing quote |
| `CsvLine.CommaMatchesOfCommaLine` | js/csvParser.js:3 | on comma-separated well-formed fields the search finds one match per field: the comma and the field as written |
| `CsvLine.FieldEndOf` | js/csvParser.js:3 | a well-formed field followed by a comma or the end is matched whole, commas inside quotes included |
| `CsvLine.CleanEncoded` | js/csvParser.js:7-9 | a written field, with or without its separating comma, cleans back to its text: outer quotes removed, `""` undone |
| `CsvLine.RoundTrip` | js/csvParser.js:2-13 | well-formed fields (bare without commas or a leading quote, or quoted with inner quotes doubled) joined with commas parse back to their texts |
| `CsvLine.UnquotedLineSplitsAtCommas` | js/csvParser.js:3-7 | a line without quotes gives one more field than commas, each the verbatim text between commas |
| `CsvLine.AsWrittenUnquotedLineSplitsAtCommas` | js/csvParser.js:3-7 | the same for the splitter as written, on lines that do not start with a comma |
| `Text.Split` | js/csvParser.js:31 | `split('\n')` gives one more piece than separators; no piece holds one; joining the pieces gives the text back |
| `Text.Trim` | js/csvParser.js:31 | `trim()` gives a slice of the text with white space on both sides cut off, and neither end is white space |
| `Coordinates.CoordRunEnd` | js/csvParser.js:18 | the greedy `[-\d.]+` run ends at the first character outside the class |
| `Coordinates.CoordRunAll` | js/csvParser.js:18 | everything the greedy run takes is a `-`, a digit or a `.` |
| `Coordinates.GroupsAt` | js/csvParser.js:18 | both groups are non-empty runs of `-`, digits and `.` |
| `Coordinates.FindMatch` | js/csvParser.js:18 | the leftmost position where `destination=<run>,<run>` matches |
| `Coordinates.UnsignedPrefix` | js/csvParser.js:21-22 | a number exists exactly when the text starts with a digit or with a point and a digit, and it is non-negative |
| `Coordinates.ParseFloat` | js/csvParser.js:21-22 | NaN exactly when, after an optional sign, there is no numeric prefix |
| `Coordinates.ParseFloatSign` | js/csvParser.js:21-22 | a leading minus negates the number that follows |
| `Coordinates.UnsignedPrefixOf` | js/csvParser.js:21-22 | `whole.frac` followed by a non-digit reads as its exact value |
| `Coordinates.ExtractCoordinates` | js/csvParser.js:15-25 | null for the empty URL, for a URL without `destination=`, and whenever the pattern matches nowhere in the URL |
| `Coordinates.NoEarlierMatch` | js/csvParser.js:18 | no match starts before the first occurrence of the key |
| `Coordinates.ExtractsFirstDestination` | js/csvParser.js:18-24 | the first `destination=<lat>,<lng>` occurrence gives both runs' numeric prefixes, or null if either has none |
| `Coordinates.TampaExample` | js/csvParser.js:15-25 | "maps?destination=27.9506,-82.4572" gives (27.9506, -82.4572) |
| `Coordinates.SignWithoutDigitsIsRejected` | js/csvParser.js:21-24 | "destination=-,5" gives null, because "-" has no numeric prefix |
| `Loader.RecordFrom` | js/csvParser.js:35-50 | a line's fields give a record exactly when there are at least 4 and the 4th yields coordinates; the record holds the first four fields and the coordinates its map URL yields |
| `Loader.RecordOf` | js/csvParser.js:35-50 | a line, split by the corrected splitter, gives a record exactly when it has at least 4 fields and the 4th yields coordinates; the record's coordinates are the ones in its map URL |
| `Loader.RecordOfAsWritten` | js/csvParser.js:35-50 | the same, for the line split by `parseCSVLine` as written |
| `Loader.AsWrittenRecordAgrees` | js/csvParser.js:35-50 | unless a line starts with a comma, both splitters give it the same record |
| `Loader.LeadingCommaLineDroppedAsWritten` | js/csvParser.js:35-36 | a four-field line with an empty first field and an unquoted second one is a record under the corrected splitter but is dropped as written, being split into three fields |
| `Loader.LocationsFrom` | js/csvParser.js:34-51 | at most one record per line |
| `Loader.RecordsMatchTheirUrls` | js/csvParser.js:39-49 | every loaded record carries the coordinates its own map URL yields |
| `Loader.LoadLocations` | js/csvParser.js:27-57 | the loop from index 1 pushes exactly the records of the lines after the header, in order; a failed fetch gives [] |
| `Loader.LocationsFromStep` | js/csvParser.js:34-51 | one more line appends at most its own record |
| `Loader.LocationsFromConcat` | js/csvParser.js:34-51 | two blocks of lines give the records of each, in order |
| `Loader.RecordsComeFromLines` | js/csvParser.js:34-51 | every record is the record of one of the data lines |
| `Loader.HeaderOnly` | js/csvParser.js:31-34 | a text that is a single line after trimming is only a header and gives no record |
| `Loader.RecordOfWrittenLine` | js/csvParser.js:35-50 | a line of well-formed fields gives the record of its first four fields, extra fields ignored, exactly when the 4th carries coordinates |
| `Loader.TampaStoreLine` | js/csvParser.js:35-50 | a store line whose quoted map URL holds a comma is loaded with its coordinates |
| `MenuCategories.ProductCategories` | scrape/menu.py:54 | the chained lookups raise exactly on a non-object along the path; a missing key gives the empty list |
| `MenuCategories.CategoryUrl` | scrape/menu.py:62-66 | empty exactly when the slug is absent or empty; otherwise root + slug + "?store=" + store id |
| `MenuCategories.SlugRoundTrip` | scrape/menu.py:63-64 | the slug can be read back from a non-empty link |
| `MenuCategories.UrlsDistinguishSlugs` | scrape/menu.py:63-64 | different slugs give different links for the same store |
| `MenuCategories.RecordFor` | scrape/menu.py:57-72 | name is the label or "Unknown", description is the subtitle or "", url as built above |
| `MenuCategories.Records` | scrape/menu.py:56-72 | one record per category |
| `MenuCategories.RecordsStep` | scrape/menu.py:57-72 | one more category appends exactly its record |
| `MenuCategories.RecordsAt` | scrape/menu.py:56-72 | the record at each position is the record of the category at that position |
| `MenuCategories.CategoriesOf` | scrape/menu.py:39-78 | a result exists only for a decoded page whose lookups succeed |
| `MenuCategories.ParseCategories` | scrape/menu.py:39-78 | the loop that appends one record per category equals the specification `CategoriesOf` |
| `MenuCategories.OneRecordPerCategory` | scrape/menu.py:56-74 | on a category list, the result exists exactly when every category is an object, and then it has one record per category, in the same order |
| `MenuCategories.TwoCategoriesExample` | scrape/menu.py:56-74 | a category with label, slug and subtitle, and one with none of them, give the expected two records |

## Left out

- File and network I/O are inputs. This covers opening and decoding the locations and menu
  files, writing `Data/florida_luxe_heatmap.json`, the `fetch` of the CSV, and
  `requests.get`. The script's fixed paths are kept as constants.
- Printed text is not modelled. The printed lines are `LogLine` values, and the exception text
  `{e}` is a `Reason` value.
- The BeautifulSoup lookup of `__NEXT_DATA__` and `json.loads` are replaced by their outcome
  (`Page`). `fetch_menu_page`, `load_first_location`, `display_categories` and `main` of
  `scrape/menu.py` are I/O and printing, and are not part of this model.
- `states.py` and `js/map.js` (HTTP scraping, Leaflet map and DOM handlers) are not part of
  this model.
- IEEE floating point is not modelled: `float(...)` and `parseFloat` give exact decimal values.
- MenuSearch.ExtractPrice: ASCII digits only. Python's `\d` on a `str` also matches other
  Unicode decimal digits, which `float` accepts too.
- JSON values of kinds the code never looks at are not modelled. `lat`, `lng`, `county`,
  `url` are copied as the reals and strings they are expected to be. A category `label` or
  `subtitle` present but not a string, such as `null`, is not modelled: Python would copy it
  as is. A `slug` in `scrape/menu.py` or a `store_number` in the locations file that is
  present but not a string is not modelled either: the f-strings at `scrape/menu.py:64` and
  `create_florida_heatmap_data.py:19` format it with `str()` and do not raise, while the model
  takes strings only.
- `Loader.RecordOf` splits with the corrected splitter `ParseCsvLineFixed`, not `parseCSVLine` as
  written. A line that starts with a comma, such as `,Tampa,p,"maps?destination=1,2"`, is a
  record here but is dropped as written. `Loader.RecordOfAsWritten` is the as-written
  record, and `Loader.AsWrittenRecordAgrees` shows the two agree on every other line.
- `Loader.RecordOfWrittenLine` is stated for the corrected splitter, so it also covers lines
  whose first field is `Plain("")`; as written, such a line loses its second field.
- `Loader.LoadLocations` uses the corrected splitter `ParseCsvLineFixed` (see Findings). As
  written, a data line that starts with a comma loses its second field before the field count
  is checked.
- JavaScript exceptions inside `loadLocations` other than a failed fetch cannot arise from
  the modelled operations. The catch-all is modelled only for the fetch.

## Findings

| source | as written | input that shows it | evidently intended | confidence | as-written member | corrected member |
|---|---|---|---|---|---|---|
| js/csvParser.js:3 | after the empty match at position 0 for an empty first field, ECMAScript's global `match` moves `lastIndex` one past the comma, so the comma that starts the second field is skipped | `",b,c"` gives `["", "c"]` | `["", "b", "c"]`: one field per comma-separated value | high (not executed) | `CsvLine.LeadingCommaExample` | `CsvLine.RoundTrip` |
