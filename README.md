# NCAA baseball map: location pipeline

A Dafny model of the data pipeline in `process_data.py`. The pipeline turns
one season of NCAA baseball games into the rows of a map: latitude,
longitude and a line of text for every game. Its steps are:

1. **Resolver** (`prepare_locations`). Keeps one row per distinct
   (home team, neutral site) pair, the first one, with that game's page URL.
   Derives the join key `home_team + str(neutral_site)`.
2. **Scraper** (`add_locations`). Fetches each resolver row's page and cuts
   the venue name out of the HTML with
   `html.split('Location:</td>\n      <td>')[1].split("</td>\n")[0]`.
   A failure gives `None`. It fixes two venue names that geocode wrongly and
   zips keys and venues into a dictionary.
3. **Geocoder** (`find_coords`). Asks a geocoding service once for each
   distinct venue. It keeps only the venues the service answers for.
4. **Assembler** (the end of `main`). Looks up each game's venue and
   coordinates and builds the text
   `"<home> vs. <away> (<home score>-<away score>) <date>"`. It then sorts by
   date, keeps the three output columns and drops exact duplicate rows.

Modules, one file each:

* `Wrappers` has `Option`.
* `Text` models the string operations: Python's `str.split` through
  `Find`, `SplitFrom` and `Join`; the string order `<=`; and `str(int)`.
* `Tables` models the pandas operations: `drop_duplicates` keeping the first
  row, `unique`, and `dict(zip(...))`.
* `Resolver`, `Scraper`, `Geocoder` and `Assembler` model the four steps.

The browser and the geocoding service are parameters:

* `fetch: string -> Option<string>` maps a URL to its page source, or to
  `None` when the fetch fails.
* `geocode: Option<string> -> Option<Coord>` maps a venue to its
  coordinates, or to `None` when the service has no answer.

Coordinates are an opaque type `Degree`. No arithmetic is done with them.

`Series.unique()` (process_data.py:112) keeps the absent venue `None`, so
the service is also queried with `None` (process_data.py:123), and `None`
can be a key of the coordinate table. `Geocoder.FindCoords` models exactly
this.

## Model

| member | source | states |
|---|---|---|
| Resolver.VenueKeyInjective | process_data.py:49 | Two (home team, flag) pairs with the same key are equal. The flag is rendered as "True" or "False". |
| Resolver.PrepareLocationsKeepsFirst | process_data.py:43-52 | Every resolver row is built from the first game carrying its (home team, neutral site) pair, including that game's URL. |
| Resolver.PrepareLocationsKeyFormat | process_data.py:49-52 | Every resolver row's key is its home team followed by "True" or "False", after its neutral-site flag. |
| Resolver.PrepareLocationsCovers | process_data.py:46 | Every game's (home team, neutral site) pair has a resolver row. |
| Resolver.PrepareLocationsUniqueKeys | process_data.py:46-49 | The resolver rows have pairwise distinct pairs, and so pairwise distinct keys. |
| Resolver.SharedPairResolvesToOneSite | process_data.py:46-54 | A season whose games all share one pair resolves to the single row of the first game. |
| Scraper.ExtractLocationAbsent | process_data.py:79-84 | Extraction gives None exactly when the page lacks the location marker. |
| Scraper.ExtractLocationContent | process_data.py:82 | On a page with the marker, the result exists. It is a prefix of the text between the first marker and the next one. It is cut at the first cell end, and it contains neither a cell end nor the marker. |
| Scraper.ExtractFromLayout | process_data.py:82 | For a page laid out as before + marker + name + cell end + after, extraction returns exactly the name. Requires: no marker in before, no cell end in name, and no marker starting inside name. |
| Scraper.ScrapeLocations | process_data.py:69-85 | The loop appends exactly one entry per URL, in URL order. Each entry is the extraction from that URL's page, or None when the fetch fails. |
| Scraper.CorrectOnlyRewritesTable | process_data.py:94-95 | A value changes exactly when it is one of the two listed names, and it becomes its listed replacement. None and every other name are unchanged. |
| Scraper.CorrectAllIdempotent | process_data.py:94-95 | The correction keeps the length, and applying it twice equals applying it once. |
| Scraper.AddLocations | process_data.py:69-98 | Returns, per resolver row, the corrected venue of its page and the key-to-venue dictionary built from these. |
| Scraper.LocationDictComplete | process_data.py:98 | Over the resolver rows the dictionary has one entry per row, with no entry overwritten: each row's key maps to that row's venue. |
| Scraper.LocationDictCoversGames | process_data.py:150 | Every game's recomputed key is a key of the dictionary. |
| Geocoder.FindCoords | process_data.py:112-129 | The table's keys are venues of the input. A venue is a key exactly when the service answered for it, with that answer as its value. Every distinct venue is queried exactly once. |
| Assembler.InfoScoresReadBack | process_data.py:154-155 | The text starts with "<home> vs. <away> (". The first "-" after that head ends the home score's digits, which parse back to the home score. The digits between that "-" and the closing ") " parse back to the away score, and the text ends with ") " and the date. Scores are taken non-negative. |
| Assembler.InfoDistinguishesScores | process_data.py:154-155 | For games with the same teams and date, the texts are equal exactly when both scores are. |
| Assembler.DashSplitsDigits | process_data.py:154-155 | In digits + "-" + rest the dash position is fixed, so equal texts have equal parts. |
| Assembler.InsertByDatePermutes | process_data.py:161 | Inserting a row yields the old rows plus that row, as a multiset. |
| Assembler.InsertByDateSorted | process_data.py:161 | Inserting into date-sorted rows keeps them date-sorted. |
| Assembler.SortByDatePermutes | process_data.py:161 | The sort returns a permutation of its input, as a multiset. |
| Assembler.SortByDateSorted | process_data.py:161 | The sort returns its rows in non-decreasing date-string order. |
| Assembler.AssembleRowsFromGames | process_data.py:150-161 | Every output row is the (latitude, longitude, info) projection of some game. |
| Assembler.AssembleCoversGames | process_data.py:150-161 | Every game's projection appears in the output. |
| Assembler.AssembleDistinct | process_data.py:161 | No two output rows are equal. |
| Assembler.AssembleOrdered | process_data.py:161 | The output is the projection of a duplicate-free subsequence of the date-sorted games. That subsequence is in non-decreasing date order. |
| Assembler.AssembleKeepsUnresolved | process_data.py:150-158 | A game with no known venue or coordinates is kept, with absent latitude and longitude. |
| Assembler.ProcessSeason | process_data.py:146-161 | The whole pipeline: resolve, scrape, geocode, assemble. Every game's text appears, and no row repeats. |
| Assembler.FailedFetchKeepsGame | process_data.py:146-161 | If the page of the first game of a game's pair fails to load (the only page fetched for that pair), and the service has no answer for None, the game appears with absent coordinates, whatever its own page holds. |
| Tables.DropDuplicatesKeepsFirst | process_data.py:46 | Each row kept by drop_duplicates is the first row of its key. |
| Tables.DropDuplicatesDistinct | process_data.py:46 | The kept rows have pairwise distinct keys. |
| Tables.DropDuplicatesCovers | process_data.py:46 | Every key of the input is the key of a kept row. |
| Tables.DropDuplicatesPreservesOrder | process_data.py:161 | Dropping duplicates keeps the rows of an ordered table ordered. |
| Tables.DropDuplicatesAfterMap | process_data.py:161 | Deduplicating projected rows is the same as projecting rows deduplicated on their projection. |
| Tables.Unique | process_data.py:112 | `unique()` returns each distinct value once, and only values of the input. |
| Tables.ZipToMapEntries | process_data.py:98 | `dict(zip(k, v))` has exactly the keys of the shorter-truncated k. Each key maps to the value paired with its last occurrence. |
| Tables.ZipToMapSize | process_data.py:98 | With distinct keys and equal lengths, the dictionary has one entry per key, mapped to its own value. |
| Text.SplitFrom | process_data.py:82 | The split pieces hold no separator and join back, with the separator, to the split text. |
| Text.Find | process_data.py:82 | Find returns the first occurrence at or after the start, and None when there is none. |
| Text.SplitFromFirst | process_data.py:82 | The first piece runs up to the next separator, or to the end of the text. |
| Text.SplitFromMore | process_data.py:82 | There is a second piece exactly when a separator occurs. |
| Text.SplitSecondPiece | process_data.py:82 | Piece [1] runs from the end of the first separator to the next separator, or to the end of the text. |
| Text.SplitFirstPiece | process_data.py:82 | Piece [0] is a prefix of the text. Unless it is the whole text, the separator follows it. |
| Text.FindAfterFreePrefix | process_data.py:82 | A pattern whose first character does not recur in it is found right after a prefix without it. |
| Text.IntToStringRoundTrip | process_data.py:154-155 | `int(str(n)) == n` for the rendered scores. |
| Text.StrLeTotal | process_data.py:161 | Python's string `<=` is total. |
| Text.StrLeTransitive | process_data.py:161 | Python's string `<=` is transitive. |

## Left out

- `run_R` and the subprocess call (process_data.py:12-30) only launch an external R program.
- Command-line parsing, the file-existence test, `read_csv` and `to_csv` (process_data.py:131-145, 161) are file and console I/O. The model starts from the parsed games and ends at the output rows.
- The Selenium browser (process_data.py:67, 80-81, 88) is the `fetch` parameter. Every exception in the `try` becomes `None`. `fetch` is modelled as a function of the URL only, so two loads of one URL give the same page.
- The geopy service (process_data.py:113, 123) is the `geocode` parameter. The model does not raise its exceptions.
- The random delays and sleeps (process_data.py:75-76, 119-120) only affect timing.
- Latitudes and longitudes are floats in the source. Here they are an opaque type with no arithmetic.
- pandas' NaN and `None` are both `None`. Game rows are taken as already parsed: scores are integers, so the float rendering a column with NaN scores would get is not modelled.
- Assembler.SortByDateSorted: pandas' default sort is not stable. The contract promises only order and permutation, and nothing about rows with equal dates. Date-string order is not claimed to be chronological.
- The in-place column assignments (process_data.py:49, 91, 150-158) are values returned by functions and methods. The model does not capture their effect on the caller's data frame.
- The data-frame construction at process_data.py:158 is taken to give absent latitude and longitude for a game without coordinates. By a reading of pandas' constructor, not executed, this holds only when the first game in file order has coordinates. When that game's coordinates are NaN, the list is not treated as nested, a single column is built, and the two-column assignment raises `ValueError`. Assembler.AssembleKeepsUnresolved and Assembler.FailedFetchKeepsGame therefore describe the program only for files whose first game has coordinates.
- Scraper.ExtractFromLayout: it assumes that no marker occurrence starts inside the name. "The name does not contain the marker" is not enough: the marker itself contains the cell end "</td>\n", so a name ending in "Location:", followed by the cell end and then "      <td>", would start a second marker.
