# NBA rookies: scraping and cleaning, modelled in Dafny

This project models the data-preparation core of the NBA rookies project. It
has two halves.

The scraping half covers two scrapers:

- The newer one (`scrape_rookies.py`):
  - collects one draft year's season table and career table;
  - joins them row by row;
  - derives the retirement flag;
  - appends the draft year and the flag to every row;
  - types every cell by its column position;
  - builds the feature-descriptor table from the season table's header.
- The earlier one (`rookie_scraping.py`):
  - writes one CSV line per season row, looking up the years-played cell in
    the career table by position;
  - sanitises non-ASCII text;
  - writes the header file and appends the draft-year header line;
  - concatenates the year files with the year appended to each line.

The cleaning half covers the scikit-learn transformers of
`support/cleaning_pipe.py` and `pipelines/rookie_pipes.py`:

- per-minute conversion;
- fill of missing values;
- column drop;
- labelling;
- debut month.

It also covers the composed `clean_data` of `manage_data.py`, with its default
lists.

HTML pages are modelled after parsing:

- A table body is a sequence of rows (`Markup.Row`). Each row has its
  `full_table` marker, its header-cell text and its `<td>` texts.
- The header row of the earlier scraper is its sequence of child nodes, with
  header cells and whitespace alternating.
- A pandas frame is a value (`Frames.Frame`): an ordered list of uniquely
  labelled columns of equal height. A cell is one of:
  - a finite number;
  - NaN;
  - an infinity;
  - a boolean;
  - a text.
- Every transformer works on a copy of its input (`X.copy()`), so frames as
  values lose nothing.
- Errors are values of `Results.Result`:
  - `KeyError(label)` for a missing column;
  - `IndexError` for a short row or table;
  - `ValueError` for a text that does not parse as a number;
  - `TypeError` for arithmetic, comparison or slicing on the wrong kind of
    cell.

Where the two sources have imperative loops, the model has methods with loop
invariants, each proved equal to a specification function:

- `create_header_df`;
- `rookie_stat_collect` and its per-cell typing;
- `one_stat`;
- `stats_seps` and its sanitiser;
- `comb_csvs`;
- `create_header`;
- the per-minute conversion loop.

The properties are proved about those functions.

Three behaviours of the code are worth stating up front:

- **Retirement year.** `ScrapeRookies.Retired` compares against the plain
  calendar year, passed in as a parameter (`scrape_rookies.py:93`, `:102`).
  There is no season rollover.
- **Zero minutes.** The conversion divides and then fills only NaN
  (`cleaning_pipe.py:45-46`). A nonzero count over zero minutes stays an
  infinity. Only 0/0, or a missing count or minutes, becomes 0.0
  (`CleaningPipe.PerMinuteCell`).
- **Second pass.** Run on its own output, `clean_data` fails at the per-minute
  conversion. It raises KeyError on the first converted statistic, which the
  first run removed. With the defaults that is `KeyError("fg")`
  (`ManageData.CleanDataTwiceFails`, `ManageData.CleanDataTwiceFailsOnDefaults`).

## Model

| member | source | states |
|---|---|---|
| Text.ParseIntToString | nba_rookies/scrape_rookies.py:103-113 | the draft year written with `str` and read back with `int` is the same integer, so the appended year cell is typed back to the year |
| Markup.FullTableSelection | nba_rookies/scrape_rookies.py:95-98 | the `full_table` filter keeps exactly the marked rows, each once, in document order: kept row k is the row at the k-th marked position, the positions increase, and a row is kept iff it is marked |
| Markup.FullTableRowsMarked | nba_rookies/scrape_rookies.py:80-83 | every row the career-table filter keeps is a marked row of the table |
| ScrapeRookies.CreateHeaderDf | nba_rookies/scrape_rookies.py:37-65 | the in-place edits of the descriptor frame produce the descriptor table: lower-cased names, the nine fixed renames, description 4 replaced, the "yr1" and "retired" rows appended; fewer than 28 header cells is an IndexError |
| ScrapeRookies.DescriptorsLayout | nba_rookies/scrape_rookies.py:42-64 | with at least 28 header cells: one descriptor per header cell plus two; a position that is not renamed keeps its lower-cased header text; every description but the fifth is the header's; the last two are the draft-year and retirement descriptors |
| ScrapeRookies.CareerStats | nba_rookies/scrape_rookies.py:75-85 | the seasons cells are cell 4 of each `full_table` career row, in order, one per row; it fails with IndexError exactly when such a row has four cells or fewer |
| ScrapeRookies.Retired | nba_rookies/scrape_rookies.py:102 | the flag is 0 or 1, and it is 1 exactly when at least as many years have passed since the draft year as seasons were played |
| ScrapeRookies.CoercePlayer | nba_rookies/scrape_rookies.py:104-113 | typing the cells one by one in place gives the position-wise typing of the whole row: floats at 21-27 with the empty text as 0.0, text at 1 and 2, integers elsewhere, and a ValueError when one cell does not parse |
| ScrapeRookies.RookieStatCollect | nba_rookies/scrape_rookies.py:88-115 | the loop that mutates each season row in turn yields exactly the specified rows for the year, and the same error when one row fails |
| ScrapeRookies.CollectFromRows | nba_rookies/scrape_rookies.py:100-113 | the rows succeed iff every season row has a career cell at its own position and joins without error; then there is one output row per season row, the k-th joined with career cell k |
| ScrapeRookies.PositionalJoin | nba_rookies/scrape_rookies.py:99-101 | on success, output row k is season `full_table` row k joined with the seasons cell of career `full_table` row k; there are as many output rows as season rows and at least as many career rows |
| ScrapeRookies.ShortCareerTableFails | nba_rookies/scrape_rookies.py:100-101 | fewer career cells than season rows always makes the year fail (the `seasons[index]` IndexError) |
| ScrapeRookies.ExtraCareerRowsIgnored | nba_rookies/scrape_rookies.py:100-101 | career cells beyond the last season row do not change the result |
| ScrapeRookies.CollectRowShape | nba_rookies/scrape_rookies.py:101-113 | a collected row is two cells longer than the scraped row; cell 4 is the career seasons count; cells 1 and 2 keep their text; 21-27 are floats; every other scraped cell is its parsed integer; on a full-width row the appended cells are the draft year and the retirement flag |
| ScrapeRookies.DescriptorsMatchRows | nba_rookies/scrape_rookies.py:58-64 | a collected row is as wide as the descriptor table of its header, and its two appended cells sit under "yr1" and "retired" |
| RookieScraping.IsAsciiIff | nba_rookies/rookie_scraping.py:120 | the encoded-length test never sees fewer bytes than characters, and it holds exactly when every character is ASCII |
| RookieScraping.Sanitise | nba_rookies/rookie_scraping.py:127-136 | the cell loop keeps an ASCII text whole and otherwise replaces each non-ASCII character by '_' |
| RookieScraping.ScrubbedIsAscii | nba_rookies/rookie_scraping.py:127-136 | a sanitised text keeps its length and passes the ASCII test |
| RookieScraping.ScrubbedIdentityAndIdempotent | nba_rookies/rookie_scraping.py:127-136 | an ASCII text is unchanged by the sanitiser, and sanitising twice is the same as sanitising once |
| RookieScraping.OneStat | nba_rookies/rookie_scraping.py:81-98 | the row-counting walk returns `<td>` col of the row-th `full_table` career row, and nothing when there is no such row or cell |
| RookieScraping.TdIgnores | nba_rookies/rookie_scraping.py:119 | the ignored `<td>` positions are 1 (debut) and 3 (years, looked up instead) |
| RookieScraping.StatsSeps | nba_rookies/rookie_scraping.py:101-142 | the nested loop with its master index and its reset writes exactly one specified line per season `full_table` row |
| RookieScraping.SepCellsLayout | nba_rookies/rookie_scraping.py:121-139 | with at least four `<td>` cells the line body has one cell fewer: `<td>` 0 sanitised, then `<td>` 2 sanitised (the debut `<td>` 1 is dropped), then the career lookup in place of `<td>` 3, then every later `<td>` j sanitised at position j - 1 |
| RookieScraping.StatsSepsJoin | nba_rookies/rookie_scraping.py:137-138 | line k starts with the player's header cell, is as long as the row has `<td>` cells, and at position 3 holds `<td>` 3 of the k-th `full_table` career row (empty when missing) |
| RookieScraping.CombCsvs | nba_rookies/rookie_scraping.py:153-164 | the nested copy loop outputs every line of every file, file after file, with the file's year appended |
| RookieScraping.CombinedAt | nba_rookies/rookie_scraping.py:158-164 | the output has as many lines as the files together, and line j of file i is at (lines of the earlier files) + j, with the year appended |
| RookieScraping.CombinedInYearOrder | nba_rookies/rookie_scraping.py:15 | with the files of the configured years, a line of an earlier file comes before every line of a later file, and the earlier file's year is smaller |
| RookieScraping.CombinedLength | nba_rookies/rookie_scraping.py:161-164 | nothing is lost or added: the output line count is the sum of the files' line counts |
| RookieScraping.HeaderIgnores | nba_rookies/rookie_scraping.py:40 | the ignored child positions are 5 and 9, the header cells of columns 2 and 4 |
| RookieScraping.HeaderRenames | nba_rookies/rookie_scraping.py:43 | the renamed child positions are 49, 51, 53 and 55, the header cells of columns 24-27 |
| RookieScraping.CreateHeader | nba_rookies/rookie_scraping.py:31-71 | the walk over the header row's children writes exactly the specified header lines |
| RookieScraping.AppendHeader | nba_rookies/rookie_scraping.py:167-172 | the header file keeps its lines and gains ("Yr", "Player Starting Year") as its last line |
| RookieScraping.HeaderByColumn | nba_rookies/rookie_scraping.py:44-71 | on a header row whose children alternate whitespace and header cells, the child-position walk writes the same lines as a walk over the header columns |
| RookieScraping.ColumnLinesLayout | nba_rookies/rookie_scraping.py:46-69 | with at least five columns: one line per column except column 2; columns 0 and 1 keep text and description; column 3 onward land one position earlier |
| RookieScraping.HeaderMatchesLines | nba_rookies/rookie_scraping.py:31-142 | for a header one column wider than the season rows' `<td>` cells, the header file and a year line have the same length, the "Yrs" header sits over the career lookup, and the "Yr" header sits over the appended year |
| Frames.Get | nba_rookies/support/cleaning_pipe.py:45 | reading a column succeeds iff the label is present; it returns that column, one cell per row; otherwise KeyError(label) |
| Frames.Set | nba_rookies/support/cleaning_pipe.py:45 | assigning a column overwrites it in place or appends it at the right; the column reads back as assigned and every other column is unchanged |
| Frames.Drop | nba_rookies/support/cleaning_pipe.py:102-105 | dropping succeeds iff every listed label is a column, otherwise KeyError for an absent listed label; the remaining labels keep their order; kept columns are unchanged and dropped ones are gone |
| CleaningPipe.Ratios | nba_rookies/support/cleaning_pipe.py:45 | column division succeeds iff neither column has a text cell, otherwise TypeError; each cell is the cell-wise IEEE quotient |
| CleaningPipe.ToPerMinute | nba_rookies/support/cleaning_pipe.py:42-48 | the loop over the statistics on a copy, then the drop, computes the specified conversion, including the error of the first statistic that fails |
| CleaningPipe.AddRatesErrorPersists | nba_rookies/support/cleaning_pipe.py:44-46 | once a round of the conversion loop fails, the whole loop fails with that error |
| CleaningPipe.PerMinuteCell | nba_rookies/support/cleaning_pipe.py:45-46 | a per-minute cell is the exact quotient over nonzero minutes, 0 for 0/0 or a missing operand, and an infinity of the count's sign for a nonzero count over zero minutes |
| CleaningPipe.AddRatesSchema | nba_rookies/support/cleaning_pipe.py:44-46 | on convertible input, after i rounds the frame is the input with the first i per-minute columns added, each the statistic over the minutes with NaN filled |
| CleaningPipe.ToPerMinuteSchema | nba_rookies/support/cleaning_pipe.py:42-48 | on convertible input the conversion succeeds and keeps the rows; the columns are the unconverted ones in order, then one "_pm" column per statistic in list order; every other column, minutes included, is unchanged |
| CleaningPipe.ToPerMinuteMissingStat | nba_rookies/support/cleaning_pipe.py:45 | when the first statistic is not a column, the conversion fails with KeyError on it |
| CleaningPipe.FillNA | nba_rookies/support/cleaning_pipe.py:84-87 | the fill keeps labels, order and rows, and fills each column cell by cell |
| CleaningPipe.FillNAComplete | nba_rookies/support/cleaning_pipe.py:84-87 | after a fill with a present value no cell is missing, and filling again changes nothing |
| CleaningPipe.CreateLabels | nba_rookies/support/cleaning_pipe.py:121-125 | labelling succeeds iff "yrs" is present and has no text cell; otherwise KeyError("yrs") or TypeError; on success the result is the frame with "lasts" set to `yrs >= seasons` and "yrs" dropped |
| CleaningPipe.CreateLabelsSchema | nba_rookies/support/cleaning_pipe.py:121-125 | on a numeric "yrs" the stage keeps the rows, drops "yrs", adds "lasts" at the right (or overwrites it in place), and leaves every other column unchanged |
| CleaningPipe.CreateLabelsCells | nba_rookies/support/cleaning_pipe.py:123 | label k is whether years played in row k reach the threshold: false where NaN, the sign of an infinity |
| CleaningPipe.MonthMapSeasonOrder | nba_rookies/support/cleaning_pipe.py:12-26 | the month table sends the i-th month of the season (October first) to i, has no other text key, and maps NaN to 11 |
| CleaningPipe.DebutMonths | nba_rookies/support/cleaning_pipe.py:67 | the month lookup succeeds iff every debut is a text, otherwise TypeError; each index is the table's entry for the first three letters lower-cased, NaN for an unknown key |
| CleaningPipe.GetDebutMonth | nba_rookies/support/cleaning_pipe.py:64-69 | the stage succeeds iff "debut" is present and every debut is a text, otherwise KeyError("debut") or TypeError; it adds "debut_month" at the right (or overwrites it), keeps every other column and the rows, and fills "debut_month" with the debut months |
| CleaningPipe.DebutMonthOfDate | nba_rookies/support/cleaning_pipe.py:67 | a debut whose first three letters name the i-th month of the season, in any case, gets month index i |
| CleaningPipe.MissingDebutRaises | nba_rookies/support/cleaning_pipe.py:66-68 | one missing debut makes the stage fail with TypeError, so the table's NaN entry is never reached |
| CleaningPipe.DebutMonthsIgnoringNaN | nba_rookies/support/cleaning_pipe.py:67 | skipping the lambda on NaN, the lookup succeeds iff every debut is a text or NaN, otherwise TypeError; it keeps the length; a NaN debut gets the table's NaN entry and a text debut the same entry as in the stage as written |
| CleaningPipe.GetDebutMonthIgnoringNaN | nba_rookies/support/cleaning_pipe.py:64-69 | the corrected stage succeeds iff "debut" is present and every debut is a text or NaN, otherwise KeyError("debut") or TypeError; it adds "debut_month" at the right (or overwrites it), fills it with the NaN-skipping lookup, and keeps the rows and every other column |
| CleaningPipe.CorrectedStageReachesEntry | nba_rookies/support/cleaning_pipe.py:25 | on a frame whose debuts are texts or NaN, a NaN debut gets "debut_month" 11 in the corrected stage, while the stage as written fails with TypeError |
| CleaningPipe.IgnoringNaNReachesEntry | nba_rookies/support/cleaning_pipe.py:25 | with NaN skipped, a missing debut gets index 11 from the NaN entry, and every text debut gets the same index as in the stage as written |
| RookiePipes.DropColumnsExactly | nba_rookies/pipelines/rookie_pipes.py:33-36 | dropping succeeds iff every listed label is a column, otherwise KeyError for one of them; a label survives iff it was there and is not listed; survivors keep their contents and the rows are kept |
| RookiePipes.DefaultLabels | nba_rookies/pipelines/rookie_pipes.py:70-75 | with the default of five seasons, a player with 5 recorded seasons lasts and one with 4 does not |
| RookiePipes.MonthMapBijection | nba_rookies/pipelines/rookie_pipes.py:4-17 | the table is a bijection between the twelve month keys and 0..11 in season order; it has no other key and no NaN key, and it is the cleaning table without its NaN entry |
| RookiePipes.TablesAgreeOnText | nba_rookies/pipelines/rookie_pipes.py:4-17 | on every text key the two month tables give the same index, or both none |
| RookiePipes.GetDebutMonth | nba_rookies/pipelines/rookie_pipes.py:52-55 | the stage succeeds iff "debut" is present and all text; it overwrites "debut" with the month indices, adds no column, and leaves the other columns and the rows unchanged; otherwise KeyError("debut") or TypeError |
| RookiePipes.DebutStagesAgree | nba_rookies/pipelines/rookie_pipes.py:52-55 | the two debut stages succeed on the same frames, and the overwritten "debut" here equals the other stage's "debut_month" |
| ManageData.CleanData | nba_rookies/manage_data.py:37-50 | the composed pipeline (conversion, fill with 0, drop, labels) keeps the rows and yields a valid frame when it succeeds |
| ManageData.DefaultsCompatible | nba_rookies/manage_data.py:9-34 | the default lists have no duplicates and are disjoint; neither holds "mp", "yrs" or "lasts"; no per-minute label is dropped, converted, or one of those columns |
| ManageData.CleanDataSchema | nba_rookies/manage_data.py:42-50 | on cleanable input the pipeline succeeds and keeps every row; the columns are the input's minus the converted, dropped and "yrs" columns, then the per-minute columns, then "lasts"; no cell is missing |
| ManageData.LabelledComplete | nba_rookies/manage_data.py:47 | the label stage introduces no missing cell into a filled frame |
| ManageData.CleanDataDefaults | nba_rookies/manage_data.py:37-50 | with the default lists, any frame whose converted, minutes and years columns are numeric and that has the dropped columns is cleaned with the schema above |
| ManageData.CleanDataRemovesStats | nba_rookies/manage_data.py:42-50 | after a successful run no converted statistic and no "yrs" remain, and "lasts" is present |
| ManageData.CleanDataTwiceFails | nba_rookies/manage_data.py:42-50 | the pipeline is single-pass: run on its own output it fails with KeyError on the first statistic to convert |
| ManageData.CleanDataTwiceFailsOnDefaults | nba_rookies/manage_data.py:37-50 | with the defaults, the second run fails with KeyError("fg") |

## Left out

- Fetching the pages (`requests.get`) and parsing the HTML (BeautifulSoup,
  lxml) are not modelled. A table arrives as its rows, and a header row as its
  child nodes. The AttributeError a page without `<tbody>` or `<thead>` raises is
  therefore not modelled.
- A header cell without an `aria-label` (Python `None`) is not modelled. Every
  description is a text.
- Writing and reading CSV files, and `data_to_database`, are not modelled:
  - a year file is modelled as its lines;
  - the header file is modelled as its (name, description) lines;
  - the SQL connection and inserts in `manage_data.py` are left out as I/O.
- The `__main__` drivers, the year loop that fetches each year, and the URLs
  are not modelled. `RookieScraping.CombinedInYearOrder` states the year order
  of the combined file.
- `date.today().year` is not read. The current year is a parameter of
  `ScrapeRookies.Retired` and `ScrapeRookies.RookieStatCollect`.
- `create_header` catches every exception and passes, so a failing child is
  skipped. In the model the failing children are the whitespace nodes, whose
  `aria-label` lookup raises (`RookieScraping.HeaderEntry` writes nothing for
  them). A `<th>` child never fails.
- ToPerMinute: the per-minute value is the exact quotient. `round(..., 7)` is
  not modelled, and neither are float width, signed zero or NaN payloads.
- ScrapeRookies.Coerce:
  - `int()` and `float()` are modelled on plain decimal text (optional sign,
    digits, at most one point). Exponents, underscores, surrounding blanks and
    "nan"/"inf" spellings are not accepted.
  - The 64-bit range of `np.int64` is not enforced.
- Text.Lower: lower-cases ASCII letters only. Python's full Unicode case
  mapping is not modelled.
- The scikit-learn `Pipeline` machinery and every `fit` (which returns the
  transformer unchanged) are left out. `clean_data` is the composition of the
  four `transform`s.
- Frames.Drop: pandas names every missing label in its KeyError. The model
  reports one of them.
- `create_header_df` assigns through `df_desc.iloc[i]["feature"]`, a chained
  assignment. Whether it updates the frame depends on the pandas version and
  its copy-on-write mode. The model takes the evidently intended in-place
  update. `DataFrame.append` (removed in pandas 2) is modelled as appending a
  row.
- `X_[stat + "_pm"].fillna(0.0, inplace=True)` also fills on a column taken
  from the frame. Under copy-on-write it would not reach the frame. The model
  takes the in-place fill that the pandas versions of the time perform.
- Frames.Valid: column labels are required to be distinct, which pandas does
  not impose. Every label in this core is a literal or a "_pm"-suffixed
  label, so no frame here has a duplicate label.
- FillNA keeps infinities: `fillna` replaces only NaN. The default fill value
  `0` is modelled as the number 0.0.
- ManageData.CleanData: its own contract states only validity and the kept
  rows. The column schema and the absence of missing cells are stated by
  `ManageData.CleanDataSchema` and `ManageData.CleanDataDefaults` under their
  preconditions.

## Findings

| source | as written | input that shows it | evidently intended | confidence | as-written member | corrected member |
|---|---|---|---|---|---|---|
| nba_rookies/support/cleaning_pipe.py:25 | the month table has an entry `np.nan: 11`, but the stage first applies `month[:3].lower()` to every debut, and slicing a float NaN raises TypeError | a frame whose "debut" column holds one NaN | a missing debut is passed through to the lookup (`X_["debut"].map(lambda month: month[:3].lower(), na_action="ignore").map(month_map)`) and receives month index 11 | medium; not executed | CleaningPipe.MissingDebutRaises | CleaningPipe.CorrectedStageReachesEntry |
