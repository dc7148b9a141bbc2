# Tour de France scraper: row extraction, modelled in Dafny

The scraper reads the results pages of the Tour de France website year by year
and turns their HTML tables into per-year tables: the starters (team, rider
number, rider name and, in the later version, nationality), the stages, the
jersey wearers, the stage winners and, for each of seven ranking categories,
one ranking table holding every stage's rows under their stage number. This project models the part of it that runs once a
page has been fetched and parsed into row texts (or, for rankings, into the
cell texts of each row): the text rewrites, the row classification, the pandas
steps that fill, filter and trim the tables, and the loops around them. It also
models how a year's tab buttons become link keys and the merge of the two
spellings of the polka-dot column in the combined jersey table.

The repository holds two versions of the same pipeline. `scrape_tdf_data.py` is
modelled by the module `ScrapeTdfData`, and `tdf_scraper.py` by `TdfScraper`.
Where the two files hold the same code (the stages and stage-winner scrapers and
the ranking stage loop), it is modelled once in `ScrapeTdfData`, whose rows in the
table below cite both files; `TdfScraper` calls its ranking stage loop. `TdfScraper` holds what differs, with lemmas that compare the two
versions:

- the starters heuristic, which has no nationality rows and keeps only riders;
- the jersey rows, which lose a trailing comma and get a fixed header;
- its own copy of the ranking table.

The helper modules are:

- `Text`: the parts of Python's `str` and `re` that the scraper uses.
- `Frames`: a DataFrame as rows of optional cells, with the forward fill, boolean filter, column drops and `dropna` it relies on.
- `Links`: the link keys and the in-place update of the year → links dictionary.

Conventions of the model:

- `\s` and the argument-less `strip()` mean the 29 characters Python's `str.isspace()` accepts: the ASCII controls U+0009-U+000D and U+001C-U+001F, space, U+0085, U+00A0, and the Unicode space and line and paragraph separators. `lower()` folds only `A`-`Z`.
- A DataFrame is a sequence of rows of `Option<string>` cells, addressed by column position.
- Where the source crashes, the model has a precondition instead:
  - `IndexError` on a rider text with fewer than two `"\n "` pieces (`Classifiable`);
  - `pop(0)` on an empty row list (`|texts| >= 1`);
  - the unbound `header` for a ranking code with no header (`IsRankingCode`).
- Page fetches are parameters. The starters scraper takes the page's `tr` texts with their span classes; the other scrapers take row texts. The ranking scraper takes one list of cell texts per row, per stage.

Two points about the code that the model follows closely:

- `scrape_jersey_wearers` in `scrape_tdf_data.py` trims the header to the column count, caps the columns at five, and then drops every all-missing column, wherever it is.
- The ranking loop visits seven category codes, which share five headers.

## Model

| member | source | states |
|---|---|---|
| `Links.LinkKeySpec` | scrape_tdf_data.py:93 | a link key is as long as its label plus four, ends in `_url`, and holds no space and no upper-case letter |
| `Links.LinkKeyInjective` | tdf_scraper.py:37 | two labels give the same key exactly when they lower-case and underscore to the same text |
| `Links.LinkKeyIsNotMainUrl` | tdf_scraper.py:22 | no button label yields the key `mainurl` that the year's entry starts with |
| `Links.WithButtonsKeys` | scrape_tdf_data.py:92-95 | after the buttons are added, the entry's keys are its old keys plus the keys of the buttons, and no other key |
| `Links.WithButtonsLastWins` | tdf_scraper.py:36-39 | a button's target is stored under its key unless a later button has the same key (the last assignment wins) |
| `Links.WithButtonsKeepsOthers` | scrape_tdf_data.py:95 | a key that no button produces keeps its old value |
| `Links.MainUrlKept` | tdf_scraper.py:29-39 | the year's `mainurl` survives any buttons, with the same value |
| `Links.YearLinks.AddButtons` | tdf_scraper.py:36-39 | the loop over one year's buttons changes only that year's entry, which becomes the old entry with every button's key set to its target, in order |
| `Links.AddLinksToDict` | scrape_tdf_data.py:85-95 | every year of the dictionary gets its buttons' links, and the set of years is unchanged |
| `Text.StripCharsSpec` | scrape_tdf_data.py:235 | `strip(cs)` leaves no character of `cs` at either end, and cuts off only a prefix and a suffix made of characters of `cs` |
| `Text.StripStable` | scrape_tdf_data.py:153 | stripping a text that is already stripped changes nothing |
| `Text.SplitSpec` | scrape_tdf_data.py:209 | no piece of `split(sep)` contains `sep`, and every character of a piece comes from the text |
| `Text.JoinSplit` | tdf_scraper.py:133 | joining the pieces of `split(sep)` with `sep` gives the text back |
| `Text.SplitJoin` | scrape_tdf_data.py:282 | pieces that hold no separator character, joined with it and split at it, come back unchanged |
| `Text.SplitRemovesChar` | tdf_scraper.py:158 | after a split at one character, no piece contains that character |
| `Text.SnakeCaseSpec` | scrape_tdf_data.py:242 | `lower().replace(' ', '_')` keeps the length, leaves no space and no upper-case letter, and keeps every other character |
| `Text.SnakeCaseIdempotent` | tdf_scraper.py:37 | normalising a label twice is normalising it once |
| `Text.SnakeCaseIgnoresCase` | scrape_tdf_data.py:93 | labels that differ only in letter case give the same normalised text |
| `Text.DropTrailingComma` | scrape_tdf_data.py:278 | `re.sub(',$', '', s)` removes at most one comma, and removes one exactly when the text ends in a comma |
| `Text.CollapseSpaceRunsSpec` | scrape_tdf_data.py:277 | after the rewrite of runs of at least `k` whitespace characters, no such run is left, and a first non-whitespace character is kept |
| `Text.CollapseAtRun` | scrape_tdf_data.py:236 | a run of at least `k` whitespace characters between two non-whitespace characters becomes one comma, and the text on either side is rewritten on its own |
| `Text.CollapseKeepsRunFree` | tdf_scraper.py:154 | a text with no run of `k` whitespace characters is left unchanged by the rewrite |
| `Text.CollapseIdempotent` | scrape_tdf_data.py:236 | applying the run rewrite twice is applying it once |
| `Text.CollapseInterleave` | tdf_scraper.py:179 | fields separated by runs of at least `k` whitespace characters become the same fields separated by single commas |
| `Text.ReplaceCharRemoves` | scrape_tdf_data.py:279 | after `re.sub('\n', ',', s)` no newline is left, and the length is unchanged |
| `Frames.Where` | scrape_tdf_data.py:184 | a boolean mask keeps exactly the positions where it holds, in increasing order |
| `Frames.KeepPresent` | tdf_scraper.py:113 | `df[df[c].isnull() == False]` keeps, in order, exactly the rows at the positions where column `c` is present (through `Where`), and each has column `c` present |
| `Frames.FillForward` | scrape_tdf_data.py:181-183 | `fillna(method='ffill')` on one column keeps the row count, every row's length and every cell of the other columns |
| `Frames.FillForwardFromAt` | tdf_scraper.py:112 | each cell of the forward-fill scan is the most recent present value at or above it, or the carried value when there is none |
| `Frames.FillForwardAt` | scrape_tdf_data.py:181 | after a forward fill, a cell is the most recent present value at or above it in its column, or missing when there is none |
| `Frames.LatestIsLastPresent` | scrape_tdf_data.py:182 | the most recent present value of a column is the value at its last present position, and it is missing exactly when no position is present |
| `Frames.FromLists` | scrape_tdf_data.py:244 | `pd.DataFrame(lists)` has one row per list and as many columns as the longest list, and pads shorter lists with missing cells |
| `Frames.DropLastColumn` | scrape_tdf_data.py:250 | dropping the last column keeps the first `width - 1` cells of every row |
| `Frames.BlankToMissing` | scrape_tdf_data.py:252 | `replace('', np.nan)` leaves no empty string, and keeps every other cell |
| `Frames.DropMissingColumns` | scrape_tdf_data.py:253 | `dropna(axis=1, how='all')` keeps exactly the columns with a present cell, in their order, with their cells |
| `Frames.NoMissingColumnLeft` | scrape_tdf_data.py:253 | every column left after `dropna(axis=1, how='all')` holds a present cell |
| `ScrapeTdfData.CollectStarterTexts` | scrape_tdf_data.py:149-158 | the first starters loop yields, row by row, the stripped row text followed by the row's span class when it has one |
| `ScrapeTdfData.StarterTextsLayout` | scrape_tdf_data.py:151-158 | a row's stripped text sits right after the texts of the rows before it, and its nationality code, when it has one, comes immediately after it |
| `ScrapeTdfData.StarterTextsPrefix` | scrape_tdf_data.py:151 | the texts of the first rows are a prefix of the texts of all rows |
| `ScrapeTdfData.StarterRecord` | scrape_tdf_data.py:164-178 | a record has four cells, and a cell is present exactly when the text is of its column's kind. The kinds are tried in order: upper-case first letter is a team, then three lower-case letters is a nationality, else a rider. A team or nationality text is kept as is |
| `ScrapeTdfData.ClassifyStarterTexts` | scrape_tdf_data.py:160-178 | the classification loop yields one record per text, in order, each the record `StarterRecord` gives its text |
| `ScrapeTdfData.ScrapeStartersAndNationality` | scrape_tdf_data.py:149-185 | the starters scraper returns the forward-filled records that have a nationality |
| `ScrapeTdfData.FilledAtNationality` | scrape_tdf_data.py:180-183 | at a nationality text, the filled record holds the last team and the last rider number and name seen before it, each missing if none was seen |
| `ScrapeTdfData.StartersFollowNationalities` | scrape_tdf_data.py:180-185 | the starters table has exactly one record per nationality text, in input order, naming the last team and rider listed before it |
| `ScrapeTdfData.StageCells` | scrape_tdf_data.py:207-209 | a stage row's cells join back with newlines into its stripped text, and no cell holds a newline (same code at tdf_scraper.py:131-133) |
| `ScrapeTdfData.StageRows` | tdf_scraper.py:133-134 | the stages table has one row per row text after the first, each the cells of that text |
| `ScrapeTdfData.ScrapeStages` | scrape_tdf_data.py:204-211 | the stages scraper returns the four-name header and the rows of every row text but the first (same code at tdf_scraper.py:128-135) |
| `ScrapeTdfData.JerseyTextRunFree` | scrape_tdf_data.py:235-236 | a rewritten jersey row holds no run of two whitespace characters, and rewriting it again changes nothing |
| `ScrapeTdfData.JerseyCells` | scrape_tdf_data.py:240 | a jersey row's fields join back with commas into its rewritten text, and no field holds a comma |
| `ScrapeTdfData.JerseyCellsOfFields` | scrape_tdf_data.py:235-240 | a row whose newline-stripped text is comma-free fields separated by runs of two or more whitespace characters is cut into exactly those fields |
| `ScrapeTdfData.DerivedHeaderSpec` | scrape_tdf_data.py:242-243 | the header has one name per newline piece of the first row's first field; the first name is `stage_num`, and each other name is its piece lower-cased and underscored |
| `ScrapeTdfData.TrimHeader` | scrape_tdf_data.py:246-247 | popping names while the header is longer than the column count leaves the header's prefix of length min(header length, column count) |
| `ScrapeTdfData.CapColumns` | scrape_tdf_data.py:249-250 | dropping the last column while there are more than five leaves the first min(width, 5) columns |
| `ScrapeTdfData.JerseyFrame` | scrape_tdf_data.py:249-253 | the jersey frame has one row per list and no more columns than min(width, 5) |
| `ScrapeTdfData.JerseyFrameShape` | scrape_tdf_data.py:249-253 | the jersey frame has at most five columns, no empty field and no column without a field; its columns are exactly those among the first five that hold a non-empty field, in order, with empty fields made missing |
| `ScrapeTdfData.KeptColumns` | scrape_tdf_data.py:249-253 | keeping the first columns, reading empty fields as missing and dropping the all-missing columns keeps exactly the columns with a non-empty field, each cell the field it came from |
| `ScrapeTdfData.ScrapeJerseyWearers` | scrape_tdf_data.py:230-253 | the jersey scraper returns the derived header cut to the column count of the uncapped frame, and the capped, blank-cleared, column-dropped frame of the rows after the first |
| `ScrapeTdfData.StageWinnerTextSpec` | scrape_tdf_data.py:276-279 | a rewritten stage-winner row holds no newline and no run of three whitespace characters |
| `ScrapeTdfData.StageWinnerCellsSpec` | scrape_tdf_data.py:282 | a stage-winner row's fields join back with commas into its rewritten text, and no field holds a comma or a newline |
| `ScrapeTdfData.StageWinnerCellsOfFields` | scrape_tdf_data.py:276-282 | a row whose newline-stripped text is fields without commas or newlines, separated by runs of three or more whitespace characters, is cut into exactly those fields; shorter runs stay inside a field |
| `ScrapeTdfData.StageWinnerRows` | scrape_tdf_data.py:282-283 | the stage-winners table has one row per row text after the first, each the fields of that text |
| `ScrapeTdfData.ScrapeStageWinners` | scrape_tdf_data.py:272-284 | the stage-winners scraper returns the four-name header and the rows of every row text but the first (same code at tdf_scraper.py:174-186) |
| `ScrapeTdfData.NumColumns` | scrape_tdf_data.py:317-335 | the expected cell count of a code is between 4 and 8 when the code has a header, and -1 otherwise, which no row can match |
| `ScrapeTdfData.RankingHeader` | scrape_tdf_data.py:319-333 | a code's header has exactly as many names as the code's expected cell count, `rank` first |
| `ScrapeTdfData.CategoriesHaveHeaders` | scrape_tdf_data.py:303-313 | every one of the seven category codes visited has a header |
| `ScrapeTdfData.StripAll` | scrape_tdf_data.py:358-359 | stripping every cell of a row keeps the cell count and leaves every cell stripped |
| `ScrapeTdfData.StageRankingRows` | scrape_tdf_data.py:355 | every kept row has exactly the expected cell count and stripped cells |
| `ScrapeTdfData.StageRankingRowsAreMatches` | scrape_tdf_data.py:352-361 | the kept rows are exactly the rows whose cell count equals the expected count, in page order, each stripped |
| `ScrapeTdfData.StoreStrippedRow` | scrape_tdf_data.py:357-360 | the cell loop leaves the dictionary with the whole stripped row under the current row number, and nothing else changed |
| `ScrapeTdfData.ScrapeStageRankings` | scrape_tdf_data.py:350-365 | the row loop with its row counter and dictionary yields the kept rows in row-number order (same code at tdf_scraper.py:252-267) |
| `ScrapeTdfData.StageBlock` | scrape_tdf_data.py:367-370 | a stage's block has one row per kept row, each carrying the stage number before its cells |
| `ScrapeTdfData.RankingsRowAt` | scrape_tdf_data.py:373 | appending a stage's block keeps the earlier rows and puts the stage's kept rows after them |
| `ScrapeTdfData.RankingsRowShape` | scrape_tdf_data.py:339-361 | every row of a code's table has a stage number from 1 to the number of stages, the expected cell count and stripped cells |
| `ScrapeTdfData.RankingsOrdered` | scrape_tdf_data.py:339-340 | the rows of a code's table are ordered by stage number |
| `ScrapeTdfData.RankingsPerStage` | scrape_tdf_data.py:339-373 | the rows of stage `s` in a code's table are exactly the kept rows of that stage's page, in page order |
| `ScrapeTdfData.ScrapeRankings` | scrape_tdf_data.py:337-373 | the stage loop of one code returns no columns when there are no stages and otherwise the header with `stage_num` moved first, and the table of stages 1 to N in order (same code at tdf_scraper.py:240-275) |
| `ScrapeTdfData.ScrapeAllRankings` | scrape_tdf_data.py:315-373 | the category loop returns one header and one table per category, in category order; a header is empty when there are no stages |
| `ScrapeTdfData.MergedColumnsDropSecondSpelling` | scrape_tdf_data.py:442-444 | the merged column list is the combined one without `polka-dot_jersey` |
| `ScrapeTdfData.MergePolkaDot` | scrape_tdf_data.py:443-444 | after the merge, the polka-dot cell is present exactly when either spelling was; the first spelling wins; the other cells keep their place |
| `ScrapeTdfData.MergePolkaDotColumns` | scrape_tdf_data.py:442 | the merge keeps the row count and gives every row six cells, each row merged on its own |
| `TdfScraper.StarterRecord` | tdf_scraper.py:100-109 | a record has three cells: the team cell is present exactly for a text starting with an ASCII letter of either case, and the rider cells exactly for any other text |
| `TdfScraper.CollectStarterTexts` | tdf_scraper.py:92-95 | the first loop yields every row text stripped, in order |
| `TdfScraper.ClassifyStarterTexts` | tdf_scraper.py:97-109 | the classification loop yields one record per text, in order, each the record of its text |
| `TdfScraper.ScrapeStarters` | tdf_scraper.py:91-114 | the starters scraper returns the team-filled records that have a rider number |
| `TdfScraper.FilledAtRider` | tdf_scraper.py:112 | at a rider text, the filled record holds the last team named before it (missing if none) and the rider's own number and name |
| `TdfScraper.StartersFollowRiders` | tdf_scraper.py:111-114 | the starters table has exactly one record per rider text, in order; team texts give no record of their own |
| `TdfScraper.ClassificationsCompared` | tdf_scraper.py:100 | a team of the other version is a team here, and a rider here is a rider there with the same number and name; the versions disagree only on texts starting with a lower-case letter |
| `TdfScraper.JerseyText` | tdf_scraper.py:153-155 | this version's jersey row is the other version's rewritten row, or that row without its trailing comma |
| `TdfScraper.JerseyTextRunFree` | tdf_scraper.py:154-155 | this version's jersey row holds no run of two whitespace characters |
| `TdfScraper.JerseyCellsOfFields` | tdf_scraper.py:153-158 | a row whose newline-stripped text is comma-free fields separated by runs of two or more whitespace characters is cut into exactly those fields, with no trailing field lost or added |
| `TdfScraper.JerseyRows` | tdf_scraper.py:158-159 | the jersey table has one row per row text after the first, each the comma fields of its rewritten text |
| `TdfScraper.ScrapeJerseyWearers` | tdf_scraper.py:149-160 | this version's jersey scraper returns the fixed five-name header and the rows of every row text but the first |
| `TdfScraper.JerseyVersionsCompared` | tdf_scraper.py:155 | the other version's fields of a row are this version's fields, plus one empty last field when its rewritten text ends in a comma |
| `TdfScraper.NumColumns` | tdf_scraper.py:217-238 | this version's expected cell count is between 4 and 8 when the code has a header, and -1 otherwise |
| `TdfScraper.RankingHeader` | tdf_scraper.py:218-236 | this version's header has exactly as many names as the expected cell count |
| `TdfScraper.RankingTablesAgree` | tdf_scraper.py:213-238 | both versions give every code the same expected cell count and the same header |
| `TdfScraper.ScrapeAllRankings` | tdf_scraper.py:210-275 | this version's category loop returns, per category in order, its header with `stage_num` first (no columns when there are no stages) and the table of stages 1 to N |

## Left out

- Fetching and parsing are not modelled. This covers `requests.get`, BeautifulSoup, `find_all`, `tbody` and reading span classes. They are network I/O and a foreign library, so the model takes the row texts, span classes and cell texts as inputs.
- `time.sleep` throttling, `print`, CSV writing and reading, and pickle save and load are not modelled, because they are timing and file I/O.
- The top-level drivers of both files are not modelled: the history-page loop that builds the year dictionary, `scrape_number_of_stages`, and the loops over years. They only sequence page fetches; the number of stages is an input of the ranking scrapers.
- The `build_*_dataframe` functions other than the polka-dot merge are not modelled. They read CSV files, concatenate per-year tables and convert dates with `pd.to_datetime`, which is file I/O and pandas internals.
- Index labels after `concat`, `reset_index` and dtype inference are not modelled. A table is its rows in order.
- Setting column names on a DataFrame raises `ValueError` when the number of names differs from the number of columns. The model does not say whether that happens:
  - `scrape_tdf_data.py:212`, `:254`, `:285`;
  - `tdf_scraper.py:136`, `:161`, `:187`.

  The jersey table of `scrape_tdf_data.py` is returned as its header and its frame, side by side.
- `ScrapeTdfData.StageRows`: `pd.DataFrame(rows, columns=header)` pads rows shorter than the header with missing cells when the longest row fits the header. The model returns each row's cells unpadded, so for a short row "the cells of that text" are the leading cells of the table row, not the whole row.
- `ScrapeTdfData.StageWinnerRows`: the same padding of short rows is not modelled; each row is its fields, unpadded.
- `TdfScraper.JerseyRows`: the same padding of short rows is not modelled; each row is its fields, unpadded.
- `ScrapeTdfData.StoreStrippedRow`: Python stores the same list object under the row number and then appends to it. The model stores the value after each cell, and proves that the final entry is the whole stripped row. Aliasing itself is not modelled.
- Unicode case folding is not modelled: `lower()` folds only `A`-`Z`, where Python also folds non-ASCII capitals.
- In `,$`, the `$` is taken to match only at the end of the text. The preceding `strip('\n')` leaves no final newline for `$` to match before.
- An unknown ranking code is excluded by a precondition. For such a code the source reuses a header left over from an earlier category, or raises `NameError` for the first one when the year has a stage (with no stage nothing is raised and an empty table is written). No such code is ever visited.
