# yuho: filing metadata and index-master features, in Dafny

A Dafny model of the two pure-logic cores of the yuho scraping scripts.

- **YuhoScraper.py**, which downloads annual securities reports (有価証券報告書) from
  the EDINET disclosure portal. The model covers four parts:
  - `wareki_ascii_to_year`, which turns a Japanese-era date such as `R3.6.25` into
    `2021.6.25`;
  - the five-column metadata row read from the text block beside a filing link;
  - the name of the saved file, `code_YYYYMMDD.html`;
  - the loop of `download_all_yuhos_by_edinetcode`. It filters links to annual reports,
    gives one row per visited link, and sets each row's status to SUCCESS or FAILED.

  Browser windows are modelled abstractly, as a list of open handles, a start handle
  and a focus handle. `close_all_but_first_window` and `click_yuho_link` are transitions
  over that state.
- **IndexMaster.py**, which derives time-series columns from the JPX index-master table:
  - `add_ts_features`: the sort, the ticker, the group lags, `dffw`, `abs_dffw` and
    `old_shares`;
  - `add_event_flags`: the TOPIX float-weight change flag;
  - `get_topix_ffw_changes`: the ranking query.

Modules:

| file | module | contents |
|---|---|---|
| wrappers.dfy | `Wrappers` | `Option` (a missing cell) and `Result` (a step that may raise) |
| decimal.dfy | `Decimal` | `int()` of a digit string, `str()` and `'%0wd'` of a natural number |
| text.dfy | `Text` | `str.split(sep)` and `sep.join(parts)` |
| wareki.dfy | `Wareki` | the regular expression `(\d+)\.`, the era normaliser, the metadata row, the file name |
| windows.dfy | `Windows` | window-handle state, resetting to the start window, opening a link |
| batch.dfy | `Batch` | the download loop, as written and as evidently intended |
| sorting.dfy | `Sorting` | insertion sort under a total preorder (for `sort_values`) |
| indexmaster.dfy | `IndexMaster` | rows, derived columns, flags, ranking |

Inputs the source gets from outside are parameters of the model:

- `parseDate` is `pd.to_datetime(..., errors='coerce')`, a total function to an optional date.
- A `Link` carries three things: its display text, the lines of its text block, and the
  first loop step, if any, at which the browser raises on it.
- `ClickLink` takes the handles that the click opened.

Error paths the model keeps, as the code has them:

- When the search page shows no link whose text contains 有価証券報告書－第 (annual reports
  and corrections alike), `get_yuho_links` times out (YuhoScraper.py:115-118) and the whole
  download raises. No FAILED row is produced. A page that lists only corrections does not
  time out: the filter empties the list and `pd.concat([])` raises instead.
- When every link is filtered out, `pd.concat([])` raises (YuhoScraper.py:40).
- When the first visited link fails before its metadata is read, `idf` is unbound at
  YuhoScraper.py:38 and `UnboundLocalError` escapes the bare `except`.
- A link with empty text makes `ylink.text[0]` raise (YuhoScraper.py:20).

`Batch.DownloadAll` returns `SearchTimeout`, `NothingToConcat`, `UnboundIdf` and
`EmptyLinkText` for these cases. Three more points on the metadata row:

- The row is built with five index labels (YuhoScraper.py:97-99), so a text block of any
  other number of lines makes pandas raise. `Wareki.ExtractMetadata` fails unless there
  are exactly five lines.
- A filing that fails before its metadata is read gets no metadata of its own: the
  `except` branch marks the previous iteration's `idf` FAILED and appends it again
  (YuhoScraper.py:37-39; see Findings).
- `pd.to_datetime(..., errors='coerce')` never raises on a bad date (YuhoScraper.py:100),
  but `re.findall(...)[0]` raises when the first line has no `digits.` run
  (YuhoScraper.py:89), and the model keeps that error.

## Model

| member | source | states |
|---|---|---|
| `Decimal.Show` | YuhoScraper.py:94 | `str(year)` is a non-empty digit string without leading zeros that reads back as `year` |
| `Decimal.Pad` | YuhoScraper.py:31 | the zero-padded date fields read back as the number and have exactly the field width when the number fits |
| `Text.JoinSplit` | YuhoScraper.py:94 | joining the `'.'`-split fields with `'.'` gives back the original string |
| `Text.SplitJoin` | YuhoScraper.py:94 | splitting a join of dot-free fields gives back the same fields, in order |
| `Wareki.FindFrom` | YuhoScraper.py:89 | the leftmost match of `(\d+)\.` at or after a position, or none when no match exists |
| `Wareki.LeadingNumber` | YuhoScraper.py:89 | the number captured by the first match of `(\d+)\.`, absent exactly when nothing matches |
| `Wareki.Normalize` | YuhoScraper.py:88-95 | fails exactly when there is no `digits.` run. Otherwise the year field reads back as the leading number plus 1988 if `H` occurs, else plus 2018 if `R` occurs, else unchanged, and it is written as `str(year)`, with no leading zero. Every field after the first dot is kept verbatim and in order |
| `Wareki.ExtractMetadata` | YuhoScraper.py:96-101 | a row exists exactly when the block has five lines and a leading number. The title, EDINET code, issuer name and fifth column are the lines as given, and the date is the parse of the normalised first line. An empty block and a block with no leading number give their own errors |
| `Wareki.StampEncodesDate` | YuhoScraper.py:31 | for a valid date, `str(date)` without dashes is eight digits: the first four read back as the year, the next two as the month and the last two as the day |
| `Wareki.FileNameEncodesDate` | YuhoScraper.py:30-32 | for a valid date, the name `Wareki.FileName` builds is `code`, `_`, eight digits and `.html`, and the digits read back as year, month and day |
| `Wareki.FileNameInjective` | YuhoScraper.py:30-32 | two different valid filing dates of one code never get the same file name |
| `Windows.CloseAllButFirst` | YuhoScraper.py:164-169 | closes exactly the windows other than the start window and never the start window. It succeeds exactly when the start window is open, and then only the start window remains, with focus |
| `Windows.ClickLink` | YuhoScraper.py:103-112 | fails with a timeout unless a window opened. Otherwise the new handles are added, focus moves to a new handle and the start handle is kept |
| `Windows.ClickKeepsResettable` | YuhoScraper.py:108-111 | after a click the start window is still open, the handles stay distinct and focus is off the start window, so the next reset succeeds |
| `Batch.Processed` | YuhoScraper.py:20 | the visited links are exactly the page's links whose text starts with 有, each as many times as it occurs on the page |
| `Batch.ProcessedConcat` | YuhoScraper.py:20 | the filter keeps page order: filtering a concatenation gives the concatenation of the filtered parts |
| `Batch.FirstWithText` | YuhoScraper.py:121-124 | the lookup returns the first link on the page with the requested text, and none exactly when no link has it |
| `Batch.Attempt` | YuhoScraper.py:24-36 | a raise in the reset, lookup or metadata step (lines 25-27) leaves `idf` unassigned; otherwise `idf` is assigned exactly when the first link with the text is found and its text block reads as metadata, which is then the assigned value; an assigned iteration completes exactly when no later step (lines 28-35) raises |
| `Batch.AttemptCompletes` | YuhoScraper.py:24-36 | an iteration reaches the SUCCESS assignment exactly when no step raises and the metadata is read |
| `Batch.Iterate` | YuhoScraper.py:24-39 | each pass appends one reference to `mdf`. It raises exactly when it fails before `idf` is assigned while no `idf` exists yet |
| `Batch.LoopClosedForm` | YuhoScraper.py:23-39 | the loop raises exactly when the first iteration fails before its metadata is read. Otherwise row `k` holds the metadata of the last assignment at or before `k`. Its status is SUCCESS only if that iteration completed and the next iteration, if any, assigned a new `idf` |
| `Batch.DownloadAllSpec` | YuhoScraper.py:14-41 | about `Batch.DownloadAll`, the whole function for one company: covers when the download raises (no links, an empty link text, an unbound `idf`, nothing to concatenate). Otherwise it returns exactly one row per visited link, with the contents given in closed form |
| `Batch.SuccessRowMeansCompleted` | YuhoScraper.py:24-38 | a SUCCESS row stands for a link on which every step through the final reset completed |
| `Batch.FailureOverwritesPreviousRow` | YuhoScraper.py:27-39 | when a link fails before its metadata is read, the previous row turns FAILED and is repeated |
| `Batch.CompletedReportOverwritten` | YuhoScraper.py:24-39 | for any two annual-report links whose text block reads as some metadata, where the first downloads fully and the second raises while it is looked up again, both rows come out FAILED and both carry the first report's metadata |
| `Batch.DownloadAllIntended` | YuhoScraper.py:23-39 | corrected loop: one row per visited link, SUCCESS exactly when that link's iteration completed, metadata present exactly when it was read, and then it is the metadata read from the text block of the first link on the page with that text (the link the loop looks up again) |
| `IndexMaster.TickerOf` | IndexMaster.py:45 | the ticker is the prefix of `str(localcode)` of length min(4, its length) |
| `IndexMaster.KeyLeIsTotalPreorder` | IndexMaster.py:46 | the `(date, localcode, indexname)` order is total and transitive |
| `Sorting.SortSorted` | IndexMaster.py:46 | sorting yields a permutation of the input that is ordered by the key |
| `IndexMaster.LastBefore` | IndexMaster.py:47-50 | `shift(1)` within a group reads the nearest earlier row of the same group, and is absent when no earlier row exists |
| `IndexMaster.AddTsFeatures` | IndexMaster.py:36-56 | the one-pass loop returns the input rows as a sorted permutation. Every row's derived columns equal the grouped-shift definition over that order |
| `IndexMaster.PrevFfwIsGroupPredecessor` | IndexMaster.py:49-50 | `prev_ffw` is the `ffw` of the immediately preceding row of the same `(ticker, indexname)` group, and is missing exactly for a group's first row |
| `IndexMaster.PrevIndexnameIsTickerPredecessor` | IndexMaster.py:47-48 | `prev_indexname` and `prev_no.ofsharesbeforeffw` come from the immediately preceding row of the same ticker, whatever its index name, and are missing exactly for a ticker's first row |
| `IndexMaster.DerivedColumns` | IndexMaster.py:51-54 | `dffw = ffw - prev_ffw` exactly when a predecessor exists. `abs_dffw` is its non-negative absolute value, `old_shares + change = shares`, and no event is set yet |
| `IndexMaster.ContinuedMembershipHasPrevFfw` | IndexMaster.py:47-51 | when the ticker's previous row has the same index name, that row is also the group predecessor, so `prev_ffw` and `abs_dffw` are present |
| `IndexMaster.FlagEvent` | IndexMaster.py:60-63 | only `eventtype` may change. A qualifying row gets `topix_ffw_change` and any other row is untouched |
| `IndexMaster.AddEventFlags` | IndexMaster.py:58-65 | a row's flag is set exactly when it qualifies or was already set. Other columns never change and non-qualifying rows are untouched |
| `IndexMaster.FlagExactlyWhenConditionsHold` | IndexMaster.py:60-63 | on freshly derived rows, the flag fires exactly when the index is TOPIX, the ticker's previous index name is the same, and `old_shares > 0` |
| `IndexMaster.AddEventFlagsIdempotent` | IndexMaster.py:58-65 | flagging a second time changes nothing |
| `IndexMaster.FlaggedChanges` | IndexMaster.py:71 | the query keeps exactly the projections of flagged rows |
| `IndexMaster.FlaggedChangesConcat` | IndexMaster.py:71 | the query works row by row: over a concatenation it gives the concatenation of the two results, keeping order and duplicates |
| `IndexMaster.FlaggedChangesOfOne` | IndexMaster.py:71 | one row gives its projection exactly when it is flagged, and nothing otherwise |
| `IndexMaster.GetTopixFfwChanges` | IndexMaster.py:67-73 | returns a permutation of the flagged rows projected onto the fixed columns, with `abs_dffw` non-increasing |
| `IndexMaster.RankedChangesHaveAbsDffw` | IndexMaster.py:58-72 | on a derived and flagged table, every ranked row has an `abs_dffw`, so no NaN reaches the ranking |

## Left out

- Selenium driving is not modelled. This covers browser launch and options, `__enter__`/`__exit__`, page loads, `WebDriverWait`, frame switching in `click_holdings_section` and `save_content`, clicks, and `page_source`. A `Link`'s fault field says at which step the browser raises.
- `click_first_yuho_link` is not modelled: nothing in the core calls it.
- The content written to the HTML file and the `output/kaishajokyo` directory prefix are not modelled. Only the file name is (`Wareki.FileName`).
- The batch loop does not record which files were written. It also does not model `code` defaulting to `ecode`, which only affects the file name.
- `splitlines()` of the block text is not modelled. A `Link` carries the lines directly.
- `pd.to_datetime` calendar parsing is the parameter `parseDate`.
- The batch loop does not thread the window state through its steps. Reset and click are modelled separately in `Windows`, and their failures are part of a link's fault data.
- `Wareki.LeadingNumber`: only the ASCII digits 0-9 are modelled. Python's `\d` and `int()` also accept other Unicode decimal digits.
- `IndexMaster.Row`: `localcode` is a natural number, as pandas parses a numeric code column. Alphanumeric codes are not modelled. `ffw` and share counts are integers, not floats, and NaN cells in the input columns are not modelled.
- `IndexMaster.AddTsFeatures`: the order of rows with equal `(date, localcode, indexname)` keys is not stated, because the contract fixes only sortedness and the multiset of rows.
- `IndexMaster.GetTopixFfwChanges`: the order among equal `abs_dffw` values is not stated. pandas' default quicksort does not fix it either.
- File loading (`parse_files`), column renaming, `pd.concat`, and all of EDINETUniverse.py are tabular glue over pandas, I/O and floats, and are not modelled.

## Findings

| source | as written | input that shows it | evidently intended | confidence | as-written member | corrected member |
|---|---|---|---|---|---|---|
| YuhoScraper.py:27-39 | `idf` is assigned only after the metadata is read. A failure before that sets `status` on the previous iteration's DataFrame, which `mdf` already holds, and appends it again. On the first iteration the failure raises `UnboundLocalError` and aborts the whole download | Two annual-report links sharing a readable text block. The first downloads fully and the second raises while it is looked up again. Both rows come out FAILED with the first link's metadata | One row per visited link, FAILED only for the failing link, and no metadata when none was read | not executed | `Batch.CompletedReportOverwritten` | `Batch.DownloadAllIntended` |
