# TinyEarn earnings scraper — a Dafny model

TinyEarn scrapes the earnings-announcements page of a ticker on Zacks.com. `get_earnings`
checks its `start` and `end` dates. It walks the paginated EPS table, switches to the
revenue tab and walks the revenue table. Then it merges the two dictionaries by report date.

Each walk reads the rows of a page in document order:

- a row dated before `start` sets `done` and ends the walk;
- a row dated in `[start, end)` becomes a fresh record stored under its report date (a later row with the same date overwrites it);
- a row dated on or after `end` is skipped;
- a page without the expected table raises an error.

Each figure cell of a row in the window is cleaned: `"--"` becomes NaN, and otherwise `$`, `%`
and `,` are deleted before `float` parses the rest. Text `float` cannot read raises
`ValueError`, which ends the walk and the whole call. What `float` accepts is a parameter of
the model, `numeric`.

The model has six modules:

- `Wrappers` (`wrappers.dfy`): `Option` and `Result`.
- `Cleaning` (`cleaning.dfy`): `__clean_vals` as string functions. The replace chain is `Strip`, and a one-pass filter `Without` is its reference definition.
- `Records` (`records.dfy`): rows, pages, records, the two table descriptors, the error values, the `float` check of a row's figures (`FirstUnparsed`) and `MakeRecord`, the fresh per-row dictionary.
- `Extract` (`extract.dfy`): `__get_eps` and `__get_revenue`, which differ only in the table id and the column names. They are modelled once, parametrised by a `TableSpec`. `ScanRows` and `WalkPages` specify the walk, and `GetTable` is the walk itself as nested loops with `break`.
- `Merge` (`merge.dfy`): `__merge_dicts` as a loop over the dates of the first dictionary, specified by `Merged`.
- `Earnings` (`earnings.dfy`): `get_earnings`, the date check and the composition of the two walks and the merge.

Dates are day ordinals (`int`), so comparisons are exact. A page is either `NoTable` or the
table's rows, already parsed into a report date, a period-ending date and four cell strings.
The browser is replaced by the sequence of pages each walk would read.

Where the code and its own documentation disagree, the model follows the code:

- The docstring of `get_earnings` (build/lib/TinyEarn/TinyEarn.py:28-29) promises the reports between `start` and `end`. The `while done == False` loop at line 133 ends only on a row dated before `start` or on an error, so a window reaching past the oldest report never returns (see Findings). The model's walk also ends when the pages run out.
- The same docstring says reports "after" `start` are pulled. The code stops only on `date < start`, so a report dated on `start` itself is kept, and so does the model.
- The browser is closed only after both walks succeed (line 83); an error in either walk leaves it open. The browser is not part of this model.
- The code raises `KeyError` for a missing EPS table (line 143), a bare `Exception` for a missing revenue table (line 223), `ValueError` from `float` on a figure it cannot read (line 119), and `KeyError` in the merge (line 108). The model keeps one value per cause (`TableNotFound`, `ValueFormat`, `MissingKey`).
- The docstring of `__clean_vals` says an empty cell becomes 0. The code returns NaN, and so does the model.
- The docstring of `__merge_dicts` (line 97) says an error is raised unless both dictionaries have the same dates. The code only looks up the dates of the EPS dictionary: a date only the revenue dictionary has is dropped without an error. The model follows the code (`Merge.MergeDicts` fails exactly when an EPS date is missing from the revenue dictionary).

## Model

| member | source | states |
|---|---|---|
| `Cleaning.CleanVals` | build/lib/TinyEarn/TinyEarn.py:116-119 | the result is missing (NaN) exactly for the sentinel `"--"`; otherwise it is the input with every `$`, `%` and `,` removed and all other characters kept in order |
| `Cleaning.StripIsWithout` | build/lib/TinyEarn/TinyEarn.py:119 | the chain `.replace('$','').replace('%','').replace(',','')` deletes exactly the characters `$`, `%`, `,` in one pass |
| `Cleaning.DeleteIsWithout` | build/lib/TinyEarn/TinyEarn.py:119 | one `str.replace(c, "")` deletes every occurrence of `c` and keeps the rest in order |
| `Cleaning.WithoutTwice` | build/lib/TinyEarn/TinyEarn.py:119 | deleting one set of characters and then another equals deleting their union, so the order of the replaces does not matter |
| `Cleaning.WithoutCounts` | build/lib/TinyEarn/TinyEarn.py:119 | each deleted character no longer occurs; every other character occurs as often as in the input |
| `Cleaning.WithoutConcat` | build/lib/TinyEarn/TinyEarn.py:119 | cleaning a concatenation is concatenating the cleaned parts, so the kept characters keep their order |
| `Cleaning.WithoutFixed` | build/lib/TinyEarn/TinyEarn.py:119 | cleaning leaves a string unchanged if and only if it holds none of the deleted characters |
| `Cleaning.StripIdempotent` | build/lib/TinyEarn/TinyEarn.py:119 | the text handed to `float` contains no `$`, `%` or `,`, and stripping it again changes nothing |
| `Records.MakeRecord` | build/lib/TinyEarn/TinyEarn.py:162-166 | a record has exactly the period ending and the four figure columns of its table; each figure is missing (NaN) exactly when its cell is `"--"`, and otherwise is its own cell with every `$`, `%` and `,` deleted; only the surprise percentage is marked as divided by 100 |
| `Records.RecordReadable` | build/lib/TinyEarn/TinyEarn.py:119-166 | when no figure cell of a row makes `float` raise, every figure stored in its record is text `float` accepts |
| `Records.FirstUnparsed` | build/lib/TinyEarn/TinyEarn.py:162-166 | `float` raises on a row exactly when some cell, in the order estimated, reported, surprise, surprise %, is neither `"--"` nor readable once cleaned; the error carries the first such cell as `__clean_vals` returns it, which `float` rejects |
| `Records.ColumnCounts` | build/lib/TinyEarn/TinyEarn.py:162-166 | each table has five different column names (only `Period Ending` is shared), so a merged record has nine columns |
| `Extract.ScanRows` | build/lib/TinyEarn/TinyEarn.py:149-170 | after one page, `done` and a `float` error never both occur; an error carries text `float` rejects; stored dates are only added, every added date lies in `[start, end)`, and every record has the table's columns |
| `Extract.HaltAt` | build/lib/TinyEarn/TinyEarn.py:149-170 | the row that ends a page is the first one dated before `start` or in the window with an unreadable figure: every row before it is neither |
| `Extract.ScanRowsHalts` | build/lib/TinyEarn/TinyEarn.py:157-166 | `done` is set on a page exactly when its first ending row is dated before `start`, and `float` raises exactly when that row is in the window with an unreadable figure |
| `Extract.WalkPages` | build/lib/TinyEarn/TinyEarn.py:133-187 | a walk from a partial dictionary only adds dates, all in the window; its only errors are the table-not-found error carrying the page URL and `float`'s error on text it rejects |
| `Extract.Extracted` | build/lib/TinyEarn/TinyEarn.py:157-168 | every report date a walk returns satisfies `start <= d < end`; every record has the table's columns; a failure is the table-not-found error or `float`'s error |
| `Extract.GetTable` | build/lib/TinyEarn/TinyEarn.py:121-187 | the loop over pages and rows, with `done`, `break` and the `float` error, returns exactly what the specified walk returns (the revenue walk at lines 189-266 is the same loop on the other table) |
| `Extract.ScanRowsStops` | build/lib/TinyEarn/TinyEarn.py:157-159 | on a page, rows after one dated before `start` are not read |
| `Extract.StopRowEndsWalk` | build/lib/TinyEarn/TinyEarn.py:133-159 | once a row dated before `start` is reached, the rows after it on its page and every later page do not change the result |
| `Extract.StopRowHalts` | build/lib/TinyEarn/TinyEarn.py:157-159 | a page holding a row dated before `start` ends the walk at that row or earlier |
| `Extract.ScanRowsSkips` | build/lib/TinyEarn/TinyEarn.py:157-170 | on a page, a row dated on or after both `end` and `start` is skipped without stopping |
| `Extract.LateRowSkipped` | build/lib/TinyEarn/TinyEarn.py:157-170 | removing such a row anywhere leaves the walk's result unchanged, so the following rows and pages are still read |
| `Extract.WalkFails` | build/lib/TinyEarn/TinyEarn.py:139-166 | the walk fails if and only if, before any row dated before `start`, it reaches a page without the table or an in-window row with a figure `float` cannot read; nothing gathered is returned then |
| `Extract.Visited` | build/lib/TinyEarn/TinyEarn.py:133-166 | the rows a walk reads and goes on from, across pages, are all dated on or after `start` and have readable figures when in the window |
| `Extract.WalkStoresVisited` | build/lib/TinyEarn/TinyEarn.py:133-170 | a successful walk's dictionary is the visited rows stored one after the other |
| `Extract.ScanRowsKey` | build/lib/TinyEarn/TinyEarn.py:161-168 | reading such rows, a date is stored if and only if it was stored before or some row in the window carries it |
| `Extract.ScanRowsLastRecord` | build/lib/TinyEarn/TinyEarn.py:162-170 | reading such rows, the record under a date is the fresh record of the last row with that date: a later row overwrites an earlier one |
| `Extract.ScanRowsUntouched` | build/lib/TinyEarn/TinyEarn.py:161-168 | reading such rows, an entry whose date no in-window row carries is left as it was |
| `Extract.ExtractedLastWins` | build/lib/TinyEarn/TinyEarn.py:127-170 | a walk returns one record per in-window date among the rows it read; each record is built from the last such row alone |
| `Extract.WalkAsWritten` | build/lib/TinyEarn/TinyEarn.py:133-187 | the `while done == False` loop over the page the browser shows: `None` while the loop is still running after `fuel` passes (always with no fuel), otherwise what the first page that ends it returns; an error is either table-not-found with the page's URL or `float`'s error on text it rejects |
| `Extract.AsWrittenNeverEnds` | build/lib/TinyEarn/TinyEarn.py:133 | as written, when every page has the table, no row is dated before `start` and every in-window figure is readable, the loop has not returned after any number of passes |
| `Extract.ExhaustedPagesEndWalk` | build/lib/TinyEarn/TinyEarn.py:133 | in the model such a walk ends when the pages run out, and it succeeds |
| `Extract.AsWrittenAgrees` | build/lib/TinyEarn/TinyEarn.py:133-187 | whenever the loop as written ends within the pages, it returns exactly what the model returns |
| `Merge.MergeDicts` | build/lib/TinyEarn/TinyEarn.py:107-109 | the merge succeeds if and only if every date of `first` is a date of `second`; then it yields `first[d]` updated with `second[d]` for each date `d` of `first`; otherwise it raises `KeyError` on a date of `first` missing from `second` |
| `Merge.MergedKeys` | build/lib/TinyEarn/TinyEarn.py:107-109 | the merged dictionary has exactly the dates of `first` |
| `Merge.MergedRecord` | build/lib/TinyEarn/TinyEarn.py:108 | a merged record has the columns of both records; on a shared column such as `Period Ending` the value of `second` wins, and a column only `first` has keeps its value |
| `Earnings.CheckDates` | build/lib/TinyEarn/TinyEarn.py:62-67 | the check passes if and only if both arguments are dates after string conversion; an unreadable string fails in the conversion, and any other non-date fails the type check with `ValueError` |
| `Earnings.GetEarnings` | build/lib/TinyEarn/TinyEarn.py:62-86 | a date error comes before any page is read; otherwise the EPS walk's error (missing table or `float`), or else the revenue walk's error, or else the merge's result is returned |
| `Earnings.EarningsRecords` | build/lib/TinyEarn/TinyEarn.py:77-86 | a successful result has the EPS dates, all inside `[start, end)`; each record has all nine columns (`AllColumns`), and its `Period Ending` comes from the revenue table |

## Findings

| source | as written | input that shows it | evidently intended | confidence | as-written member | corrected member |
|---|---|---|---|---|---|---|
| build/lib/TinyEarn/TinyEarn.py:133 | `while done == False` ends only when a row dated before `start` is read or an error is raised; after the last page the "next" control has no effect, so the last page is read again and again | any window whose `start` lies before the ticker's oldest announcement, e.g. `start='01/01/1990'`: every page has the table, no row is dated before `start`, and every figure in the window is readable | the walk ends when no further page can be reached and returns what it gathered | medium, not executed; it rests on the "next" control doing nothing on the last page | `Extract.WalkAsWritten` with `Extract.AsWrittenNeverEnds` | `Extract.WalkPages` with `Extract.ExhaustedPagesEndWalk` and `Extract.AsWrittenAgrees` |

## Left out

- Browser control (`__get_browser`, `browser.get`, `find_element_by_xpath`, scrolling, clicks, the tab switch, `browser.close`, `time.sleep`): foreign I/O. Each walk receives the pages it would read instead.
- HTML parsing with BeautifulSoup and `pd.to_datetime`: library calls. Rows arrive parsed, and a date string carries its conversion result (`Text(Some(d))`, or `Text(None)` when the conversion raises).
- A row with fewer than six cells (an `IndexError` in the source): rows are records with all six columns.
- The value `float(...)` computes and the division by 100: floating-point work. A figure is the text `float` would receive, or `None` for NaN, and `Percent` marks a figure divided by 100. Which strings `float` accepts is the parameter `numeric`; its `ValueError` is modelled.
- The DataFrame built when `pandas=True`: output formatting. `GetEarnings` returns the dictionary, as with `pandas=False`.
- The default `end = datetime.date.today()`, evaluated once when the module is loaded: a clock. `end` is a parameter.
- The module-level script at lines 279-281: a live scrape.
- Dictionary insertion order: the model's maps keep no order.
- `Merge.MergeDicts`: which missing date is reported follows the dictionary's insertion order in the source. The model only says that the reported date is one of `first` missing from `second`.
- Mutation in place: `__merge_dicts` updates the EPS dictionary and its record dictionaries in place. The model updates a map value. No other reference to these dictionaries exists, since every record is built fresh per row.
