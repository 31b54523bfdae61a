# MTG Booster Scraper: a verified model of its core

This Dafny project models the parts of MTG Booster Scraper that decide
things, and proves properties about them. The program keeps a catalog of
Magic: The Gathering booster products and moves it between four places: a
Google Sheet, a JSON file, the shops' web pages and a progress window.

- `ScrapePrices.py` picks the catalog items that are due for a price
  refresh. It fetches each price with retries and exponential backoff, then
  writes the price and a `"%Y-%m-%d %H:%M"` timestamp back into the item.
- `TotalCost.py` adds up the `$` prices of the catalog and can leave out a
  number of the most expensive ones.
- `PullSheet.py` turns the worksheet's rows into records keyed by the
  header row. It keeps only rows that cover every header.
- `SheetLoad.py` turns the records back into rows for upload. The `Owned`
  column becomes a boolean.
- `gui.py` renders durations as `HH:MM:SS` and computes the progress
  fraction.

Layout, one module per file:

| file | module | what it holds |
|---|---|---|
| `records.dfy` | `Records` | `Option`; a `dict[str, str]` that keeps its keys in insertion order; `d.get`, `d[k] = v`, `list.index` |
| `decimal.dfy` | `Decimal` | decimal digit strings: `str(n)`, zero padding, and reading digits back |
| `timestamps.dfy` | `Timestamps` | `datetime` on the proleptic Gregorian calendar; `strftime` and `strptime` with `"%Y-%m-%d %H:%M"` |
| `scrape_prices.dfy` | `ScrapePrices` | `should_scrape`, the retry loop, eligibility, gather and the in-place merge |
| `total_cost.dfy` | `TotalCost` | price parsing, `sorted`, the slice that drops the highest prices, `sum` |
| `pull_sheet.dfy` | `PullSheet` | `handle_error` and the row-to-record comprehension |
| `sheet_load.dfy` | `SheetLoad` | the row building of `update_spreadsheet` and the empty-data guard of `main` |
| `gui.dfy` | `Gui` | `format_time` and the percentage guard |

The model takes the source's own form:

- The browser is a parameter: for each catalog item, a list of attempt
  outcomes (`Fetched(text)` or `Failed`).
- The clock is a parameter `now`.
- `asyncio.gather` runs its tasks one after another, and its results come
  back in task order.
- The merge updates the catalog in place, as an `array` of records.
- The retry loop, the price collection, the merge and the row building are
  methods with loops. They are proved against functions that specify them.
- Prices are exact `real`s.

How the model handles some error cases:

- **A due item without a `Set` key.** `item["Set"]` (ScrapePrices.py:81)
  sits outside the task's `try`, so the whole run raises and nothing is
  merged. `ScrapePrices.ScrapePrices` returns `ok == false` and leaves the
  catalog unchanged.
- **A sheet row longer than the header row.** The comprehension reads
  `headers[i]` for every column of the row (PullSheet.py:66). A longer row
  raises `IndexError`, and the generic `except` turns that into `None`. The
  model follows the code: one longer row makes the whole pull fail. It does
  not just drop that row.

## Model

| member | source | states |
|---|---|---|
| Records.Get | ScrapePrices.py:51 | `d.get(k)` is present exactly when `k` is a key, and then holds that key's value |
| Records.Set | ScrapePrices.py:137-138 | `d[k] = v`: `k` maps to `v`, every other key is unchanged, an existing key keeps its place and a new key goes last |
| Records.IndexOf | SheetLoad.py:57 | `list.index` returns the position of the first occurrence |
| Decimal.PaddedRoundTrip | gui.py:24 | a number below `10^width`, zero-padded to `width`, is exactly `width` digits that read back as the number |
| Decimal.PaddedOfValue | gui.py:24 | a string of `width` digits, read as a number and zero-padded back to `width`, is the same string |
| Timestamps.ParseStamp | ScrapePrices.py:57 | an accepted stamp has 16 characters and denotes a valid `datetime` with zero seconds and microseconds, and `strftime` writes that `datetime` back as exactly the accepted text |
| Timestamps.FormatStamp | ScrapePrices.py:138 | `strftime("%Y-%m-%d %H:%M")` writes 16 characters: the year in four digits, then month, day, hour and minute in two digits each, at fixed places between `-`, `-`, a space and `:`; each field reads back as its value |
| Timestamps.ParseFormatStamp | ScrapePrices.py:138 | a stamp written with `strftime` parses back with `strptime` to the same instant, truncated to the minute |
| Timestamps.TruncateWithinMinute | ScrapePrices.py:138 | the stamp's instant is never after the clock reading, and less than a minute before it |
| ScrapePrices.ShouldScrape | ScrapePrices.py:44-64 | due when the interval is 0, when the stamp is missing or empty, or when it does not parse; otherwise due exactly when at least `interval` hours have passed since the stamp |
| ScrapePrices.DueStaysDue | ScrapePrices.py:57-61 | an item that is due stays due as the clock moves forward |
| ScrapePrices.StampedNotDue | ScrapePrices.py:136-138 | an item just stamped by the merge is not due again at the same clock reading for any interval of one hour or more |
| ScrapePrices.EligibleFrom | ScrapePrices.py:125 | from a start position on, the kept positions are in catalog order, and a position is kept exactly when its item has a non-empty `Link` and is due |
| ScrapePrices.Eligible | ScrapePrices.py:125 | `items_to_scrape` holds, in catalog order and once each, exactly the items with a non-empty `Link` that are due |
| ScrapePrices.FirstFetch | ScrapePrices.py:89-117 | finds the first successful attempt among the first `n`: every earlier attempt failed, and it finds none only when all `n` failed |
| ScrapePrices.Scraped | ScrapePrices.py:89-117 | a worker returns no text exactly when all `retries` attempts fail; otherwise it returns the text of an attempt that every earlier attempt failed before |
| ScrapePrices.Backoff | ScrapePrices.py:119-122 | the sleep after failed attempt `i` lasts `2^i` seconds |
| ScrapePrices.BackoffTotal | ScrapePrices.py:119-122 | after `n` sleeps the worker has slept `2^n - 1` seconds in all: the backoff has no cap |
| ScrapePrices.ScrapeSinglePrice | ScrapePrices.py:89-122 | returns the text of the first successful attempt, or `None` when all `retries` attempts fail (or `retries <= 0`); the attempts made before it all failed; it sleeps `2^i` after each failed attempt except the last |
| ScrapePrices.Stamp | ScrapePrices.py:137-138 | a successful merge sets `Current Price` to the price and `Last Scrape` to the formatted clock; every other key is unchanged and no key is lost |
| ScrapePrices.Merged | ScrapePrices.py:135-141 | an eligible item with a non-empty result gets that price and the formatted clock, every other key unchanged; with `None` or `""` it stays exactly as it was |
| ScrapePrices.Gather | ScrapePrices.py:129-132 | succeeds exactly when every eligible item has a `Set` key; the k-th result is then what the retry loop returns for the k-th eligible item |
| ScrapePrices.Merge | ScrapePrices.py:135-141 | every eligible item whose result is a non-empty string is stamped with it; every other item is unchanged |
| ScrapePrices.ScrapePrices | ScrapePrices.py:124-143 | the run raises exactly when some due item with a link has no `Set`, and then changes nothing; otherwise each due item with a link is merged with its scrape result and every other item is left as it was |
| TotalCost.StripLeft | TotalCost.py:39 | the result is a suffix of the input, everything cut off is whitespace, and it does not start with whitespace |
| TotalCost.StripRight | TotalCost.py:39 | the result is a prefix of the input, everything cut off is whitespace, and it does not end with whitespace |
| TotalCost.Strip | TotalCost.py:39 | `strip()` returns a contiguous piece of the input with only whitespace before and after it, and that piece neither starts nor ends with whitespace |
| TotalCost.RemoveAll | TotalCost.py:42 | `replace(c, "")` leaves every character except `c`, each as often as before, and no `c` |
| TotalCost.RemoveAllConcat | TotalCost.py:42 | `replace` works piece by piece, so the characters it keeps stay in their order |
| TotalCost.RemoveAllAbsent | TotalCost.py:42 | `replace` of a character that does not occur leaves the text unchanged |
| TotalCost.ParseNumber | TotalCost.py:42 | what `float` accepts is a non-empty run of digits and points, with an optional sign first; digits alone read as their value and `-` followed by digits as its negation |
| TotalCost.PriceOf | TotalCost.py:39-45 | a missing or empty `Current Price` never counts, and a counted price starts with `$` once stripped |
| TotalCost.ValidPrices | TotalCost.py:37-45 | the loop yields at most one price per item |
| TotalCost.ValidPricesMembers | TotalCost.py:37-45 | every counted item's price is in `prices`, and every entry of `prices` is some item's price |
| TotalCost.ValidPricesStep | TotalCost.py:38-45 | one more item appends its price to the list if it has one, and appends nothing otherwise |
| TotalCost.CollectPrices | TotalCost.py:37-45 | the loop collects, in catalog order, exactly the prices the items contribute |
| TotalCost.Sort | TotalCost.py:48 | `sorted` returns an ascending permutation of the prices |
| TotalCost.SortedUnique | TotalCost.py:48 | two ascending lists with the same elements are equal, so the sorted list depends only on the multiset of prices |
| TotalCost.SumWithoutHighest | TotalCost.py:47-55 | sorts, drops the `ignore_highest` last prices when it is positive, and sums the rest |
| TotalCost.TotalValue | TotalCost.py:37-56 | ignoring no price adds up every valid price; ignoring at least as many prices as there are gives `0` |
| TotalCost.CalculateTotalValue | TotalCost.py:37-56 | returns the specified total; for `ignore_highest <= 0` that is the sum of every valid price, and for `ignore_highest` at least the number of prices it is `0` |
| TotalCost.KeptAndDropped | TotalCost.py:50-52 | the kept prices are ascending; kept and dropped prices together are exactly the valid prices; as many prices are dropped as the slice says; and no kept price exceeds a dropped one |
| TotalCost.SortedSplit | TotalCost.py:52 | cutting an ascending list leaves an ascending front whose elements are all at most those cut off |
| TotalCost.KeptPlusDropped | TotalCost.py:52-55 | the sum of the kept prices plus the sum of the dropped ones is the sum of all prices |
| TotalCost.TotalPlusDropped | TotalCost.py:37-56 | the total plus the dropped prices is the sum of every valid price |
| TotalCost.SortedSum | TotalCost.py:48-55 | sorting does not change the sum |
| TotalCost.SumConcat | TotalCost.py:55 | the sum of two lists joined is the sum of their sums |
| TotalCost.SumPermutation | TotalCost.py:55 | the sum does not depend on the order of the prices |
| TotalCost.ValidPricesConcat | TotalCost.py:37-45 | the prices of two catalogs joined are the prices of the first followed by those of the second |
| TotalCost.ValidPricesPermutation | TotalCost.py:37-45 | reordering the catalog reorders its prices and changes nothing else |
| TotalCost.TotalOrderIndependent | TotalCost.py:37-56 | the total does not depend on the order of the catalog |
| TotalCost.PointNumberParses | TotalCost.py:42 | `float` of digits, a point and digits is their exact decimal value |
| TotalCost.RenderedCleaned | TotalCost.py:39-42 | a price rendered as `$dollars.cc` survives `strip()`, and removing `$` and `,` leaves the bare number |
| TotalCost.RenderedNumber | TotalCost.py:42 | the cleaned text of a rendered price parses to `dollars + cents/100` |
| TotalCost.RenderedPriceParses | TotalCost.py:39-43 | an item whose price is rendered as `$dollars.cc` contributes exactly `dollars + cents/100` |
| TotalCost.IgnoreHighestOfThree | TotalCost.py:47-55 | with three prices and `ignore_highest == 1`, the highest is left out and the other two are summed |
| TotalCost.SortThree | TotalCost.py:48 | `sorted` of three prices, the second least and the third greatest, lists the second, then the first, then the third |
| PullSheet.HandleError | PullSheet.py:25-39 | logs the message unchanged, at error level exactly for `"error"` and at warning level exactly for `"warning"` (info otherwise), and returns `None` |
| PullSheet.RowRecord | PullSheet.py:66 | the record built from a row is a well-formed dict |
| PullSheet.RowRecordEntries | PullSheet.py:66 | the record has a key for exactly the headers of the row's columns |
| PullSheet.RowRecordKeys | PullSheet.py:66 | with distinct headers, the keys come in column order |
| PullSheet.RowRecordLaterWins | PullSheet.py:66 | a column whose header does not occur again further right holds its own cell in the record |
| PullSheet.DuplicateHeader | PullSheet.py:66 | two columns under one header give a single key, which holds the later cell |
| PullSheet.FullRowRecord | PullSheet.py:66 | with distinct headers, a full-width row maps each header to its own cell, with the keys in header order |
| PullSheet.FullRowsFrom | PullSheet.py:67 | the kept row indices lie within the data |
| PullSheet.FullRowsOrdered | PullSheet.py:67 | the kept rows keep their sheet order |
| PullSheet.FullRowsMembers | PullSheet.py:67 | a row is kept exactly when it has at least as many cells as there are headers |
| PullSheet.KeptCount | PullSheet.py:65-68 | no more rows are kept than there are data rows |
| PullSheet.RecordsFrom | PullSheet.py:65-68 | the comprehension fails exactly when some row is longer than the header row; otherwise it makes one record per kept row |
| PullSheet.RecordsAligned | PullSheet.py:65-68 | the j-th record is built from the j-th kept row, and that row is exactly as wide as the header row |
| PullSheet.ToRecords | PullSheet.py:65-68 | `None` exactly when some row is longer than the headers; otherwise one record per full-width row, in sheet order |
| PullSheet.DataRows | PullSheet.py:62 | `get_all_values()[1:]` is every row after the first, and nothing for an empty grid |
| PullSheet.PullSheet | PullSheet.py:42-82 | what is saved is what is returned; for a fetched sheet the records are exactly those of the comprehension over the rows after the first; `None` exactly when authentication or the API fails or a data row is longer than the headers, logged at error level with the message of the `except` that caught it; otherwise at info level with the number of entries |
| PullSheet.HeaderRowIgnored | PullSheet.py:59-62 | the grid's first row never affects the result |
| SheetLoad.Upper | SheetLoad.py:57 | `upper()` keeps the length and upper-cases each character |
| SheetLoad.IsTrue | SheetLoad.py:57 | `Owned` becomes `True` exactly when its text is `true` in any letter case |
| SheetLoad.Cells | SheetLoad.py:54 | the row is each header's value, or a `KeyError` for the first header the record lacks |
| SheetLoad.ExpectedRow | SheetLoad.py:53-58 | the row built for a record has one cell per header |
| SheetLoad.UpdateSpreadsheet | SheetLoad.py:50-58 | an empty list raises `IndexError`; otherwise the rows are sent exactly when no record fails, with the first record's keys as headers and each record's expected row; on a failure the exception logged is the one of the first failing record |
| SheetLoad.Upload | SheetLoad.py:81-89 | nothing is uploaded when loading failed or gave no record, so the empty-list `IndexError` never occurs; otherwise the upload goes ahead as `update_spreadsheet` decides |
| SheetLoad.Reloaded | SheetLoad.py:53-58 | a pulled row reloads as one cell per header |
| SheetLoad.PulledRowReloads | SheetLoad.py:51-58 | under distinct headers, the record pulled from a row uploads without failing and gives that row's cells back, with `Owned` as a boolean |
| SheetLoad.PulledRecordsReload | SheetLoad.py:51-58 | records pulled under distinct headers upload with the same header row and, for each kept row, that row's cells |
| Gui.FloorMod | gui.py:22-23 | Python's `%` by a positive divisor lies in `[0, d)` |
| Gui.FloorOfQuotient | gui.py:21 | the floor of `x / d` is the floor of `x` divided, rounding down, by `d` |
| Gui.FieldsOfFloor | gui.py:21-23 | each field of `format_time` equals the floor of the seconds split by integer division |
| Gui.ClockFields | gui.py:21-23 | the minutes and seconds lie in `[0, 60)`, and hours, minutes and seconds add back up to the whole seconds |
| Gui.Pad2 | gui.py:24 | `:02d` of a number that is not negative gives at least two digits that read back as the number, exactly two below 100; a negative number gives `-` and the digits of its magnitude |
| Gui.FormatTime | gui.py:19-24 | for any duration that is not negative: digits, with a colon before each of the last two two-digit fields; exactly eight characters under 100 hours |
| Gui.ParseClock | gui.py:24 | the partner of `format_time`: reads `HH:MM:SS` as three fields under 100, and accepts only text that is exactly the rendering of the fields it returns |
| Gui.ClockRoundTrip | gui.py:24 | fields under 100 render as eight characters that read back as the same three fields |
| Gui.FormatTimeRoundTrip | gui.py:19-24 | under 100 hours the rendering is eight characters and reads back as the three fields `format_time` computed, whose weighted sum is the whole seconds |
| Gui.NegativeDuration | gui.py:19-24 | a negative duration renders with negative hours and positive minutes and seconds: `-1` second is `-1:59:59` |
| Gui.Fraction | gui.py:47-50 | `0` when nothing is to be scraped; otherwise `processed / to_scrape`; between 0 and 1 while processed is between 0 and `to_scrape` |

## Left out

- Browser automation with playwright (launch, user agent, blocked
  resources, timeouts) is out. Each attempt is an outcome given as a
  parameter.
- Concurrency is out: the semaphore, `max_threads`, and gather's
  interleaving. The tasks run in turn, and gather keeps the result order
  either way.
- Time is a parameter. `time.time`, the elapsed-time logs and the length
  of each `asyncio.sleep` are not modelled. The retry loop returns the list
  of sleeps it would make.
- The Google Sheets API is not modelled: authentication, opening the sheet,
  `row_values`, `get_all_values`, `worksheet.update` and `worksheet.format`.
  Their inputs and outputs are parameters and results.
- The `Release Date` column formatting is not modelled (SheetLoad.py:63-69),
  and neither is any exception raised after the rows are built.
- File I/O is not modelled: the config file, `load_data`, `save_data`,
  `sheet_data.json`, a `json.dump` failure, and the progress file.
- Log text is not modelled, apart from the level and message of
  `handle_error` and the level of `pull_sheet`'s outcome.
- The GUI widgets, threads and subprocesses are not modelled, and neither
  is the `{percentage:.1%}` display.
- The progress bar's value is not modelled. `Gui.Fraction` computes the
  fraction only.
- ScrapePrices.ScrapePrices: one clock reading `now` serves the whole run.
  The source reads `datetime.now()` separately for each `should_scrape`
  call and each merged item.
- ScrapePrices.ShouldScrape: the warning at ScrapePrices.py:63 reads
  `item['Set']`, which raises `KeyError` when that key is missing. The
  model returns "due" instead. The run's outcome is the same: that item is
  eligible, its task then fails on the same key (ScrapePrices.py:81), and
  nothing is merged.
- Timestamps.ParseStamp accepts only the canonical layout: zero-padded
  ASCII digits and a single space. CPython's `strptime` accepts more. It
  takes fields that are not padded (`2024-1-5 3:07`), a day padded with a
  space (`%d` matches ` 5`), and any run of whitespace for the space in the
  format (two spaces, a tab). Its `\d` also matches non-ASCII decimal
  digits. The model treats all of these stamps as unparseable, so the item
  counts as due.
- Timestamps.FormatStamp pads years below 1000 to four digits. The
  platform's `strftime` may not.
- TotalCost.ParseNumber accepts only an optional sign, digits and at most
  one point. Python's `float` also accepts exponents, `inf` and `nan`,
  underscores, and surrounding whitespace.
- TotalCost.CalculateTotalValue works on exact reals. It does not model
  binary floating-point rounding in `float` or `sum`.
- TotalCost.IsSpace and SheetLoad.Upper cover ASCII only. Python's
  `isspace` and `upper` follow Unicode.
- JSON values are strings only. A non-string value in a record, such as a
  number or a boolean, is not modelled.
- PullSheet.PullSheet takes the header row as its own input. It is not
  tied to the first row of the grid, just as `row_values(1)` and
  `get_all_values()` are two separate API calls.
- ScrapePrices.Merge updates the catalog's array slots by position. The
  source mutates the dict objects that `items_to_scrape` shares with
  `data`. The final catalog is the same, but the aliasing itself is not
  modelled.
