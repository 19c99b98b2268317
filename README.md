# candlestick_retriever: the incremental candle update, in Dafny

candlestick_retriever keeps one file of 1-minute candles per trading pair, taken from the Binance klines endpoint. A run updates the file in four steps:

1. It reads the newest stored open time, the cursor.
2. It asks the exchange for up to 1000 candles starting just after the cursor.
3. It moves the cursor to the newest open time in the answer. It repeats until the exchange returns nothing or nothing newer.
4. It cleans what it fetched and appends it to the file.

Cleaning (`clean_raw`) does the following, in this order:

- drops repeated open times, keeping the first;
- drops candles that do not span a full minute;
- drops the `close_time` and `ignore` columns;
- checks integrity;
- indexes the frame by open time;
- cuts off the current day.

The model covers three source files:

- `preprocessing.py`: the cleaning and the append.
- `fetch_candlesticks.py`: the cursor loop, the file info and the write. Also the choice of pairs.
- `main.py`'s older `all_candles_to_csv`: the same loop with a stop at the start of today. It rewrites the CSV with the cleaned saved rows followed by the cleaned fetched rows.

## How the model is built

- **Modules.** `Seqs` holds the sequence vocabulary: filter, concatenation of batches, subsequence. `Candles` holds the records: a raw kline, a row without the transport columns, a stored candle indexed by its open time.
  - A missing cell, a pandas NaN, is `None`.
  - The last three modules follow the three Python files: `Preprocessing`, `FetchCandlesticks` and `MainCsv`.
  - `Pagination` holds the loop that `gather_new_candles` and `all_candles_to_csv` share.
- **The exchange.** The klines request is a function parameter, `fetch(startTime, limit)`. An HTTP error becomes the empty answer, as in `get_batch`.
  - Termination needs one assumption about the exchange, `Pagination.Sound`. Every candle it returns opens at or after the requested start and no later than a horizon.
  - Under that assumption, `Pagination.Paginate` is the list of pages the loop appends. `until` is `None` for `fetch_candlesticks.py` and `Some(today)` for `main.py`'s stop at the start of today.
- **Methods and their specifications.** The loops are methods: `GatherNewCandles` and `AllCandlesToCsv`, each a `while` loop with its invariants. They are proved equal to the specification functions `Paginate`, `ParquetRun` and `CsvRun`. The properties of those functions are proved as lemmas.
- **Files and the clock.** A stored file is a value passed in: `Option<seq<Candle>>`, `None` when there is no file. The start of the current day is a parameter `today`, in ms.
- **A sorted upstream.** `Pagination.HistoryFetch` is an exchange that serves one ascending history. Against it, the loop provably fetches exactly the candles after the cursor.

### The source as written

Three behaviours are modelled as the code has them, each with a lemma that shows it:

- **No sort.** `clean_raw`'s `sort_values` call throws its result away, so cleaning never reorders rows. The `CleanRawDoesNotSort` lemma shows this.
- **No cross-file deduplication.** `write_raw_to_parquet` does not deduplicate across the stored rows and the new ones.
  - `WriteRawToParquetKeepsOverlap` shows a repeated open time being written twice.
  - `ParquetRunAppendsNewer` shows that the cursor protocol still never adds an open time the file already has.
- **The returned count.** `write_to_parquet` returns the number of fetched raw rows, not the number of candles added (`WriteToParquetCountsRawRows`).

Two calls do not match the functions they name. The model uses the evident meaning of each:

- **The call at `fetch_candlesticks.py:167`.** It passes `base` and `quote` as extra positional arguments to the three-parameter `write_to_parquet`. The intended call is modelled: the batches, with append on.
- **`quick_clean` in `main.py`.** `main.py` calls `pp.quick_clean`, which `preprocessing.py` does not define. It is taken to be `clean_raw` with its default `limit_to_today=True`.

## Model

| member | source | states |
|---|---|---|
| Candles.MaxPresent | main.py:94 | The largest present open time: None exactly when every key is missing; otherwise it is one of the keys and no present key is larger. |
| Preprocessing.DropDuplicates | preprocessing.py:41-44 | Dropping duplicates never adds rows, and the first row of a non-empty frame is always kept. |
| Preprocessing.AssertIntegrity | preprocessing.py:29-33 | The check passes iff no row is entirely missing and no two rows share an open time. It reports an empty row exactly when some row has every cell missing. |
| Preprocessing.CleanRaw | preprocessing.py:36-65 | Cleaning always succeeds (modelled run; see Left out): its integrity check cannot fail. It never returns more candles than raw rows. |
| Preprocessing.WriteRawToParquet | preprocessing.py:68-77 | Always succeeds (modelled run; see Left out). When appending to an existing file, the stored candles come first, unchanged. The cleaned new candles follow them. Otherwise the file is the cleaned candles alone. |
| Preprocessing.SetDtypes | preprocessing.py:7-26 | The frame's index is the open_time column, row for row and in order. |
| Preprocessing.DropDuplicatesSpec | preprocessing.py:41-44 | After dropping duplicates no open time repeats. The result is a subsequence of the input. It keeps exactly the rows that do not repeat an earlier open time. |
| Preprocessing.DropDuplicatesKeepsUnique | preprocessing.py:42-44 | Without duplicates the mask keeps the frame unchanged, so the `dupes > 0` guard changes nothing. |
| Preprocessing.NoDuplicatesIsDistinct | preprocessing.py:33 | A frame has no row that repeats an earlier open time iff its open times are pairwise distinct. |
| Preprocessing.DropDuplicatesAppend | preprocessing.py:41-44 | Frames with disjoint open times are deduplicated independently. |
| Preprocessing.CompleteRowsSpec | preprocessing.py:41-51 | A row survives deduplication and the full-minute filter iff it is a first occurrence and spans 59999 ms. These rows have distinct open times, in input order. |
| Preprocessing.CleanRawPassesIntegrity | preprocessing.py:57 | clean_raw's integrity check never fails: both assertions of assert_integrity always hold on the frame it is given. |
| Preprocessing.CleanRawOrder | preprocessing.py:36-65 | The cleaned open times are distinct and in the order of their first occurrences: a subsequence of the deduplicated raw open times, hence of the raw open times. With limit_to_today, all are before today. |
| Preprocessing.CleanRawProvenance | preprocessing.py:41-59 | Every cleaned candle comes from the first raw row with its open time. That row is complete, and its cells are carried over unchanged. |
| Preprocessing.CleanRawKeepsComplete | preprocessing.py:41-63 | Every complete first occurrence is in the cleaned frame, if before today when cutting off. |
| Preprocessing.CleanRawKeepsAll | preprocessing.py:36-65 | A frame with no repeated open time, all of whose rows are complete (and before today when cutting off), is cleaned into exactly its rows, indexed by open time, in the same order. |
| Preprocessing.CleanRawAppend | preprocessing.py:36-65 | Cleaning two frames with disjoint open times, concatenated, is cleaning each and concatenating. |
| Preprocessing.CleanRawAbove | preprocessing.py:36-65 | If every present raw open time is above a bound, so is every cleaned one. |
| Preprocessing.CleanRawAtMost | preprocessing.py:36-65 | If every present raw open time is at most a bound, so is every cleaned one. |
| Preprocessing.CleanRawDoesNotSort | preprocessing.py:47 | For any two complete candles where the second opens earlier, cleaning without the cut-off returns them in that same, unsorted order. |
| Preprocessing.CleanRawDropsRepeat | preprocessing.py:41-44 | For any complete candle before today, the same row given twice comes out as that one candle. |
| Preprocessing.WriteRawToParquetDistinct | preprocessing.py:68-77 | An append writes the stored frame followed by the cleaned frame. The result repeats no open time iff the stored frame does not and no cleaned candle reuses a stored open time. |
| Preprocessing.WriteRawToParquetKeepsOverlap | preprocessing.py:72-76 | For any complete candle already in the file, appending it again as a new row writes it twice. |
| Pagination.Paginate | fetch_candlesticks.py:103-123 | Every page the loop appends is a non-empty answer (main.py:104-129 is the same loop with the stop at today). |
| Pagination.SoundBatch | fetch_candlesticks.py:114-117 | A non-empty answer has a newest open time, no later than the horizon and not before the requested start. |
| Pagination.PaginateStops | fetch_candlesticks.py:103-115 | The loop appends nothing when the first answer is empty, or, in main.py's loop, when the cursor is already at or past the start of today. |
| Pagination.PaginateStep | fetch_candlesticks.py:103-123 | One round of the loop: the request goes from cursor + 1. When pages follow, the answer is non-empty and its max moves the cursor forward. The answer is the first page, followed by the pages from the new cursor. |
| Pagination.PaginateRequests | fetch_candlesticks.py:104-123 | Every appended page is non-empty. It is the answer to the request from the previous page's newest open time plus one, or from the starting cursor plus one for the first page. |
| Pagination.PaginateAbove | fetch_candlesticks.py:109-117 | Every candle of every appended page opens after the starting cursor. |
| Pagination.FetchedAfter | fetch_candlesticks.py:188 | Every candle of the concatenated pages opens after the starting cursor. |
| Pagination.PaginateIncreasing | fetch_candlesticks.py:117-123 | Every candle of a page opens after the newest candle of every earlier page. |
| Pagination.PaginateBound | fetch_candlesticks.py:103-123 | The loop ends: it appends at most horizon - cursor pages. |
| Pagination.PaginateUntilIsPrefix | main.py:104-129 | The today-bounded loop of main.py appends a prefix of the pages the unbounded loop appends. |
| Pagination.SinceSpec | fetch_candlesticks.py:106-111 | The candles of an ascending history from a start time are ascending. They are exactly the history's candles at or after that start. |
| Pagination.HistorySound | fetch_candlesticks.py:50-81 | An exchange serving an ascending history up to the horizon satisfies the loop's assumption. |
| Pagination.PaginateHistory | fetch_candlesticks.py:103-123 | Against an ascending history, the pages concatenate to exactly the candles after the cursor. Their number is that count divided by 1000, rounded up. |
| FetchCandlesticks.WriteToParquet | fetch_candlesticks.py:186-190 | Always succeeds (modelled run; see Left out). Returns the number of concatenated raw rows. When appending to an existing file, the file's candles stay a prefix. It never adds more candles than the count it returns. |
| FetchCandlesticks.ParquetRun | fetch_candlesticks.py:157-167 | A run always succeeds (modelled run; see Left out) and keeps the file's candles as a prefix of what it writes. |
| FetchCandlesticks.SelectPairs | fetch_candlesticks.py:199-216 | One pair per TRADING entry with SKIP_DELISTED, one pair per catalog entry without it. |
| FetchCandlesticks.GatherNewCandles | fetch_candlesticks.py:84-154 | The returned list is an empty frame followed by the pages the loop appends. |
| FetchCandlesticks.ParquetInfo | fetch_candlesticks.py:170-183 | (0, 0) without a file or with an empty one. Otherwise the newest stored open time (attained and maximal) and the number of stored candles. |
| FetchCandlesticks.WriteToParquetSpec | fetch_candlesticks.py:186-190 | Returns the number of concatenated raw rows. Writes the cleaned rows after the stored ones when appending to an existing file, or alone otherwise. |
| FetchCandlesticks.WriteToParquetCountsRawRows | fetch_candlesticks.py:190 | For any complete candle before today, two fetched copies of it count 2 but add one candle. |
| FetchCandlesticks.AllCandlesToParquet | fetch_candlesticks.py:157-167 | The run is the file info, the loop from the stored cursor, then an append write. |
| FetchCandlesticks.ParquetRunSpec | fetch_candlesticks.py:157-190 | A run returns the number of fetched rows and writes the file's candles followed by the cleaned fetched rows. |
| FetchCandlesticks.ParquetRunAppendsNewer | fetch_candlesticks.py:157-167 | A run keeps the file as a prefix. Every added candle opens after every stored one and before today. A file without repeated open times stays without them. |
| FetchCandlesticks.ParquetRunUpToDate | fetch_candlesticks.py:163-167 | When the exchange has nothing after the cursor, the count is 0 and the file is unchanged. |
| FetchCandlesticks.ParquetRunHistory | fetch_candlesticks.py:157-167 | Against an ascending history, a run cleans exactly the candles after the newest stored one and appends them. |
| FetchCandlesticks.ParquetRunSorted | fetch_candlesticks.py:157-167 | Against an ascending history, an ascending file stays ascending. |
| FetchCandlesticks.ParquetRunComplete | fetch_candlesticks.py:157-167 | Against an ascending history, every complete candle after the stored cursor and before today ends up in the file. |
| FetchCandlesticks.SelectPairsSpec | fetch_candlesticks.py:199-216 | Without SKIP_DELISTED, every catalog entry gives its pair, in order. With it, exactly the pairs of TRADING entries, in catalog order, one per TRADING entry. |
| MainCsv.StartCursor | main.py:92-98 | 0 without a saved file. Otherwise the newest present saved open time, and None exactly when no saved open time is present. |
| MainCsv.FinishCsv | main.py:135-152 | Always succeeds (modelled run; see Left out). It rewrites the CSV iff a batch was fetched beyond the saved frame, and returns 0 otherwise. A rewritten frame has no repeated open time and nothing from today on. |
| MainCsv.CsvRun | main.py:86-152 | A run fails iff there is no cursor (a saved file without any open time), and then with NoCursor. |
| MainCsv.AllCandlesToCsv | main.py:86-152 | The run is the saved frame, then the today-bounded loop from the saved cursor, then the clean and the line count. |
| MainCsv.CsvRunSavedFirst | main.py:93-152 | The cleaned frame is the cleaned saved rows followed by the cleaned fetched rows. Without new pages nothing is rewritten and 0 is returned. Otherwise the frame is rewritten and the count is its length minus the saved line count. |
| MainCsv.CsvRunFails | main.py:94-107 | A run fails, with NoCursor, iff a saved file has no present open time (the NaN cursor). |
| MainCsv.CsvRunUpToDate | main.py:104-120 | With the cursor at or past the start of today, or an empty answer, the run returns 0 and rewrites nothing. |
| MainCsv.CsvRunFrame | main.py:138-152 | A rewritten frame has no repeated open time and nothing from today on. It starts with the cleaned saved rows, all at or before the cursor, followed by rows all after it. |

## Left out

- get_batch: the HTTP request, its retries after connection errors and time-outs, and the JSON decoding. The request is the `fetch` parameter, and a failed request is its empty answer.
- Pagination.Sound: the loop's termination rests on the exchange never answering with candles after a horizon. The Python loop has no such bound.
- Pagination.Sound: also demands that every returned candle opens at or after the requested start. Under it a non-empty answer always moves the cursor up. So the stop at fetch_candlesticks.py:120-121 and main.py:126-127, for an answer whose newest open time equals the cursor, is never taken in the model. That is the case the comment at fetch_candlesticks.py:118-119 describes. Paginate keeps the branch, and the loop methods close it with `assert false`. ParquetRunAppendsNewer's "adds no open time the file already has" depends on this lower bound. An answer that repeated the cursor's candle next to newer ones would append it again.
- Reading and writing parquet and CSV files, os.stat and the file system: a stored file is a value passed in, and the written frame is returned.
- The float32 casts of set_dtypes_compressed and the datetime conversion of open_time: cells keep their values, a missing cell stays `None`, and open times stay integers in ms.
- Preprocessing.CleanRaw: returns Success where clean_raw raises. set_dtypes_compressed casts number_of_trades to uint16 (preprocessing.py:20). That cast fails on a kept row whose number_of_trades is missing: only open_time and close_time are tested, at preprocessing.py:51, and assert_integrity at preprocessing.py:32 only catches rows with every cell missing. The cast also wraps counts above 65535. The model keeps every cell as given. WriteRawToParquet, WriteToParquet, ParquetRun, FinishCsv and CsvRun inherit this.
- MainCsv.CsvRunFails: its "fails iff there is no cursor" leaves out the uint16 cast failure above and the failures of main.py:139-140 below.
- date.today() and local-time dates: the start of the current day is one parameter `today` in ms, compared with open times directly. The source compares two different instants. main.py:106 compares local calendar dates. preprocessing.py:63 compares the UTC-naive index built by pd.to_datetime(unit='ms') with the local date string. Near midnight the two cut-offs differ by the local UTC offset; the model uses one `today` for both.
- The progress bar, the PyCharm sleeps and all prints.
- main's loop over the pairs, the exchangeInfo request and random.shuffle: SelectPairs covers the choice of pairs before the shuffle; the order after it is random.
- main.py's METADATA entry and the parquet write at main.py:140-146: the METADATA entry only feeds the Kaggle upload (upload_to_kaggle.py is not part of this model). The write's failure is covered by the MainCsv.AllCandlesToCsv line below.
- main.py's CSV round trip: the rewritten CSV is written without its open_time index, so the next run could not read its open times back. The model takes the saved CSV as raw rows with their open times.
- FetchCandlesticks.AllCandlesToParquet: models the intended write_to_parquet(filepath, batches, append=True) call, not the call with extra positional arguments at fetch_candlesticks.py:167.
- MainCsv.AllCandlesToCsv: takes pp.quick_clean to be clean_raw with limit_to_today=True, since preprocessing.py defines no quick_clean.
- MainCsv.AllCandlesToCsv: models the run that main.py:149-152 evidently intend, which the code as written never reaches. pp.quick_clean does not exist, so main.py:139 raises. If quick_clean is clean_raw, the write_raw_to_parquet call at main.py:140 cleans the already cleaned frame again. That frame's open_time is now its index (preprocessing.py:12), so df['open_time'] at preprocessing.py:42 raises KeyError. CsvRun's line count and rewrite, and CsvRunFails's "fails iff there is no cursor", describe that intended run.
