# Incremental A-share downloader: a Dafny model

This project models the core of a small A-share downloader. It has two entry points.

- `akshare_downloader.py` keeps three SQLite tables of bars: `daily`, `weekly` and `minute`.
  - In each table the primary key is `(ts_code, date)`.
  - For each stock code, `download_stock` reads the last stored date of each series (`get_last_date`). Resuming is inclusive: it fetches from that date, or from the requested start when none is stored. It then appends the fetched frame (`append_data`).
  - Every fetcher is wrapped in a retry decorator: at most three attempts, with a fixed wait of 2 between them.
  - `main` clamps the thread count to 1..300. It runs one `task` per code and advances a progress bar once per code.
- `flask_app.py` serves a form. Its `download` handler works in these steps:
  - collect codes from a `;`-separated text field and from the first CSV field of each uploaded line;
  - keep the all-digit codes and deduplicate them through a set;
  - normalise each code to an exchange symbol (`adapt_code`: `sh` or `sz` followed by the code padded with '0' to at least six digits);
  - run `download_stock` for each symbol;
  - reply with the number of symbols downloaded.

Modules:

- `Wrappers` holds `Option`, `Outcome` and `Result`.
- `Strings` holds the Python string builtins the code relies on: `strip`, `split`, `zfill`, `isdigit`, `str(n)`, and string `<=`, which is also SQLite's BINARY collation.
- `Store` holds:
  - the tables, as maps from key to payload;
  - `get_last_date`, as the lexicographic maximum of one code's dates;
  - the INSERT of a tagged batch;
  - a `Database` class whose three table fields change in place.
- `Fetch` holds the retry policy over an abstract upstream provider.
- `Downloader` holds:
  - `download_stock`, as a specification function `Sync` and a method `DownloadStock` on the database;
  - the thread clamp;
  - the progress bar class;
  - `task` and the submit loop of `main`.
- `FlaskApp` holds `adapt_code`, the code-list assembly and the `download` handler.

The code appends and does not upsert: `to_sql` runs with `if_exists="append"`. A batch whose key is already stored, or that repeats a key within itself, is refused as a whole. The resulting `IntegrityError` propagates out of `download_stock`, and any later series of that code is not fetched (`Downloader.SyncStopsAtFirstFailure`).

Because resuming is inclusive, a provider whose range filter includes the watermark date sends the watermark row back. The daily insert of a stock that already has data is then refused (`Downloader.ResumeOverlapRejected`).

Two behaviours of the code are easy to miss, and the model keeps both:

- Rows that overlap the stored ones are not merged. `to_sql` appends, so a row whose key is already stored makes the whole INSERT fail; nothing is overwritten.
- A fetch that raises after its three attempts leaves `download_stock` at once, so the later series of that stock are not fetched (`Downloader.SyncStopsAtFirstFailure`, and `Downloader.DailyExhaustedStops` for the daily series).

## Model

| member | source | states |
|---|---|---|
| Strings.LexLeReflexive | akshare_downloader.py:89 | Text order is reflexive, so a single date is its own maximum. |
| Strings.LexLeTotal | akshare_downloader.py:89 | Text order is total: any two dates compare. |
| Strings.LexLeAntisymmetric | akshare_downloader.py:89 | Text order is antisymmetric, so the maximum of a set of dates is unique. |
| Strings.LexLeTransitive | akshare_downloader.py:89 | Text order is transitive. |
| Strings.EmptyIsLeast | akshare_downloader.py:91 | The empty string is below every string and is the only string below itself, so an empty maximum means every stored date is empty. |
| Strings.StripLeft | flask_app.py:29 | It never lengthens its input, and the result is empty or starts with a non-whitespace character. |
| Strings.StripLeftSuffix | flask_app.py:29 | Left-stripping keeps a suffix of the input, and everything it drops is whitespace. |
| Strings.StripRight | flask_app.py:29 | It never lengthens its input, and the result is empty or ends with a non-whitespace character. |
| Strings.StripRightPrefix | flask_app.py:29 | Right-stripping keeps a prefix of the input, and everything it drops is whitespace. |
| Strings.Strip | flask_app.py:29 | The result neither starts nor ends with whitespace. |
| Strings.StripSlice | flask_app.py:29 | The stripped string is a slice `s[i..j]` of the input, and everything before `i` and from `j` on is whitespace. |
| Strings.StripKeepsChars | flask_app.py:48 | Every character of a stripped string occurs in the input, so a stripped piece holds no separator the piece did not hold. |
| Strings.StripLeftOfStripped | flask_app.py:29 | Left-stripping a string that does not start with whitespace returns it unchanged. |
| Strings.StripRightOfStripped | flask_app.py:29 | Right-stripping a string that does not end with whitespace returns it unchanged. |
| Strings.StripOfStripped | flask_app.py:29 | Stripping a string that neither starts nor ends with whitespace returns it unchanged. |
| Strings.StripIdempotent | flask_app.py:29 | Stripping twice gives the same result as stripping once. |
| Strings.Split | flask_app.py:48 | The result always has at least one piece. |
| Strings.SplitPiecesFree | flask_app.py:48 | No piece of a split contains the separator. |
| Strings.JoinSplit | flask_app.py:54 | Joining the pieces of a split with the separator gives back the original line. |
| Strings.SplitJoin | flask_app.py:54 | Splitting a join of separator-free pieces gives back exactly those pieces. |
| Strings.Zeros | flask_app.py:33 | The result has length `n` and holds only '0'. |
| Strings.ZFill | flask_app.py:33 | The output length is the larger of the width and the input length. An input already that long is returned unchanged. |
| Strings.ZFillDigits | flask_app.py:33 | On digits, zfill gives digits that end with the input, preceded only by '0' padding. |
| Strings.NatToString | flask_app.py:74 | The decimal rendering is all digits, with no leading zero unless it is "0". |
| Strings.ParseNatToString | flask_app.py:74 | Parsing the decimal rendering of `n` gives back `n`. |
| Store.Tables.Set | akshare_downloader.py:113 | Replacing one table changes that table only. |
| Store.LexMaxExists | akshare_downloader.py:89 | Every non-empty set of dates has a lexicographic maximum. |
| Store.LexMaxUnique | akshare_downloader.py:89 | A set of dates has at most one maximum. |
| Store.MaxOf | akshare_downloader.py:89 | SQL MAX over a non-empty set is a member of the set and is at least every member. |
| Store.DatesOf | akshare_downloader.py:89 | The filtered dates are exactly the dates stored under this code. |
| Store.LastDate | akshare_downloader.py:86-91 | None exactly when no row has this code or every such date is empty. Otherwise it is a stored, non-empty date of this code that is at least every date of this code. |
| Store.LastDateLocal | akshare_downloader.py:89 | Rows of other codes do not affect the last date of a code. |
| Store.BatchMapContents | akshare_downloader.py:112-113 | A batch with distinct dates, tagged with the code, has exactly one entry per row: the row's values under key `(code, date)`. So it has as many entries as rows. |
| Store.Append | akshare_downloader.py:109-113 | The cases are: an empty batch is a no-op; a non-empty batch fails exactly on a key collision, and a failure leaves the store unchanged; the other tables are never touched. |
| Store.AppendAddsBatch | akshare_downloader.py:112-113 | A successful append stores the old rows plus every batch row under its tagged key, with its values. The table grows by exactly the batch size. |
| Store.AppendRejectsStoredKey | akshare_downloader.py:57 | A batch holding a stored `(ts_code, date)` key is refused and the store stays as it was, so keys are never duplicated. |
| Store.AppendLocal | akshare_downloader.py:109-113 | Whether an append succeeds, and what it stores for this code, depend only on the stored rows of this code. |
| Store.AppendKeepsOtherCodes | akshare_downloader.py:112 | An append for one code leaves the rows of every other code in every table unchanged. |
| Store.Database.constructor | akshare_downloader.py:46-83 | A handle on a database that holds the given tables. |
| Store.Database.Replace | akshare_downloader.py:113 | Committing a table changes that table field only. |
| Store.AppendData | akshare_downloader.py:109-113 | The database afterwards and the outcome are those of `Append` on the database before the call. |
| Fetch.RetryFrom | akshare_downloader.py:94-106 | From attempt `i` on, the policy makes between `i+1` and 3 attempts, and every attempt before the last one raised. It succeeds exactly when the last attempt returned, with that attempt's frame. Otherwise it gives up after attempt 3 and carries that attempt's error. |
| Fetch.RetryBound | akshare_downloader.py:94-106 | A decorated fetcher makes 1 to 3 attempts. It succeeds exactly when one of the first three attempts succeeds, and then returns the frame of the first that does. If all three raise, it raises after exactly 3 attempts. |
| Fetch.FetchWithRetry | akshare_downloader.py:94 | The attempt loop returns what the retry policy returns, and it waits 2 seconds before each attempt after the first. |
| Downloader.ThreadCount | akshare_downloader.py:138 | The pool size is always in 1..300. It equals the requested count when that count is in range, is 1 below the range and 300 above it. |
| Downloader.Step | akshare_downloader.py:117-120 | A series is requested for this code and the requested end, from its own table's watermark or else from the start. When the retried fetch raises, the series raises that error and the store is unchanged. When it returns a frame, the store is what appending that frame leaves, and the series raises exactly when the append fails, with the append's own error. Other tables are untouched. |
| Downloader.Sync | akshare_downloader.py:116-133 | Requests go in the order daily, weekly, minute, all for this code up to the requested end. All three are made unless one raised, and then the one that raised is the last requested. `SyncStopsAtFirstFailure` states which series raises and what the task returns. |
| Downloader.SyncResumePoint | akshare_downloader.py:117-131 | Each series is requested from the last date stored for the code in its own table before the call, else from the requested start. |
| Downloader.SyncRequestIsSolo | akshare_downloader.py:116-133 | The i-th request of `download_stock` is the one that series would make on its own. |
| Downloader.SyncTablesIsolated | akshare_downloader.py:116-133 | Each table ends as its own series alone would leave it. A series that was never reached leaves its table unchanged. The error raised is the one of the last series requested. |
| Downloader.StepOnSameTable | akshare_downloader.py:117-120 | A series depends only on its own table. |
| Downloader.SyncStopsAtFirstFailure | akshare_downloader.py:116-133 | Every series requested before the last one passes on its own, and the task's outcome is that of the last requested series. So the first series that raises, on a fetch or on an insert, ends the task with its own error, and no later series is requested. |
| Downloader.DailyExhaustedStops | akshare_downloader.py:116-120 | When all three attempts at the daily request raise, only that request is made, `download_stock` raises with the last attempt's error, and the store is unchanged. |
| Downloader.StepEmptyPasses | akshare_downloader.py:109-120 | With a provider that always returns an empty frame, a series succeeds and stores nothing. |
| Downloader.SyncEmptyPasses | akshare_downloader.py:116-133 | With a provider that always returns an empty frame, `download_stock` succeeds and stores nothing. |
| Downloader.ResumeOverlapRejected | akshare_downloader.py:118-120 | When the provider returns the daily watermark row again, the daily insert is refused. `download_stock` then raises before the weekly and minute series, and the store is unchanged. |
| Downloader.StepLocal | akshare_downloader.py:117-120 | A series' request, outcome and rows for this code depend only on the stored rows of this code. |
| Downloader.SyncLocal | akshare_downloader.py:116-133 | What `download_stock` requests, raises and stores for a code depends only on the stored rows of that code. |
| Downloader.StepKeepsOtherCodes | akshare_downloader.py:117-120 | One series of a code leaves every other code's rows unchanged. |
| Downloader.SyncKeepsOtherCodes | akshare_downloader.py:116-133 | `download_stock` for one code leaves every other code's rows unchanged. |
| Downloader.SyncIsolated | akshare_downloader.py:145-149 | Running one code's task first does not change what another code's task requests or whether it raises. |
| Downloader.AgreeTransitive | akshare_downloader.py:116-133 | Agreement on one code's rows is transitive. |
| Downloader.AgreeEverywhere | akshare_downloader.py:116-133 | Tables that agree on every code are equal. |
| Downloader.CommuteOwn | akshare_downloader.py:154-157 | Running the tasks of two different codes in either order leaves the same rows for the first code. |
| Downloader.CommuteOther | akshare_downloader.py:154-157 | Running the tasks of two different codes in either order leaves the same rows for any third code. |
| Downloader.AgreeAllEverywhere | akshare_downloader.py:154-157 | Two stores that agree on the rows of every code in every table are the same store. |
| Downloader.SyncCommutes | akshare_downloader.py:154-157 | Running the whole tasks of two different codes one after the other, in either order, leaves the same store. Interleaved tasks are not covered. |
| Downloader.SyncKind | akshare_downloader.py:117-120 | One series on the database: the new database, the request and the outcome are those of `Step`. |
| Downloader.DownloadStock | akshare_downloader.py:116-133 | On the database, the new contents, the requests and the outcome are those of `Sync`. |
| Downloader.ProgressBar.constructor | akshare_downloader.py:142 | A bar over `total` codes starts at 0. |
| Downloader.ProgressBar.Update | akshare_downloader.py:152 | The bar advances by exactly `k`. |
| Downloader.Task | akshare_downloader.py:145-152 | The bar advances by exactly one whether or not the download raised. The store is what `download_stock` leaves. The task reports a failure exactly when `download_stock` raised. |
| Downloader.SyncAll | akshare_downloader.py:154-157 | There are never more failed codes than submitted codes, and every failed code was submitted. |
| Downloader.SyncAllExtend | akshare_downloader.py:155-156 | Submitting one more code runs its task on the store the earlier tasks left. |
| Downloader.FailedAloneMembers | akshare_downloader.py:148-150 | The reference list holds exactly the submitted codes whose task fails when run alone on the starting store. |
| Downloader.PassedAloneMembers | akshare_downloader.py:154-157 | A code is among the codes whose task passes alone on the starting store exactly when it is submitted and its task passes. |
| Downloader.PassedAloneSnoc | akshare_downloader.py:154-157 | Adding a code at the end of the list adds it at the end of the codes that pass alone exactly when its task passes, and changes nothing else. |
| Downloader.SyncAllKeepsOthers | akshare_downloader.py:154-157 | The tasks of the submitted codes leave the rows of a code that was not submitted unchanged. |
| Downloader.SyncAllFailures | akshare_downloader.py:145-157 | With distinct codes, the run reports exactly the codes whose task fails when run alone on the starting store, in submission order. |
| Downloader.SyncAllFailuresStep | akshare_downloader.py:154-157 | With distinct codes, if the failures of the earlier tasks are those that fail alone, so are the failures after one more task. |
| Downloader.SyncAllPerCode | akshare_downloader.py:145-157 | With distinct codes, every submitted code ends with the rows its task would store running alone on the starting store. |
| Downloader.LastSyncAlone | akshare_downloader.py:145-157 | With distinct codes, the last task raises, and stores for its code, as it would alone on the starting store. |
| Downloader.Run | akshare_downloader.py:136-158 | The returned values are: the pool size is the clamped thread count; the bar's total and final count both equal the number of codes; the store and the failed codes are those of running every task in turn. |
| FlaskApp.AdaptCode | flask_app.py:28-33 | The result is "" exactly when the stripped code is not all digits. Otherwise it is "sh" for a stripped code starting with '6' and "sz" otherwise, followed by digits of length max(6, len). Those digits end with the stripped code and start with '0' padding only. |
| FlaskApp.AdaptCodeMerges | flask_app.py:28-33 | "1" and "000001" both become "sz000001", so two codes that survive deduplication can map to one symbol. |
| FlaskApp.StrippedPieces | flask_app.py:48 | It keeps at most one code per piece. |
| FlaskApp.StrippedPiecesMembers | flask_app.py:48 | The kept codes are exactly the non-empty strips of the pieces. |
| FlaskApp.TextCodes | flask_app.py:46-48 | The text field gives at most one code per `;`-piece. |
| FlaskApp.TextCodesOfPieces | flask_app.py:47 | An empty text field gives no codes, as its single empty piece would. |
| FlaskApp.TextCodesMembers | flask_app.py:46-48 | The text field's codes are exactly the non-empty, stripped pieces of the text split on ';'. Each is stripped and contains no ';'. |
| FlaskApp.BeforeCommaIsFirstPiece | flask_app.py:54-55 | The text before the first ',' is the first piece of the comma split. |
| FlaskApp.FirstFields | flask_app.py:54-55 | There is one first field per line, in order. |
| FlaskApp.DigitFields | flask_app.py:55-56 | It keeps at most one code per field. |
| FlaskApp.DigitFieldsMembers | flask_app.py:55-56 | The kept fields are exactly the fields that are all digits. |
| FlaskApp.FileCodesOf | flask_app.py:52-56 | The file gives at most one code per line. |
| FlaskApp.FileCodesOfExtend | flask_app.py:53-56 | One more line adds its stripped first field exactly when that field is all digits. |
| FlaskApp.FileCodesMembers | flask_app.py:52-56 | The file's codes are exactly the stripped first fields of its lines that are all digits. |
| FlaskApp.FileCodes | flask_app.py:53-56 | The loop over the lines keeps exactly the codes `FileCodesOf` describes, in order. |
| FlaskApp.CollectCodes | flask_app.py:45-56 | The collected list is the text field's codes followed by the file's codes, when a named file was sent. |
| FlaskApp.UniqueDigitCodes | flask_app.py:58 | The list has no duplicates. As a set it equals the collected codes that are all digits. |
| FlaskApp.DigitCodeAdapts | flask_app.py:65-67 | A digit code is already stripped and always gets a non-empty symbol that ends with the code, so none of the deduplicated codes is skipped. |
| FlaskApp.DownloadNext | flask_app.py:64-72 | Each code counts exactly once: as skipped, downloaded or failed. |
| FlaskApp.DownloadAll | flask_app.py:63-72 | Downloaded, failed and skipped together account for every code exactly once. |
| FlaskApp.DownloadAllExtend | flask_app.py:64-72 | One more code runs one more loop iteration on the state the earlier codes left. |
| FlaskApp.DownloadedAreSymbols | flask_app.py:65-70 | Every downloaded entry is the non-empty symbol of one of the codes. |
| FlaskApp.DigitCodesNeverSkipped | flask_app.py:63-72 | On digit codes none is skipped, so the number downloaded is the number of codes minus those whose `download_stock` raised; `DownloadCountsSolo` says which those are. |
| FlaskApp.DownloadNextEmpty | flask_app.py:65-70 | With a provider that always returns an empty frame, a code with a symbol is counted as downloaded and the store is unchanged. |
| FlaskApp.SymbolsLength | flask_app.py:63-72 | There is one symbol per submitted code. |
| FlaskApp.SymbolsAt | flask_app.py:63-72 | The symbol at each position is the normalised code at that position. |
| FlaskApp.SymbolsFront | flask_app.py:63-72 | The symbols of all codes but the last are the symbols' own prefix, and the last symbol is the last code normalised. |
| FlaskApp.DownloadNextSynced | flask_app.py:63-72 | A code with a symbol runs `download_stock` on that symbol against the store so far: the store becomes that task's store, and the symbol is added to the failures when the task raised and to the downloaded list when it did not. |
| FlaskApp.DownloadAllIsSyncAll | flask_app.py:63-72 | When every code has a symbol, the download loop leaves the same store and the same failures as the command-line task loop over those symbols. |
| FlaskApp.LastDownloadAlone | flask_app.py:63-72 | With distinct symbols, the last code is added to the downloaded list exactly when its task passes on the starting store. |
| FlaskApp.DownloadedPassedAlone | flask_app.py:63-72 | With distinct symbols, the downloaded list is, in order, the symbols whose task passes alone on the starting store. |
| FlaskApp.DownloadCountsSolo | flask_app.py:63-72 | On digit codes with distinct symbols, the downloaded symbols are those whose task passes alone on the starting store and the failures are those whose task fails alone, both in submission order; a symbol is downloaded exactly when it belongs to a submitted code and its task passes. |
| FlaskApp.DownloadAllEmpty | flask_app.py:63-72 | With a provider that always returns an empty frame and codes that all have symbols, the downloaded list is the codes' symbols in order, and the store is unchanged. |
| FlaskApp.SymbolsPair | flask_app.py:65 | The symbols of two codes are their two `adapt_code` results, in order. |
| FlaskApp.SameSymbolTwice | flask_app.py:63-72 | Two codes with the same symbol both download it, so it is counted twice. |
| FlaskApp.AdaptCodeDoubleDownload | flask_app.py:58-74 | With a provider that always returns an empty frame, the two distinct codes "1" and "000001", which deduplication keeps apart, make the loop download "sz000001" twice. |
| FlaskApp.Reply | flask_app.py:74 | The reply is "No valid codes provided." exactly when nothing was downloaded. Otherwise it is "Downloaded N stocks.", where N parses back to the number downloaded. |
| FlaskApp.DownloadOne | flask_app.py:65-72 | One loop iteration on the database matches `DownloadNext`. |
| FlaskApp.DownloadCodes | flask_app.py:63-72 | The loop over the codes on the database matches `DownloadAll`. |
| FlaskApp.Download | flask_app.py:44-74 | The processed codes have no duplicates and, as a set, are the collected all-digit codes. The store and the downloaded symbols are those of the loop over them, and downloaded plus failed equals the number of codes. Every downloaded entry is the symbol of some code, and the reply reports that count. |

## Left out

- The AKShare calls behind the three fetchers are network I/O. They are an abstract `Provider`: a function from request and attempt number to a returned frame or a raised error.
- SQLAlchemy, SQL text, the DDL and pandas internals are foreign code.
  - Tables are maps from key to payload, and a batch is a sequence of rows.
  - Neither SQLite's limit on bound variables in a multi-row INSERT nor an unreachable database file (StorageUnavailable) is modelled.
- `ThreadPoolExecutor` and the lock are concurrency. Tasks run one after the other, in submission order.
  - `Downloader.SyncCommutes` and `Downloader.SyncIsolated` show that the order of two different codes does not matter.
  - Two tasks for the same code running at once are not modelled.
- `time.sleep` is clock I/O. The retry waits are counted as seconds (`Fetch.FetchWithRetry`).
- Downloader.Sync: assumes a non-negative sleep time. A negative `--sleep` (akshare_downloader.py:42) makes `time.sleep` raise `ValueError` after a series was appended (akshare_downloader.py:121, 127, 133), so the later series are not fetched and the task counts as failed; this is not modelled.
- Store.Append: assumes the provider's frame has exactly the table's columns other than `ts_code`. A frame with an unknown column (the DDL at akshare_downloader.py:52-81) makes `to_sql` raise, and a frame that already has a `ts_code` column makes `df.insert` raise (akshare_downloader.py:112); neither is modelled.
- OHLCV values are floats, modelled as opaque reals.
- Out of scope: argparse, Flask routing, the HTML form, the console messages for failures, reading and UTF-8 decoding of an upload, and `splitlines`. An upload is given as its lines, and the current date as a parameter.
- download_a_share.py is not part of this model. It holds token setup, Tushare calls and CSV writing.
- Strings.AllDigits: covers ASCII digits only, not Python's Unicode `isdigit`.
- FlaskApp.UniqueDigitCodes: leaves the order of the deduplicated codes unspecified, as iteration order over a Python set is. The model fixes one order and states only set equality and distinctness.
- Downloader.Run: the thread clamp has no effect on the sequential model beyond the value it computes.
