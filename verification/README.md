# Order-book slippage calculator: a Dafny model

The calculator reads snapshots of a limit-order book. Each snapshot holds a
10-level ask ladder and a 10-level bid ladder of (price, size) cells. For
every configured market-order size (100, 200, …, 2000 shares) the calculator
walks one ladder level by level, best level first. It buys
`min(shares still needed, shares shown)` at each level and stops once the
order is filled. It then reports the slippage of the average fill price
against the mid-price `(best bid + best ask) / 2`. The value is missing when
a best quote is missing or when the ladder cannot fill the order.

A batch driver applies this to every row of every `.csv` file of a ticker
folder, with the files taken in name order. It numbers the output records
with a row id that runs on from one ticker folder to the next, and writes
one table per folder.

The model has six modules:

- `Wrappers`: `Option` and `Result`.
- `Text`:
  - decimal rendering and parsing of order sizes;
  - `str.split` and `join`;
  - the `.csv` suffix test;
  - the code-point order that `sorted` uses on file names.
- `Book`: one snapshot, and the ladder walk as a left fold (`Walk`). It also gives an independent greedy-fill definition (`Bought`, `Spent`, `Liquidity`) and proves the walk equal to it for non-negative level sizes.
- `Slippage`: `compute_slippage_row`. The method `ComputeSlippageRow` has both of its loops, and its inner loop is the method `WalkLadder`. Both are proved against the specification functions `SlippageAt` and `SlippageTable`.
- `Batch`: `process_ticker_folder` and `process_all_tickers_streaming` as methods with loops. They are proved against `TickerRecords` (sort, number, label) and `Thread` (the row-id fold over ticker folders).
- `Fitting`: reading a `Slippage_<n>` column name back into `n`, as the fitting scripts do. It is the inverse of the key format.

Prices and sizes are reals. A cell that cannot be read is `None`. A level is
skipped unless both of its cells can be read. The best bid and best ask are
the level-0 price cells `bid_px_00` and `ask_px_00` of the two ladders, as
the code reads them.

## Model

| member | source | states |
|---|---|---|
| Slippage.ConfiguredSizes | calculate.py:9 | the configured sizes are exactly the 20 values 100·(k+1), all distinct |
| Slippage.ComputeSlippageRow | calculate.py:20-66 | "buy" gives the ask-ladder table and "sell" the bid-ladder table, each with one entry per configured size; any other side gives the invalid-side error, carrying the message "Invalid side. Use 'buy' or 'sell'.", and no table |
| Slippage.WalkLadder | calculate.py:40-56 | the inner loop's final (shares needed, total cost) equals the fold `Walk` of the level step over the ladder in the given order |
| Slippage.MissingQuoteAllMissing | calculate.py:34-35 | with the best bid or best ask missing, every column of the row is missing |
| Slippage.TableColumns | calculate.py:40-64 | the row's keys are exactly `Slippage_<s>` for the sizes s, and each key holds that size's slippage |
| Slippage.TableWidth | calculate.py:64 | distinct sizes give as many columns as sizes (no key is overwritten) |
| Slippage.SizeKeyInjective | calculate.py:64 | two sizes with the same column name are the same size |
| Slippage.ConfiguredColumns | calculate.py:35-64 | the row has exactly 20 keys, `Slippage_100` … `Slippage_2000`, each holding its size's slippage, and no other key |
| Slippage.MissingIffIlliquid | calculate.py:58-59 | with both quotes present and non-negative sizes, a column is missing if and only if the readable levels hold fewer shares than the order, so there is never a clipped partial fill |
| Slippage.FilledSlippage | calculate.py:60-62 | a filled order's value is the greedy cost over size, minus the mid for a buy, and the mid minus that for a sell |
| Slippage.LaterLevelsDoNotMatter | calculate.py:51-52 | two snapshots with the same quotes and the same first k levels, where those k levels fill the order, report the same value |
| Slippage.FirstLevelExact | calculate.py:54-62 | an order equal to the best level's size has slippage equal to that level's price against the mid, whatever lies deeper |
| Slippage.SlippageNonNegative | calculate.py:60-62 | in an uncrossed book where no deeper level beats the best quote, a reported slippage is at least 0 on both sides |
| Slippage.SlippageMonotone | calculate.py:40-62 | in a book whose readable ask prices rise (bid prices fall) with depth, if a size is filled then every smaller size is filled too, and its slippage is no greater |
| Slippage.ExampleFilled | calculate.py:37-62 | bid 99, ask 101 and one ask level (101, 500): the `Slippage_500` column of the buy row is 1.0 |
| Slippage.ExampleShort | calculate.py:58-59 | in the same book the `Slippage_600` column of the buy row is missing |
| Book.RemainingNonNegative | calculate.py:54-56 | from a non-negative order size the shares still needed never drop below 0 |
| Book.FilledPrefixDecides | calculate.py:51-52 | once the first k levels fill the order, the walk over the whole ladder equals the walk over those k levels |
| Book.UnreadableLevelIgnored | calculate.py:45-49 | a level with an unreadable cell is skipped: removing it from any position of the ladder leaves the walk unchanged |
| Book.LaterLevelsIrrelevant | calculate.py:51-52 | two ladders that agree up to the level that completes the order give the same walk |
| Book.BoughtIsCapped | calculate.py:54 | the greedy fill buys the order size or all readable liquidity, whichever is smaller |
| Book.WalkNeed | calculate.py:56 | after the walk the shares still needed equal the order size minus the greedy fill's total |
| Book.WalkCost | calculate.py:55 | after the walk the total cost equals the sum of each level's greedy fill times its price |
| Book.WalkIsGreedy | calculate.py:41-56 | for non-negative sizes the walk's state is (size − bought, spent) of the level-by-level greedy fill, and bought = min(size, readable liquidity) |
| Book.ShortIffIlliquid | calculate.py:58 | shares remain unbought if and only if readable liquidity is below the order size, and 0 ≤ remaining ≤ size |
| Book.ShortWalksAgree | calculate.py:51-56 | while a smaller order is still short, a larger order has bought the same shares at the same cost and needs the difference more |
| Book.AveragePriceWorsens | calculate.py:41-61 | in a ladder whose readable prices worsen with depth, if the larger of two orders is filled then the smaller is too, and the larger's average price is no better: no lower on the ask side, no higher on the bid side |
| Book.CostAtLeast | calculate.py:55 | a lower bound p on every readable price gives cost ≥ p × shares bought |
| Book.CostAtMost | calculate.py:55 | an upper bound p on every readable price gives cost ≤ p × shares bought |
| Text.Decimal | calculate.py:64 | the rendering of a size is a non-empty string of digits |
| Text.DecimalInjective | calculate.py:64 | different sizes render differently |
| Text.ParseDecimal | fitting/linearFitting.py:32 | a string is read as a number if and only if it is a non-empty string of digits |
| Text.DecimalRoundTrip | fitting/linearFitting.py:32 | reading back the rendering of n gives n |
| Text.Split | calculate.py:85 | a split has at least one piece, and at least two if and only if the separator occurs |
| Text.SplitJoin | calculate.py:85 | joining the pieces of a split with the separator gives back the string |
| Text.SplitPiecesFree | calculate.py:85 | no piece of a split contains the separator |
| Text.NameLeTotal | calculate.py:71 | any two file names are ordered one way or the other |
| Text.NameLeTransitive | calculate.py:71 | the file-name order is transitive |
| Batch.CsvOnlySpec | calculate.py:71 | the filter keeps a file if and only if it is listed and its name ends in `.csv`, each `.csv` file exactly as often as it is listed, and adds no file |
| Batch.SortByNameSpec | calculate.py:71 | sorting yields a name-ordered permutation of the files, with the same total of rows |
| Batch.InsertSorted | calculate.py:71 | inserting a file into a name-ordered sequence keeps it name-ordered |
| Batch.InsertContents | calculate.py:71 | inserting adds exactly that file and its rows |
| Batch.FolderFilesAreCsv | calculate.py:71 | every file the folder walk visits has a name ending in `.csv` |
| Batch.ProcessTickerFolder | calculate.py:69-90 | the records are those of `TickerRecords`, the returned id is the start plus the number of records, and record k has id start + k |
| Batch.AppendFileRecords | calculate.py:78-88 | the per-row loop appends exactly the numbered records of one more file and advances the id by their number |
| Batch.DateLabelSpec | calculate.py:85 | without `_` the date is "Unknown"; otherwise it is the text after the first `_` up to the next `_` or the end |
| Batch.TickerRecordsSpec | calculate.py:69-90 | one record per row of the folder's `.csv` files, ids consecutive from the start, each with the ticker, a `.csv` file name and that name's date |
| Batch.RecordFileIsCsv | calculate.py:71 | each record comes from a file whose name ends in `.csv` |
| Batch.TickerRecordsOrdered | calculate.py:71-78 | records come file by file in name order |
| Batch.FileRowsLength | calculate.py:78 | the folder yields as many rows as its files hold |
| Batch.FileRowsOrdered | calculate.py:74-78 | name-ordered files give rows in name order |
| Batch.NumberedAt | calculate.py:80-88 | record k is the buy-side row of row k, numbered start + k |
| Batch.ProcessAllTickers | calculate.py:93-105 | the written tables are those of the fold `Thread` from id 0, and across all tables record k has id k |
| Batch.ThreadIds | calculate.py:94-99 | threading the counter numbers every record of every table consecutively and hands on the next free id |
| Batch.RowIdsUnique | calculate.py:94-99 | no two records of one run share a row id, within a table or across tables |
| Batch.ThreadTables | calculate.py:95-105 | one table per ticker folder, in listing order, written to `slippage_<folder>.parquet` and holding only that folder's records |
| Fitting.KeyRoundTrip | fitting/linearFitting.py:26-32 | a column name written for size n starts with `Slippage_`, and its second `_`-piece reads back as n |

## Left out

- Directory listing, CSV reading (`usecols`), the progress bar, printing and Parquet writing are not modelled. A ticker folder is given as its listing of (file name, snapshot rows). A run yields the sequence of tables it would write, each with its path.
- The order of `os.listdir` is not modelled. Both the entries of the base directory and the files of a folder are given in listing order. The files are then sorted, as the code sorts them.
- Slippage.SlippageTable: the row is a map, which has no order. The code's row dictionary has its columns in ascending size order, followed by `Ticker`, `File_Name`, `Row_ID` and `Date`, and the Parquet file keeps that column order. The model does not capture that order.
- Row dictionaries: a record keeps the slippage columns as a map and `Ticker`, `File_Name`, `Row_ID` and `Date` as separate fields. The code merges them into one dictionary; no slippage key can clash with those four names.
- Floating point and NaN are not modelled. Prices and sizes are exact reals.
- A NaN ladder cell does not raise in `float()`. The code then feeds it into `min` and the cost, and this is not modelled. An unreadable cell is `None`, and such a level is skipped.
- A best quote that `float()` cannot parse raises an uncaught error in the code. The model treats a best quote only as present or missing.
- The ladder depth is fixed at the 10 column pairs per side. The `Ladder` type holds exactly 10 levels.
- `Text.ParseDecimal` accepts only plain digit strings. The leniency of Python's `int()` (a sign, surrounding whitespace, `_` between digits) is not modelled. Every key the calculator writes is a plain digit string.
- Batch.ProcessTickerFolder: the inner per-row loop is the separate method `Batch.AppendFileRecords`. The loop body and its order are unchanged.
- The date label is modelled as the code computes it. For a name with a single `_`, such as `AAPL_20240105.csv`, it keeps the `.csv` suffix.
- The curve fits in fitting/ are not part of this model: linear regression, polynomial, parametric, LOWESS and spline fits, and R² scoring. They are calls into numeric libraries. Only the column-name parse they share is modelled.
- run_all_models_and_combine.py and inspect_parquets.py are not part of this model. They orchestrate subprocesses, compute pandas statistics, plot and print.
