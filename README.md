# Trading-research script: data transforms and momentum strategy

This project models the three pieces of `main.py` that hold logic of their own, and proves what they do.

- **`transform_exchange_data`** (module `ExchangeData`) takes a vendor minute-candle export:
  - input columns are `unix, date, symbol, open, high, low, close, Volume <base>, Volume USDT, tradecount`, newest row first;
  - it produces the backtest feed layout `Date, Time, open, high, low, close, Volume <base>`, oldest row first.
  - The steps are the four pandas calls of the source: drop the four unused columns, insert `Date` and `Time` split from `pd.to_datetime(date)`, drop `date`, reverse the rows.
  - Each step is a function on a well-formed table of string cells (module `Tables`): the column names are distinct and every row has one cell per name. `InsertColumn` also takes a position within the header and one value per row. It returns either the new table or the exception pandas raises: `KeyError` for a missing column, `ValueError` for a duplicate insert, and a parse error naming the first `date` cell the model does not parse. A `date` cell pandas reads as missing is the one exception: see "## Left out".
- **`transform_sp_data`** (module `SpData`) rewrites the `Date` column of an S&P 500 minute export in place.
  - Each cell is rewritten from `YYYYMMDD` to `YYYY-MM-DD` with `datetime.strptime(str(cell), '%Y%m%d').date().isoformat()`.
  - `Strptime` follows CPython's `%Y%m%d` regular expression:
    - it backtracks over one- and two-character months and days;
    - the match is not anchored at the end, so leftover text is "unconverted data remains";
    - the matched numbers must be a real date (`datetime.date` raises otherwise).
  - `ReformatColumn` is the loop: a method over an `array` of rows. It rewrites one cell per index and stops at the first refused cell, with the rows before that cell already rewritten.
- **`TestStrategy`** (module `Strategy`) is the backtrader strategy.
  - It holds one pending-order slot and the bar count of the last completion.
  - `next()` buys when flat and the close rose more than 1 % over the previous close. It closes when in a position and the close leaves the band from 5 % below to 10 % above the entry price. It does nothing while an order is pending.
  - `notify_order` frees the slot on every status except Submitted and Accepted, and records the bar count on Completed.
  - The source's quirks are kept:
    - two buys are sent per buy signal and only the second is tracked;
    - `close()` is called twice per exit and the second order is tracked;
    - the exit test is a separate `if`, not an `elif`.
  - The class's methods are proved against the pure transition functions `NextStep` and `NotifyStep`, and the rules are proved about those.

The exchange transform keeps the vendor's lower-case price columns and `Volume <base>`, and checks no price or timestamp invariant.

Files:

- `Wrappers.dfy`: Option and Result.
- `Calendar.dfy`: digits, zero-padded numbers, the Gregorian calendar and `date.isoformat()`.
- `Tables.dfy`: the pandas table operations.
- `ExchangeData.dfy`, `SpData.dfy` and `Strategy.dfy`: the three cores.

## Model

| member | source | states |
|---|---|---|
| Tables.DropColumns | main.py:140 | `drop(..., axis=1)` raises KeyError exactly when one of the names is not a column, and names a missing one; otherwise the table stays well formed and keeps its row count |
| Tables.DropColumnsHeader | main.py:140 | after a drop the header is the old header with the dropped names filtered out, in the old order |
| Tables.DropColumnsMembers | main.py:140 | after a drop a name is a column exactly when it was one before and was not dropped |
| Tables.DropColumnsKeeps | main.py:140 | every column that survives a drop keeps all of its cells, row by row |
| Tables.DropKeepsLeading | main.py:144 | dropping `date` leaves the columns in front of it in place |
| Tables.Column | main.py:142 | `df['date']` raises KeyError exactly when there is no such column; otherwise it is the column's cells, one per row |
| Tables.InsertColumn | main.py:142-143 | `insert(loc, name, values)` raises ValueError exactly when `name` is already a column; otherwise the new column sits at `loc` with the given values, the columns before `loc` stay where they were, and those from `loc` on move one position right |
| Tables.Reversed | main.py:146 | `iloc[::-1]`: element i of the result is element n-1-i of the input |
| Tables.ReversedTwice | main.py:146 | reversing the rows twice gives them back unchanged |
| Tables.ReverseMirrors | main.py:146 | after reversal, every carried column holds in row i the cell of input row n-1-i |
| Tables.CarriesThenMirrors | main.py:140-146 | a column kept through the drops and inserts and then reversed mirrors the input column |
| Calendar.DaysInMonth | main.py:164 | the month lengths `datetime.date` checks: 28 to 31 days, and February has 29 exactly in a leap year |
| Calendar.IsoDate | main.py:164 | `date.isoformat()` is ten characters, `YYYY-MM-DD`, with dashes at 4 and 7 |
| Calendar.FormatParseNat | main.py:164 | zero-padded formatting and parsing of digit strings are inverse |
| ExchangeData.ParseTimestamp | main.py:142-143 | `pd.to_datetime` of a `date` cell succeeds exactly for a `YYYY-MM-DD HH:MM:SS` cell that names a real date, a real time of day and an instant inside the pandas Timestamp range |
| ExchangeData.DateCell | main.py:142 | `str(ts.date())` is `YYYY-MM-DD`, and each field reads back as the timestamp's year, month and day |
| ExchangeData.TimeCell | main.py:143 | `str(ts.time())` is `HH:MM:SS`, and each field reads back as the timestamp's hour, minute and second |
| ExchangeData.SplitRoundTrip | main.py:142-144 | for a well-formed `date` cell, `Date + " " + Time` is the original cell |
| ExchangeData.SplitReparses | main.py:142-143 | parsing the joined `Date` and `Time` cells gives the same timestamp back |
| ExchangeData.ParseColumn | main.py:142 | parsing the column succeeds exactly when every cell parses, with one timestamp per cell; a failure names a cell that does not parse, all cells before it parsing |
| ExchangeData.ParseColumnFirstBad | main.py:142 | the parse error names the first unparseable cell and its row |
| ExchangeData.InsertDateTime | main.py:142-143 | the two inserts fail exactly when `Date` or `Time` is already a column; otherwise the header is `Date, Time` followed by the old header, and each row is its date cell, its time cell and the old row |
| ExchangeData.SplitAndReverse | main.py:142-146 | inserting, dropping `date` and reversing fails exactly when `Date` or `Time` already exists, with ValueError; otherwise the row count is kept and at least two columns remain |
| ExchangeData.TransformExchange | main.py:139-148 | a successful transform yields a well-formed table with as many rows as the input |
| ExchangeData.MissingDroppedColumn | main.py:140 | if one of `unix, symbol, Volume USDT, tradecount` is missing, the transform raises KeyError naming a missing one |
| ExchangeData.MissingDateColumn | main.py:142 | with those four present but no `date`, the transform raises KeyError for `date` |
| ExchangeData.UnparseableStamp | main.py:142 | the first `date` cell pandas cannot parse stops the transform, and the error names that row and cell |
| ExchangeData.BadStampFails | main.py:142 | any unparseable `date` cell makes the transform fail with a parse error |
| ExchangeData.TransformSucceeds | main.py:142-143 | with all columns present and every `date` cell parsed, the transform succeeds exactly when neither `Date` nor `Time` is already a column, and fails otherwise with ValueError |
| ExchangeData.TransformIs | main.py:139-146 | in that case the transform is the split-and-reverse of the table after the drop and of its parsed timestamps |
| ExchangeData.SplitHeader | main.py:142-144 | after the split, `Date` and `Time` lead and the other columns are the kept ones except `date` |
| ExchangeData.SplitHeaderExact | main.py:142-144 | the header after the split is exactly `Date, Time` followed by the kept header without `date` |
| ExchangeData.SplitLeadingCells | main.py:142-146 | output row i starts with the `Date` and `Time` cells of the timestamp of input row n-1-i |
| ExchangeData.SplitMirrors | main.py:142-146 | every kept column reaches the output mirrored: output row i holds the cell of input row n-1-i |
| ExchangeData.TransformHeader | main.py:140-144 | the output header is `Date, Time`, then the input columns other than the four dropped ones and `date`, in input order |
| ExchangeData.TransformMirrors | main.py:140-146 | every input column that reaches the output holds, in output row i, the cell of input row n-1-i |
| ExchangeData.TransformRow | main.py:142-146 | output row i starts with the split of input row n-1-i's `date` cell, and the two cells join back to that cell |
| ExchangeData.TransformRowStamp | main.py:142-146 | output row i starts with the `Date` and `Time` cells of input row n-1-i's timestamp |
| ExchangeData.TransformOutput | main.py:139-146 | a successful transform produces exactly the described output: header, row count, mirrored columns and split timestamps |
| ExchangeData.TransformChronological | main.py:145-146 | an input strictly newest first comes out strictly oldest first, with each row's `Date` and `Time` read back as one timestamp |
| ExchangeData.OutputChronological | main.py:145-146 | the same ordering fact, for any table meeting the output description |
| ExchangeData.OutputRowStamp | main.py:142-146 | an output row's `Date` and `Time` read back as the timestamp of the mirrored input row |
| ExchangeData.VendorHeaderDistinct | main.py:124 | the vendor's column names are distinct unless the base asset is USDT itself |
| ExchangeData.VendorColumnsKept | main.py:140-144 | of the vendor columns, exactly `open, high, low, close, Volume <base>` survive the two drops, in that order |
| ExchangeData.VendorTable | main.py:124 | a vendor export with ten cells per row has all the columns the transform needs, `date` second, and no `Date` or `Time` |
| ExchangeData.VendorExport | main.py:119-148 | a vendor export is converted exactly when every `date` cell parses; the output header is `Date, Time, open, high, low, close, Volume <base>`, and output row i is the split `date` of input row n-1-i followed by that row's cells 3 to 7, unchanged |
| ExchangeData.VendorOutput | main.py:124-146 | the header and rows any table meeting the output description has for a vendor export |
| ExchangeData.VendorOutputRow | main.py:124-146 | one output row of a vendor export: the split timestamp, then the four prices and the base volume of the mirrored row |
| SpData.DayAt | main.py:164 | the `%d` pattern matches at a position exactly when one of its alternatives does; a two-digit day is taken before a one-digit one, and the blank-led form, two characters long, only when neither matches |
| SpData.DayValue | main.py:164 | the day number is `int()` of the matched text: its digits' value, with a leading blank ignored |
| SpData.MatchYmd | main.py:164 | the `%Y%m%d` pattern matches exactly when the first four characters are digits and a two-character month or a one-character month is followed by a day; the two-character month is tried first, as the regular expression backtracks |
| SpData.Strptime | main.py:164 | whatever strptime accepts is a valid calendar date |
| SpData.Reformat | main.py:164 | an accepted date is written as ten characters with dashes at positions 4 and 7 |
| SpData.StrptimeEightDigits | main.py:161-164 | on eight digits, strptime succeeds exactly when the 4/2/2 split is a valid date, and yields that date |
| SpData.ReformatEightDigits | main.py:161-164 | on eight digits, the rewrite succeeds exactly for a valid date; the result is `s[0..4] + "-" + s[4..6] + "-" + s[6..8]`, and deleting the dashes gives `s` back |
| SpData.IsoOfSplit | main.py:164 | `isoformat()` of the split date puts dashes between the input's year, month and day digits |
| SpData.UndashedIso | main.py:164 | deleting the dashes from `Y-M-D` gives the digits back |
| SpData.ReformatKeepsYear | main.py:164 | any accepted input keeps its four year digits in front |
| SpData.AcceptedLength | main.py:164 | strptime accepts only inputs of six to eight characters |
| SpData.ShortFormAccepted | main.py:164 | the seven-character `2021611` is accepted and becomes `2021-06-11` |
| SpData.MissingDayRefused | main.py:164 | `20210230` is refused: no such day |
| SpData.TrailingCharacterRefused | main.py:164 | `202101011` is refused: unconverted data remains |
| SpData.IsoFormRefused | main.py:164 | `2021-06-01`, already rewritten, does not match `%Y%m%d` |
| SpData.ConvertRows | main.py:163-164 | the loop either keeps the number of rows, or fails on a row of the table with that row's cell and the reason strptime refused it |
| SpData.RewriteRow | main.py:164 | the assignment changes the `Date` cell of one row and no other cell |
| SpData.ConvertRowsSuccess | main.py:163-164 | the loop completes exactly when every `Date` cell converts; then the row count is kept, each `Date` cell is its conversion and every other cell is unchanged |
| SpData.ConvertRowsFirstBad | main.py:163-164 | the loop stops at the first cell that does not convert, and the error names that row, that cell and the reason |
| SpData.ReformatColumn | main.py:163-164 | the in-place loop ends with the array equal to the converted rows exactly when every cell converts; otherwise the rows before the first refused one are rewritten and the rest are untouched |
| SpData.TransformSpData | main.py:160-164 | without a `Date` column `data_df.Date` raises AttributeError and nothing changes; otherwise it is the loop over that column with the rewrite |
| Strategy.BuySignalPercent | main.py:68 | the buy rule fires exactly when the close is above 101 % of the previous close |
| Strategy.ExitSignalBand | main.py:76-77 | the exit rule fires exactly when the close leaves the closed band from 95 % to 110 % of the entry price |
| Strategy.NextStep | main.py:56-82 | one bar of `next()` sends no order or a pair of orders, numbered from the next free reference; it waits for the last one sent and leaves the recorded bar count alone |
| Strategy.NotifyStep | main.py:36-54 | `notify_order` never issues a reference and never starts waiting for another order; the recorded bar count changes only on Completed, to the current bar count |
| Strategy.PendingBlocks | main.py:61-63 | while an order is pending, `next()` sends nothing and changes nothing |
| Strategy.BuyRule | main.py:65-72 | flat with no order pending, `next()` sends exactly the two buys on a buy signal, waits for the second, and otherwise does nothing |
| Strategy.ExitRule | main.py:75-82 | in a position with no order pending, `next()` sends exactly two closes of the whole position on an exit signal, waits for the second, never buys, and otherwise does nothing |
| Strategy.HoldInsideBand | main.py:75-77 | in a position with the close inside the band, `next()` does nothing |
| Strategy.NextKeepsConsistent | main.py:56-82 | `next()` numbers the orders it sends consecutively from the next free reference and waits for the last one, so the order it waits for was always issued |
| Strategy.NotifyPassive | main.py:37-39 | Submitted and Accepted leave the state as it was |
| Strategy.NotifyClears | main.py:42-54 | every other status frees the order slot, whichever order it is about; only Completed records the bar count |
| Strategy.Initial | main.py:28-34 | the state after `__init__` has no order and no completion |
| Strategy.StepKeepsConsistent | main.py:36-82 | one bar or notification keeps the state consistent and never takes references back |
| Strategy.RunKeepsConsistent | main.py:36-82 | any run of bars and notifications keeps the state consistent |
| Strategy.BarExecutedOnlyOnCompletion | main.py:42-48 | without a Completed notification the recorded bar count never changes |
| Strategy.TestStrategy.constructor | main.py:28-34 | the new strategy is in the initial state |
| Strategy.TestStrategy.Next | main.py:56-82 | the method's new fields and sent orders are those of `NextStep`, and the state stays consistent |
| Strategy.TestStrategy.NotifyOrder | main.py:36-54 | the method's new fields are those of `NotifyStep`, and the state stays consistent |

## Left out

- `binancedata.py`: a network fetch through the Binance client, a cache check on the file system, CSV writing and wall-clock timing. It is all I/O around a library the model cannot see.
- `start_backtesting` and everything backtrader does: the broker, order fills, `cerebro.run`/`plot`, and how `self.position` and `len(self)` change. The position, the previous close and the bar count are inputs to `Next` and `NotifyOrder`.
- The `log`/`print` calls, and the `pd.read_csv`/`to_csv` file I/O with its hard-coded output paths. The transforms map the table pandas reads to the table that would be written.
- The `__main__` analysis block and all commented-out code.
- Strategy.TestStrategy.Next: backtrader gives orders references from a process-wide counter. The model numbers them from a `nextRef` field that the constructor takes as a parameter.
- Strategy.TestStrategy.Next: `self.dataclose[-1]` on the very first bar is whatever backtrader holds there. It is an input here.
- Strategy.BuySignal: prices are reals. Python's binary floating-point rounding in `prevClose + prevClose * 0.01` and in the take-profit and stop-loss products is not modelled.
- Strategy.NotifyStep: `order.isbuy()`/`issell()` only select a log message, so the notification carries no buy/sell side.
- ExchangeData.ParseTimestamp: only the vendor's `YYYY-MM-DD HH:MM:SS` layout is accepted. Every other layout `pd.to_datetime` would guess is treated as a parse error. Fractional seconds and time zones are likewise not accepted.
- ExchangeData.ParseTimestamp: an empty `date` cell, or one `read_csv` reads as missing (`NaN`, `NA`, `null` and the like), becomes NaT in pandas without an error and is written as empty `Date` and `Time` cells. The model treats such a cell as a parse error.
- ExchangeData.TransformExchange: cells are text. pandas reads numbers as floats or integers and writes them back with its own formatting; that type inference and re-formatting is not modelled, so the price cells are copied unchanged.
- Tables.DropColumns: pandas reports all missing names in one KeyError message; the model's error names one of them.
- SpData.Strptime: `\d` in Python's regular expressions also matches non-ASCII decimal digits. The model accepts ASCII digits only.
- SpData.TransformSpData: `str(row)` of the integer pandas reads is taken to be the cell's text. The model does not cover the chained assignment `data_df['Date'][idx] = ...`, which may write to a copy, or the upcast of the integer column to strings, depending on the pandas version. It models the intended in-place rewrite of each cell.
