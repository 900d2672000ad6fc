# Market insights pipeline, modelled in Dafny

This project models two scripts in the market-insights repository. The first is the
reshaping pipeline that turns the Dynamic Containment / Moderation / Regulation auction
results and requirement records into three tables:

- the clearing price per (delivery date, product) row and EFA settlement period;
- the cleared volume, laid out the same way;
- the procured percentage, which is the cleared volume over the summed requirement, times 100.

The second is the dashboard that filters and colours those tables.

The pipeline stages follow the scripts one to one:

- Truncate the index (`deliveryEnd`) to its calendar date.
- Keep the six products DCH, DCL, DMH, DML, DRH and DRL.
- Derive `Time` from `deliveryStart` as `%H:%M` text.
- Derive `EFA` from `Time` through the twelve-entry table.
- Drop the placeholder requirement rows: price 0 with quantity 100 or 20.
- Build the three `pivot_table`s. The volume and price pivots use pandas' default mean. The requirement pivot uses `np.sum`.
- Divide volume by requirement over the outer join of the two tables, then `np.round(…, 2)`.
- Run `reset_index`.

The dashboard part covers:

- the EFA and product option lists;
- the default date window;
- the product and inclusive date-range row filter;
- the nested summary loop;
- the in-place rounding of the shown columns;
- the `color_price` and `color_percentage` rules.

## Modules

- `Common`: `Option` and `Result`.
- `Columns`: the boolean-mask selection `df[mask]` (`Where`), elementwise derived columns (`Apply`) and column sums (`Total`). Each comes with lemmas for counts, order, concatenation and permutation.
- `Clock`: timestamps as a day number plus the second of the day. Covers midnight truncation, Python `max`/`min`, `timedelta(days=n)` and `strftime('%H:%M')`.
- `Efa`: the twelve-entry EFA table, plus an independent hour-based reference definition.
- `Rounding`: `np.round` (round half to even) on exact reals, and its two-decimal form.
- `Records`: the row-level stages (product filter, date index, `Time`/`EFA`, sentinel filter).
- `Pivot`: `pivot_table` as a map of maps. A NaN cell is an absent entry.
- `Percentage`: the outer-join division, including the IEEE infinities for a zero requirement.
- `Ordering`: the sorted order of the (date, product) index.
- `Flatten`: `reset_index`.
- `Pipeline`: the whole run, with end-to-end lemmas.
- `Dashboard`: the dashboard rules.

## Model

| member | source | states |
|---|---|---|
| Columns.Where | market_insights_response_data.py:14 | a boolean-mask selection never has more rows than its input |
| Columns.WhereCount | market_insights_response_data.py:14 | a row the mask accepts is kept exactly as often as it occurs; a row it rejects never appears |
| Columns.WhereMembers | market_insights_response_data.py:14 | a row is in the selection if and only if it is in the input and passes the mask |
| Columns.WhereConcat | market_insights_response_data.py:14 | the mask distributes over concatenation, so surviving rows keep their input order |
| Columns.WhereKeepsAll | market_insights_response_data.py:14 | a mask that every row passes returns the input unchanged |
| Columns.WhereDropsAll | market_insights_response_data.py:14 | a mask that no row passes returns no rows |
| Columns.WhereSingle | market_insights_response_data.py:19-22 | a mask that only row i passes selects exactly that row |
| Columns.WherePermutation | market_insights_response_data.py:14 | reordering the input reorders the selection and changes nothing else |
| Columns.WhereWhere | market_insights_response.py:65 | applying one mask to the rows another mask selected gives exactly the rows that pass both masks |
| Columns.WhereSameMask | market_insights_response_data.py:32 | two masks that agree on every row select the same rows |
| Columns.Apply | market_insights_response_data.py:16-17 | a derived column has one entry per row |
| Columns.ApplyAt | market_insights_response_data.py:16-17 | entry i of a derived column is the function applied to row i |
| Columns.ApplyConcat | market_insights_response_data.py:16-17 | deriving a column distributes over concatenation |
| Columns.ApplyRemove | market_insights_response_data.py:16-17 | removing row i removes exactly its derived value from the column's multiset |
| Columns.ApplyPermutation | market_insights_response_data.py:16-17 | permuting the rows permutes the derived column |
| Columns.TotalConcat | market_insights_response_data.py:34 | the sum over two batches is the sum of the two sums |
| Columns.TotalPermutation | market_insights_response_data.py:34 | the sum does not depend on row order |
| Columns.Total | market_insights_response_data.py:34 | `df[c].sum()`, with 0 for no rows; it adds up over batches (TotalConcat) and does not depend on order (TotalPermutation) |
| Clock.Later | market_insights_response.py:57 | Python `max(a, b)` returns one of its arguments, and neither argument is after it |
| Clock.Earlier | market_insights_response.py:57 | Python `min(a, b)` returns one of its arguments, and neither argument is before it |
| Clock.DaysBefore | market_insights_response.py:57 | `today - timedelta(days=n)`: the same time of day, n days earlier; DefaultWindowDays gives its effect on the window |
| Clock.Midnight | market_insights_response_data.py:12-13 | the calendar date of a timestamp; MidnightIsDate shows it identifies exactly the day and never moves later |
| Clock.MidnightIsDate | market_insights_response_data.py:12-13 | two truncated timestamps are equal if and only if they share a calendar day; truncation never moves later |
| Clock.DateOfLaterEarlier | market_insights_response.py:57 | the date of the later (earlier) of two instants is the later (earlier) of their dates |
| Clock.Digit | market_insights_response_data.py:16 | a decimal digit is a character from '0' to '9' |
| Clock.TwoDigits | market_insights_response_data.py:16 | `%02d` text always has two characters |
| Clock.TwoDigitsInjective | market_insights_response_data.py:16 | two numbers below 100 have the same `%02d` text if and only if they are equal |
| Clock.HourMinute | market_insights_response_data.py:16 | `%H:%M` text has five characters with ':' in the middle |
| Clock.HourMinuteIsMinuteOfDay | market_insights_response_data.py:16 | two instants have the same `%H:%M` text if and only if they fall in the same minute of the day |
| Clock.MinuteOfDay | market_insights_response_data.py:16 | the hour and minute fields recover the minute of the day |
| Efa.Classify | market_insights_response_data.py:17 | a time has a period if and only if it is one of the twelve keys, and every key is an `HH:00` text |
| Efa.ClassifyClockText | market_insights_response_data.py:17 | the table equals the reference rule: `HH:MM` has a period exactly when MM is 00 and HH starts a four-hour block (22, 2, 6, 10, 14, 18, or one hour later), and the period is that block |
| Efa.ClassifyInstant | market_insights_response_data.py:16-17 | a delivery start gets a period exactly when it lies in the first minute of a block-start hour |
| Efa.StartHour | market_insights_response_data.py:17 | each period's first key hour is a block start, 4p+18 mod 24 |
| Efa.PeriodKeys | market_insights_response_data.py:17 | each period has exactly two keys, its start hour and the hour after (the two daylight-saving regimes) |
| Records.KeepProductsCount | market_insights_response_data.py:14 | a row of the six products is kept as often as it occurs, and every other row is dropped |
| Records.KeepProductsConcat | market_insights_response_data.py:14 | the product filter keeps the input order |
| Records.KeepProducts | market_insights_response_data.py:14 | the `isin` product filter; KeepProductsCount, KeepProductsConcat and KeepProductsIdempotent state what it keeps |
| Records.KeepProductsIdempotent | market_insights_response_data.py:14 | filtering the products a second time changes nothing |
| Records.IndexToDate | market_insights_response_data.py:12-13 | truncating the index keeps the number of rows |
| Records.IndexToDateAt | market_insights_response_data.py:12-13 | each row's index becomes midnight of the same day, and its start, product and metrics are unchanged |
| Records.DateIndexForgetsTime | market_insights_response_data.py:12-13 | rows that differ only in the time of their index become equal once truncated, and only those |
| Records.DateAndProductCommute | market_insights_response_data.py:26-28 | filtering products before or after truncating the index gives the same rows; the two datasets use the two orders |
| Records.Tag | market_insights_response_data.py:16-17 | attaching `Time` and `EFA` keeps the number of rows |
| Records.TagRow | market_insights_response_data.py:15-17 | attaches the `Time` text and the `EFA` period to one row; TagAt states the values it attaches |
| Records.TagAt | market_insights_response_data.py:16-17 | a tagged row keeps its raw row, its `Time` is its delivery start's `%H:%M` text, and its `EFA` is the block of its start hour when the start is in the first minute of a block-start hour, and missing otherwise |
| Records.DropSentinelsCount | market_insights_response_data.py:32 | a requirement row is removed exactly when its price is 0 and its quantity is 100 or 20; any other row is kept as often as it occurs |
| Records.DropSentinelsConcat | market_insights_response_data.py:32 | the sentinel filter keeps the input order |
| Records.DropSentinels | market_insights_response_data.py:32 | the placeholder filter as written; DropSentinelsCount, DropSentinelsMask and DropSentinelsConcat state what it keeps |
| Records.DropSentinelsMask | market_insights_response_data.py:32 | the two negated conjunctions as written select the same rows as the single mask "not a placeholder" |
| Pivot.PivotWellFormed | market_insights_response_data.py:19-22 | every cell of a pivot table is in one of its period columns |
| Pivot.PivotTable | market_insights_response_data.py:19-22 | `pivot_table` indexed by (date, product) with the EFA columns; PivotCell, PivotShape, OrderIndependent, IgnoresUnmapped and SumCellsAdd state its content |
| Pivot.Aggregate | market_insights_response_data.py:19-22 | the cell aggregation: pandas' default mean for the volume and price pivots, and `np.sum` for the requirement pivot (line 34); AggregateSingle and PivotCell state its value |
| Pivot.PivotCell | market_insights_response_data.py:19-22 | a cell (k, e) holds a value exactly when some row has key k and period e, and then it holds the sum or mean of exactly those rows |
| Pivot.MatchedIsObserved | market_insights_response_data.py:19-22 | a row landing in a cell makes its key a table row and its period a column |
| Pivot.PivotShape | market_insights_response_data.py:34 | the table's rows are exactly the (date, product) keys of rows with a period, each once, and a cell exists exactly when some row has that key and period |
| Pivot.SumCellsAdd | market_insights_response_data.py:34 | the summed pivot of two batches of rows is, cell by cell, the sum of the two pivots |
| Pivot.SingleRowCell | market_insights_response_data.py:19-22 | when exactly one row has key k and period e, the cell is that row's value, for the sum and for the mean |
| Pivot.AggregateSingle | market_insights_response_data.py:19-22 | the sum and the mean of one value are that value |
| Pivot.KeysFromRows | market_insights_response_data.py:19-22 | keys and periods seen in a subset of rows are seen in the whole |
| Pivot.SameCellsSameTable | market_insights_response_data.py:19-22 | two inputs with the same keys and the same rows in every cell give identical tables |
| Pivot.IgnoresUnmapped | market_insights_response_data.py:17-19 | rows without a period contribute to no cell: appending them leaves the table unchanged |
| Pivot.OrderIndependent | market_insights_response_data.py:19-22 | reordering the input rows gives the identical table |
| Pivot.PermutedKeys | market_insights_response_data.py:19-22 | a reordered input observes the same keys and periods |
| Pivot.PermutedCell | market_insights_response_data.py:19-22 | a reordered input fills the same cells with the same aggregates |
| Rounding.RoundHalfEven | market_insights_response_data.py:36 | `np.round` lands within 0.5 of its argument, and a tie goes to the even neighbour |
| Rounding.RoundWhole | market_insights_response_data.py:36 | rounding a whole number returns it |
| Rounding.RoundMonotone | market_insights_response_data.py:36 | rounding never reverses order |
| Rounding.Round2 | market_insights_response_data.py:36 | `np.round(x, 2)` lies within 0.005 of x and is a whole number of hundredths |
| Rounding.Round2Idempotent | market_insights_response_data.py:36 | rounding to two decimals twice is the same as once |
| Percentage.Ratio | market_insights_response_data.py:36 | a non-zero requirement gives a finite percentage within 0.005 of v/r·100; a zero requirement gives an infinity of the volume's sign, or no value for 0/0 |
| Percentage.DivideCell | market_insights_response_data.py:36 | the cell-wise division with NaN for a missing side; PercentCell and Ratio state its value |
| Percentage.PercentTable | market_insights_response_data.py:36-37 | the outer-join percentage table; PercentRows, PercentCell and OneSidedRowIsEmpty state its rows and cells |
| Percentage.PercentRows | market_insights_response_data.py:36 | the percentage table's rows are the union of the volume and requirement rows |
| Percentage.PercentCell | market_insights_response_data.py:36-37 | a cell is round(v/r·100, 2) when both sides are present and r ≠ 0, and missing when either side is missing |
| Percentage.OneSidedRowIsEmpty | market_insights_response_data.py:36 | a row key found in only one of the two tables gives a row with no values |
| Percentage.HalfProcured | market_insights_response_data.py:36 | worked example: volumes 50 and 30 against requirements 100 and 60 give 50.0 in both periods |
| Ordering.TextIrreflexive | market_insights_response_data.py:39-41 | no product code sorts before itself |
| Ordering.TextTransitive | market_insights_response_data.py:39-41 | the text order is transitive |
| Ordering.TextTotal | market_insights_response_data.py:39-41 | of two different product codes, one sorts first |
| Ordering.KeyOrder | market_insights_response_data.py:39-41 | the (date, product) index order is irreflexive, transitive and total |
| Ordering.LeastExists | market_insights_response_data.py:39-41 | every non-empty set of row keys has a first key |
| Ordering.Least | market_insights_response_data.py:39-41 | the first key belongs to the set and sorts before every other key |
| Flatten.PeriodHeader | market_insights_response_data.py:39-41 | the period columns are listed in ascending order, each present period exactly once |
| Flatten.OrderedRows | market_insights_response_data.py:39-41 | the flattened rows are the table's rows, one per key, strictly ascending by (date, product), with their cells unchanged |
| Flatten.ResetIndex | market_insights_response_data.py:39-41 | `reset_index()`; FlatHeader, OrderedRows, FlatRowsExact and CellInFrame state its header and rows |
| Flatten.LeastFirst | market_insights_response_data.py:39-41 | placing the least key first and then the rest in order gives a strictly ascending list |
| Flatten.FlatHeader | market_insights_response.py:53 | after `reset_index` the first two columns are deliveryEnd and auctionProduct, and the EFA options (`columns[2:]`) are exactly the table's periods, ascending |
| Flatten.EfaOptions | market_insights_response.py:53 | `list(columns[2:])`; FlatHeader shows these are exactly the table's periods, ascending |
| Flatten.FlatRowsExact | market_insights_response_data.py:39-41 | every table row appears in the flat frame exactly once, with its cells unchanged |
| Flatten.CellInFrame | market_insights_response_data.py:39-41 | every value in the table can be read back from its row in the flat frame |
| Pipeline.PrepareResultsConcat | market_insights_response_data.py:12-17 | preparing two batches of auction results is preparing each and concatenating the results |
| Pipeline.PrepareRequirementsConcat | market_insights_response_data.py:26-32 | the same holds for requirement rows |
| Pipeline.PreparedSingle | market_insights_response_data.py:14-17 | a row of another product, or with an off-block start, yields no row with a period |
| Pipeline.IgnoredResult | market_insights_response_data.py:14-22 | adding an auction result of another product, or with an off-block start (05:00, say), leaves all three output tables unchanged |
| Pipeline.IgnoredRequirement | market_insights_response_data.py:26-37 | adding a requirement row of another product, with an off-block start, or that is a placeholder leaves all three output tables unchanged |
| Pipeline.PreparedRequirementSingle | market_insights_response_data.py:26-32 | such a requirement row yields no row with a period |
| Pipeline.ResultsPermuted | market_insights_response_data.py:12-17 | reordering the auction results reorders their prepared rows |
| Pipeline.RequirementsPermuted | market_insights_response_data.py:26-32 | reordering the requirements reorders their prepared rows |
| Pipeline.PrepareResults | market_insights_response_data.py:12-17 | the prepared auction frame: date truncated, products filtered, `Time` and `EFA` attached; PrepareResultsConcat, ResultsPermuted and PreparedSingle state its properties |
| Pipeline.PrepareRequirements | market_insights_response_data.py:26-32 | the prepared requirement frame: products filtered, date truncated, `Time` and `EFA` attached, placeholders dropped; PrepareRequirementsConcat, RequirementsPermuted and PreparedRequirementSingle state its properties |
| Pipeline.OrderIndependentRun | market_insights_response_data.py:11-41 | the three output tables do not depend on the order of either dataset's rows |
| Pipeline.PercentInFrame | market_insights_response_data.py:36-41 | a volume v and a non-zero requirement r at the same key and period appear in the written percentage frame as round(v/r·100, 2) |
| Pipeline.VolumeTable | market_insights_response_data.py:19-20 | the mean-of-cleared-volume pivot; PivotCell and SingleRowCell state its cells |
| Pipeline.PriceTable | market_insights_response_data.py:21-22 | the mean-of-clearing-price pivot; PivotCell and SingleRowCell state its cells |
| Pipeline.RequirementTable | market_insights_response_data.py:34 | the summed-quantity pivot; PivotCell and SumCellsAdd state its cells |
| Pipeline.Run | market_insights_response_data.py:11-41 | the three written frames; IgnoredResult, IgnoredRequirement, OrderIndependentRun and PercentInFrame state its properties (the same steps are repeated at market_insights_response.py:8-29) |
| Dashboard.ProductOptions | market_insights_response.py:53 | `unique()` lists each product of the frame exactly once, and only those |
| Dashboard.ProductOptionsFirstAppearance | market_insights_response.py:53 | the product options are listed in the order each product first occurs |
| Dashboard.FirstAt | market_insights_response.py:53 | the first occurrence of a product is a row with that product, and no earlier row has it |
| Dashboard.Earliest | market_insights_response.py:57 | `deliveryEnd.min()` is absent for an empty frame; otherwise it is a row's date and no row is earlier |
| Dashboard.Latest | market_insights_response.py:57 | `deliveryEnd.max()` is absent for an empty frame; otherwise it is a row's date and no row is later |
| Dashboard.DefaultWindow | market_insights_response.py:57 | the default window exists exactly when the frame has rows, and both its ends are dates (midnights) |
| Dashboard.DefaultWindowDays | market_insights_response.py:57 | the window starts on the later of the first delivery day and today minus seven days, and ends on the earlier of the last delivery day and today |
| Dashboard.DefaultWindowIsLastWeek | market_insights_response.py:57-61 | on a frame of dates, the default window contains a row exactly when its date is from seven days before today up to today |
| Dashboard.StaleDataShowsNothing | market_insights_response.py:57-61 | when the newest delivery date is more than a week old, the window's start is after its end, and the filter shows no row for any product selection |
| Dashboard.SelectRowsCount | market_insights_response.py:61 | a row is shown, as often as it occurs, exactly when its product is selected and start ≤ deliveryEnd ≤ end, both ends inclusive |
| Dashboard.NoProductNoRows | market_insights_response.py:61 | with no product selected, no row is shown |
| Dashboard.SelectRows | market_insights_response.py:61 | the product and date-range mask applied to the volume, price and percentage frames; SelectRowsCount, NoProductNoRows and SelectRowsConcat state what it keeps |
| Dashboard.SelectRowsConcat | market_insights_response.py:87 | the row filter keeps the frame order |
| Dashboard.Entry | market_insights_response.py:65 | a summary line carries its product and period |
| Dashboard.SummaryLineRows | market_insights_response.py:61-65 | a selected product's summary line is computed from exactly that product's rows in the date range, whatever else is selected |
| Dashboard.EntriesForAt | market_insights_response.py:65 | the inner loop appends one line per product, in selection order |
| Dashboard.SummaryLength | market_insights_response.py:65 | the summary has one line per (period, product) pair |
| Dashboard.SummaryAt | market_insights_response.py:65 | line i·|products|+j is for period i and product j: periods outer, products inner |
| Dashboard.Summary | market_insights_response.py:65 | the summary list; SummaryLength and SummaryAt give its order, and BuildSummary is the loop proved equal to it |
| Dashboard.BuildSummary | market_insights_response.py:65 | the nested loops build exactly the summary list |
| Dashboard.RoundPriceColumns | market_insights_response.py:79 | rounding the shown price columns keeps every row |
| Dashboard.RoundPriceCell | market_insights_response.py:79 | each row keeps its key and cells; a selected cell moves by at most 0.005 to a whole number of hundredths, and the other cells are unchanged |
| Dashboard.RoundPriceIdempotent | market_insights_response.py:79 | rounding the shown prices again changes nothing |
| Dashboard.ColorPrice | market_insights_response.py:81 | a price below the median is green and one above is dark red; equal, missing or no median leaves it unstyled |
| Dashboard.RoundingKeepsPriceColour | market_insights_response.py:79-81 | the median is taken before rounding, so rounding changes a price's colour only within 0.005 of the median |
| Dashboard.RoundedMedianPriceIsGreen | market_insights_response.py:79-81 | a price of 1.004 equal to its median is unstyled, but once rounded to 1.00 it is coloured green |
| Dashboard.RedIntensity | market_insights_response.py:89 | the red channel for a percentage below 100 is never negative |
| Dashboard.ColorPercentage | market_insights_response.py:89 | a whole percentage of 100 or more is green, and one below 100 is red with intensity int((100−val)·2.55) |
| Dashboard.RedIntensityMonotone | market_insights_response.py:89 | a smaller percentage never gives a lighter red |
| Dashboard.RedIntensityRange | market_insights_response.py:89 | for percentages 0 to 99 the red channel lies between 2 and 255 |
| Dashboard.RoundWholePct | market_insights_response.py:87 | rounding a percentage keeps finite values finite, within 0.5 and whole, and leaves infinities as they are |
| Dashboard.RoundPercentColumnsAsWritten | market_insights_response.py:87 | `.round().astype(int)` fails exactly when a shown row has a missing or infinite value in a selected period; otherwise it equals the corrected rounding |
| Dashboard.RoundPercentColumns | market_insights_response.py:87 | the corrected rounding keeps every row |
| Dashboard.RoundPercentCell | market_insights_response.py:87 | each row keeps its key and cells; a selected cell becomes its whole-number rounding, and finite cells stay finite |
| Dashboard.OneSidedRowBreaksDisplay | market_insights_response.py:87 | a (date, product) key present in only one pivot, once shown with any period selected, makes the conversion as written fail |
| Dashboard.EmptyShownRowFails | market_insights_response.py:87 | a shown row without values makes the conversion as written fail |

## Left out

- Network fetches of the two datasets (`read_csv` on the API URLs). The datasets are parameters.
- The CSV writes and reloads with fixed paths, and the `FileNotFoundError` branch. The model treats the written and reloaded frames as the same values.
- Streamlit widgets, `st.success`/`st.error`, the Plotly line and bar plots (`market_insights_response.py:69`, `:73`) and the dataframe styling calls. The styles are modelled as values, not as CSS text.
- The `formatted_datetime` computation at the top of the data script. Nothing uses it.
- The stray text on the first line of the dashboard script.
- The clock (`datetime.today()`, `pd.Timestamp.now()`). `today` is a parameter.
- Dashboard.BuildSummary: the summary statistics (mean, median, quartiles, standard deviation) are left out. Each line carries the product, the period and the column of shown prices they are computed from.
- Dashboard.ColorPrice: the column median (line 79) is a parameter, because it is a floating-point statistic.
- Dashboard.DefaultWindow: an empty frame gives no window. What `st.date_input` does with `NaT` is not modelled.
- Rounding.Round2: `np.round` is modelled on exact decimals. On binary floats a value such as 2.675 can round the other way.
- Dashboard.ColorPercentage: it takes the whole percentage that `astype(int)` produces. On the corrected frame a missing or +inf cell would be coloured green, and `int` of a -inf cell would raise. Neither is modelled.
- Dashboard.RedIntensity: it uses the exact constant 2.55. With the binary float, `int((100 - 0) * 2.55)` is 254, not 255.
- Pivot.Aggregate: metric values (`clearedVolume`, `clearingPrice`, `quantity`, `price`) are assumed present. A missing (NaN) value is not representable. pandas skips NaN in the mean and the sum, gives 0 for a sum whose values are all NaN (so the percentage would be infinite), and the placeholder mask keeps rows whose quantity or price is NaN. The model's mean divides by every row in the group.
- Pivot.PivotCell: the mean of several values is exact. Float summation error is not modelled.
- Percentage.Ratio: it models division only as IEEE signs and values, with no rounding error.
- The `int(float(col))` relabelling of the pivot columns. The columns are already whole periods 1 to 6, so it is the identity here.
- Time zones and timestamp parsing. Instants are timezone-naive day numbers plus seconds.
- `reset_index` and `Least` are ghost. The sorted order is defined by choosing least keys, which is not executable.
- The dashboard's in-place column overwrite (lines 79 and 87) is modelled as functions that return the new rows.

## Findings

| source | as written | input that shows it | evidently intended | confidence | as-written member | corrected member |
|---|---|---|---|---|---|---|
| market_insights_response.py:87 | `filtered_percentage_volume[selected_efas].round().astype(int)` | a (date, product) key that has cleared volume but no requirement row (or the reverse), shown with any period selected. The outer-join division gives that row NaN in every column, and `astype(int)` raises on NaN. A zero requirement gives `inf`, which raises too. | show whole percentages, leaving missing and infinite cells as they are | not executed | Dashboard.RoundPercentColumnsAsWritten (failure shown by Dashboard.OneSidedRowBreaksDisplay) | Dashboard.RoundPercentColumns (Dashboard.RoundPercentCell) |
