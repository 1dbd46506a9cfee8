# Hawaii climate service: a verified model of its query logic

The service answers HTTP requests about a climate dataset. The dataset has a
measurement table (station, date, precipitation, observed temperature `tobs`)
and a station table (station id, name). Under its web framework and database
plumbing sits a small amount of logic, and this project models that logic and
proves what it computes:

- **`date_prev_year`**: the latest measurement date, parsed as `YYYY-MM-DD`,
  moved back 365 days in the proleptic Gregorian calendar, and formatted
  back.
- **String dates.** Every query compares dates as strings. The model proves
  this is chronological comparison for well-formed dates.
- **`most_active_station`**: group the measurement rows by station, count
  them, order by count (largest first) and take the first.
- **The list-building loops** of the precipitation, tobs and station-analysis
  routes, and the flattening of station ids in the stations route.
- **`cal_temp`**: MIN/AVG/MAX of `tobs` over a date window.
- **`station_analysis`**:
  - the roster (measurements joined with stations, grouped, counted and
    ordered);
  - the busiest station's block and its statistics;
  - the five-row sample.

Modules:

- `Wrappers` (`wrappers.dfy`): `Option` and `Result`.
- `Lex` (`lex.dfy`): the lexicographic order Python and SQLite use on
  strings, proved to be a total order.
- `Dates` (`dates.dfy`): dates, day numbers (ordinals, 0001-01-01 being day 1,
  as in Python's `datetime`), the zero-padded text form of section 5.6 of
  RFC 3339, and the leap-year rule of its Appendix C.
- `Tables` (`tables.dfy`): the two tables as sequences of rows and the meaning
  of each query: WHERE filters, latest date, GROUP BY/COUNT, ORDER BY count
  DESC, the inner join, MIN/AVG/MAX, and numpy's ravel.
- `App` (`app.dfy`): the service's operations. An error the Python code would
  raise is an `Err` value:
  - `EmptyDataset`: `first()` returns None, or `[0]` is taken of an empty
    result.
  - `MalformedDate`: strptime raises ValueError.
  - `DateOutOfRange`: OverflowError.
  - `NullAverage`: `round(None, 2)` raises TypeError.

  The three loops that append one dictionary per result row are methods
  with loop invariants. The route bodies that call them are methods too.

**The leap-day example.** `timedelta(days=365)` steps back 365 days, not one
calendar year. So 2024-02-29 gives 2023-03-01, not 2023-02-28
(`App.ExampleLeapDay`).

## Model

| member | source | states |
|---|---|---|
| Lex.Total | app.py:54 | Any two strings are comparable, so ordering by date is a total order. |
| Lex.Transitive | app.py:54 | String order is transitive. |
| Lex.Antisymmetric | app.py:54 | Two strings that are each ≤ the other are equal. |
| Lex.Append | app.py:66 | For prefixes of equal length, comparing `p + s` with `q + t` is decided by `p` vs `q` unless they are equal, and then by `s` vs `t`. |
| Dates.YearStep | app.py:63 | The first days of consecutive years are 365 or 366 days apart, following the Gregorian leap rule. |
| Dates.ToOrdinal | app.py:63 | A date's day number comes after every day of the earlier years and within its own year's length: the numbering that `datetime - timedelta` counts on. |
| Dates.OrdinalRange | app.py:60 | Every date in years 1..9999 has a day number in 1..3652059. |
| Dates.OrdinalOrder | app.py:63 | Day numbers order dates exactly as (year, month, day) does. |
| Dates.OrdinalInjective | app.py:63 | Distinct dates have distinct day numbers. |
| Dates.FromOrdinal | app.py:63 | Every day number in 1..3652059 names a valid date, and that date's day number is the input. |
| Dates.FromToOrdinal | app.py:63 | Converting a date to its day number and back gives the same date. |
| Dates.AddDays | app.py:63 | Moving by k days succeeds exactly when the result stays in years 1..9999, and the result's day number is the input's plus k. Otherwise there is no result, which stands for OverflowError. |
| Dates.ValuePad | app.py:66 | A number below 10^w reads back from its w-digit zero-padded form. |
| Dates.PadValue | app.py:60 | A digit string is the zero-padded form of the number it spells. |
| Dates.PadOrder | app.py:66 | Zero-padded numbers of equal width compare as strings the way they compare as numbers, in both directions. |
| Dates.Format | app.py:66 | The `%Y-%m-%d` text of a date is 10 characters long. |
| Dates.Parse | app.py:60 | A string that parses is 10 characters long and names a valid date. |
| Dates.ParseFields | app.py:60 | A string built from 4-, 2- and 2-digit fields joined by dashes parses to the date those fields spell. If no such day exists, it does not parse. |
| Dates.ParseFormat | app.py:60-66 | Parsing the formatted text of a date gives the date back. |
| Dates.FormatParse | app.py:60-66 | A string that parses is the formatted text of its date. |
| Dates.FormatOrder | app.py:140 | Formatted dates compare as strings exactly as they compare chronologically. |
| Tables.Select | app.py:223 | A filtered query returns only rows of the table that meet the condition, and every such row. |
| Tables.Matches | app.py:308-309 | A row can meet both a `date >= start` and a `date <= end` condition only when start ≤ end as strings, so a start after the end matches no row. |
| Tables.SelectedRows | app.py:269 | Every returned row, by position, meets the query's condition. |
| Tables.SelectAppend | app.py:223 | Filtering keeps table order: it distributes over concatenation of tables. |
| Tables.EmptyRange | app.py:308-309 | With `since` after `until`, the query returns no row. |
| Tables.LatestDate | app.py:54 | The result is None exactly when the table is empty. Otherwise it is some row's date, and no row's date is greater. |
| Tables.Count | app.py:75 | A count is at most the column's length, and positive exactly when the key occurs. |
| Tables.CountAppend | app.py:75 | Counting distributes over concatenation. |
| Tables.Distinct | app.py:76 | The distinct values hold exactly the column's values, each once. |
| Tables.GroupCount | app.py:75-76 | There is one group per value of the column, each with that value's count, and no key twice. |
| Tables.Insert | app.py:77 | Inserting into a list sorted by count gives a sorted list. The result is the old list plus the new group, as a multiset. |
| Tables.SortByCount | app.py:77 | The result is sorted by count, largest first, and is a permutation of the input. |
| Tables.Ranking | app.py:75-77 | The grouped and ordered count query is sorted by count. Each row is a key of the column with its count, every key of the column is present, and keys are distinct. |
| Tables.StationColumn | app.py:75 | The station column has one entry per measurement row, in order. |
| Tables.IdCount | app.py:124 | The number of station rows with an id is positive exactly when some station row has it. |
| Tables.UniqueIdCount | app.py:124 | With unique station ids, an id matches at most one station row. |
| Tables.CountRepeat | app.py:124 | A key repeated n times is counted n times. |
| Tables.JoinKeys | app.py:124 | Every station in the inner join's station column is a station of some measurement row and has at least one station row. |
| Tables.JoinCount | app.py:121-126 | After the inner join, a station's row count is its measurement count times its number of station rows. |
| Tables.JoinedHasRows | app.py:124 | A station in the join has a measurement row and a station row. |
| Tables.RowsJoined | app.py:124 | A measurement row whose station has a station row appears in the join. |
| Tables.NameOf | app.py:123 | The name reported for a station is the name of a station row with that id. |
| Tables.Named | app.py:121-126 | Naming keeps each group's station and count, and gives a name from a matching station row. It keeps order by count and keeps keys distinct. |
| Tables.RankedJoined | app.py:124 | Every ranked station of the join has a measurement row and a station row. |
| Tables.Roster | app.py:121-126 | The roster is ordered by count, largest first, and lists each station once. Each station has a measurement row and a station row, and the row's name is that station row's name. |
| Tables.RosterCovers | app.py:121-126 | Every station with both a measurement row and a station row is on the roster (inner join). |
| Tables.RosterCount | app.py:121-126 | A roster row's count is the station's measurement count times its number of station rows. |
| Tables.RosterCounts | app.py:121-126 | With unique station ids, a roster row's count is exactly the station's measurement count. |
| Tables.Temps | app.py:132-135 | The temperatures the aggregates see are exactly the non-NULL `tobs` values of the rows. |
| Tables.Min | app.py:132 | The minimum is one of the values and no value is smaller. |
| Tables.Max | app.py:134 | The maximum is one of the values and no value is larger. |
| Tables.SumBounds | app.py:133 | n values within [lo, hi] sum to between n·lo and n·hi. |
| Tables.MeanBounds | app.py:133 | The mean of values within [lo, hi] lies within [lo, hi]. |
| Tables.Aggregate | app.py:132-135 | MIN, AVG and MAX are NULL exactly when no row has a temperature. Otherwise MIN and MAX are some row's temperature and bound every row's, and MIN ≤ AVG ≤ MAX. |
| Tables.RavelSingletons | app.py:253 | Flattening one-column rows gives one entry per row, in order. |
| Tables.Ravel | app.py:303 | The flattened list holds exactly the entries of the result tuples. |
| App.YearBefore | app.py:60-66 | The error is MalformedDate exactly when the date does not parse, and DateOutOfRange exactly when it is in the first 365 days. Otherwise the result is a well-formed date exactly 365 days earlier, and it is string-smaller. |
| App.DatePrevYear | app.py:49-68 | EmptyDataset exactly when the table is empty. MalformedDate and DateOutOfRange as for YearBefore, applied to the greatest date. No other error occurs, so otherwise the result is Ok: a well-formed date exactly 365 days before the latest date. |
| App.YearBeforeIs | app.py:60-66 | If date p is 365 days before date d, the result for d's text is p's text. |
| App.Text2017 | app.py:66 | The text forms of 2017-08-23 and 2016-08-23. |
| App.Example2017 | app.py:63 | 2017-08-23 gives 2016-08-23. |
| App.Text2016 | app.py:66 | The text forms of 2016-08-23 and 2015-08-24. |
| App.Example2016 | app.py:63 | 2016-08-23 gives 2015-08-24, because 2016-02-29 lies in between. |
| App.TextLeapDay | app.py:66 | The text forms of 2024-02-29 and 2023-03-01. |
| App.ExampleLeapDay | app.py:63 | 2024-02-29 gives 2023-03-01. |
| App.TextNoSuchDay | app.py:60 | The fields of "2017-02-30". |
| App.ExampleNoSuchDay | app.py:60 | "2017-02-30" is rejected as MalformedDate. |
| App.ExampleOverflow | app.py:63 | "0001-12-31" gives DateOutOfRange. |
| App.WindowSpan | app.py:140 | Every well-formed measurement date is at most 365 days after the reference date. |
| App.DateFilterIsChronological | app.py:223 | For well-formed dates, `date >= reference` as strings is chronological comparison, in both directions. |
| App.MostActiveStation | app.py:71-82 | Err(EmptyDataset) exactly when the table is empty. Otherwise a station of some row whose row count is at least every station's. |
| App.PrcpList | app.py:229-234 | One dictionary per row, in order, each with exactly the keys `date` and `prcp` holding the row's values. |
| App.TobsList | app.py:275-280 | One dictionary per row, in order, each with exactly the keys `date` and `tobs` holding the row's values. |
| App.RosterList | app.py:160-166 | One dictionary per roster row, in order, with exactly `station_id`, `name` and `observation_count`. |
| App.Precipitation | app.py:218-237 | The reference date's error propagates. Otherwise there is one `{date, prcp}` entry per row dated on or after the reference date, in table order, and every such date is on or after the reference date. |
| App.StationIds | app.py:247-253 | The stations list has one id per station row, in table order. |
| App.StationIdsOnce | app.py:247-253 | With unique ids, the list names every station exactly once. |
| App.Tobs | app.py:261-283 | Errors of most_active_station, then of date_prev_year, propagate. Otherwise there is one `{date, tobs}` entry per selected row, in order, and every selected row belongs to the busiest station and is dated on or after the reference date. |
| App.CalTemp | app.py:289-312 | The result is `[min, avg, max]` over the rows in the window. All three are null exactly when the window holds no temperature. Min and max are attained and bound every temperature in the window, and min ≤ avg ≤ max. |
| App.CalTempEmptyRange | app.py:307-312 | A start after the end gives three nulls, not an error. |
| App.MostActiveBlock | app.py:172-181 | The most-active-station dictionary has exactly `id`, `name`, `observation_count` and `temperature_stats`, taken from the roster row and the statistics. |
| App.Report | app.py:160-182 | The report lists every roster row in order and describes roster element 0 with the statistics. Its sample is the first min(5, n) tobs rows. |
| App.StationAnalysis | app.py:112-184 | EmptyDataset when the roster is empty, then date_prev_year's error, then NullAverage exactly when the busiest station has no temperature. Otherwise: the station count; the roster as dictionaries; roster element 0 with its station's MIN/AVG/MAX; and the first min(5, n) of that station's rows dated on or after the reference date. |
| App.RosterHeadIsBusiest | app.py:129 | With unique station ids and a station row for every measured station, roster element 0 has exactly its station's measurement count, and that equals the count of the station most_active_station returns. |

## Left out

- Flask routing, `jsonify`, the homepage and the HTML assembly of the station analysis: framework and presentation only.
- Engine, automap reflection and session open/close (including `try/finally`): resource handling. Each query is modelled by its meaning over in-memory tables.
- The startup check that the database file exists: file-system I/O that only prints diagnostics.
- The matplotlib histogram and its base64 PNG: external rendering, so the report's `plot` field is not modelled.
- Tables.Aggregate: the average is the exact mean as a real number. SQLite's floating-point AVG and the `round(..., 2)` of the report are not modelled.
- App.StationAnalysis: the `round` is not modelled, but `round(None, 2)` raising is (NullAverage). The station count is the number of station rows, which assumes no station row has a NULL id.
- Tables.Measurement: `prcp` is only passed through, as an optional real. `tobs` is an optional integer, not a float.
- Dates.Parse: rejects fields without zero padding (such as `2017-8-3`), which strptime accepts. Such a stored date gives MalformedDate where the service would succeed.
- Dates.Format: pads years below 1000 to four digits. `strftime('%Y')` does that only on some platforms.
- App.MostActiveStation: when several stations tie on count, which one the store returns first is unspecified. The contract states only that the result has a maximal count. The model's stable sort picks one deterministically.
- Tables.Select: SQL without ORDER BY promises no row order. The model returns rows in table order.
- Tables.NameOf: the roster query selects `Station.name` without grouping on it. When a station id repeats in the station table, the model takes the first matching row's name, and SQLite's choice is unspecified.
- pandas and numpy are modelled by their effect only: `head(5)` is a prefix of at most five rows, and `ravel` is a flattening. NaN conversion of NULL temperatures in the DataFrame is not modelled, and JSON null is kept.
