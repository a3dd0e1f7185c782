# ETL pipeline model

A Dafny model of the row-to-record pipeline of `src/ETL.py`. The program reads two CSV files,
stock valuations and MLB 2008 player lines. It validates every row into a typed record or
rejects it, inserts the records into two SQLite tables and selects them back. Then it computes
two reports: the number of tickers per exchange country, and the mean salary per batting average.

Modules, one per part of the program:

- `Common` (common.dfy): the CSV row (`map<string, string>`), the validation outcome
  `Accepted(record) | Rejected`, and `NumberParsers`. That datatype stands for Python's
  `int()` and `float()` applied to a cell. It returns `None` where Python raises `ValueError`.
- `Records` (records.dfy): `StockStatRecord` and `BaseballStatRecord` as immutable datatypes.
  Their fields follow the source's constructors. The module also states what an accepted
  record satisfies (`WellFormedStock`, `WellFormedPlayer`).
- `Readers` (readers.dfy): the two `row_to_record` validators, and `load` as a generic
  method over a validator. The functional specification of `load` is `AcceptedRecords`.
- `Storage` (storage.dfy): the record-to-column-tuple mapping of `insert_records` and the
  tuple-to-record mapping of `select_all`, for both tables. A table is the sequence of its
  rows.
- `Dicts` (dicts.dfy): Python's insertion-ordered `dict`, as a key order plus a map.
- `Seqs` (seqs.dfy): sequence functions used by the specifications: map, occurrence count,
  and the distinct elements in first-seen order.
- `Aggregation` (aggregation.dfy): the two `__main__` loops lifted into methods that drain
  the deque front first, plus the final loop that replaces each salary group by its mean.
- `Pipeline` (pipeline.dfy): the whole `__main__` run, from rows to both reports.

The parsers are parameters, so every property holds for any text-to-number grammar.
Two behaviours of the code are worth knowing. First, the ticker / player-name check can never
reject a row: any blank cell, in any column, has already rejected it. The model keeps the check
in its place anyway. Second, the code checks no sign or range on prices, games or salaries, and
neither does the model.

`create_dbs.py` declares `salary real` in `baseball_stats`, so a salary parsed with `int()`
is read back as a float. The model gives `BaseballStatRecord.salary` the type `real`. The
CSV path stores the parsed integer there (`WellFormedPlayer` says it is integral).

## Model

| member | source | states |
|---|---|---|
| `Readers.StockRowToRecord` | src/ETL.py:184-220 | a stock row is accepted iff no cell in any column is blank, price, exchange_rate, shares_outstanding and net_income all parse, and net income is not zero; a blank cell always rejects; an accepted record copies ticker, company and country, holds the parsed numbers, has a non-empty ticker, market value = price × rate × shares and P/E = price / net income |
| `Readers.BaseballRowToRecord` | src/ETL.py:224-247 | a baseball row is accepted iff no cell is blank, SALARY and G parse as integers and AVG as a float; an accepted record has the PLAYER name (non-empty), the parsed salary (integral), games and average |
| `Readers.AcceptedRecords` | src/ETL.py:164-178 | the records `load` keeps are never more than the rows |
| `Readers.AcceptedIndices` | src/ETL.py:170-176 | the accepted rows' indices, strictly increasing, each an accepted row, and every accepted row listed |
| `Readers.Load` | src/ETL.py:164-178 | the loop returns exactly `AcceptedRecords` of the rows |
| `Readers.AcceptedRecordsInRowOrder` | src/ETL.py:170-176 | the j-th loaded record is the record of the j-th accepted row: exactly the accepted records, in row order |
| `Readers.AcceptedRecordsMembership` | src/ETL.py:170-176 | a record is loaded iff some row validates to it |
| `Readers.AcceptedRecordsAppend` | src/ETL.py:170-176 | loading `a + b` gives the load of `a` followed by the load of `b`, so nothing in one part of the file stops or changes the rest |
| `Readers.RejectedRowSkipped` | src/ETL.py:171-174 | a rejected row contributes nothing, wherever it stands |
| `Readers.LoadedStocksWellFormed` | src/ETL.py:204-218 | every loaded stock record has a non-empty ticker, non-zero net income and consistent derived fields |
| `Readers.LoadedPlayersWellFormed` | src/ETL.py:242-245 | every loaded player record has a non-empty name and an integral salary |
| `Readers.FiveRowStockFile` | src/ETL.py:189-214 | five rows where row 3 has a blank company name and row 4 a zero net income load as the records of rows 1, 2 and 5 |
| `Storage.StockColumnsRoundTrip` | src/ETL.py:71-111 | the record rebuilt from the 9-column row written for a stock record is that record, derived fields included |
| `Storage.StockRecordRoundTrip` | src/ETL.py:71-111 | the 9-column row written for the record rebuilt from a row is that row |
| `Storage.BaseballColumnsRoundTrip` | src/ETL.py:30-55 | the record rebuilt from the (name, g, avg, salary) row written for a player record is that record, although the constructor order is (name, salary, g, avg) |
| `Storage.BaseballRecordRoundTrip` | src/ETL.py:30-55 | the row written for the record rebuilt from a baseball row is that row |
| `Storage.InsertStockRecords` | src/ETL.py:66-88 | the table afterwards is the old rows followed by one row per record, in order |
| `Storage.SelectAllStocks` | src/ETL.py:90-116 | one record per table row, in table order |
| `Storage.InsertBaseballRecords` | src/ETL.py:26-38 | the table afterwards is the old rows followed by one row per record, in order |
| `Storage.SelectAllBaseball` | src/ETL.py:40-59 | one record per table row, in table order |
| `Storage.StockInsertThenSelect` | src/ETL.py:66-116 | selecting after inserting a batch gives the table's earlier records followed by the batch exactly |
| `Storage.BaseballInsertThenSelect` | src/ETL.py:26-59 | selecting after inserting a batch gives the table's earlier records followed by the batch exactly |
| `Dicts.Dict.Update` | src/ETL.py:283-287 | `dict.update` sets the value; a new key goes last in the order, an existing key keeps its place |
| `Dicts.Dict.UpdateValid` | src/ETL.py:283-287 | an update keeps the keys distinct and the key order in step with the map |
| `Seqs.FirstSeenOrder` | src/ETL.py:283-284 | the keys of a first-seen listing are ordered by where each first occurs |
| `Seqs.SumOccurrencesFirstSeen` | src/ETL.py:272-287 | counting every distinct element once accounts for every position exactly once |
| `Aggregation.CountStep` | src/ETL.py:281-287 | one iteration of the ticker count keeps the counts equal to the occurrences of each country so far, keys in first-seen order |
| `Aggregation.CountsSum` | src/ETL.py:272-287 | the country counts add up to the number of stocks |
| `Aggregation.CountFoldCounts` | src/ETL.py:279-287 | counting a list country by country, as the loop does, yields each distinct country in first-seen order with its number of occurrences |
| `Aggregation.CountFoldSpec` | src/ETL.py:272-287 | the ticker count of a list of stocks is a valid dict whose keys are the distinct countries in first-seen order, each counted by its occurrences, the counts adding up to the number of stocks |
| `Aggregation.CountTickersByCountry` | src/ETL.py:272-287 | the loop computes the country-by-country count `CountFold`; keys are exactly the distinct exchange countries in first-seen order; each value is that country's number of stocks; the values sum to the number of stocks |
| `Aggregation.GroupStep` | src/ETL.py:300-309 | one iteration of the salary grouping keeps each group equal to the salaries of the players so far with that average |
| `Aggregation.GroupFoldGroups` | src/ETL.py:300-309 | grouping player by player, as the loop does, yields each distinct average in first-seen order with the salaries of exactly the players that have it |
| `Aggregation.GroupSalariesByAverage` | src/ETL.py:291-310 | the loop computes the player-by-player grouping `GroupFold`; keys are exactly the distinct averages in first-seen order; each key maps to the salaries of the players with exactly that average, in deque order |
| `Aggregation.GroupsSnoc` | src/ETL.py:300-309 | one more player adds its salary exactly once to the groups taken together, whether its average is new or already a key |
| `Aggregation.GroupsPartitionSalaries` | src/ETL.py:291-310 | every salary value occurs in the groups, taken together in key order, exactly as often as among the players: the groups are a permutation of the salaries, each salary in exactly one group |
| `Aggregation.GroupsNonEmpty` | src/ETL.py:303-313 | every group has a salary, so `sum(v) / len(v)` never divides by zero |
| `Aggregation.SumValuesOccurrences` | src/ETL.py:283-287 | values that are occurrence counts sum to the sum of the occurrence counts |
| `Aggregation.FlattenSnoc` | src/ETL.py:300-309 | with distinct keys, one more player adds its salary to the groups exactly once if its average is a key, and not at all otherwise |
| `Aggregation.SumBounds` | src/ETL.py:313 | a sum of values in [lo, hi] lies in [n·lo, n·hi] |
| `Aggregation.MeanBounds` | src/ETL.py:313 | a group's mean lies between its smallest and its largest salary |
| `Aggregation.MeansOfMeans` | src/ETL.py:312-313 | replacing the groups of distinct keys one by one by their means keeps the keys in their order and gives each key the mean of its own group |
| `Aggregation.AverageSalaries` | src/ETL.py:312-313 | the loop computes `MeansOf` over the key order; the keys and their order are unchanged and each value becomes the mean of its group |
| `Aggregation.CountryCountExample` | src/ETL.py:272-287 | stocks listed in US, US, JP give the dict US: 2, JP: 1, in that order |
| `Aggregation.SalaryGroupsExample` | src/ETL.py:291-310 | salaries 100, 200 at 0.300 and 300 at 0.250 give the dict 0.300: [100, 200], 0.250: [300], in that order |
| `Aggregation.SalaryMeanExample` | src/ETL.py:312-313 | those groups give the dict 0.300: 150, 0.250: 300, in that order |
| `Pipeline.RunReports` | src/ETL.py:255-313 | after load, insert and select, the ticker counts and mean salaries are those of the table's earlier records followed by the accepted records, with counts summing to the number of stocks and every mean over a non-empty group |

## Left out

- SQLite itself: connecting, cursors, `execute`, `commit` and `close` in `AbstractDAO.connect` and both DAOs. A table is a sequence of rows passed in and returned, in the order the database gives them back. Atomicity and failures of the store are not modelled.
- SQLite type affinity: a value is read back as the type its column declares. The model types the tables' columns by their declarations in `create_dbs.py`.
- SQLite's integer and REAL ranges. `execute` raises an uncaught `OverflowError` when an `int()`-parsed G or SALARY lies outside the signed 64-bit range. Because `salary` is a REAL column, a salary above 2^53 comes back rounded to the nearest 64-bit float. The model's integers and reals are unbounded, so no insert fails and no salary is rounded.
- Storage.BaseballColumnsRoundTrip: exact for every record, because the model has no integer or float bounds. The source's CSV → table → record path is guaranteed exact only for G within the signed 64-bit range and salaries of magnitude at most 2^53. Storage.BaseballRecordRoundTrip and Storage.BaseballInsertThenSelect carry the same bounds.
- Opening the CSV file and `csv.DictReader`: a file is the sequence of its rows. Failing to open the file is not modelled.
- A row missing a column the validator looks up. The source reads a column only once the row has passed every check before that read, and only then raises an uncaught `KeyError`. Before that, the row can still be rejected and skipped. A blank cell in any column present rejects it first (src/ETL.py:189-191, 229-231). A number read earlier that does not parse rejects it before a later number or the name is read (src/ETL.py:195-201, 234-238). For a stock row, a zero net income rejects it before `company_name` and `exchange_country` are read (src/ETL.py:209-216). The model makes the presence of every column a precondition (`HasStockColumns`, `HasBaseballColumns`). So it says nothing about rows missing a column: neither those the source rejects and skips, nor those on which it stops with `KeyError`. Short rows whose cells are `None` (an uncaught `TypeError`) are not modelled either.
- The text grammar of `int()` and `float()`: the parsers are parameters, and the model proves nothing about which strings parse.
- IEEE floating point: `real` replaces `float`. So there is no rounding in `price * rate * shares` or in `price / net_income`, no overflow to infinity, no NaN or infinities from parsing, and no `-0.0`. Grouping by average compares reals exactly, which is the source's exact float equality without its representation caveats.
- Aggregation.AverageSalaries: does not model `round(..., 3)`. The stored mean is the exact `sum / len`.
- Aggregation.AverageSalaries: the source overwrites the list values of the same dict in place while it iterates. The model builds a new dict with the same keys in the same order. In Python the appended list is the one held in the dict (aliasing), and the model gives it value semantics. Neither difference changes any result.
- The `__str__` methods and the printing of both reports, including their float formats.
- `os.getcwd` and the file-path wiring in `__main__`.
- `src/create_dbs.py`, which only creates the two tables.
