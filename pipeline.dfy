/** The program's entry point with its I/O taken out: load both CSV files,
    insert the records, select them back, and compute both reports. The file
    contents and the tables' previous contents are parameters; printing is not
    modelled. */
module Pipeline {
  import opened Common
  import opened Seqs
  import opened Dicts
  import opened Records
  import opened Readers
  import opened Storage
  import opened Aggregation

  /** The stock records the run aggregates: what the table already held, then
      the records loaded from the file. */
  function StocksAfterInsert(p: NumberParsers, stockRows: seq<Row>, stockTable: seq<StockColumns>): seq<StockStatRecord>
    requires forall i | 0 <= i < |stockRows| :: HasStockColumns(stockRows[i])
  {
    assert Readable(stockRows, StocksReader(p));
    MapSeq(StockFromColumns, stockTable) + AcceptedRecords(stockRows, StocksReader(p))
  }

  /** The baseball records the run aggregates. */
  function PlayersAfterInsert(p: NumberParsers, baseballRows: seq<Row>, baseballTable: seq<BaseballColumns>): seq<BaseballStatRecord>
    requires forall i | 0 <= i < |baseballRows| :: HasBaseballColumns(baseballRows[i])
  {
    assert Readable(baseballRows, BaseballReader(p));
    MapSeq(BaseballFromColumns, baseballTable) + AcceptedRecords(baseballRows, BaseballReader(p))
  }

  /** One run: the mean salary per batting average and the ticker count per
      exchange country, over every record in the two tables once the loaded
      records are inserted. Every average that is reported is the mean of a
      non-empty group, and the ticker counts add up to the number of stocks. */
  method RunReports(p: NumberParsers, baseballRows: seq<Row>, stockRows: seq<Row>,
                    baseballTable: seq<BaseballColumns>, stockTable: seq<StockColumns>)
    returns (averageSalaries: Dict<real, real>, tickerCounts: Dict<string, nat>)
    requires forall i | 0 <= i < |baseballRows| :: HasBaseballColumns(baseballRows[i])
    requires forall i | 0 <= i < |stockRows| :: HasStockColumns(stockRows[i])
    ensures tickerCounts.Valid()
    ensures tickerCounts.keys == FirstSeen(Countries(StocksAfterInsert(p, stockRows, stockTable)))
    ensures forall c | c in tickerCounts.entries ::
      tickerCounts.entries[c] == Occurrences(Countries(StocksAfterInsert(p, stockRows, stockTable)), c)
    ensures SumValues(tickerCounts.keys, tickerCounts.entries) == |StocksAfterInsert(p, stockRows, stockTable)|
    ensures averageSalaries.Valid()
    ensures averageSalaries.keys == FirstSeen(Averages(PlayersAfterInsert(p, baseballRows, baseballTable)))
    ensures forall a | a in averageSalaries.entries ::
      && |SalariesWithAverage(PlayersAfterInsert(p, baseballRows, baseballTable), a)| > 0
      && averageSalaries.entries[a] == Mean(SalariesWithAverage(PlayersAfterInsert(p, baseballRows, baseballTable), a))
  {
    assert Readable(baseballRows, BaseballReader(p));
    assert Readable(stockRows, StocksReader(p));
    var baseballRecords := Load(baseballRows, BaseballReader(p));
    var stockRecords := Load(stockRows, StocksReader(p));

    var baseballWritten := InsertBaseballRecords(baseballTable, baseballRecords);
    var stocksWritten := InsertStockRecords(stockTable, stockRecords);

    var baseballDeque := SelectAllBaseball(baseballWritten);
    var stocksDeque := SelectAllStocks(stocksWritten);
    BaseballInsertThenSelect(baseballTable, baseballRecords);
    StockInsertThenSelect(stockTable, stockRecords);

    tickerCounts := CountTickersByCountry(stocksDeque);

    var groups := GroupSalariesByAverage(baseballDeque);
    forall a | a in groups.entries ensures |groups.entries[a]| > 0 {
      GroupsNonEmpty(baseballDeque, a);
    }
    averageSalaries := AverageSalaries(groups);
  }
}
