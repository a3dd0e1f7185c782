/** The storage gateways (`BaseballStatsDAO`, `StockStatsDAO`) with SQLite taken
    out: what is left is how a record becomes a table row on insert and how a
    table row becomes a record on select. A table is the sequence of its rows in
    the order the database returns them. */
module Storage {
  import opened Seqs
  import opened Records

  /** A row of `stock_stats`: ticker, company_name, exchange_country, price,
      exchange_rate, shares_outstanding, net_income, market_value, pe_ratio. */
  type StockColumns = (string, string, string, real, real, real, real, real, real)

  /** A row of `baseball_stats`: player_name, games_played, average, salary.
      This is NOT the order of the record's constructor (name, salary, g, avg). */
  type BaseballColumns = (string, int, real, real)

  /** The parameter tuple `StockStatsDAO.insert_records` binds for one record. */
  function StockToColumns(r: StockStatRecord): StockColumns
  {
    (r.name, r.companyName, r.exchangeCountry, r.price, r.exchangeRate, r.sharesOutstanding, r.netIncome,
     r.marketValueUsd, r.peRatio)
  }

  /** The record `StockStatsDAO.select_all` builds from one selected row; the
      derived columns are read back, not recomputed. */
  function StockFromColumns(row: StockColumns): StockStatRecord
  {
    StockStatRecord(row.0, row.1, row.2, row.3, row.4, row.5, row.6, row.7, row.8)
  }

  /** The parameter tuple `BaseballStatsDAO.insert_records` binds for one record. */
  function BaseballToColumns(r: BaseballStatRecord): BaseballColumns
  {
    (r.name, r.g, r.avg, r.salary)
  }

  /** The record `BaseballStatsDAO.select_all` builds from one selected row,
      passing the columns to the constructor in its own order. */
  function BaseballFromColumns(row: BaseballColumns): BaseballStatRecord
  {
    BaseballStatRecord(row.0, row.3, row.1, row.2)
  }

  /** Reading back the row written for a stock record gives the record, derived
      fields included. */
  lemma StockColumnsRoundTrip(r: StockStatRecord)
    ensures StockFromColumns(StockToColumns(r)) == r
  {
  }

  /** Writing the record read from a stock row gives the row: no column is
      dropped or swapped on the way. */
  lemma StockRecordRoundTrip(row: StockColumns)
    ensures StockToColumns(StockFromColumns(row)) == row
  {
  }

  /** Reading back the row written for a baseball record gives the record,
      despite the two different field orders. */
  lemma BaseballColumnsRoundTrip(r: BaseballStatRecord)
    ensures BaseballFromColumns(BaseballToColumns(r)) == r
  {
  }

  /** Writing the record read from a baseball row gives the row. */
  lemma BaseballRecordRoundTrip(row: BaseballColumns)
    ensures BaseballToColumns(BaseballFromColumns(row)) == row
  {
  }

  /** `StockStatsDAO.insert_records`: one row per record, in order, after the
      rows already in the table. */
  method InsertStockRecords(table: seq<StockColumns>, records: seq<StockStatRecord>) returns (written: seq<StockColumns>)
    ensures written == table + MapSeq(StockToColumns, records)
  {
    written := table;
    for i := 0 to |records|
      invariant written == table + MapSeq(StockToColumns, records[..i])
    {
      assert records[..i + 1] == records[..i] + [records[i]];
      MapSeqAppend(StockToColumns, records[..i], [records[i]]);
      written := written + [StockToColumns(records[i])];
    }
    assert records[..|records|] == records;
  }

  /** `StockStatsDAO.select_all`: one record per row, in the table's order. */
  method SelectAllStocks(table: seq<StockColumns>) returns (records: seq<StockStatRecord>)
    ensures records == MapSeq(StockFromColumns, table)
  {
    records := [];
    for i := 0 to |table|
      invariant records == MapSeq(StockFromColumns, table[..i])
    {
      assert table[..i + 1] == table[..i] + [table[i]];
      MapSeqAppend(StockFromColumns, table[..i], [table[i]]);
      records := records + [StockFromColumns(table[i])];
    }
    assert table[..|table|] == table;
  }

  /** `BaseballStatsDAO.insert_records`. */
  method InsertBaseballRecords(table: seq<BaseballColumns>, records: seq<BaseballStatRecord>) returns (written: seq<BaseballColumns>)
    ensures written == table + MapSeq(BaseballToColumns, records)
  {
    written := table;
    for i := 0 to |records|
      invariant written == table + MapSeq(BaseballToColumns, records[..i])
    {
      assert records[..i + 1] == records[..i] + [records[i]];
      MapSeqAppend(BaseballToColumns, records[..i], [records[i]]);
      written := written + [BaseballToColumns(records[i])];
    }
    assert records[..|records|] == records;
  }

  /** `BaseballStatsDAO.select_all`. */
  method SelectAllBaseball(table: seq<BaseballColumns>) returns (records: seq<BaseballStatRecord>)
    ensures records == MapSeq(BaseballFromColumns, table)
  {
    records := [];
    for i := 0 to |table|
      invariant records == MapSeq(BaseballFromColumns, table[..i])
    {
      assert table[..i + 1] == table[..i] + [table[i]];
      MapSeqAppend(BaseballFromColumns, table[..i], [table[i]]);
      records := records + [BaseballFromColumns(table[i])];
    }
    assert table[..|table|] == table;
  }

  /** Selecting everything after inserting a batch gives what the table held
      before, followed by the batch exactly as inserted. */
  lemma StockInsertThenSelect(table: seq<StockColumns>, records: seq<StockStatRecord>)
    ensures MapSeq(StockFromColumns, table + MapSeq(StockToColumns, records))
         == MapSeq(StockFromColumns, table) + records
  {
    MapSeqAppend(StockFromColumns, table, MapSeq(StockToColumns, records));
    forall r ensures StockFromColumns(StockToColumns(r)) == r { StockColumnsRoundTrip(r); }
    MapSeqInverse(StockToColumns, StockFromColumns, records);
  }

  /** The same law for the baseball table. */
  lemma BaseballInsertThenSelect(table: seq<BaseballColumns>, records: seq<BaseballStatRecord>)
    ensures MapSeq(BaseballFromColumns, table + MapSeq(BaseballToColumns, records))
         == MapSeq(BaseballFromColumns, table) + records
  {
    MapSeqAppend(BaseballFromColumns, table, MapSeq(BaseballToColumns, records));
    forall r ensures BaseballFromColumns(BaseballToColumns(r)) == r { BaseballColumnsRoundTrip(r); }
    MapSeqInverse(BaseballToColumns, BaseballFromColumns, records);
  }
}
