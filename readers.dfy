/** The CSV readers: one row validator per record kind, and the loader that
    drives every row of a file through a validator. */
module Readers {
  import opened Common
  import opened Records

  /** The row has every column the stock validator looks up (a missing one is
      a `KeyError` the source does not catch). */
  predicate HasStockColumns(row: Row)
  {
    && "ticker" in row && "company_name" in row && "exchange_country" in row
    && "price" in row && "exchange_rate" in row && "shares_outstanding" in row && "net_income" in row
  }

  /** The row has every column the baseball validator looks up. */
  predicate HasBaseballColumns(row: Row)
  {
    "PLAYER" in row && "SALARY" in row && "G" in row && "AVG" in row
  }

  /** A stock row passes every check of the validator: no blank cell anywhere,
      the four numbers parse, and the net income is not zero. */
  ghost predicate StockRowAcceptable(p: NumberParsers, row: Row)
    requires HasStockColumns(row)
  {
    && !HasEmptyCell(row)
    && p.parseFloat(row["price"]).Some?
    && p.parseFloat(row["exchange_rate"]).Some?
    && p.parseFloat(row["shares_outstanding"]).Some?
    && p.parseFloat(row["net_income"]).Some?
    && p.parseFloat(row["net_income"]).value != 0.0
  }

  /** `StocksCSVReader.row_to_record`. The checks run in the source's order:
      any blank cell, then the four numbers, then the ticker, then the division
      that yields the P/E ratio (a zero net income is a rejection). */
  function StockRowToRecord(p: NumberParsers, row: Row): (r: Outcome<StockStatRecord>)
    requires HasStockColumns(row)
    ensures r.Accepted? <==> StockRowAcceptable(p, row)
    ensures HasEmptyCell(row) ==> r == Rejected
    ensures r.Accepted? ==>
      && WellFormedStock(r.record)
      && r.record.name == row["ticker"]
      && r.record.companyName == row["company_name"]
      && r.record.exchangeCountry == row["exchange_country"]
      && p.parseFloat(row["price"]) == Some(r.record.price)
      && p.parseFloat(row["exchange_rate"]) == Some(r.record.exchangeRate)
      && p.parseFloat(row["shares_outstanding"]) == Some(r.record.sharesOutstanding)
      && p.parseFloat(row["net_income"]) == Some(r.record.netIncome)
  {
    if HasEmptyCell(row) then
      Rejected
    else
      var price := p.parseFloat(row["price"]);
      var exchangeRate := p.parseFloat(row["exchange_rate"]);
      var sharesOutstanding := p.parseFloat(row["shares_outstanding"]);
      var netIncome := p.parseFloat(row["net_income"]);
      if price.None? || exchangeRate.None? || sharesOutstanding.None? || netIncome.None? then
        Rejected
      else if row["ticker"] == "" then
        Rejected
      else
        var marketValueUsd := price.value * exchangeRate.value * sharesOutstanding.value;
        if netIncome.value == 0.0 then
          Rejected
        else
          Accepted(StockStatRecord(row["ticker"], row["company_name"], row["exchange_country"],
                                   price.value, exchangeRate.value, sharesOutstanding.value, netIncome.value,
                                   marketValueUsd, price.value / netIncome.value))
  }

  /** A baseball row passes every check of the validator: no blank cell
      anywhere, SALARY and G parse as integers and AVG as a float. */
  ghost predicate BaseballRowAcceptable(p: NumberParsers, row: Row)
    requires HasBaseballColumns(row)
  {
    && !HasEmptyCell(row)
    && p.parseInt(row["SALARY"]).Some?
    && p.parseInt(row["G"]).Some?
    && p.parseFloat(row["AVG"]).Some?
  }

  /** `BaseballCSVReader.row_to_record`: any blank cell, then the three numbers,
      then the player name. */
  function BaseballRowToRecord(p: NumberParsers, row: Row): (r: Outcome<BaseballStatRecord>)
    requires HasBaseballColumns(row)
    ensures r.Accepted? <==> BaseballRowAcceptable(p, row)
    ensures HasEmptyCell(row) ==> r == Rejected
    ensures r.Accepted? ==>
      && WellFormedPlayer(r.record)
      && r.record.name == row["PLAYER"]
      && p.parseInt(row["SALARY"]) == Some(r.record.salary.Floor)
      && p.parseInt(row["G"]) == Some(r.record.g)
      && p.parseFloat(row["AVG"]) == Some(r.record.avg)
  {
    if HasEmptyCell(row) then
      Rejected
    else
      var salary := p.parseInt(row["SALARY"]);
      var g := p.parseInt(row["G"]);
      var avg := p.parseFloat(row["AVG"]);
      if salary.None? || g.None? || avg.None? then
        Rejected
      else if row["PLAYER"] == "" then
        Rejected
      else
        Accepted(BaseballStatRecord(row["PLAYER"], salary.value as real, g.value, avg.value))
  }

  /** The stock reader's validator as a value the loader can call. */
  function StocksReader(p: NumberParsers): Row --> Outcome<StockStatRecord>
  {
    row requires HasStockColumns(row) => StockRowToRecord(p, row)
  }

  /** The baseball reader's validator as a value the loader can call. */
  function BaseballReader(p: NumberParsers): Row --> Outcome<BaseballStatRecord>
  {
    row requires HasBaseballColumns(row) => BaseballRowToRecord(p, row)
  }

  /** Every row can be handed to the validator. */
  ghost predicate Readable<R>(rows: seq<Row>, rowToRecord: Row --> Outcome<R>)
  {
    forall i | 0 <= i < |rows| :: rowToRecord.requires(rows[i])
  }

  /** The records `load` collects from `rows`: the accepted ones, in row order. */
  function AcceptedRecords<R>(rows: seq<Row>, rowToRecord: Row --> Outcome<R>): (records: seq<R>)
    requires Readable(rows, rowToRecord)
    ensures |records| <= |rows|
  {
    if rows == [] then []
    else
      var earlier := AcceptedRecords(rows[..|rows| - 1], rowToRecord);
      match rowToRecord(rows[|rows| - 1])
      case Accepted(record) => earlier + [record]
      case Rejected => earlier
  }

  /** The indices of the accepted rows, in increasing order. */
  ghost function AcceptedIndices<R>(rows: seq<Row>, rowToRecord: Row --> Outcome<R>): (ix: seq<nat>)
    requires Readable(rows, rowToRecord)
    ensures forall j | 0 <= j < |ix| :: ix[j] < |rows| && rowToRecord(rows[ix[j]]).Accepted?
    ensures forall j, k | 0 <= j < k < |ix| :: ix[j] < ix[k]
    ensures forall i | 0 <= i < |rows| && rowToRecord(rows[i]).Accepted? :: i in ix
  {
    if rows == [] then []
    else
      var earlier := AcceptedIndices(rows[..|rows| - 1], rowToRecord);
      if rowToRecord(rows[|rows| - 1]).Accepted? then earlier + [|rows| - 1] else earlier
  }

  /** `AbstractCSVReader.load`: validates every row in order, skips the rejected
      ones and keeps the accepted records. */
  method Load<R>(rows: seq<Row>, rowToRecord: Row --> Outcome<R>) returns (records: seq<R>)
    requires Readable(rows, rowToRecord)
    ensures records == AcceptedRecords(rows, rowToRecord)
  {
    records := [];
    for i := 0 to |rows|
      invariant records == AcceptedRecords(rows[..i], rowToRecord)
    {
      assert rows[..i + 1][..i] == rows[..i];
      var outcome := rowToRecord(rows[i]);
      if outcome.Rejected? {
        continue;
      }
      records := records + [outcome.record];
    }
    assert rows[..|rows|] == rows;
  }

  /** The loaded records are exactly the records of the accepted rows, in the
      order of those rows. */
  lemma {:induction false} AcceptedRecordsInRowOrder<R>(rows: seq<Row>, rowToRecord: Row --> Outcome<R>)
    requires Readable(rows, rowToRecord)
    ensures |AcceptedRecords(rows, rowToRecord)| == |AcceptedIndices(rows, rowToRecord)|
    ensures forall j | 0 <= j < |AcceptedIndices(rows, rowToRecord)| ::
      rowToRecord(rows[AcceptedIndices(rows, rowToRecord)[j]]) == Accepted(AcceptedRecords(rows, rowToRecord)[j])
  {
    if rows != [] {
      var init := rows[..|rows| - 1];
      assert Readable(init, rowToRecord) by {
        forall i | 0 <= i < |init| ensures rowToRecord.requires(init[i]) {
          assert init[i] == rows[i];
        }
      }
      AcceptedRecordsInRowOrder(init, rowToRecord);
      forall i | 0 <= i < |init| ensures init[i] == rows[i] { }
    }
  }

  /** A record is loaded if and only if some row validates to it. */
  lemma {:induction false} AcceptedRecordsMembership<R>(rows: seq<Row>, rowToRecord: Row --> Outcome<R>, record: R)
    requires Readable(rows, rowToRecord)
    ensures record in AcceptedRecords(rows, rowToRecord) <==>
      exists i | 0 <= i < |rows| :: rowToRecord(rows[i]) == Accepted(record)
  {
    AcceptedRecordsInRowOrder(rows, rowToRecord);
    var records, ix := AcceptedRecords(rows, rowToRecord), AcceptedIndices(rows, rowToRecord);
    if record in records {
      var j :| 0 <= j < |records| && records[j] == record;
      assert rowToRecord(rows[ix[j]]) == Accepted(record);
    }
    if i :| 0 <= i < |rows| && rowToRecord(rows[i]) == Accepted(record) {
      var j :| 0 <= j < |ix| && ix[j] == i;
      assert records[j] == record;
    }
  }

  /** Loading two files' worth of rows one after the other gives the two loads
      concatenated: what one part of the file holds never stops or changes the
      processing of the other part. */
  lemma {:induction false} AcceptedRecordsAppend<R>(a: seq<Row>, b: seq<Row>, rowToRecord: Row --> Outcome<R>)
    requires Readable(a, rowToRecord) && Readable(b, rowToRecord)
    ensures Readable(a + b, rowToRecord)
    ensures AcceptedRecords(a + b, rowToRecord) == AcceptedRecords(a, rowToRecord) + AcceptedRecords(b, rowToRecord)
  {
    assert Readable(a + b, rowToRecord) by {
      forall i | 0 <= i < |a + b| ensures rowToRecord.requires((a + b)[i]) {
        if i >= |a| { assert (a + b)[i] == b[i - |a|]; }
      }
    }
    if b == [] {
      assert a + b == a;
    } else {
      var init := b[..|b| - 1];
      assert Readable(init, rowToRecord) by {
        forall i | 0 <= i < |init| ensures rowToRecord.requires(init[i]) {
          assert init[i] == b[i];
        }
      }
      AcceptedRecordsAppend(a, init, rowToRecord);
      assert (a + b)[..|a + b| - 1] == a + init;
      assert (a + b)[|a + b| - 1] == b[|b| - 1];
    }
  }

  /** A rejected row contributes nothing, wherever it stands in the file. */
  lemma RejectedRowSkipped<R>(a: seq<Row>, row: Row, b: seq<Row>, rowToRecord: Row --> Outcome<R>)
    requires Readable(a, rowToRecord) && Readable(b, rowToRecord)
    requires rowToRecord.requires(row) && rowToRecord(row) == Rejected
    ensures Readable(a + [row] + b, rowToRecord) && Readable(a + b, rowToRecord)
    ensures AcceptedRecords(a + [row] + b, rowToRecord) == AcceptedRecords(a + b, rowToRecord)
  {
    assert Readable([row], rowToRecord);
    AcceptedRecordsAppend(a, [row], rowToRecord);
    AcceptedRecordsAppend(a + [row], b, rowToRecord);
    AcceptedRecordsAppend(a, b, rowToRecord);
    assert [row][..0] == [];
  }

  /** Every stock record the stock reader loads carries a non-empty ticker and
      derived fields consistent with its parsed ones. */
  lemma LoadedStocksWellFormed(p: NumberParsers, rows: seq<Row>)
    requires forall i | 0 <= i < |rows| :: HasStockColumns(rows[i])
    ensures Readable(rows, StocksReader(p))
    ensures forall r | r in AcceptedRecords(rows, StocksReader(p)) :: WellFormedStock(r)
  {
    assert Readable(rows, StocksReader(p));
    forall r | r in AcceptedRecords(rows, StocksReader(p)) ensures WellFormedStock(r) {
      AcceptedRecordsMembership(rows, StocksReader(p), r);
      var i :| 0 <= i < |rows| && StocksReader(p)(rows[i]) == Accepted(r);
      assert HasStockColumns(rows[i]);
      assert StockRowToRecord(p, rows[i]) == Accepted(r);
    }
  }

  /** Every baseball record the baseball reader loads carries a non-empty name
      and an integral salary. */
  lemma LoadedPlayersWellFormed(p: NumberParsers, rows: seq<Row>)
    requires forall i | 0 <= i < |rows| :: HasBaseballColumns(rows[i])
    ensures Readable(rows, BaseballReader(p))
    ensures forall r | r in AcceptedRecords(rows, BaseballReader(p)) :: WellFormedPlayer(r)
  {
    assert Readable(rows, BaseballReader(p));
    forall r | r in AcceptedRecords(rows, BaseballReader(p)) ensures WellFormedPlayer(r) {
      AcceptedRecordsMembership(rows, BaseballReader(p), r);
      var i :| 0 <= i < |rows| && BaseballReader(p)(rows[i]) == Accepted(r);
      assert HasBaseballColumns(rows[i]);
      assert BaseballRowToRecord(p, rows[i]) == Accepted(r);
    }
  }

  /** A five-row stock file whose third row has a blank company name and whose
      fourth row has a net income of zero loads as the records of rows one, two
      and five, in that order. */
  lemma FiveRowStockFile(p: NumberParsers, rows: seq<Row>)
    requires |rows| == 5
    requires HasStockColumns(rows[0]) && HasStockColumns(rows[1]) && HasStockColumns(rows[2])
    requires HasStockColumns(rows[3]) && HasStockColumns(rows[4])
    requires StockRowAcceptable(p, rows[0]) && StockRowAcceptable(p, rows[1]) && StockRowAcceptable(p, rows[4])
    requires rows[2]["company_name"] == ""
    requires p.parseFloat(rows[3]["net_income"]) == Some(0.0)
    ensures Readable(rows, StocksReader(p))
    ensures AcceptedRecords(rows, StocksReader(p)) ==
      [StockRowToRecord(p, rows[0]).record, StockRowToRecord(p, rows[1]).record, StockRowToRecord(p, rows[4]).record]
  {
    var reader := StocksReader(p);
    assert Readable(rows, reader);
    assert StockRowToRecord(p, rows[2]) == Rejected;
    assert StockRowToRecord(p, rows[3]) == Rejected;
    assert rows[..4][..3] == rows[..3] && rows[..3][..2] == rows[..2] && rows[..2][..1] == rows[..1] && rows[..1][..0] == [];
    assert AcceptedRecords(rows[..1], reader) == [reader(rows[0]).record];
    assert AcceptedRecords(rows[..2], reader) == [reader(rows[0]).record, reader(rows[1]).record];
    assert AcceptedRecords(rows[..4], reader) == AcceptedRecords(rows[..2], reader);
  }
}
