/** Shared shapes of the ETL pipeline: optional values, CSV rows, the outcome of
    validating one row, and the number parsers the validators rely on. */
module Common {

  datatype Option<+T> = None | Some(value: T)

  /** One CSV row as `csv.DictReader` yields it: column name to cell text. */
  type Row = map<string, string>

  /** What a row validator returns: the typed record, or the `BadData` rejection. */
  datatype Outcome<+R> = Accepted(record: R) | Rejected

  /** Python's `int()` and `float()` applied to a cell: `None` where Python raises
      `ValueError`. Their text grammar is not modelled; every property of the
      validators holds for any pair of parsers. */
  datatype NumberParsers = NumberParsers(parseInt: string -> Option<int>, parseFloat: string -> Option<real>)

  /** True when some cell of the row, in any column, is the empty string. */
  predicate HasEmptyCell(row: Row)
  {
    exists column | column in row :: row[column] == ""
  }
}
