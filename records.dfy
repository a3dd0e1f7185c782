/** The two record kinds of the pipeline (`StockStatRecord`, `BaseballStatRecord`).
    Both are immutable once built, so they are values here. */
module Records {

  /** A stock valuation. `name` is the ticker; the last two fields are derived
      when the record is built from a CSV row and stored, never recomputed. */
  datatype StockStatRecord = StockStatRecord(
    name: string,
    companyName: string,
    exchangeCountry: string,
    price: real,
    exchangeRate: real,
    sharesOutstanding: real,
    netIncome: real,
    marketValueUsd: real,
    peRatio: real)

  /** A player's season line. The fields are in the order of the source's
      constructor: name, salary, games played, batting average. */
  datatype BaseballStatRecord = BaseballStatRecord(
    name: string,
    salary: real,
    g: int,
    avg: real)

  /** What every stock record accepted from a CSV row satisfies: a non-empty
      ticker, a non-zero net income, and the two derived fields consistent with
      the parsed ones. */
  predicate WellFormedStock(r: StockStatRecord)
  {
    && r.name != ""
    && r.netIncome != 0.0
    && r.marketValueUsd == r.price * r.exchangeRate * r.sharesOutstanding
    && r.peRatio == r.price / r.netIncome
  }

  /** What every baseball record accepted from a CSV row satisfies: a non-empty
      player name and a salary that came from an integer. */
  predicate WellFormedPlayer(r: BaseballStatRecord)
  {
    r.name != "" && r.salary == r.salary.Floor as real
  }
}
