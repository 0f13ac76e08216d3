/** The normalised rows of the two market tables, one field per column. */
module Records {
  import opened Wrappers

  /**
   * A row of the cryptocurrency table after loading. `timestamp` is kept as
   * its text. `symbol` is stored as the file spells it: loading does not
   * lower-case it.
   */
  datatype CryptoRecord = CryptoRecord(
    timestamp: string,
    name: string,
    symbol: string,
    priceUsd: real,
    vol24h: real,
    chg24h: real,
    chg7d: real,
    marketCap: real)

  /**
   * A row of the stock table after loading. `name` may be missing (NaN).
   * `volatility` is the column that the volatility query adds to the table;
   * it is `None` until that query has run.
   */
  datatype StockRecord = StockRecord(
    timestamp: string,
    name: Option<string>,
    last: real,
    high: real,
    low: real,
    chg: real,
    chgPct: real,
    vol: real,
    volatility: Option<real>)
}
