/**
 * The queries of `CryptoAnalyzer` over a loaded cryptocurrency table. The
 * analyzer only reads the table it was built with, so each query is a
 * function of that table. Row selections are returned as row positions, in
 * the order of the returned frame.
 */
module CryptoAnalyzer {
  import opened Wrappers
  import opened Text
  import opened Records
  import opened Selection

  function PriceUsd(c: CryptoRecord): real { c.priceUsd }
  function Vol24h(c: CryptoRecord): real { c.vol24h }
  function Chg24h(c: CryptoRecord): real { c.chg24h }
  function Chg7d(c: CryptoRecord): real { c.chg7d }
  function MarketCap(c: CryptoRecord): real { c.marketCap }

  /** The change column a performer query ranks by: `chg_24h` for the period `"24h"` and `chg_7d` for any other. */
  function PeriodColumn(data: seq<CryptoRecord>, period: string): (r: seq<real>)
    ensures |r| == |data|
    ensures period == "24h" ==> forall i | 0 <= i < |data| :: r[i] == data[i].chg24h
    ensures period != "24h" ==> forall i | 0 <= i < |data| :: r[i] == data[i].chg7d
  {
    if period == "24h" then Column(data, Chg24h) else Column(data, Chg7d)
  }

  /** `get_top_performers(n, period)`: `nlargest(n)` on the period's change column. */
  function GetTopPerformers(data: seq<CryptoRecord>, n: int, period: string): (r: seq<nat>)
    ensures IsTopN(PeriodColumn(data, period), n, r)
  {
    TopN(PeriodColumn(data, period), n)
  }

  /** `get_worst_performers(n, period)`: `nsmallest(n)` on the period's change column. */
  function GetWorstPerformers(data: seq<CryptoRecord>, n: int, period: string): (r: seq<nat>)
    ensures IsBottomN(PeriodColumn(data, period), n, r)
  {
    BottomN(PeriodColumn(data, period), n)
  }

  /** `get_highest_volume(n)`: `nlargest(n)` on `vol_24h`. */
  function GetHighestVolume(data: seq<CryptoRecord>, n: int): (r: seq<nat>)
    ensures IsTopN(Column(data, Vol24h), n, r)
  {
    TopN(Column(data, Vol24h), n)
  }

  /**
   * Any period other than `"24h"` ranks by the seven-day change: the top
   * performers for `"7d"`, `"1w"` or `""` are the same rows.
   */
  lemma OtherPeriodsAgree(data: seq<CryptoRecord>, n: int, p: string, p': string)
    requires p != "24h" && p' != "24h"
    ensures GetTopPerformers(data, n, p) == GetTopPerformers(data, n, p')
    ensures GetWorstPerformers(data, n, p) == GetWorstPerformers(data, n, p')
  {
    assert PeriodColumn(data, p) == PeriodColumn(data, p');
  }

  /** The first performer of a non-empty table has the largest change of the period. */
  lemma TopPerformerIsMaximal(data: seq<CryptoRecord>, period: string, j: nat)
    requires j < |data|
    ensures var best := GetTopPerformers(data, 1, period)[0];
            PeriodColumn(data, period)[j] <= PeriodColumn(data, period)[best]
  {
    var r := GetTopPerformers(data, 1, period);
    if j != r[0] {
      assert j !in r;
    }
  }

  function Gains24h(c: CryptoRecord): bool { c.chg24h > 0.0 }
  function Loses24h(c: CryptoRecord): bool { c.chg24h < 0.0 }

  /** The dictionary `get_market_overview` returns; a mean of no rows (NaN) is `None`. */
  datatype MarketOverview = MarketOverview(
    totalMarketCap: real,
    total24hVolume: real,
    avg24hChange: Option<real>,
    avg7dChange: Option<real>,
    numCryptocurrencies: nat,
    gainers24h: nat,
    losers24h: nat)

  /**
   * `get_market_overview()`: column sums and means, the row count, and how
   * many coins rose or fell over 24 hours. No coin is both, so gainers and
   * losers together never outnumber the coins.
   */
  function GetMarketOverview(data: seq<CryptoRecord>): (r: MarketOverview)
    ensures r.numCryptocurrencies == |data|
    ensures r.gainers24h + r.losers24h <= r.numCryptocurrencies
    ensures r.gainers24h == Count(data, Gains24h) && r.losers24h == Count(data, Loses24h)
    ensures r.avg24hChange.None? <==> data == []
    ensures r.avg7dChange.None? <==> data == []
  {
    WhereDisjoint(data, Gains24h, Loses24h);
    WhereCount(data, Gains24h);
    WhereCount(data, Loses24h);
    MarketOverview(
      Sum(Column(data, MarketCap)),
      Sum(Column(data, Vol24h)),
      Mean(Column(data, Chg24h)),
      Mean(Column(data, Chg7d)),
      |data|,
      |Where(data, Gains24h)|,
      |Where(data, Loses24h)|)
  }

  /** When every coin's 24-hour change lies in `[lo, hi]`, so does the average change. */
  lemma OverviewAverageBounds(data: seq<CryptoRecord>, lo: real, hi: real)
    requires data != []
    requires forall i | 0 <= i < |data| :: lo <= data[i].chg24h <= hi
    ensures lo <= GetMarketOverview(data).avg24hChange.value <= hi
  {
    MeanBounds(Column(data, Chg24h), lo, hi);
  }

  /** When every coin's 7-day change lies in `[lo, hi]`, so does the average 7-day change. */
  lemma OverviewAverage7dBounds(data: seq<CryptoRecord>, lo: real, hi: real)
    requires data != []
    requires forall i | 0 <= i < |data| :: lo <= data[i].chg7d <= hi
    ensures lo <= GetMarketOverview(data).avg7dChange.value <= hi
  {
    MeanBounds(Column(data, Chg7d), lo, hi);
  }

  /** When every market cap lies in `[lo, hi]`, the total lies between `n * lo` and `n * hi` for `n` coins. */
  lemma OverviewMarketCapBounds(data: seq<CryptoRecord>, lo: real, hi: real)
    requires forall i | 0 <= i < |data| :: lo <= data[i].marketCap <= hi
    ensures |data| as real * lo <= GetMarketOverview(data).totalMarketCap <= |data| as real * hi
  {
    ColumnSumBounds(data, MarketCap, lo, hi);
  }

  /** When every 24-hour volume lies in `[lo, hi]`, the total lies between `n * lo` and `n * hi` for `n` coins. */
  lemma OverviewVolumeBounds(data: seq<CryptoRecord>, lo: real, hi: real)
    requires forall i | 0 <= i < |data| :: lo <= data[i].vol24h <= hi
    ensures |data| as real * lo <= GetMarketOverview(data).total24hVolume <= |data| as real * hi
  {
    ColumnSumBounds(data, Vol24h, lo, hi);
  }

  /** Market caps and volumes that are never negative give totals that are not negative. */
  lemma OverviewTotalsNonNegative(data: seq<CryptoRecord>)
    requires forall i | 0 <= i < |data| :: 0.0 <= data[i].marketCap && 0.0 <= data[i].vol24h
    ensures 0.0 <= GetMarketOverview(data).totalMarketCap
    ensures 0.0 <= GetMarketOverview(data).total24hVolume
  {
    SumNonNegative(Column(data, MarketCap));
    SumNonNegative(Column(data, Vol24h));
  }

  /** A table in which every coin rose has only gainers. */
  lemma OverviewAllGaining(data: seq<CryptoRecord>)
    requires forall i | 0 <= i < |data| :: data[i].chg24h > 0.0
    ensures GetMarketOverview(data).gainers24h == |data|
    ensures GetMarketOverview(data).losers24h == 0
  {
    CountAll(data, Gains24h);
    CountNone(data, Loses24h);
  }

  /**
   * `get_by_price_range(lo, hi)`: every coin with `lo <= price_usd <= hi`
   * and no other, in table order.
   */
  function GetByPriceRange(data: seq<CryptoRecord>, lo: real, hi: real): (r: seq<nat>)
    ensures forall a, b | 0 <= a < b < |r| :: r[a] < r[b]
    ensures forall a | 0 <= a < |r| :: r[a] < |data| && lo <= data[r[a]].priceUsd <= hi
    ensures forall i | 0 <= i < |data| && lo <= data[i].priceUsd <= hi :: i in r
  {
    assert forall i | 0 <= i < |data| :: InRange(PriceUsd, lo, hi)(data[i]) == (lo <= data[i].priceUsd <= hi) by {
      forall i | 0 <= i < |data| {
        InRangeMeans(PriceUsd, lo, hi, data[i]);
      }
    }
    Where(data, InRange(PriceUsd, lo, hi))
  }

  /** The mask `symbol == query.lower()`. */
  function SymbolIs(symbol: string): CryptoRecord -> bool {
    (c: CryptoRecord) => c.symbol == Lower(symbol)
  }

  /**
   * `get_statistics_by_symbol(symbol)`: the first row whose stored symbol
   * equals the lower-cased query, or `None`. Only the query is lower-cased.
   */
  function GetStatisticsBySymbol(data: seq<CryptoRecord>, symbol: string): (r: Option<nat>)
    ensures r.None? <==> forall i | 0 <= i < |data| :: data[i].symbol != Lower(symbol)
    ensures r.Some? ==> r.value < |data| && data[r.value].symbol == Lower(symbol)
    ensures r.Some? ==> forall k | 0 <= k < r.value :: data[k].symbol != Lower(symbol)
  {
    First(data, SymbolIs(symbol))
  }

  /** The lookup ignores the case of the query: a lower-cased query finds the same row. */
  lemma SymbolLookupIgnoresCase(data: seq<CryptoRecord>, symbol: string)
    ensures GetStatisticsBySymbol(data, Lower(symbol)) == GetStatisticsBySymbol(data, symbol)
  {
    LowerIdempotent(symbol);
    FirstAgree(data, SymbolIs(Lower(symbol)), SymbolIs(symbol));
  }

  /** The lookup ignores the case of the query: `"BTC"` finds what `"btc"` finds. */
  lemma SymbolLookupExample(data: seq<CryptoRecord>)
    ensures GetStatisticsBySymbol(data, "BTC") == GetStatisticsBySymbol(data, "btc")
  {
    assert Lower("BTC") == "btc" by {
      assert LowerChar('B') == 'b' && LowerChar('T') == 't' && LowerChar('C') == 'c';
    }
    assert Lower("btc") == "btc";
  }

  /**
   * A row whose stored symbol has an upper-case letter is never found, by
   * any query: the comparison is with a lower-cased string.
   */
  lemma UpperCaseSymbolUnreachable(data: seq<CryptoRecord>, symbol: string, i: nat)
    requires i < |data| && data[i].symbol != Lower(data[i].symbol)
    ensures GetStatisticsBySymbol(data, symbol) != Some(i)
  {
    LowerIdempotent(symbol);
  }
}
