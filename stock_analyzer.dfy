/**
 * The queries of `StockAnalyzer` over a loaded stock table. All but one
 * only read the table, so they are functions of it; `get_volatile_stocks`
 * writes a `volatility` column into the analyzer's table before ranking,
 * so the analyzer is a class whose `data` field that method updates.
 */
module StockAnalyzer {
  import opened Wrappers
  import opened Text
  import opened Records
  import opened Selection

  function Last(s: StockRecord): real { s.last }
  function ChgPct(s: StockRecord): real { s.chgPct }
  function Vol(s: StockRecord): real { s.vol }

  /** `get_top_gainers(n)`: `nlargest(n)` on `chg_%`. */
  function GetTopGainers(data: seq<StockRecord>, n: int): (r: seq<nat>)
    ensures IsTopN(Column(data, ChgPct), n, r)
  {
    TopN(Column(data, ChgPct), n)
  }

  /** `get_top_losers(n)`: `nsmallest(n)` on `chg_%`. */
  function GetTopLosers(data: seq<StockRecord>, n: int): (r: seq<nat>)
    ensures IsBottomN(Column(data, ChgPct), n, r)
  {
    BottomN(Column(data, ChgPct), n)
  }

  /** `get_highest_volume(n)`: `nlargest(n)` on `vol_`. */
  function GetHighestVolume(data: seq<StockRecord>, n: int): (r: seq<nat>)
    ensures IsTopN(Column(data, Vol), n, r)
  {
    TopN(Column(data, Vol), n)
  }

  /**
   * When the changes are not all equal, the top gainer and the top loser
   * are different stocks.
   */
  lemma GainerIsNotLoser(data: seq<StockRecord>, i: nat, j: nat)
    requires i < |data| && j < |data| && data[i].chgPct != data[j].chgPct
    ensures GetTopGainers(data, 1) != GetTopLosers(data, 1)
  {
    var g := GetTopGainers(data, 1);
    var l := GetTopLosers(data, 1);
    var keys := Column(data, ChgPct);
    if g == l {
      var k := g[0];
      if k != i {
        assert i !in g;
        assert Ahead(keys, k, i) && Behind(keys, k, i);
      }
      if k != j {
        assert j !in g;
        assert Ahead(keys, k, j) && Behind(keys, k, j);
      }
      assert false;
    }
  }

  function Gains(s: StockRecord): bool { s.chgPct > 0.0 }
  function Loses(s: StockRecord): bool { s.chgPct < 0.0 }
  function Unchanged(s: StockRecord): bool { s.chgPct == 0.0 }

  /** The dictionary `get_market_overview` returns; a mean of no rows (NaN) is `None`. */
  datatype MarketOverview = MarketOverview(
    totalStocks: nat,
    avgPrice: Option<real>,
    avgChange: Option<real>,
    totalVolume: real,
    gainers: nat,
    losers: nat,
    flat: nat)

  /**
   * `get_market_overview()`: the row count, the means of `last` and
   * `chg_%`, the sum of `vol_`, and how many stocks rose, fell or stayed
   * put. Every stock is exactly one of those three, so the three counts
   * add up to the row count.
   */
  function GetMarketOverview(data: seq<StockRecord>): (r: MarketOverview)
    ensures r.totalStocks == |data|
    ensures r.gainers + r.losers + r.flat == r.totalStocks
    ensures r.gainers == Count(data, Gains) && r.losers == Count(data, Loses) &&
            r.flat == Count(data, Unchanged)
    ensures r.avgPrice.None? <==> data == []
    ensures r.avgChange.None? <==> data == []
  {
    WherePartition(data, Gains, Loses, Unchanged);
    WhereCount(data, Gains);
    WhereCount(data, Loses);
    WhereCount(data, Unchanged);
    MarketOverview(
      |data|,
      Mean(Column(data, Last)),
      Mean(Column(data, ChgPct)),
      Sum(Column(data, Vol)),
      |Where(data, Gains)|,
      |Where(data, Loses)|,
      |Where(data, Unchanged)|)
  }

  /** When every price lies in `[lo, hi]`, so does the average price. */
  lemma OverviewAveragePriceBounds(data: seq<StockRecord>, lo: real, hi: real)
    requires data != []
    requires forall i | 0 <= i < |data| :: lo <= data[i].last <= hi
    ensures lo <= GetMarketOverview(data).avgPrice.value <= hi
  {
    MeanBounds(Column(data, Last), lo, hi);
  }

  /** When every change lies in `[lo, hi]`, so does the average change. */
  lemma OverviewAverageChangeBounds(data: seq<StockRecord>, lo: real, hi: real)
    requires data != []
    requires forall i | 0 <= i < |data| :: lo <= data[i].chgPct <= hi
    ensures lo <= GetMarketOverview(data).avgChange.value <= hi
  {
    MeanBounds(Column(data, ChgPct), lo, hi);
  }

  /** When every volume lies in `[lo, hi]`, the total lies between `n * lo` and `n * hi` for `n` stocks. */
  lemma OverviewVolumeBounds(data: seq<StockRecord>, lo: real, hi: real)
    requires forall i | 0 <= i < |data| :: lo <= data[i].vol <= hi
    ensures |data| as real * lo <= GetMarketOverview(data).totalVolume <= |data| as real * hi
  {
    ColumnSumBounds(data, Vol, lo, hi);
  }

  /** A table with no price change counts every stock as unchanged. */
  lemma OverviewFlatMarket(data: seq<StockRecord>)
    requires forall i | 0 <= i < |data| :: data[i].chgPct == 0.0
    ensures GetMarketOverview(data).flat == |data|
    ensures GetMarketOverview(data).gainers == 0 && GetMarketOverview(data).losers == 0
  {
    CountAll(data, Unchanged);
    CountNone(data, Gains);
    CountNone(data, Loses);
  }

  /**
   * `get_by_price_range(lo, hi)`: every stock with `lo <= last <= hi` and
   * no other, in table order.
   */
  function GetByPriceRange(data: seq<StockRecord>, lo: real, hi: real): (r: seq<nat>)
    ensures forall a, b | 0 <= a < b < |r| :: r[a] < r[b]
    ensures forall a | 0 <= a < |r| :: r[a] < |data| && lo <= data[r[a]].last <= hi
    ensures forall i | 0 <= i < |data| && lo <= data[i].last <= hi :: i in r
  {
    assert forall i | 0 <= i < |data| :: InRange(Last, lo, hi)(data[i]) == (lo <= data[i].last <= hi) by {
      forall i | 0 <= i < |data| {
        InRangeMeans(Last, lo, hi, data[i]);
      }
    }
    Where(data, InRange(Last, lo, hi))
  }

  /**
   * `name.str.contains(query, case=False, na=False)` for one row: a missing
   * name never matches; otherwise the query occurs in the name, ignoring
   * case.
   */
  predicate NameMatches(s: StockRecord, query: string)
    ensures NameMatches(s, query) ==> s.name.Some? && |query| <= |s.name.value|
    ensures s.name.Some? && query == [] ==> NameMatches(s, query)
  {
    s.name.Some? &&
    (assert query == [] ==> OccursAt(Lower(s.name.value), Lower(query), 0);
     Contains(Lower(s.name.value), Lower(query)))
  }

  function NameMask(query: string): StockRecord -> bool {
    (s: StockRecord) => NameMatches(s, query)
  }

  /**
   * `get_statistics_by_name(query)`: the first row whose name contains the
   * query, ignoring case, or `None`.
   */
  function GetStatisticsByName(data: seq<StockRecord>, query: string): (r: Option<nat>)
    ensures r.None? <==> forall i | 0 <= i < |data| :: !NameMatches(data[i], query)
    ensures r.Some? ==> r.value < |data| && data[r.value].name.Some? &&
                        exists k :: OccursAt(Lower(data[r.value].name.value), Lower(query), k)
    ensures r.Some? ==> forall k | 0 <= k < r.value :: !NameMatches(data[k], query)
  {
    First(data, NameMask(query))
  }

  /** The query's case does not matter: a lower-cased query finds the same row. */
  lemma NameLookupIgnoresCase(data: seq<StockRecord>, query: string)
    ensures GetStatisticsByName(data, Lower(query)) == GetStatisticsByName(data, query)
  {
    LowerIdempotent(query);
    FirstAgree(data, NameMask(Lower(query)), NameMask(query));
  }

  /** A row whose name spells the query in full is found, or an earlier match is. */
  lemma NameLookupFinds(data: seq<StockRecord>, query: string, i: nat)
    requires i < |data| && data[i].name == Some(query)
    ensures GetStatisticsByName(data, query).Some?
    ensures GetStatisticsByName(data, query).value <= i
  {
    assert OccursAt(Lower(query), Lower(query), 0);
    assert NameMatches(data[i], query);
  }

  /** The empty query matches every named row, so it finds the first one. */
  lemma EmptyQueryFindsFirstNamed(data: seq<StockRecord>)
    requires data != [] && data[0].name.Some?
    ensures GetStatisticsByName(data, "") == Some(0)
  {
    assert OccursAt(Lower(data[0].name.value), Lower(""), 0);
    assert NameMatches(data[0], "");
  }

  // ---------------------------------------------------------------------
  // Volatility
  // ---------------------------------------------------------------------

  /** Every row has a positive last price, so its volatility is a finite number. */
  predicate Priced(data: seq<StockRecord>) {
    forall i | 0 <= i < |data| :: data[i].last > 0.0
  }

  /** The high–low spread as a percentage of the last price. */
  function Volatility(s: StockRecord): (r: real)
    requires s.last > 0.0
    ensures s.low <= s.high ==> 0.0 <= r
    ensures s.low == s.high ==> r == 0.0
    ensures r * s.last == (s.high - s.low) * 100.0
  {
    (s.high - s.low) / s.last * 100.0
  }

  /** The volatilities of a table, row by row. */
  function Volatilities(data: seq<StockRecord>): (r: seq<real>)
    requires Priced(data)
    ensures |r| == |data|
    ensures forall i | 0 <= i < |data| :: r[i] == Volatility(data[i])
  {
    seq(|data|, i requires 0 <= i < |data| => Volatility(data[i]))
  }

  /** A row with its `volatility` column set; every other column is kept. */
  function SetVolatility(s: StockRecord): StockRecord
    requires s.last > 0.0
  {
    s.(volatility := Some(Volatility(s)))
  }

  /** The table after `data['volatility'] = (high - low) / last * 100`. */
  function WithVolatility(data: seq<StockRecord>): (r: seq<StockRecord>)
    requires Priced(data)
    ensures |r| == |data| && Priced(r)
    ensures forall i | 0 <= i < |data| :: r[i] == SetVolatility(data[i])
  {
    seq(|data|, i requires 0 <= i < |data| => SetVolatility(data[i]))
  }

  /** The `volatility` column as stored, with 0 for a row that has none yet. */
  function StoredVolatility(s: StockRecord): real {
    s.volatility.GetOr(0.0)
  }

  /** The column written is the column of volatilities. */
  lemma StoredVolatilities(data: seq<StockRecord>)
    requires Priced(data)
    ensures Column(WithVolatility(data), StoredVolatility) == Volatilities(data)
  {
  }

  /**
   * Writing the column again changes nothing: the volatility depends only
   * on columns the write leaves alone.
   */
  lemma WithVolatilityIdempotent(data: seq<StockRecord>)
    requires Priced(data)
    ensures WithVolatility(WithVolatility(data)) == WithVolatility(data)
  {
    var once := WithVolatility(data);
    assert forall i | 0 <= i < |data| :: SetVolatility(once[i]) == once[i];
  }

  /** The analyzer, holding the table it was built with. */
  class StockAnalyzer {
    var data: seq<StockRecord>

    constructor(data: seq<StockRecord>)
      ensures this.data == data
    {
      this.data := data;
    }

    /**
     * `get_volatile_stocks(n)`: writes the volatility of every row into the
     * table, row by row, leaving the row count and every other column as
     * they were, then returns `nlargest(n)` on the new column.
     */
    method GetVolatileStocks(n: int) returns (r: seq<nat>)
      requires Priced(data)
      modifies this
      ensures data == WithVolatility(old(data))
      ensures IsTopN(Column(data, StoredVolatility), n, r)
      ensures IsTopN(Volatilities(old(data)), n, r)
    {
      ghost var original := data;
      var i := 0;
      while i < |data|
        invariant 0 <= i <= |data| == |original|
        invariant forall k | 0 <= k < i :: data[k] == SetVolatility(original[k])
        invariant forall k | i <= k < |data| :: data[k] == original[k]
      {
        data := data[i := SetVolatility(data[i])];
        i := i + 1;
      }
      assert data == WithVolatility(original);
      StoredVolatilities(original);
      r := TopN(Column(data, StoredVolatility), n);
    }
  }
}
