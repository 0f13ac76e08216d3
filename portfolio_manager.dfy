/**
 * The investment ledger of `Portfolio`: a list of holdings that only grows,
 * each holding carrying derived figures fixed when it is added, and the
 * aggregates computed from a snapshot of that list.
 */
module PortfolioManager {
  import opened Wrappers
  import opened Selection

  /** The exception `add_holding` raises: a purchase price of zero divides by zero. */
  datatype PortfolioError = ZeroDivisionError

  /**
   * One entry of the ledger. `kind` is the asset type as given (the code
   * expects `"crypto"` or `"stock"` but accepts any text).
   */
  datatype Holding = Holding(
    kind: string,
    name: string,
    symbol: string,
    quantity: real,
    purchasePrice: real,
    currentPrice: real,
    costBasis: real,
    currentValue: real,
    gainLoss: real,
    gainLossPct: real)

  /** The figures of a holding are the ones derived from its inputs at insertion. */
  predicate Derived(h: Holding) {
    && h.purchasePrice != 0.0
    && h.costBasis == h.quantity * h.purchasePrice
    && h.currentValue == h.quantity * h.currentPrice
    && h.gainLoss == (h.currentPrice - h.purchasePrice) * h.quantity
    && h.gainLossPct == (h.currentPrice - h.purchasePrice) / h.purchasePrice * 100.0
  }

  /**
   * The holding `add_holding` builds, or the division error it raises
   * while building it when the purchase price is zero.
   */
  function MakeHolding(kind: string, name: string, symbol: string,
                       quantity: real, purchasePrice: real, currentPrice: real): (r: Result<Holding, PortfolioError>)
    ensures r.Err? <==> purchasePrice == 0.0
    ensures r.Ok? ==> Derived(r.value)
    ensures r.Ok? ==> r.value.kind == kind && r.value.name == name && r.value.symbol == symbol &&
                      r.value.quantity == quantity && r.value.purchasePrice == purchasePrice &&
                      r.value.currentPrice == currentPrice
  {
    if purchasePrice == 0.0 then Err(ZeroDivisionError)
    else
      Ok(Holding(kind, name, symbol, quantity, purchasePrice, currentPrice,
                 quantity * purchasePrice,
                 quantity * currentPrice,
                 (currentPrice - purchasePrice) * quantity,
                 (currentPrice - purchasePrice) / purchasePrice * 100.0))
  }

  /** The gain of a holding is its current value less its cost. */
  lemma GainIsValueLessCost(h: Holding)
    requires Derived(h)
    ensures h.gainLoss == h.currentValue - h.costBasis
  {
    calc {
      h.gainLoss;
      (h.currentPrice - h.purchasePrice) * h.quantity;
      h.quantity * h.currentPrice - h.quantity * h.purchasePrice;
    }
  }

  /** The gain percentage is the gain as a percentage of the cost, for any non-zero quantity. */
  lemma GainPctOfCost(h: Holding)
    requires Derived(h) && h.quantity != 0.0
    ensures h.costBasis != 0.0
    ensures h.gainLossPct == h.gainLoss / h.costBasis * 100.0
  {
    var d := h.currentPrice - h.purchasePrice;
    var q, p := h.quantity, h.purchasePrice;
    assert h.costBasis == q * p;
    assert q * p != 0.0;
    assert (d * q) / (q * p) == d / p by {
      assert (d * q) == (d / p) * (q * p);
    }
  }

  /** Buying one Bitcoin at 50000 now worth 60000 gains 10000, that is 20 percent. */
  lemma HoldingExample()
    ensures MakeHolding("crypto", "Bitcoin", "BTC", 1.0, 50000.0, 60000.0).Ok?
    ensures MakeHolding("crypto", "Bitcoin", "BTC", 1.0, 50000.0, 60000.0).value.gainLoss == 10000.0
    ensures MakeHolding("crypto", "Bitcoin", "BTC", 1.0, 50000.0, 60000.0).value.gainLossPct == 20.0
  {
  }

  /** Every holding of a ledger carries its derived figures. */
  predicate Ledger(hs: seq<Holding>) {
    forall i | 0 <= i < |hs| :: Derived(hs[i])
  }

  /** A portfolio: the ledger `add_holding` appends to. */
  class Portfolio {
    var holdings: seq<Holding>

    predicate Valid()
      reads this
    {
      Ledger(holdings)
    }

    /** `Portfolio()`: a new portfolio holds nothing. */
    constructor()
      ensures holdings == [] && Valid()
    {
      holdings := [];
    }

    /**
     * `add_holding(...)`: appends exactly one holding and keeps every
     * earlier one; when the purchase price is zero it fails before the
     * append and the ledger is unchanged.
     */
    method AddHolding(kind: string, name: string, symbol: string,
                      quantity: real, purchasePrice: real, currentPrice: real)
      returns (o: Outcome<PortfolioError>)
      requires Valid()
      modifies this
      ensures Valid()
      ensures o.Fail? <==> purchasePrice == 0.0
      ensures o.Fail? ==> holdings == old(holdings)
      ensures o.Pass? ==>
        holdings == old(holdings) + [MakeHolding(kind, name, symbol, quantity, purchasePrice, currentPrice).value]
    {
      var h := MakeHolding(kind, name, symbol, quantity, purchasePrice, currentPrice);
      if h.Err? {
        return Fail(h.error);
      }
      holdings := holdings + [h.value];
      return Pass;
    }
  }

  function CostBasis(h: Holding): real { h.costBasis }
  function CurrentValue(h: Holding): real { h.currentValue }
  function GainLoss(h: Holding): real { h.gainLoss }
  function GainLossPct(h: Holding): real { h.gainLossPct }

  function IsCrypto(h: Holding): bool { h.kind == "crypto" }
  function IsStock(h: Holding): bool { h.kind == "stock" }

  /** The value held in each asset type. */
  datatype TypeValues = TypeValues(cryptoValue: real, stockValue: real)

  /**
   * The dictionary `get_portfolio_summary` returns. The empty ledger's
   * summary has no per-type values. A percentage over a zero total cost is
   * not a finite number, here `None`.
   */
  datatype Summary = Summary(
    totalCostBasis: real,
    totalCurrentValue: real,
    totalGainLoss: real,
    totalGainLossPct: Option<real>,
    numHoldings: nat,
    byType: Option<TypeValues>)

  function TotalCost(hs: seq<Holding>): real { Sum(Column(hs, CostBasis)) }
  function TotalValue(hs: seq<Holding>): real { Sum(Column(hs, CurrentValue)) }
  function TotalGain(hs: seq<Holding>): real { Sum(Column(hs, GainLoss)) }

  /** Over a ledger, the total gain is the total value less the total cost. */
  lemma TotalGainIsValueLessCost(hs: seq<Holding>)
    requires Ledger(hs)
    ensures TotalGain(hs) == TotalValue(hs) - TotalCost(hs)
  {
    forall i | 0 <= i < |hs| ensures GainLoss(hs[i]) == CurrentValue(hs[i]) - CostBasis(hs[i]) {
      GainIsValueLessCost(hs[i]);
    }
    SumDifference(Column(hs, GainLoss), Column(hs, CurrentValue), Column(hs, CostBasis));
  }

  /**
   * `get_portfolio_summary()`: all zero for the empty ledger; otherwise the
   * column totals, the gain as a percentage of the cost, the number of
   * holdings, and the value held in crypto and in stocks.
   */
  function GetPortfolioSummary(hs: seq<Holding>): (r: Summary)
    ensures r.numHoldings == |hs|
    ensures hs == [] ==> r == Summary(0.0, 0.0, 0.0, Some(0.0), 0, None)
    ensures hs != [] ==> r.byType.Some?
    ensures hs != [] ==> (r.totalGainLossPct.None? <==> r.totalCostBasis == 0.0)
    ensures hs != [] && r.totalGainLossPct.Some? ==>
              r.totalGainLossPct.value * r.totalCostBasis == r.totalGainLoss * 100.0
    ensures Ledger(hs) ==> r.totalGainLoss == r.totalCurrentValue - r.totalCostBasis
  {
    if hs == [] then Summary(0.0, 0.0, 0.0, Some(0.0), 0, None)
    else
      var cost := TotalCost(hs);
      var gain := TotalGain(hs);
      assert Ledger(hs) ==> gain == TotalValue(hs) - cost by {
        if Ledger(hs) {
          TotalGainIsValueLessCost(hs);
        }
      }
      var pct := if cost == 0.0 then None else Some(gain / cost * 100.0);
      Summary(cost, TotalValue(hs), gain, pct, |hs|,
              Some(TypeValues(SumWhere(hs, IsCrypto, CurrentValue), SumWhere(hs, IsStock, CurrentValue))))
  }

  /** When every holding is crypto or stock, the per-type values add up to the total value. */
  lemma SummaryTypesCoverValue(hs: seq<Holding>)
    requires hs != []
    requires forall i | 0 <= i < |hs| :: hs[i].kind == "crypto" || hs[i].kind == "stock"
    ensures GetPortfolioSummary(hs).byType.value.cryptoValue + GetPortfolioSummary(hs).byType.value.stockValue ==
            GetPortfolioSummary(hs).totalCurrentValue
  {
    SumWhereSplit(hs, IsCrypto, IsStock, CurrentValue);
  }

  /** Adding a holding adds its figures to the totals and one to the count. */
  lemma SummaryAppend(hs: seq<Holding>, h: Holding)
    ensures GetPortfolioSummary(hs + [h]).numHoldings == |hs| + 1
    ensures GetPortfolioSummary(hs + [h]).totalCostBasis == TotalCost(hs) + h.costBasis
    ensures GetPortfolioSummary(hs + [h]).totalCurrentValue == TotalValue(hs) + h.currentValue
    ensures GetPortfolioSummary(hs + [h]).totalGainLoss == TotalGain(hs) + h.gainLoss
  {
    ColumnAppend(hs, h, CostBasis);
    ColumnAppend(hs, h, CurrentValue);
    ColumnAppend(hs, h, GainLoss);
    SumAppend(Column(hs, CostBasis), h.costBasis);
    SumAppend(Column(hs, CurrentValue), h.currentValue);
    SumAppend(Column(hs, GainLoss), h.gainLoss);
  }

  /** The summary of a two-holding ledger totals the two holdings' figures. */
  lemma SummaryOfTwo(a: Holding, b: Holding)
    ensures GetPortfolioSummary([a, b]).numHoldings == 2
    ensures GetPortfolioSummary([a, b]).totalCostBasis == a.costBasis + b.costBasis
    ensures GetPortfolioSummary([a, b]).totalCurrentValue == a.currentValue + b.currentValue
    ensures GetPortfolioSummary([a, b]).totalGainLoss == a.gainLoss + b.gainLoss
  {
    SummaryAppend([], a);
    SummaryAppend([a], b);
    assert [] + [a] == [a] && [a] + [b] == [a, b];
  }

  /**
   * Bitcoin (1 at 50000, now 60000) and Apple (10 at 150, now 160) cost
   * 51500, are worth 61600, and have gained 10100.
   */
  lemma SummaryExample(a: Holding, b: Holding)
    requires MakeHolding("crypto", "Bitcoin", "BTC", 1.0, 50000.0, 60000.0) == Ok(a)
    requires MakeHolding("stock", "Apple", "AAPL", 10.0, 150.0, 160.0) == Ok(b)
    ensures GetPortfolioSummary([a, b]).numHoldings == 2
    ensures GetPortfolioSummary([a, b]).totalCostBasis == 51500.0
    ensures GetPortfolioSummary([a, b]).totalCurrentValue == 61600.0
    ensures GetPortfolioSummary([a, b]).totalGainLoss == 10100.0
  {
    BitcoinFigures(a);
    AppleFigures(b);
    SummaryOfFigures(a, b);
  }

  lemma SummaryOfFigures(a: Holding, b: Holding)
    requires a.costBasis == 50000.0 && a.currentValue == 60000.0 && a.gainLoss == 10000.0
    requires b.costBasis == 1500.0 && b.currentValue == 1600.0 && b.gainLoss == 100.0
    ensures GetPortfolioSummary([a, b]).numHoldings == 2
    ensures GetPortfolioSummary([a, b]).totalCostBasis == 51500.0
    ensures GetPortfolioSummary([a, b]).totalCurrentValue == 61600.0
    ensures GetPortfolioSummary([a, b]).totalGainLoss == 10100.0
  {
    SummaryOfTwo(a, b);
  }

  lemma BitcoinFigures(a: Holding)
    requires MakeHolding("crypto", "Bitcoin", "BTC", 1.0, 50000.0, 60000.0) == Ok(a)
    ensures a.costBasis == 50000.0 && a.currentValue == 60000.0 && a.gainLoss == 10000.0
  {
  }

  lemma AppleFigures(b: Holding)
    requires MakeHolding("stock", "Apple", "AAPL", 10.0, 150.0, 160.0) == Ok(b)
    ensures b.costBasis == 1500.0 && b.currentValue == 1600.0 && b.gainLoss == 100.0
  {
  }

  /**
   * The dictionary `get_asset_allocation` returns: empty for an empty
   * ledger; percentages of the total value otherwise, which are not finite
   * numbers when that total is zero.
   */
  datatype Allocation =
    | NoHoldings
    | NotFinite
    | Shares(cryptoPct: real, stockPct: real)

  function GetAssetAllocation(hs: seq<Holding>): (r: Allocation)
    ensures r.NoHoldings? <==> hs == []
    ensures hs != [] ==> (r.NotFinite? <==> TotalValue(hs) == 0.0)
    ensures r.Shares? ==> r.cryptoPct * TotalValue(hs) == SumWhere(hs, IsCrypto, CurrentValue) * 100.0
    ensures r.Shares? ==> r.stockPct * TotalValue(hs) == SumWhere(hs, IsStock, CurrentValue) * 100.0
  {
    if hs == [] then NoHoldings
    else
      var total := TotalValue(hs);
      if total == 0.0 then NotFinite
      else Shares(SumWhere(hs, IsCrypto, CurrentValue) / total * 100.0,
                  SumWhere(hs, IsStock, CurrentValue) / total * 100.0)
  }

  /** When every holding is crypto or stock and the ledger is worth something, the shares add up to 100. */
  lemma AllocationSumsTo100(hs: seq<Holding>)
    requires forall i | 0 <= i < |hs| :: hs[i].kind == "crypto" || hs[i].kind == "stock"
    requires TotalValue(hs) != 0.0
    ensures GetAssetAllocation(hs).Shares?
    ensures GetAssetAllocation(hs).cryptoPct + GetAssetAllocation(hs).stockPct == 100.0
  {
    SumWhereSplit(hs, IsCrypto, IsStock, CurrentValue);
    SharesAdd(SumWhere(hs, IsCrypto, CurrentValue), SumWhere(hs, IsStock, CurrentValue), TotalValue(hs));
  }

  /** Two parts of a non-zero whole, as percentages of it, add up to 100. */
  lemma SharesAdd(c: real, s: real, t: real)
    requires t != 0.0 && c + s == t
    ensures c / t * 100.0 + s / t * 100.0 == 100.0
  {
    assert c / t + s / t == (c + s) / t;
  }

  /** `get_top_performers(n)`: nothing for an empty ledger, else `nlargest(n)` on `gain_loss_pct`. */
  function GetTopPerformers(hs: seq<Holding>, n: int): (r: seq<nat>)
    ensures IsTopN(Column(hs, GainLossPct), n, r)
  {
    if hs == [] then [] else TopN(Column(hs, GainLossPct), n)
  }

  /** `get_worst_performers(n)`: nothing for an empty ledger, else `nsmallest(n)` on `gain_loss_pct`. */
  function GetWorstPerformers(hs: seq<Holding>, n: int): (r: seq<nat>)
    ensures IsBottomN(Column(hs, GainLossPct), n, r)
  {
    if hs == [] then [] else BottomN(Column(hs, GainLossPct), n)
  }
}
