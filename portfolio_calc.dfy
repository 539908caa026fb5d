/**
 * The standalone allocation calculator: it splits a positive investment
 * amount across its own copy of the weight table, then lists each ticker's
 * percentage and amount together with the reconciled total.
 */
module PortfolioCalc {
  import opened Optional
  import opened Weights
  import InvestmentTracker

  /** The calculator's weight table, in its dict's insertion order. */
  const Portfolio: WeightTable := [
    ("ENB", 0.07),
    ("PFE", 0.07),
    ("Corweave", 0.07),
    ("CEG", 0.07),
    ("TTWO", 0.07),
    ("QQQM", 0.35),
    ("BTC/ZCash", 0.30)
  ]

  /** The calculator and the tracker use the same weights, ticker for ticker and in the same order. */
  lemma TablesAgree()
    ensures Portfolio == InvestmentTracker.Portfolio
  {}

  /**
   * Builds the allocation dict entry by entry in table order; the result is
   * the tracker's allocation of the same amount.
   */
  method CalculatePortfolioAllocation(totalAmount: real) returns (allocations: map<Ticker, real>)
    ensures allocations.Keys == TickerSet(Portfolio)
    ensures forall i :: 0 <= i < |Portfolio| ==>
      allocations[Portfolio[i].0] == Share(totalAmount, Portfolio[i].1)
    ensures allocations == InvestmentTracker.Allocate(totalAmount)
  {
    allocations := map[];
    var i := 0;
    while i < |Portfolio|
      invariant 0 <= i <= |Portfolio|
      invariant allocations == AllocateBy(Portfolio[..i], totalAmount)
    {
      AllocateBySnoc(Portfolio[..i], Portfolio[i], totalAmount);
      assert Portfolio[..i + 1] == Portfolio[..i] + [Portfolio[i]];
      allocations := allocations[Portfolio[i].0 := Share(totalAmount, Portfolio[i].1)];
      i := i + 1;
    }
    assert Portfolio[..i] == Portfolio;
    TablesAgree();
    InvestmentTracker.PortfolioIsNormalised();
    forall j | 0 <= j < |Portfolio|
      ensures allocations[Portfolio[j].0] == Share(totalAmount, Portfolio[j].1)
    {
      WeightOfDistinct(Portfolio, j);
    }
  }

  /** One line of the allocation table. */
  datatype Row = Row(ticker: Ticker, percentage: real, amount: real)

  /**
   * The allocation table: for each ticker, in the dict's order `order`, its
   * share of the total in percent and its amount, and the running total of
   * the amounts.
   */
  method DisplayAllocations(totalAmount: real, allocations: map<Ticker, real>, order: seq<Ticker>)
    returns (rows: seq<Row>, totalAllocated: real)
    requires totalAmount != 0.0
    requires forall k :: k in order ==> k in allocations
    ensures |rows| == |order|
    ensures forall i :: 0 <= i < |order| ==>
      rows[i] == Row(order[i], allocations[order[i]] / totalAmount * 100.0, allocations[order[i]])
    ensures totalAllocated == SumAt(order, allocations)
  {
    rows := [];
    totalAllocated := 0.0;
    var i := 0;
    while i < |order|
      invariant 0 <= i <= |order|
      invariant |rows| == i
      invariant forall j :: 0 <= j < i ==>
        rows[j] == Row(order[j], allocations[order[j]] / totalAmount * 100.0, allocations[order[j]])
      invariant totalAllocated == SumAt(order[..i], allocations)
    {
      var ticker := order[i];
      var amount := allocations[ticker];
      var percentage := amount / totalAmount * 100.0;
      rows := rows + [Row(ticker, percentage, amount)];
      totalAllocated := totalAllocated + amount;
      SumAtSnoc(order[..i], ticker, allocations);
      assert order[..i + 1] == order[..i] + [ticker];
      i := i + 1;
    }
    assert order[..i] == order;
  }

  /** A weight's share of an amount, taken back as a fraction of that amount, is the weight. */
  lemma ShareOverAmount(amount: real, w: real)
    requires amount != 0.0
    ensures Share(amount, w) / amount == w
  {
    assert Share(amount, w) == w * amount;
  }

  /** What one accepted amount produces: the table rows and the printed total. */
  datatype Report = Report(rows: seq<Row>, totalAllocated: real)

  /**
   * One round of the calculator for an already parsed amount: a non-positive
   * amount is rejected before anything is allocated; otherwise the table
   * lists every ticker with its weight as percentage and, as amount, the
   * total times that weight, strictly inside (0, amount); the printed total
   * equals the amount.
   */
  method ProcessAmount(totalAmount: real) returns (report: Option<Report>)
    ensures report.None? <==> totalAmount <= 0.0
    ensures report.Some? ==> |report.value.rows| == |Portfolio|
    ensures report.Some? ==> report.value.totalAllocated == totalAmount
    ensures report.Some? ==> forall i :: 0 <= i < |Portfolio| ==>
      report.value.rows[i].ticker == Portfolio[i].0 &&
      report.value.rows[i].percentage == Portfolio[i].1 * 100.0
    ensures report.Some? ==> forall i :: 0 <= i < |Portfolio| ==>
      report.value.rows[i].amount == Share(totalAmount, Portfolio[i].1)
    ensures report.Some? ==> forall i :: 0 <= i < |Portfolio| ==>
      0.0 < report.value.rows[i].amount < totalAmount
  {
    if totalAmount <= 0.0 {
      return None;
    }
    var allocations := CalculatePortfolioAllocation(totalAmount);
    var order := Names(Portfolio);
    var rows, totalAllocated := DisplayAllocations(totalAmount, allocations, order);
    TablesAgree();
    InvestmentTracker.AllocationsSumToAmount(totalAmount);
    InvestmentTracker.PortfolioIsNormalised();
    forall i | 0 <= i < |Portfolio|
      ensures rows[i].ticker == Portfolio[i].0
      ensures rows[i].percentage == Portfolio[i].1 * 100.0
      ensures rows[i].amount == Share(totalAmount, Portfolio[i].1)
      ensures 0.0 < rows[i].amount
      ensures rows[i].amount < totalAmount
    {
      ShareOverAmount(totalAmount, Portfolio[i].1);
      assert Portfolio[i].0 in AllocateBy(Portfolio, totalAmount);
      AllocationBounds(Portfolio, totalAmount, Portfolio[i].0);
    }
    report := Some(Report(rows, totalAllocated));
  }
}
