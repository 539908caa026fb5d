/**
 * The deposit ledger of the investment tracker: every deposit is split over
 * a fixed portfolio, kept in an ordered history, summarised over rolling
 * look-back windows and totalled per ticker.
 */
module InvestmentTracker {
  import opened Optional
  import opened Weights

  /** The tracker's portfolio, in its declared order. */
  const Portfolio: WeightTable := [
    ("ENB", 0.07), ("PFE", 0.07), ("Corweave", 0.07), ("CEG", 0.07),
    ("TTWO", 0.07), ("QQQM", 0.35), ("BTC/ZCash", 0.30)
  ]

  /** The tickers of the portfolio. */
  const Tickers: set<Ticker> := TickerSet(Portfolio)

  /** The weight table is well formed: no ticker twice, proper fractions summing to exactly one. */
  lemma PortfolioIsNormalised()
    ensures DistinctTickers(Portfolio)
    ensures ProperFractions(Portfolio)
    ensures TotalWeight(Portfolio) == 1.0
  {
    var t := Portfolio;
    assert t[..1] == [("ENB", 0.07)];
    assert t[..2] == t[..1] + [("PFE", 0.07)];
    assert t[..3] == t[..2] + [("Corweave", 0.07)];
    assert t[..4] == t[..3] + [("CEG", 0.07)];
    assert t[..5] == t[..4] + [("TTWO", 0.07)];
    assert t[..6] == t[..5] + [("QQQM", 0.35)];
    assert TotalWeight(t[..1]) == 0.07;
    assert TotalWeight(t[..2]) == 0.14;
    assert TotalWeight(t[..3]) == 0.21;
    assert TotalWeight(t[..4]) == 0.28;
    assert TotalWeight(t[..5]) == 0.35;
    assert TotalWeight(t[..6]) == 0.70;
  }

  // ---------------------------------------------------------------------
  // Allocation and deposits

  /** The split of one deposit across the portfolio. */
  function Allocate(amount: real): (m: map<Ticker, real>)
    ensures m.Keys == Tickers
    ensures forall i :: 0 <= i < |Portfolio| ==> m[Portfolio[i].0] == Share(amount, Portfolio[i].1)
  {
    PortfolioIsNormalised();
    forall i | 0 <= i < |Portfolio| ensures WeightOf(Portfolio, Portfolio[i].0) == Portfolio[i].1 {
      WeightOfDistinct(Portfolio, i);
    }
    AllocateBy(Portfolio, amount)
  }

  /** The allocations of a deposit add up to the deposit. */
  lemma AllocationsSumToAmount(amount: real)
    ensures SumAt(Names(Portfolio), Allocate(amount)) == amount
  {
    PortfolioIsNormalised();
    AllocationSum(Portfolio, amount);
  }

  /** A time instant in microseconds, the resolution of the tracker's timestamps. */
  type Instant = int

  const MicrosPerDay: int := 86_400_000_000

  /** One entry of the history. */
  datatype Deposit = Deposit(timestamp: Instant, amount: real, allocations: map<Ticker, real>)

  /** A deposit whose allocations are the portfolio's split of its amount. */
  predicate WellFormed(d: Deposit) {
    d.allocations == Allocate(d.amount)
  }

  predicate AllWellFormed(ds: seq<Deposit>) {
    forall i :: 0 <= i < |ds| ==> WellFormed(ds[i])
  }

  // ---------------------------------------------------------------------
  // The ledger

  /** The persisted history, held in memory; every change rewrites it whole. */
  class Ledger {
    var deposits: seq<Deposit>

    ghost predicate Valid()
      reads this
    {
      AllWellFormed(deposits)
    }

    /** A ledger with no stored history starts empty. */
    constructor ()
      ensures Valid() && deposits == []
    {
      deposits := [];
    }

    /** Appends one deposit of `amount`, split across the portfolio and stamped `now`. */
    method Record(amount: real, now: Instant) returns (d: Deposit)
      modifies this
      ensures d.timestamp == now && d.amount == amount
      ensures d.allocations.Keys == Tickers
      ensures forall i :: 0 <= i < |Portfolio| ==> d.allocations[Portfolio[i].0] == Share(amount, Portfolio[i].1)
      ensures deposits == old(deposits) + [d]
      ensures old(Valid()) ==> Valid()
    {
      d := Deposit(now, amount, Allocate(amount));
      deposits := deposits + [d];
    }

    /** Records a deposit only when the entered amount is positive. */
    method Submit(amount: real, now: Instant) returns (d: Option<Deposit>)
      modifies this
      ensures d.None? <==> amount <= 0.0
      ensures d.None? ==> deposits == old(deposits)
      ensures d.Some? ==> d.value.amount == amount && d.value.timestamp == now && WellFormed(d.value)
      ensures d.Some? ==> deposits == old(deposits) + [d.value]
      ensures old(Valid()) ==> Valid()
    {
      if amount <= 0.0 {
        return None;
      }
      var recorded := Record(amount, now);
      d := Some(recorded);
    }

    /** Removes the most recent deposit when there is one and the user confirms. */
    method DeleteLast(confirmed: bool) returns (removed: Option<Deposit>)
      modifies this
      ensures old(deposits) == [] || !confirmed ==> removed == None && deposits == old(deposits)
      ensures old(deposits) != [] && confirmed ==>
        && removed == Some(old(deposits)[|old(deposits)| - 1])
        && deposits == old(deposits)[..|old(deposits)| - 1]
      ensures old(Valid()) ==> Valid()
    {
      if deposits == [] || !confirmed {
        return None;
      }
      removed := Some(deposits[|deposits| - 1]);
      deposits := deposits[..|deposits| - 1];
    }

    /**
     * The statistics screen: nothing for an empty history; otherwise the
     * deposit count, the total invested, the window averages and the
     * per-ticker totals.
     */
    method Statistics(now: Instant) returns (report: Option<Report>)
      requires Valid()
      ensures report.None? <==> deposits == []
      ensures report.Some? ==> var r := report.value;
        && r.depositCount == |deposits|
        && r.totalInvested == TotalInvested(deposits)
        && CalculateAverages(deposits, now) == Some(r.averages)
        && r.averages.week.count <= r.averages.month.count <= r.averages.sixMonths.count
           <= r.averages.year.count <= r.averages.allTime.count == |deposits|
        && r.totals == TotalsMap(deposits)
        && SumAt(Names(Portfolio), r.totals) == r.totalInvested
    {
      if deposits == [] {
        return None;
      }
      var total := TotalInvested(deposits);
      var averages := CalculateAverages(deposits, now).value;
      assert KnownTickers(deposits) by {
        forall i | 0 <= i < |deposits| ensures deposits[i].allocations.Keys <= Tickers {
          assert WellFormed(deposits[i]);
        }
      }
      var totals := PortfolioTotals(deposits);
      WindowsNest(deposits, now);
      TotalsSumToInvested(deposits);
      report := Some(Report(|deposits|, total, averages, totals.value));
    }

    /** Wipes the whole history when the user confirms; an empty history is not an error. */
    method Reset(confirmed: bool)
      modifies this
      ensures confirmed ==> deposits == []
      ensures !confirmed ==> deposits == old(deposits)
      ensures old(Valid()) ==> Valid()
    {
      if confirmed {
        deposits := [];
      }
    }
  }

  /** Recording a deposit and then deleting the last one restores the history. */
  method RecordThenDelete(ledger: Ledger, amount: real, now: Instant) returns (removed: Option<Deposit>)
    modifies ledger
    ensures ledger.deposits == old(ledger.deposits)
    ensures removed.Some? && removed.value.amount == amount && removed.value.timestamp == now
    ensures removed.value.allocations == Allocate(amount)
  {
    var d := ledger.Record(amount, now);
    removed := ledger.DeleteLast(true);
    assert old(ledger.deposits) + [d] == ledger.deposits + [d];
  }

  // ---------------------------------------------------------------------
  // Sums and means

  function Amounts(ds: seq<Deposit>): (xs: seq<real>)
    ensures |xs| == |ds|
    ensures forall i :: 0 <= i < |ds| ==> xs[i] == ds[i].amount
  {
    seq(|ds|, i requires 0 <= i < |ds| => ds[i].amount)
  }

  function Sum(xs: seq<real>): real {
    if xs == [] then 0.0 else Sum(xs[..|xs| - 1]) + xs[|xs| - 1]
  }

  /** The arithmetic mean of a non-empty list of amounts. */
  function Mean(xs: seq<real>): real
    requires xs != []
  {
    Sum(xs) / |xs| as real
  }

  function Minimum(xs: seq<real>): (lo: real)
    requires xs != []
    ensures lo in xs
    ensures forall i :: 0 <= i < |xs| ==> lo <= xs[i]
  {
    if |xs| == 1 then xs[0]
    else
      var rest := Minimum(xs[..|xs| - 1]);
      if xs[|xs| - 1] < rest then xs[|xs| - 1] else rest
  }

  function Maximum(xs: seq<real>): (hi: real)
    requires xs != []
    ensures hi in xs
    ensures forall i :: 0 <= i < |xs| ==> xs[i] <= hi
  {
    if |xs| == 1 then xs[0]
    else
      var rest := Maximum(xs[..|xs| - 1]);
      if xs[|xs| - 1] > rest then xs[|xs| - 1] else rest
  }

  /** A sum of n values bounded below by `lo` is at least n times `lo`. */
  lemma {:induction false} SumAtLeast(xs: seq<real>, lo: real)
    requires forall i :: 0 <= i < |xs| ==> lo <= xs[i]
    ensures Sum(xs) >= |xs| as real * lo
  {
    if xs != [] {
      SumAtLeast(xs[..|xs| - 1], lo);
      assert (|xs| - 1) as real * lo + lo == |xs| as real * lo;
    }
  }

  /** A sum of n values bounded above by `hi` is at most n times `hi`. */
  lemma {:induction false} SumAtMost(xs: seq<real>, hi: real)
    requires forall i :: 0 <= i < |xs| ==> xs[i] <= hi
    ensures Sum(xs) <= |xs| as real * hi
  {
    if xs != [] {
      SumAtMost(xs[..|xs| - 1], hi);
      assert (|xs| - 1) as real * hi + hi == |xs| as real * hi;
    }
  }

  lemma QuotientAtLeast(s: real, n: real, lo: real)
    requires n > 0.0 && s >= n * lo
    ensures s / n >= lo
  {}

  lemma QuotientAtMost(s: real, n: real, hi: real)
    requires n > 0.0 && s <= n * hi
    ensures s / n <= hi
  {}


  /** The mean lies between the smallest and the largest amount. */
  lemma MeanWithinExtremes(xs: seq<real>)
    requires xs != []
    ensures Minimum(xs) <= Mean(xs) <= Maximum(xs)
  {
    SumAtLeast(xs, Minimum(xs));
    SumAtMost(xs, Maximum(xs));
    QuotientAtLeast(Sum(xs), |xs| as real, Minimum(xs));
    QuotientAtMost(Sum(xs), |xs| as real, Maximum(xs));
  }

  // ---------------------------------------------------------------------
  // Window statistics

  /** The earliest instant inside a window of `days` days ending at `now`. */
  function Cutoff(now: Instant, days: nat): Instant {
    now - days * MicrosPerDay
  }

  /** The deposits of the last `days` days, in history order; the cut-off itself is inside. */
  function DepositsInRange(ds: seq<Deposit>, now: Instant, days: nat): (r: seq<Deposit>)
    ensures |r| <= |ds|
    ensures forall d :: d in r <==> d in ds && d.timestamp >= Cutoff(now, days)
    ensures forall d :: multiset(r)[d] == if d.timestamp >= Cutoff(now, days) then multiset(ds)[d] else 0
  {
    if ds == [] then []
    else
      var rest := DepositsInRange(ds[..|ds| - 1], now, days);
      var last := ds[|ds| - 1];
      assert ds == ds[..|ds| - 1] + [last];
      assert multiset(ds) == multiset(ds[..|ds| - 1]) + multiset{last};
      assert forall d :: d in ds <==> d in ds[..|ds| - 1] || d == last;
      if last.timestamp >= Cutoff(now, days) then rest + [last] else rest
  }

  /** A longer window holds at least as many deposits as a shorter one. */
  lemma {:induction false} WiderWindowCountsMore(ds: seq<Deposit>, now: Instant, shorter: nat, longer: nat)
    requires shorter <= longer
    ensures |DepositsInRange(ds, now, shorter)| <= |DepositsInRange(ds, now, longer)|
  {
    if ds != [] {
      WiderWindowCountsMore(ds[..|ds| - 1], now, shorter, longer);
      assert Cutoff(now, longer) <= Cutoff(now, shorter);
    }
  }

  /** Mean and count of the deposits in one window. */
  datatype Summary = Summary(mean: real, count: nat)

  /** A window with no deposits has mean 0; otherwise the mean of its amounts. */
  function Summarise(ds: seq<Deposit>): (s: Summary)
    ensures s.count == |ds|
    ensures ds == [] ==> s.mean == 0.0
    ensures ds != [] ==> s.mean == TotalInvested(ds) / (|ds| as real)
    ensures ds != [] ==> Minimum(Amounts(ds)) <= s.mean <= Maximum(Amounts(ds))
  {
    if ds == [] then Summary(0.0, 0)
    else
      MeanWithinExtremes(Amounts(ds));
      MeanIsAverage(ds);
      Summary(Mean(Amounts(ds)), |ds|)
  }

  datatype Averages = Averages(week: Summary, month: Summary, sixMonths: Summary, year: Summary, allTime: Summary)

  /** What the statistics screen shows. */
  datatype Report = Report(depositCount: nat, totalInvested: real, averages: Averages, totals: map<Ticker, real>)

  /** Statistics over 7, 30, 180 and 365 days and all time; nothing for an empty history. */
  function CalculateAverages(ds: seq<Deposit>, now: Instant): (r: Option<Averages>)
    ensures r.None? <==> ds == []
  {
    if ds == [] then None
    else
      Some(Averages(
        Summarise(DepositsInRange(ds, now, 7)),
        Summarise(DepositsInRange(ds, now, 30)),
        Summarise(DepositsInRange(ds, now, 180)),
        Summarise(DepositsInRange(ds, now, 365)),
        Summarise(ds)))
  }

  /** The windows nest: each count is at most the next, and all time counts the whole history. */
  lemma WindowsNest(ds: seq<Deposit>, now: Instant)
    requires ds != []
    ensures var a := CalculateAverages(ds, now).value;
      && a.week.count <= a.month.count <= a.sixMonths.count <= a.year.count <= a.allTime.count
      && a.allTime.count == |ds|
  {
    WiderWindowCountsMore(ds, now, 7, 30);
    WiderWindowCountsMore(ds, now, 30, 180);
    WiderWindowCountsMore(ds, now, 180, 365);
  }

  // ---------------------------------------------------------------------
  // Aggregates

  /** The sum of all deposit amounts; nothing invested for an empty history. */
  function TotalInvested(ds: seq<Deposit>): (r: real)
    ensures ds == [] ==> r == 0.0
  {
    Sum(Amounts(ds))
  }

  /** The mean amount is the total invested divided by the number of deposits. */
  lemma MeanIsAverage(ds: seq<Deposit>)
    requires ds != []
    ensures Mean(Amounts(ds)) == TotalInvested(ds) / (|ds| as real)
  {
    var xs := Amounts(ds);
    assert |xs| as real == |ds| as real;
  }

  /** With no negative amount, the total invested is not negative. */
  lemma TotalInvestedNonNegative(ds: seq<Deposit>)
    requires forall i :: 0 <= i < |ds| ==> 0.0 <= ds[i].amount
    ensures 0.0 <= TotalInvested(ds)
  {
    SumAtLeast(Amounts(ds), 0.0);
  }

  /** The amount routed to ticker `k` over the whole history; 0 when no deposit allocates to `k`. */
  function TickerTotal(ds: seq<Deposit>, k: Ticker): (r: real)
    ensures (forall i :: 0 <= i < |ds| ==> k !in ds[i].allocations) ==> r == 0.0
  {
    if ds == [] then 0.0 else TickerTotal(ds[..|ds| - 1], k) + ValueAt(ds[|ds| - 1].allocations, k)
  }

  /** The per-ticker totals, one entry per portfolio ticker. */
  function TotalsMap(ds: seq<Deposit>): (r: map<Ticker, real>)
    ensures r.Keys == Tickers
  {
    map k | k in Tickers :: TickerTotal(ds, k)
  }

  /** Every allocation of every deposit names a portfolio ticker. */
  predicate KnownTickers(ds: seq<Deposit>) {
    forall i :: 0 <= i < |ds| ==> ds[i].allocations.Keys <= Tickers
  }

  /**
   * Accumulates each deposit's allocations into per-ticker totals that start
   * at zero for every portfolio ticker. A ticker outside the portfolio stops
   * the accumulation (a missing dictionary key).
   */
  method PortfolioTotals(ds: seq<Deposit>) returns (totals: Option<map<Ticker, real>>)
    ensures totals.Some? <==> KnownTickers(ds)
    ensures totals.Some? ==> totals.value == TotalsMap(ds)
  {
    var acc: map<Ticker, real> := map k | k in Tickers :: 0.0;
    var i := 0;
    while i < |ds|
      invariant 0 <= i <= |ds|
      invariant acc.Keys == Tickers
      invariant forall k :: k in Tickers ==> acc[k] == TickerTotal(ds[..i], k)
      invariant KnownTickers(ds[..i])
    {
      var alloc := ds[i].allocations;
      var pending := alloc.Keys;
      ghost var done: set<Ticker> := {};
      while pending != {}
        invariant pending + done == alloc.Keys && pending !! done
        invariant done <= Tickers
        invariant acc.Keys == Tickers
        invariant forall k :: k in Tickers ==>
          acc[k] == TickerTotal(ds[..i], k) + (if k in done then alloc[k] else 0.0)
        decreases pending
      {
        var k :| k in pending;
        if k !in acc {
          assert !KnownTickers(ds) by {
            assert !(ds[i].allocations.Keys <= Tickers);
          }
          return None;
        }
        acc := acc[k := acc[k] + alloc[k]];
        pending, done := pending - {k}, done + {k};
      }
      assert ds[..i + 1][..i] == ds[..i];
      i := i + 1;
    }
    assert ds[..i] == ds;
    totals := Some(acc);
  }

  /** Adding a deposit adds its allocations to the per-ticker totals. */
  lemma TotalsMapSnoc(ds: seq<Deposit>)
    requires ds != []
    ensures forall k :: k in Names(Portfolio) ==>
      ValueAt(TotalsMap(ds), k) == ValueAt(TotalsMap(ds[..|ds| - 1]), k) + ValueAt(ds[|ds| - 1].allocations, k)
  {
    forall k | k in Names(Portfolio)
      ensures ValueAt(TotalsMap(ds), k) == ValueAt(TotalsMap(ds[..|ds| - 1]), k) + ValueAt(ds[|ds| - 1].allocations, k)
    {
      assert k in Tickers;
    }
  }

  /** With every deposit well formed, the per-ticker totals add up to the total invested. */
  lemma {:induction false} TotalsSumToInvested(ds: seq<Deposit>)
    requires AllWellFormed(ds)
    ensures SumAt(Names(Portfolio), TotalsMap(ds)) == TotalInvested(ds)
  {
    if ds != [] {
      var front, last := ds[..|ds| - 1], ds[|ds| - 1];
      assert AllWellFormed(front);
      TotalsSumToInvested(front);
      TotalsMapSnoc(ds);
      SumAtAdditive(Names(Portfolio), TotalsMap(front), last.allocations, TotalsMap(ds));
      AllocationsSumToAmount(last.amount);
      TotalInvestedSnoc(ds);
    } else {
      SumAtAgree(Names(Portfolio), map[], TotalsMap(ds));
      SumAtEmptyMap(Names(Portfolio));
    }
  }

  lemma TotalInvestedSnoc(ds: seq<Deposit>)
    requires ds != []
    ensures TotalInvested(ds) == TotalInvested(ds[..|ds| - 1]) + ds[|ds| - 1].amount
  {
    var xs := Amounts(ds);
    assert xs[..|xs| - 1] == Amounts(ds[..|ds| - 1]);
  }

  /** With every deposit well formed, each ticker's total is its weight's share of the total invested. */
  lemma {:induction false} TickerTotalIsShare(ds: seq<Deposit>, i: nat)
    requires AllWellFormed(ds) && i < |Portfolio|
    ensures TickerTotal(ds, Portfolio[i].0) == Share(TotalInvested(ds), Portfolio[i].1)
  {
    var k, w := Portfolio[i].0, Portfolio[i].1;
    if ds != [] {
      var front, last := ds[..|ds| - 1], ds[|ds| - 1];
      assert AllWellFormed(front);
      TickerTotalIsShare(front, i);
      assert WellFormed(last);
      assert ValueAt(last.allocations, k) == Share(last.amount, w);
      TotalInvestedSnoc(ds);
      ShareAddsUp(TotalInvested(front), last.amount, w);
    }
  }

  // ---------------------------------------------------------------------
  // History listing

  /** Where a slice `s[start..]` begins, with Python's handling of negative and oversized starts. */
  function SliceStart(start: int, len: nat): (s: nat)
    ensures s <= len
    ensures 0 <= start <= len ==> s == start
    ensures start < 0 && 0 <= start + len ==> s == start + len
    ensures start + len < 0 ==> s == 0
    ensures start > len ==> s == len
  {
    if start < 0 then (if start + len < 0 then 0 else start + len)
    else if start > len then len
    else start
  }

  function Reversed(s: seq<Deposit>): seq<Deposit> {
    seq(|s|, i requires 0 <= i < |s| => s[|s| - 1 - i])
  }

  /** The listing as the tracker builds it: the deposits from index `-limit` on, newest first. */
  function HistoryAsWritten(ds: seq<Deposit>, limit: int): (r: seq<Deposit>)
    ensures |r| == |ds| - SliceStart(-limit, |ds|)
    ensures forall i :: 0 <= i < |r| ==> r[i] == ds[|ds| - 1 - i]
  {
    Reversed(ds[SliceStart(-limit, |ds|)..])
  }

  /** The number of deposits the listing's heading announces. */
  function HeadingCount(ds: seq<Deposit>, limit: int): (n: int)
    ensures n <= limit && n <= |ds|
    ensures n == limit || n == |ds|
  {
    if limit < |ds| then limit else |ds|
  }

  /** A limit of 0 lists every deposit although the heading announces none. */
  lemma ZeroLimitListsEverything(ds: seq<Deposit>)
    requires ds != []
    ensures HeadingCount(ds, 0) == 0
    ensures |HistoryAsWritten(ds, 0)| == |ds|
  {}

  /** The `limit` most recent deposits (none for a limit below 1), newest first. */
  function RecentDeposits(ds: seq<Deposit>, limit: int): (r: seq<Deposit>)
    ensures |r| == if limit <= 0 then 0 else if limit < |ds| then limit else |ds|
    ensures forall i :: 0 <= i < |r| ==> r[i] == ds[|ds| - 1 - i]
  {
    var n := if limit <= 0 then 0 else if limit < |ds| then limit else |ds|;
    Reversed(ds[|ds| - n..])
  }

  /** For a non-negative limit the listing has as many deposits as its heading says. */
  lemma RecentDepositsMatchHeading(ds: seq<Deposit>, limit: int)
    requires limit >= 0
    ensures |RecentDeposits(ds, limit)| == HeadingCount(ds, limit)
  {}

  /** For a positive limit the corrected listing is the one the tracker builds. */
  lemma RecentDepositsAgreeForPositiveLimit(ds: seq<Deposit>, limit: int)
    requires limit > 0
    ensures RecentDeposits(ds, limit) == HistoryAsWritten(ds, limit)
  {
    var r, w := RecentDeposits(ds, limit), HistoryAsWritten(ds, limit);
    var s := SliceStart(-limit, |ds|);
    assert |r| == |w|;
    forall i | 0 <= i < |r| ensures r[i] == w[i] {
      assert w[i] == ds[s..][|ds| - s - 1 - i];
    }
  }

  /**
   * The history screen: nothing for an empty history, else as many of the
   * most recent deposits as the heading announces, newest first. For a
   * positive limit this is exactly the listing the tracker builds.
   */
  function ViewHistory(ds: seq<Deposit>, limit: int): (r: Option<seq<Deposit>>)
    ensures r.None? <==> ds == []
    ensures r.Some? && limit >= 0 ==> |r.value| == HeadingCount(ds, limit)
    ensures r.Some? && limit < 0 ==> r.value == []
    ensures r.Some? ==> forall i :: 0 <= i < |r.value| ==> r.value[i] == ds[|ds| - 1 - i]
    ensures r.Some? && limit > 0 ==> r.value == HistoryAsWritten(ds, limit)
  {
    if ds == [] then None
    else if limit > 0 then
      RecentDepositsAgreeForPositiveLimit(ds, limit);
      Some(RecentDeposits(ds, limit))
    else Some(RecentDeposits(ds, limit))
  }
}
