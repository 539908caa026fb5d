/**
 * The allocation rule shared by the tracker and the calculator: an ordered
 * table of (ticker, fraction) pairs, the split of an amount across it, and
 * sums over dictionaries taken in a given key order.
 */
module Weights {

  type Ticker = string

  /** A weight table in its dict's insertion order. */
  type WeightTable = seq<(Ticker, real)>

  /** The tickers of a table, in table order. */
  function Names(t: WeightTable): (r: seq<Ticker>)
    ensures |r| == |t|
    ensures forall i :: 0 <= i < |t| ==> r[i] == t[i].0
  {
    if t == [] then [] else Names(t[..|t| - 1]) + [t[|t| - 1].0]
  }

  /** No ticker occurs twice in the table. */
  predicate DistinctTickers(t: WeightTable) {
    forall i, j :: 0 <= i < j < |t| ==> t[i].0 != t[j].0
  }

  /** The set of tickers a table names. */
  function TickerSet(t: WeightTable): set<Ticker> {
    set i | 0 <= i < |t| :: t[i].0
  }

  /** Every weight lies strictly between 0 and 1. */
  predicate ProperFractions(t: WeightTable) {
    forall i :: 0 <= i < |t| ==> 0.0 < t[i].1 < 1.0
  }

  function TotalWeight(t: WeightTable): real {
    if t == [] then 0.0 else TotalWeight(t[..|t| - 1]) + t[|t| - 1].1
  }

  /** The weight of the last entry for `k`, or 0 when the table has none. */
  function WeightOf(t: WeightTable, k: Ticker): real {
    if t == [] then 0.0
    else if t[|t| - 1].0 == k then t[|t| - 1].1
    else WeightOf(t[..|t| - 1], k)
  }

  /**
   * The split of `amount` over a table: one key per ticker, valued at the
   * amount times the ticker's weight; where a ticker occurs twice its last
   * entry wins, as in a Python dict comprehension.
   */
  function AllocateBy(t: WeightTable, amount: real): map<Ticker, real> {
    map k | k in TickerSet(t) :: Share(amount, WeightOf(t, k))
  }

  /** The part of `amount` that a weight `w` routes to one ticker. */
  function Share(amount: real, w: real): real {
    amount * w
  }

  /** Extending a table by one entry sets (or overwrites) that one ticker's allocation. */
  lemma AllocateBySnoc(t: WeightTable, e: (Ticker, real), amount: real)
    ensures AllocateBy(t + [e], amount) == AllocateBy(t, amount)[e.0 := Share(amount, e.1)]
  {
    var t' := t + [e];
    assert t'[..|t|] == t;
    assert TickerSet(t') == TickerSet(t) + {e.0} by {
      forall k | k in TickerSet(t') ensures k in TickerSet(t) + {e.0} {
        var i :| 0 <= i < |t'| && t'[i].0 == k;
        if i < |t| { assert t[i] == t'[i]; }
      }
      forall k | k in TickerSet(t) ensures k in TickerSet(t') {
        var i :| 0 <= i < |t| && t[i].0 == k;
        assert t'[i] == t[i];
      }
      assert t'[|t|] == e;
    }
  }

  /** Without repeated tickers, an entry's weight is the weight of its ticker. */
  lemma {:induction false} WeightOfDistinct(t: WeightTable, i: nat)
    requires DistinctTickers(t) && i < |t|
    ensures WeightOf(t, t[i].0) == t[i].1
  {
    if i < |t| - 1 {
      var front := t[..|t| - 1];
      assert front[i] == t[i];
      WeightOfDistinct(front, i);
    }
  }

  /** A dictionary lookup where a missing key contributes nothing. */
  function ValueAt(m: map<Ticker, real>, k: Ticker): real {
    if k in m then m[k] else 0.0
  }

  /** The sum of `m`'s values at the keys `ks`, accumulated left to right. */
  function SumAt(ks: seq<Ticker>, m: map<Ticker, real>): real {
    if ks == [] then 0.0 else SumAt(ks[..|ks| - 1], m) + ValueAt(m, ks[|ks| - 1])
  }

  lemma SumAtSnoc(ks: seq<Ticker>, k: Ticker, m: map<Ticker, real>)
    ensures SumAt(ks + [k], m) == SumAt(ks, m) + ValueAt(m, k)
  {
    assert (ks + [k])[..|ks|] == ks;
  }

  /** Sums over the same keys add up pointwise. */
  lemma {:induction false} SumAtAdditive(ks: seq<Ticker>, a: map<Ticker, real>, b: map<Ticker, real>, c: map<Ticker, real>)
    requires forall k :: k in ks ==> ValueAt(c, k) == ValueAt(a, k) + ValueAt(b, k)
    ensures SumAt(ks, c) == SumAt(ks, a) + SumAt(ks, b)
  {
    if ks != [] {
      SumAtAdditive(ks[..|ks| - 1], a, b, c);
    }
  }

  /** Maps that agree on the keys `ks` have the same sum over them. */
  lemma SumAtAgree(ks: seq<Ticker>, a: map<Ticker, real>, c: map<Ticker, real>)
    requires forall k :: k in ks ==> ValueAt(c, k) == ValueAt(a, k)
    ensures SumAt(ks, c) == SumAt(ks, a)
  {
    SumAtAdditive(ks, a, map[], c);
  }

  /** Dropping the last entry of a table without repeated tickers leaves every other allocation as it was. */
  lemma AllocationOfFront(t: WeightTable, amount: real)
    requires DistinctTickers(t) && t != []
    ensures forall k :: k in Names(t[..|t| - 1]) ==>
      ValueAt(AllocateBy(t, amount), k) == ValueAt(AllocateBy(t[..|t| - 1], amount), k)
  {
    var front := t[..|t| - 1];
    forall k | k in Names(front)
      ensures ValueAt(AllocateBy(t, amount), k) == ValueAt(AllocateBy(front, amount), k)
    {
      var i :| 0 <= i < |front| && Names(front)[i] == k;
      assert front[i] == t[i] && k != t[|t| - 1].0;
      assert k in TickerSet(front) && k in TickerSet(t);
      assert WeightOf(t, k) == WeightOf(front, k);
    }
  }

  lemma {:induction false} SumAtEmptyMap(ks: seq<Ticker>)
    ensures SumAt(ks, map[]) == 0.0
  {
    if ks != [] {
      SumAtEmptyMap(ks[..|ks| - 1]);
    }
  }

  /** Over a table without repeated tickers, the allocations add up to the amount times the total weight. */
  lemma {:induction false} AllocationSum(t: WeightTable, amount: real)
    requires DistinctTickers(t)
    ensures SumAt(Names(t), AllocateBy(t, amount)) == Share(amount, TotalWeight(t))
  {
    if t != [] {
      var front, last := t[..|t| - 1], t[|t| - 1];
      var m, mf := AllocateBy(t, amount), AllocateBy(front, amount);
      assert Names(t) == Names(front) + [last.0];
      AllocationOfFront(t, amount);
      assert last.0 in TickerSet(t);
      assert ValueAt(m, last.0) == Share(amount, last.1);
      SumAtAgree(Names(front), mf, m);
      SumAtSnoc(Names(front), last.0, m);
      assert DistinctTickers(front);
      AllocationSum(front, amount);
      ShareDistributes(amount, TotalWeight(front), last.1);
    }
  }

  lemma ShareDistributes(amount: real, x: real, y: real)
    ensures Share(amount, x) + Share(amount, y) == Share(amount, x + y)
  {}

  lemma ShareAddsUp(a: real, b: real, w: real)
    ensures Share(a, w) + Share(b, w) == Share(a + b, w)
  {}

  lemma SharePositive(amount: real, w: real)
    requires amount > 0.0 && w > 0.0
    ensures 0.0 < Share(amount, w)
  {}

  lemma ShareBelow(amount: real, w: real)
    requires amount > 0.0 && w < 1.0
    ensures Share(amount, w) < amount
  {
    assert amount * (1.0 - w) > 0.0;
  }

  /** With proper fractions, every allocation of a positive amount is positive and below the amount. */
  lemma AllocationBounds(t: WeightTable, amount: real, k: Ticker)
    requires DistinctTickers(t) && ProperFractions(t)
    requires amount > 0.0 && k in AllocateBy(t, amount)
    ensures 0.0 < AllocateBy(t, amount)[k]
    ensures AllocateBy(t, amount)[k] < amount
  {
    var i :| 0 <= i < |t| && t[i].0 == k;
    WeightOfDistinct(t, i);
    SharePositive(amount, t[i].1);
    ShareBelow(amount, t[i].1);
  }
}
