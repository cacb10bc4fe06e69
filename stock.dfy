/**
 * LeetCode 121, best time to buy and sell stock: the largest gain from buying
 * on one day and selling on a later day, or 0 when no sale gains anything.
 */
module BestTimeToBuyAndSellStock {
  import opened Errors

  /**
   * r is the best profit over prices: no later-minus-earlier difference
   * exceeds it, it is never negative, and unless it is 0 some buy day before
   * some sell day achieves it.
   */
  ghost predicate IsMaxProfit(prices: seq<int>, r: int) {
    && r >= 0
    && (forall i, j :: 0 <= i < j < |prices| ==> prices[j] - prices[i] <= r)
    && (r == 0 || exists i, j :: 0 <= i < j < |prices| && prices[j] - prices[i] == r)
  }

  /** The best profit is determined by the prices. */
  lemma MaxProfitUnique(prices: seq<int>, r1: int, r2: int)
    requires IsMaxProfit(prices, r1) && IsMaxProfit(prices, r2)
    ensures r1 == r2
  {
    if r1 != 0 {
      var i, j :| 0 <= i < j < |prices| && prices[j] - prices[i] == r1;
      assert r1 <= r2;
    }
    if r2 != 0 {
      var i, j :| 0 <= i < j < |prices| && prices[j] - prices[i] == r2;
      assert r2 <= r1;
    }
  }

  /**
   * Scans the prices once, keeping the lowest price so far (int.MaxValue
   * before the first day) and the best profit from selling on the current day.
   */
  method MaxProfit(prices: array?<int>) returns (r: int)
    requires prices != null ==> AllInt32(prices[..])
    ensures prices == null || prices.Length == 0 ==> r == 0
    ensures prices != null ==> IsMaxProfit(prices[..], r)
  {
    if prices == null || prices.Length == 0 {
      return 0;
    }
    var minPrice := IntMax;
    var maxProfit := 0;
    ghost var minAt := -1;
    ghost var buy, sell := 0, 0;
    for d := 0 to prices.Length
      invariant forall t :: 0 <= t < d ==> minPrice <= prices[t]
      invariant minAt == -1 ==> minPrice == IntMax
      invariant -1 <= minAt < d && (minAt >= 0 ==> prices[minAt] == minPrice)
      invariant maxProfit >= 0
      invariant forall i, j :: 0 <= i < j < d ==> prices[j] - prices[i] <= maxProfit
      invariant maxProfit > 0 ==> 0 <= buy < sell < d && prices[sell] - prices[buy] == maxProfit
    {
      var currentPrice := prices[d];
      if currentPrice < minPrice {
        minPrice := currentPrice;
        minAt := d;
        continue;
      }
      var profit := currentPrice - minPrice;
      if profit > maxProfit {
        maxProfit := profit;
        buy, sell := minAt, d;
      }
    }
    return maxProfit;
  }

  /** Prices that never rise give no profit. */
  lemma NonIncreasingGivesZero(prices: seq<int>, r: int)
    requires forall i, j :: 0 <= i < j < |prices| ==> prices[j] <= prices[i]
    requires IsMaxProfit(prices, r)
    ensures r == 0
  {
    assert IsMaxProfit(prices, 0);
    MaxProfitUnique(prices, r, 0);
  }

  /** Strictly rising prices give the last price minus the first. */
  lemma IncreasingGivesSpread(prices: seq<int>, r: int)
    requires |prices| >= 2
    requires forall i, j :: 0 <= i < j < |prices| ==> prices[i] < prices[j]
    requires IsMaxProfit(prices, r)
    ensures r == prices[|prices| - 1] - prices[0]
  {
    var spread := prices[|prices| - 1] - prices[0];
    assert IsMaxProfit(prices, spread) by {
      forall i, j | 0 <= i < j < |prices|
        ensures prices[j] - prices[i] <= spread
      {
        if i > 0 {
          assert prices[0] < prices[i];
        }
        if j < |prices| - 1 {
          assert prices[j] < prices[|prices| - 1];
        }
      }
    }
    MaxProfitUnique(prices, r, spread);
  }
}
