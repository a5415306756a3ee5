/** The one-pass best buy/sell pair of stockpicker.rb. */
module StockPicker {

  /** The profit of buying on day i and selling on day j. */
  function Profit(prices: seq<int>, i: nat, j: nat): int
    requires i < |prices| && j < |prices|
  {
    prices[j] - prices[i]
  }

  /** What stock_picker promises of its answer [buy, sell]:
      - either [0, 0] with no profitable pair at all, or buy < sell with a
        positive profit that no pair i < j beats;
      - sell is the earliest day at which that best profit can be made, and
        buy is the first lowest price before it. */
  ghost predicate BestPair(prices: seq<int>, buy: nat, sell: nat)
  {
    && (|prices| == 0 ==> buy == 0 && sell == 0)
    && (|prices| > 0 ==>
          && buy <= sell < |prices|
          && (buy == sell ==> buy == 0 && sell == 0)
          && (buy < sell ==> Profit(prices, buy, sell) > 0)
          && (forall i, j :: 0 <= i < j < |prices| ==> Profit(prices, i, j) <= Profit(prices, buy, sell))
          && (forall i, j :: 0 <= i < j < sell ==> Profit(prices, i, j) < Profit(prices, buy, sell))
          && (buy < sell ==> forall i :: 0 <= i < sell ==> prices[buy] <= prices[i])
          && (buy < sell ==> forall i :: 0 <= i < buy ==> prices[buy] < prices[i]))
  }

  /** prices[m] is the first lowest price among the first k days. */
  ghost predicate LowestBefore(prices: seq<int>, k: int, m: nat)
    requires m < |prices| && k <= |prices|
  {
    && (forall i :: 0 <= i < k ==> prices[m] <= prices[i])
    && (forall i :: 0 <= i < m ==> prices[m] < prices[i])
  }

  /** No pair of days i < j < k makes more than p. */
  ghost predicate NoPairAbove(prices: seq<int>, k: int, p: int)
    requires k <= |prices|
  {
    forall i, j :: 0 <= i < j < k ==> prices[j] - prices[i] <= p
  }

  /** Every pair of days i < j < k makes less than p. */
  ghost predicate EveryPairBelow(prices: seq<int>, k: int, p: int)
    requires k <= |prices|
  {
    forall i, j :: 0 <= i < j < k ==> prices[j] - prices[i] < p
  }

  lemma NewLowest(prices: seq<int>, k: nat, m: nat)
    requires m <= k < |prices| && LowestBefore(prices, k, m) && prices[k] < prices[m]
    ensures LowestBefore(prices, k + 1, k)
  {
  }

  lemma SameLowest(prices: seq<int>, k: nat, m: nat)
    requires m <= k < |prices| && LowestBefore(prices, k, m) && prices[m] <= prices[k]
    ensures LowestBefore(prices, k + 1, m)
  {
  }

  /** Selling on day k against the lowest earlier price is the best sale on day k. */
  lemma NoPairAboveStep(prices: seq<int>, k: nat, m: nat, p: int, q: int)
    requires m <= k < |prices| && LowestBefore(prices, k, m)
    requires NoPairAbove(prices, k, p) && p <= q && prices[k] - prices[m] <= q
    ensures NoPairAbove(prices, k + 1, q)
  {
    forall i, j | 0 <= i < j < k + 1
      ensures prices[j] - prices[i] <= q
    {
      if j == k {
        assert prices[m] <= prices[i];
      }
    }
  }

  lemma RaisedBound(prices: seq<int>, k: nat, p: int, q: int)
    requires k <= |prices| && NoPairAbove(prices, k, p) && p < q
    ensures EveryPairBelow(prices, k, q)
  {
  }

  /** stock_picker: keeps the index of the lowest price so far (strict `<`
      keeps the earliest) and records a pair only on a strictly better profit. */
  method PickStock(prices: seq<int>) returns (buy: nat, sell: nat)
    ensures BestPair(prices, buy, sell)
  {
    var minPriceIndex: nat := 0;
    var maxProfit := 0;
    buy, sell := 0, 0;
    for k := 0 to |prices|
      invariant minPriceIndex <= k && (k > 0 ==> minPriceIndex < k)
      invariant maxProfit >= 0
      invariant |prices| > 0 ==> minPriceIndex < |prices| && LowestBefore(prices, k, minPriceIndex)
      invariant buy <= sell && (k > 0 ==> sell < k) && (k == 0 ==> sell == 0)
      invariant buy == sell ==> buy == 0 && sell == 0 && maxProfit == 0
      invariant buy < sell ==> maxProfit == prices[sell] - prices[buy] > 0
      invariant NoPairAbove(prices, k, maxProfit)
      invariant EveryPairBelow(prices, sell, maxProfit)
      invariant buy < sell ==> LowestBefore(prices, sell, buy)
    {
      var currentPrice := prices[k];
      if currentPrice < prices[minPriceIndex] {
        NewLowest(prices, k, minPriceIndex);
        NoPairAboveStep(prices, k, minPriceIndex, maxProfit, maxProfit);
        minPriceIndex := k;
      } else {
        var currentProfit := currentPrice - prices[minPriceIndex];
        SameLowest(prices, k, minPriceIndex);
        if currentProfit > maxProfit {
          NoPairAboveStep(prices, k, minPriceIndex, maxProfit, currentProfit);
          RaisedBound(prices, k, maxProfit, currentProfit);
          maxProfit := currentProfit;
          buy, sell := minPriceIndex, k;
        } else {
          NoPairAboveStep(prices, k, minPriceIndex, maxProfit, maxProfit);
        }
      }
    }
  }

  /** The promise determines the answer: two pairs that both satisfy it are equal. */
  lemma BestPairUnique(prices: seq<int>, b1: nat, s1: nat, b2: nat, s2: nat)
    requires BestPair(prices, b1, s1) && BestPair(prices, b2, s2)
    ensures b1 == b2 && s1 == s2
  {
  }

  /** With no profitable pair (prices never rise, including the empty list) the answer is [0, 0]. */
  lemma NoProfitGivesZeroZero(prices: seq<int>, buy: nat, sell: nat)
    requires forall i, j :: 0 <= i < j < |prices| ==> prices[j] <= prices[i]
    requires BestPair(prices, buy, sell)
    ensures buy == 0 && sell == 0
  {
  }

  /** The sample at the foot of the file: buy at 3 on day 1, sell at 15 on day 4. */
  lemma PickStockExample(buy: nat, sell: nat)
    requires BestPair([17, 3, 6, 9, 15, 8, 6, 1, 10], buy, sell)
    ensures buy == 1 && sell == 4
  {
    var p := [17, 3, 6, 9, 15, 8, 6, 1, 10];
    assert Profit(p, 1, 4) == 12;
    assert BestPair(p, 1, 4);
    BestPairUnique(p, buy, sell, 1, 4);
  }
}
