/**
 * Best profit from a single buy followed by a single later sell, given the
 * price of a stock on each day. The method scans the prices once, keeping
 * the cheapest price seen so far and the best profit seen so far; it is
 * proved against a characterisation by quantifiers and against an
 * independent recursive reference definition.
 */
module StockProfit {

  function Max(a: int, b: int): int { if a < b then b else a }

  function Min(a: int, b: int): int { if a < b then a else b }

  /** The smallest price in a non-empty sequence, and a day on which it occurs. */
  function SeqMin(s: seq<int>): (m: int)
    requires |s| > 0
    ensures forall i :: 0 <= i < |s| ==> m <= s[i]
    ensures exists i :: 0 <= i < |s| && s[i] == m
  {
    if |s| == 1 then s[0]
    else
      var rest := SeqMin(s[1..]);
      assert forall i :: 1 <= i < |s| ==> s[i] == s[1..][i - 1];
      Min(s[0], rest)
  }

  /** The largest price in a non-empty sequence, and a day on which it occurs. */
  function SeqMax(s: seq<int>): (m: int)
    requires |s| > 0
    ensures forall i :: 0 <= i < |s| ==> s[i] <= m
    ensures exists i :: 0 <= i < |s| && s[i] == m
  {
    if |s| == 1 then s[0]
    else
      var rest := SeqMax(s[1..]);
      assert forall i :: 1 <= i < |s| ==> s[i] == s[1..][i - 1];
      Max(s[0], rest)
  }

  /**
   * p is the best single-transaction profit on prices s: it is never negative,
   * no buy on day i followed by a sell on a later day j earns more, and unless
   * it is 0 (do not trade) some such pair earns exactly p.
   */
  ghost predicate IsMaxProfit(s: seq<int>, p: int) {
    && p >= 0
    && (forall i, j :: 0 <= i < j < |s| ==> s[j] - s[i] <= p)
    && (p == 0 || exists i, j :: 0 <= i < j < |s| && s[j] - s[i] == p)
  }

  /**
   * Reference definition: either buy on the first day and sell at the highest
   * later price, or do not buy on the first day at all.
   */
  function BestProfit(s: seq<int>): (r: int)
    ensures r >= 0
  {
    if |s| <= 1 then 0
    else Max(BestProfit(s[1..]), SeqMax(s[1..]) - s[0])
  }

  /** The reference definition meets the characterisation. */
  lemma {:induction false} BestProfitIsMaxProfit(s: seq<int>)
    ensures IsMaxProfit(s, BestProfit(s))
  {
    if |s| > 1 {
      var t := s[1..];
      var r := BestProfit(s);
      BestProfitIsMaxProfit(t);
      assert forall i :: 1 <= i < |s| ==> s[i] == t[i - 1];
      forall i, j | 0 <= i < j < |s| ensures s[j] - s[i] <= r {
        if i == 0 {
          assert s[j] == t[j - 1];
        } else {
          assert s[j] - s[i] == t[j - 1] - t[i - 1];
        }
      }
      if r != 0 {
        if r == BestProfit(t) {
          var i, j :| 0 <= i < j < |t| && t[j] - t[i] == r;
          assert s[j + 1] - s[i + 1] == r;
        } else {
          var j :| 0 <= j < |t| && t[j] == SeqMax(t);
          assert s[j + 1] - s[0] == r;
        }
      }
    }
  }

  /** The characterisation determines the profit uniquely. */
  lemma MaxProfitUnique(s: seq<int>, p: int, q: int)
    requires IsMaxProfit(s, p) && IsMaxProfit(s, q)
    ensures p == q
  {
    if p != 0 {
      var i, j :| 0 <= i < j < |s| && s[j] - s[i] == p;
      assert p <= q;
    }
    if q != 0 {
      var i, j :| 0 <= i < j < |s| && s[j] - s[i] == q;
      assert q <= p;
    }
  }

  /**
   * maximumProfit: one pass over the prices. On each day the profit of
   * selling at today's price after buying at the cheapest earlier (or same)
   * day is compared with the best so far, and then today's price is folded
   * into the running minimum. The array is only read.
   */
  method MaximumProfit(prices: array<int>) returns (maxProfit: int)
    requires prices.Length > 0
    ensures IsMaxProfit(prices[..], maxProfit)
    ensures maxProfit == BestProfit(prices[..])
  {
    var mini := prices[0];
    maxProfit := 0;
    var n := prices.Length;
    ghost var minAt, buy, sell := 0, 0, 0;
    for i := 0 to n
      // mini is the cheapest price on days 0 .. i-1 (prices[0] before the first day)
      invariant 0 <= minAt <= i && minAt < n && mini == prices[minAt]
      invariant forall k :: 0 <= k < i ==> mini <= prices[k]
      // maxProfit is the best profit of a buy and a later sell within days 0 .. i-1
      invariant maxProfit >= 0
      invariant forall j, k :: 0 <= j < k < i ==> prices[k] - prices[j] <= maxProfit
      invariant maxProfit == 0 || (0 <= buy < sell < i && prices[sell] - prices[buy] == maxProfit)
    {
      var cost := prices[i] - mini;
      if cost > maxProfit {
        buy, sell := minAt, i;
      }
      maxProfit := Max(maxProfit, cost);
      if prices[i] < mini {
        minAt := i;
      }
      mini := Min(mini, prices[i]);
    }
    assert IsMaxProfit(prices[..], maxProfit);
    BestProfitIsMaxProfit(prices[..]);
    MaxProfitUnique(prices[..], maxProfit, BestProfit(prices[..]));
  }

  /** When the price never rises, no trade is profitable. */
  lemma NonIncreasingHasNoProfit(s: seq<int>)
    requires forall i, j :: 0 <= i < j < |s| ==> s[j] <= s[i]
    ensures BestProfit(s) == 0
  {
    BestProfitIsMaxProfit(s);
  }

  /** The profit never exceeds the spread between the highest and lowest price. */
  lemma ProfitBoundedBySpread(s: seq<int>)
    requires |s| > 0
    ensures BestProfit(s) <= SeqMax(s) - SeqMin(s)
  {
    BestProfitIsMaxProfit(s);
    if BestProfit(s) != 0 {
      var i, j :| 0 <= i < j < |s| && s[j] - s[i] == BestProfit(s);
      assert s[j] <= SeqMax(s) && SeqMin(s) <= s[i];
    } else {
      assert SeqMin(s) <= s[0] <= SeqMax(s);
    }
  }
}
