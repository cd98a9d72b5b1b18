/** What a market, and a batch, report besides their trades: clearing prices and surplus. */
module MarketReports {
  import opened Numbers
  import opened Prices
  import opened Orders
  import opened Sorting
  import opened Sweep
  import opened BookCrossing
  import opened ClearingPrices
  import opened Settlement
  import opened Conservation
  import opened Exactness
  import opened Market
  import opened Batches
  import opened BatchProperties

  // ---------------------------------------------------------------- clearing prices of a market

  /** A market without trades reports no price and no surplus; one with trades reports two prices,
      one of each token, that are reciprocal. */
  lemma {:induction false} PricesComeWithTrades(tokenA: Address, tokenB: Address, orders: seq<Order>)
    ensures var out := PairOutcome(Machine, tokenA, tokenB, orders);
            && (out.trades == [] <==> out.clearing == [])
            && (out.trades == [] ==> out.surplus == 0)
            && (out.trades != [] ==>
                  && |out.clearing| == 2 && out.clearing[0].mint == tokenA && out.clearing[1].mint == tokenB
                  && out.clearing[0].price.num == out.clearing[1].price.den > 0
                  && out.clearing[0].price.den == out.clearing[1].price.num > 0)
    ensures PairOutcome(Machine, tokenA, tokenB, orders).trades == [] <==>
            Swept(BookOf(tokenA, tokenB, orders)).fillsAb == []
  {
    var bk := BookOf(tokenA, tokenB, orders);
    OutcomeOfBook(Machine, tokenA, tokenB, orders);
    if Swept(bk).fillsAb != [] {
      SidesTrade(bk, Swept(bk));
    }
  }

  lemma {:induction false} SettledTrade(bk: Book, s: State, t: Trade)
    requires HasFills(bk, s) && t in TradesOfA(Machine, bk, s) + TradesOfB(Machine, bk, s)
    ensures var p := PriceOfA(Machine, bk, s);
            || (t in TradesOfA(Machine, bk, s) && t.executedBuy == ClampU64(Apply(Machine, p, t.executedSell)))
            || (t in TradesOfB(Machine, bk, s)
                && t.executedBuy == ClampU64(Apply(Machine, Reciprocal(p), t.executedSell)))
  {
    if t in TradesOfA(Machine, bk, s) {
      var k := EntryOfSellerOfA(bk, s, t);
      SoldWithinOffer(bk, s, k);
    } else {
      var k := EntryOfSellerOfB(bk, s, t);
      SoldWithinOffer(bk, s, k);
    }
  }

  /** Uniform pricing: every trade is paid at the clearing price reported for the token it buys. */
  lemma {:induction false} TradesPayTheClearingPrice(tokenA: Address, tokenB: Address, orders: seq<Order>, t: Trade)
    requires t in PairOutcome(Machine, tokenA, tokenB, orders).trades
    ensures var out := PairOutcome(Machine, tokenA, tokenB, orders);
            && |out.clearing| == 2 && out.clearing[0].price.den > 0 && out.clearing[1].price.den > 0
            && (IsAToB(tokenA, tokenB, OrderOf(t)) ==>
                  t.executedBuy == ClampU64(Apply(Machine, out.clearing[1].price, t.executedSell)))
            && (IsBToA(tokenA, tokenB, OrderOf(t)) ==>
                  t.executedBuy == ClampU64(Apply(Machine, out.clearing[0].price, t.executedSell)))
  {
    var bk := BookOf(tokenA, tokenB, orders);
    OutcomeOfBook(Machine, tokenA, tokenB, orders);
    SidesAreOneWay(tokenA, tokenB, orders, bk, Swept(bk));
    SettledTrade(bk, Swept(bk), t);
  }

  /** In a small market with trades the price of token B is the mean of the two limits of the last
      pair that met, both as B per A. */
  lemma {:induction false} ClearingPriceIsTheMean(tokenA: Address, tokenB: Address, orders: seq<Order>)
    requires SmallOrders(orders) && |orders| < COUNT_BOUND
    requires PairOutcome(Machine, tokenA, tokenB, orders).trades != []
    ensures var out, bk := PairOutcome(Machine, tokenA, tokenB, orders), BookOf(tokenA, tokenB, orders);
            var c := Swept(bk).lastCross;
            && c.Some? && c.value.a < |bk.aToB| && c.value.b < |bk.bToA| && bk.bToA[c.value.b].buyAmount > 0
            && |out.clearing| == 2 && out.clearing[1].price.den > 0
            && var q := bk.bToA[c.value.b].LimitPrice();
               Value(out.clearing[1].price) ==
               (Value(bk.aToB[c.value.a].LimitPrice()) + Value(Price(q.den, q.num))) / 2.0
  {
    var bk := SmallMarketSettles(tokenA, tokenB, orders);
    var s := Swept(bk);
    LastCrossFacts(bk, s);
    SmallBookIsExact(bk, s);
    var c := s.lastCross.value;
    MidpointIsTheMean(bk.aToB[c.a].LimitPrice(), bk.bToA[c.b].LimitPrice());
  }

  // ---------------------------------------------------------------- surplus of a market

  /** What a trade brings its owner beyond the limit. */
  function GainOf(t: Trade): nat {
    Monus(t.executedBuy, Apply(Exact, OrderOf(t).LimitPrice(), t.executedSell))
  }

  function GainsOf(ts: seq<Trade>): nat {
    if ts == [] then 0 else GainsOf(Init(ts)) + GainOf(Last(ts))
  }

  lemma {:induction false} PushGain(ts: seq<Trade>, t: Trade)
    ensures GainsOf(ts + [t]) == GainsOf(ts) + GainOf(t)
  {
    assert Init(ts + [t]) == ts;
  }

  lemma {:induction false} GainsConcat(ts: seq<Trade>, us: seq<Trade>)
    ensures GainsOf(ts + us) == GainsOf(ts) + GainsOf(us)
  {
    if us == [] {
      assert ts + us == ts;
    } else {
      GainsConcat(ts, Init(us));
      assert ts + us == (ts + Init(us)) + [Last(us)];
      PushGain(ts + Init(us), Last(us));
    }
  }

  lemma {:induction false} GainOfEntry(o: Order, sold: nat, p: Price)
    requires p.den > 0 && sold <= o.sellAmount && TradeOf(Machine, o, sold, p).executedBuy < U64_MAX
    ensures Gain(Machine, o, sold, p) == GainOf(TradeOf(Machine, o, sold, p))
  {
    LimitNeverPaysMoreThanBuyAmount(o, sold);
  }

  /** The gain of an entry, which adds nothing if it did not trade. */
  predicate GainsAgree(e: Entry) {
    e.traded ==> e.gain == GainOf(e.trade)
  }

  lemma {:induction false} OneMoreEntry(es: seq<Entry>, rest: nat, gain: nat)
    requires es != [] && rest == GainsOf(TradesOf(Init(es))) && gain == GainOf(Last(es).trade)
    ensures GainsOf(TradesOf(es)) == if Last(es).traded then rest + gain else rest
  {
    PushGain(TradesOf(Init(es)), Last(es).trade);
  }

  lemma {:induction false} GainsOfEntries(es: seq<Entry>)
    requires forall e :: e in es ==> GainsAgree(e)
    ensures GainsOf(TradesOf(es)) == SurplusOf(es)
  {
    if es != [] {
      assert forall e :: e in Init(es) ==> e in es;
      GainsOfEntries(Init(es));
      OneMoreEntry(es, SurplusOf(Init(es)), GainOf(Last(es).trade));
      assert GainsAgree(Last(es));
    }
  }

  lemma {:induction false} GainsOfSide(orders: seq<Order>, legs: seq<Leg>, p: Price)
    requires p.den > 0 && WithinOffers(orders, legs) && Unclamped(TradesOf(Entries(Machine, orders, legs, p)))
    ensures GainsOf(TradesOf(Entries(Machine, orders, legs, p))) == SurplusOf(Entries(Machine, orders, legs, p))
  {
    var es := Entries(Machine, orders, legs, p);
    forall e | e in es ensures GainsAgree(e) {
      var k: nat :| k < |es| && es[k] == e;
      if e.traded {
        TradedEntry(es, k);
        assert e == EntryOf(Machine, orders[k], FillsOf(legs, k), SoldBy(legs, k), p);
        GainOfEntry(orders[k], SoldBy(legs, k), p);
      }
    }
    GainsOfEntries(es);
  }

  lemma {:induction false} SettledGains(bk: Book, s: State)
    requires HasFills(bk, s) && Unclamped(TradesOfA(Machine, bk, s) + TradesOfB(Machine, bk, s))
    ensures TotalSurplus(Machine, bk, s) == GainsOf(TradesOfA(Machine, bk, s) + TradesOfB(Machine, bk, s))
  {
    var a, b, p := TradesOfA(Machine, bk, s), TradesOfB(Machine, bk, s), PriceOfA(Machine, bk, s);
    assert forall t :: t in a || t in b ==> t in a + b;
    LedgerWithinOffers(bk, s);
    GainsOfSide(bk.aToB, s.fillsAb, p);
    GainsOfSide(bk.bToA, s.fillsBa, Reciprocal(p));
    GainsConcat(a, b);
  }

  /** The surplus of a market is what its trades bring their owners beyond their limits, on both
      sides, unless a trade was clamped. */
  lemma {:induction false} SurplusIsTheGain(tokenA: Address, tokenB: Address, orders: seq<Order>)
    requires Unclamped(PairOutcome(Machine, tokenA, tokenB, orders).trades)
    ensures var out := PairOutcome(Machine, tokenA, tokenB, orders);
            out.surplus == Saturate(Machine, GainsOf(out.trades))
  {
    var bk := BookOf(tokenA, tokenB, orders);
    OutcomeOfBook(Machine, tokenA, tokenB, orders);
    if Swept(bk).fillsAb != [] {
      SettledGains(bk, Swept(bk));
    }
  }

  // ---------------------------------------------------------------- the batch

  lemma {:induction false} RawSurplusIsTheGain(orders: seq<Order>, key: Pair)
    requires Unclamped(PairOutcome(Machine, key.a, key.b, Group(orders, key)).trades)
    ensures MarketTotals(Machine, orders, key).surplus ==
            GainsOf(PairOutcome(Machine, key.a, key.b, Group(orders, key)).trades)
  {
    var g := Group(orders, key);
    var bk := BookOf(key.a, key.b, g);
    OutcomeOfBook(Machine, key.a, key.b, g);
    FinalStateFacts(Machine, bk);
    if Swept(bk).fillsAb != [] {
      SettledGains(bk, Swept(bk));
    }
  }

  lemma {:induction false} GainsOfMarkets(orders: seq<Order>, keys: seq<Pair>)
    requires Unclamped(TradeList(orders, keys))
    ensures SumOver(Share(Machine, orders), keys).surplus == GainsOf(TradeList(orders, keys))
  {
    if keys != [] {
      var key := Last(keys);
      var rest, last := TradeList(orders, Init(keys)), PairOutcome(Machine, key.a, key.b, Group(orders, key)).trades;
      assert forall t :: t in rest || t in last ==> t in TradeList(orders, keys);
      GainsOfMarkets(orders, Init(keys));
      RawSurplusIsTheGain(orders, key);
      GainsConcat(rest, last);
    }
  }

  lemma {:induction false} GainsOfPermutation(ts: seq<Trade>, us: seq<Trade>)
    requires multiset(ts) == multiset(us)
    ensures GainsOf(ts) == GainsOf(us)
  {
    if ts == [] {
      assert |multiset(us)| == 0;
    } else {
      var k := RemoveFromBoth(ts, us);
      GainsOfPermutation(Init(ts), Without(us, k));
      GainsConcat(us[..k], us[k + 1..]);
      assert us == us[..k] + [us[k]] + us[k + 1..];
      PushGain(us[..k], us[k]);
      GainsConcat(us[..k] + [us[k]], us[k + 1..]);
    }
  }

  /** In whatever order a batch lists its trades, its score is what they bring their owners beyond
      their limits, unless a trade was clamped. */
  lemma {:induction false} ScoreIsTheGain(orders: seq<Order>, ts: seq<Trade>)
    requires multiset(ts) == BatchTotals(Machine, orders).trades && Unclamped(ts)
    ensures BatchTotals(Machine, orders).surplus == GainsOf(ts)
  {
    var list := TradeList(orders, Pairs(orders));
    TradeListIsTheSum(orders, Pairs(orders));
    forall t | t in list ensures t.executedBuy < U64_MAX {
      assert t in multiset(list) && t in multiset(ts);
    }
    GainsOfMarkets(orders, Pairs(orders));
    GainsOfPermutation(ts, list);
  }

  lemma {:induction false} PricesOfMarkets(orders: seq<Order>, keys: seq<Pair>, cp: ClearingPrice) returns (key: Pair)
    requires cp in SumOver(Share(Machine, orders), keys).clearing
    ensures key in keys && cp in PairOutcome(Machine, key.a, key.b, Group(orders, key)).clearing
  {
    key := Last(keys);
    if cp !in PairOutcome(Machine, key.a, key.b, Group(orders, key)).clearing {
      key := PricesOfMarkets(orders, Init(keys), cp);
    }
  }

  lemma {:induction false} MarketsOfTrades(orders: seq<Order>, keys: seq<Pair>, key: Pair)
    requires key in keys
    ensures multiset(PairOutcome(Machine, key.a, key.b, Group(orders, key)).trades) <=
            SumOver(Share(Machine, orders), keys).trades
    ensures multiset(PairOutcome(Machine, key.a, key.b, Group(orders, key)).clearing) <=
            SumOver(Share(Machine, orders), keys).clearing
  {
    if key != Last(keys) {
      MarketsOfTrades(orders, Init(keys), key);
    }
  }

  /** Every clearing price a batch reports is of a token of a pair that trades in the batch. */
  lemma {:induction false} ClearingPricesAreOfTradedPairs(orders: seq<Order>, cp: ClearingPrice) returns (t: Trade)
    requires cp in BatchTotals(Machine, orders).clearing
    ensures t in BatchTotals(Machine, orders).trades
    ensures cp.mint == OrderOf(t).sellMint || cp.mint == OrderOf(t).buyMint
  {
    var key := PricesOfMarkets(orders, Pairs(orders), cp);
    var out := PairOutcome(Machine, key.a, key.b, Group(orders, key));
    PricesComeWithTrades(key.a, key.b, Group(orders, key));
    MarketsOfTrades(orders, Pairs(orders), key);
    t := out.trades[0];
    assert t in multiset(out.trades);
    EveryTradeIsFair(key.a, key.b, Group(orders, key), t);
  }

  /** Every trade of a batch is paid at a clearing price that the batch reports for the token it
      buys. */
  lemma {:induction false} BatchTradesPayAClearingPrice(orders: seq<Order>, t: Trade) returns (cp: ClearingPrice)
    requires t in BatchTotals(Machine, orders).trades
    ensures cp in BatchTotals(Machine, orders).clearing && cp.mint == OrderOf(t).buyMint && cp.price.den > 0
    ensures t.executedBuy == ClampU64(Apply(Machine, cp.price, t.executedSell))
  {
    TradeListIsTheSum(orders, Pairs(orders));
    var key := TradeListMembers(orders, Pairs(orders), t);
    var out := PairOutcome(Machine, key.a, key.b, Group(orders, key));
    EveryTradeIsFair(key.a, key.b, Group(orders, key), t);
    TradesPayTheClearingPrice(key.a, key.b, Group(orders, key), t);
    PricesComeWithTrades(key.a, key.b, Group(orders, key));
    MarketsOfTrades(orders, Pairs(orders), key);
    cp := if IsAToB(key.a, key.b, OrderOf(t)) then out.clearing[1] else out.clearing[0];
    assert cp in multiset(out.clearing);
  }

  /** How many of the markets have trades. */
  ghost function TradingMarkets(orders: seq<Order>, keys: seq<Pair>): nat {
    if keys == [] then 0
    else
      var key := Last(keys);
      TradingMarkets(orders, Init(keys))
      + if PairOutcome(Machine, key.a, key.b, Group(orders, key)).trades == [] then 0 else 1
  }

  /** A batch reports two prices for every market that trades, and no more. */
  lemma {:induction false} TwoPricesPerTradingMarket(orders: seq<Order>, keys: seq<Pair>)
    ensures |SumOver(Share(Machine, orders), keys).clearing| == 2 * TradingMarkets(orders, keys)
  {
    if keys != [] {
      var key := Last(keys);
      TwoPricesPerTradingMarket(orders, Init(keys));
      PricesComeWithTrades(key.a, key.b, Group(orders, key));
      var prices := PairOutcome(Machine, key.a, key.b, Group(orders, key)).clearing;
      assert |multiset(prices)| == |prices|;
    }
  }
}
