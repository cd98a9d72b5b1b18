/** The exact conservation conditions, on what the saturating engine reports for small markets. */
module ReportedConservation {
  import opened Numbers
  import opened Prices
  import opened Orders
  import opened Sweep
  import opened Settlement
  import opened Samples
  import opened CleanRatios
  import opened UncleanRatios
  import opened NarrowSpreads
  import opened Exactness
  import opened Market

  predicate SellersOfAOffer(tokenA: Address, tokenB: Address, orders: seq<Order>, sell: nat, buy: nat) {
    forall o :: o in orders && IsAToB(tokenA, tokenB, o) ==> o.sellAmount == sell && o.buyAmount == buy
  }

  predicate SellersOfBOffer(tokenA: Address, tokenB: Address, orders: seq<Order>, sell: nat, buy: nat) {
    forall o :: o in orders && IsBToA(tokenA, tokenB, o) ==> o.sellAmount == sell && o.buyAmount == buy
  }

  predicate SmallMarket(orders: seq<Order>) {
    SmallOrders(orders) && |orders| < COUNT_BOUND
  }

  /** The engine reports no more of the token bought than sold. */
  ghost predicate ReportsConserved(tokenA: Address, tokenB: Address, orders: seq<Order>, mint: Address) {
    var ts := PairOutcome(Machine, tokenA, tokenB, orders).trades;
    BoughtIn(ts, mint) <= SoldIn(ts, mint)
  }

  // ---------------------------------------------------------------- token B

  lemma {:induction false} CleanMarketConservesB(tokenA: Address, tokenB: Address, orders: seq<Order>, t: nat, c: nat)
    requires SmallMarket(orders) && SellersOfBOffer(tokenA, tokenB, orders, t, c) && CleanRatio(t, c)
    ensures ReportsConserved(tokenA, tokenB, orders, tokenB)
  {
    if PairOutcome(Machine, tokenA, tokenB, orders).trades != [] {
      SmallMarketsConserve(tokenA, tokenB, orders);
    }
  }

  lemma {:induction false} UncleanBookIsSmall(tokenA: Address, tokenB: Address, t: U64, c: U64)
    requires 0 < t < AMOUNT_BOUND && 0 < c < AMOUNT_BOUND && tokenA != tokenB
    ensures var bk := UncleanBook(tokenA, tokenB, t, c);
            TradesPair(tokenA, tokenB, bk) && SmallBook(bk) && SmallMarket(bk.aToB + bk.bToA)
  {
    if c < t {
      QuotientFits(t, c);
    } else {
      QuotientFits(c, t);
    }
  }

  lemma {:induction false} ListedSellersOfB(tokenA: Address, tokenB: Address, bk: Book, sell: nat, buy: nat)
    requires TradesPair(tokenA, tokenB, bk) && AllOffer(bk.bToA, sell, buy)
    ensures SellersOfBOffer(tokenA, tokenB, bk.aToB + bk.bToA, sell, buy)
  {
  }

  /** For every pair and all sellers of B that offer `t` for `c`: the engine never reports more B
      bought than sold if and only if one amount is a multiple of the other. */
  lemma {:induction false} CleanRatioReportedIff(tokenA: Address, tokenB: Address, t: U64, c: U64)
    requires tokenA != tokenB && 0 < t < AMOUNT_BOUND && 0 < c < AMOUNT_BOUND
    ensures CleanRatio(t, c) <==>
            forall orders {:trigger ReportsConserved(tokenA, tokenB, orders, tokenB)} ::
              SmallMarket(orders) && SellersOfBOffer(tokenA, tokenB, orders, t, c) ==>
              ReportsConserved(tokenA, tokenB, orders, tokenB)
  {
    if CleanRatio(t, c) {
      forall orders | SmallMarket(orders) && SellersOfBOffer(tokenA, tokenB, orders, t, c)
        ensures ReportsConserved(tokenA, tokenB, orders, tokenB)
      {
        CleanMarketConservesB(tokenA, tokenB, orders, t, c);
      }
    } else {
      var bk := UncleanBook(tokenA, tokenB, t, c);
      UncleanBookOverDelivers(tokenA, tokenB, t, c);
      UncleanBookIsSmall(tokenA, tokenB, t, c);
      ListedSellersOfB(tokenA, tokenB, bk, t, c);
      FlowsOfListing(tokenA, tokenB, bk);
      assert !ReportsConserved(tokenA, tokenB, bk.aToB + bk.bToA, tokenB);
    }
  }

  // ---------------------------------------------------------------- token A

  lemma {:induction false} NarrowMarketConservesA(tokenA: Address, tokenB: Address, orders: seq<Order>,
                                                  s: U64, b: U64, t: U64, c: U64)
    requires SmallMarket(orders) && 0 < s && 0 < t && LessThanAUnit(Price(b, s), Price(c, t), t, c)
    requires SellersOfAOffer(tokenA, tokenB, orders, s, b) && SellersOfBOffer(tokenA, tokenB, orders, t, c)
    ensures ReportsConserved(tokenA, tokenB, orders, tokenA)
  {
    if PairOutcome(Machine, tokenA, tokenB, orders).trades != [] {
      UniformMarketIsNarrow(tokenA, tokenB, orders, s, b, t, c);
      SmallMarketsConserve(tokenA, tokenB, orders);
    }
  }

  lemma {:induction false} UniformMarketIsNarrow(tokenA: Address, tokenB: Address, orders: seq<Order>,
                                                 s: U64, b: U64, t: U64, c: U64)
    requires 0 < s && 0 < t && LessThanAUnit(Price(b, s), Price(c, t), t, c)
    requires SellersOfAOffer(tokenA, tokenB, orders, s, b) && SellersOfBOffer(tokenA, tokenB, orders, t, c)
    ensures NarrowSpreadIn(tokenA, tokenB, orders)
  {
    forall oa, last, ob |
      && oa in orders && last in orders && ob in orders
      && IsAToB(tokenA, tokenB, oa) && IsBToA(tokenA, tokenB, last) && IsBToA(tokenA, tokenB, ob)
      ensures LessThanAUnit(oa.LimitPrice(), last.LimitPrice(), ob.sellAmount, ob.buyAmount)
    {
      assert oa.LimitPrice() == Price(b, s) && last.LimitPrice() == Price(c, t);
    }
  }

  lemma {:induction false} PairListingIsSmall(tokenA: Address, tokenB: Address, s: U64, b: U64, t: U64, c: U64)
    requires tokenA != tokenB && s < AMOUNT_BOUND && b < AMOUNT_BOUND && t < AMOUNT_BOUND && c < AMOUNT_BOUND
    ensures var bk := PairListing(tokenA, tokenB, s, b, t, c);
            && TradesPair(tokenA, tokenB, bk) && SmallBook(bk) && SmallMarket(bk.aToB + bk.bToA)
            && SellersOfAOffer(tokenA, tokenB, bk.aToB + bk.bToA, s, b)
            && SellersOfBOffer(tokenA, tokenB, bk.aToB + bk.bToA, t, c)
  {
  }

  /** For sellers of A that offer `s` for `b` and sellers of B that offer `t` for `c`, crossing,
      where one seller of A can fill one of B: the engine never reports more A bought than sold
      if and only if the clearing price pays a seller of B less than one unit over `c`. */
  lemma {:induction false} NarrowSpreadReportedIff(tokenA: Address, tokenB: Address, s: U64, b: U64, t: U64, c: U64)
    requires tokenA != tokenB && s < AMOUNT_BOUND && b < AMOUNT_BOUND && t < AMOUNT_BOUND
    requires 0 < c <= s && 0 < t && b * c <= s * t
    ensures LessThanAUnit(Price(b, s), Price(c, t), t, c) <==>
            forall orders {:trigger ReportsConserved(tokenA, tokenB, orders, tokenA)} ::
              && SmallMarket(orders)
              && SellersOfAOffer(tokenA, tokenB, orders, s, b) && SellersOfBOffer(tokenA, tokenB, orders, t, c) ==>
              ReportsConserved(tokenA, tokenB, orders, tokenA)
  {
    if LessThanAUnit(Price(b, s), Price(c, t), t, c) {
      forall orders |
        && SmallMarket(orders)
        && SellersOfAOffer(tokenA, tokenB, orders, s, b) && SellersOfBOffer(tokenA, tokenB, orders, t, c)
        ensures ReportsConserved(tokenA, tokenB, orders, tokenA)
      {
        NarrowMarketConservesA(tokenA, tokenB, orders, s, b, t, c);
      }
    } else {
      var bk := PairListing(tokenA, tokenB, s, b, t, c);
      PairBookOverDelivers(bk, s, b, t, c);
      PairListingIsSmall(tokenA, tokenB, s, b, t, c);
      FlowsOfListing(tokenA, tokenB, bk);
      assert !ReportsConserved(tokenA, tokenB, bk.aToB + bk.bToA, tokenA);
    }
  }
}
