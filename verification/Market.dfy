/** What a whole market (one token pair) guarantees to its orders. */
module Market {
  import opened Numbers
  import opened Prices
  import opened Orders
  import opened Sorting
  import opened Sweep
  import opened BookCrossing
  import opened ClearingPrices
  import opened Settlement
  import opened Conservation
  import opened Samples
  import opened CleanRatios
  import opened NarrowSpreads
  import opened Exactness

  function OrderOf(t: Trade): Order {
    t.orderId.preimage
  }

  /** The trade sells no more than was offered, and all of it if the order is fill-or-kill. */
  predicate HonoursOrder(t: Trade) {
    && t.executedSell <= OrderOf(t).sellAmount
    && (!OrderOf(t).partialFill ==> t.executedSell == OrderOf(t).sellAmount)
  }

  predicate HalfRange(o: Order) {
    o.sellAmount < 0x8000_0000_0000_0000 && o.buyAmount < 0x8000_0000_0000_0000
  }

  lemma {:induction false} TradesComeFromEntries(es: seq<Entry>, t: Trade) returns (k: nat)
    requires t in TradesOf(es)
    ensures k < |es| && es[k].traded && es[k].trade == t
  {
    if Last(es).traded && t == Last(es).trade {
      k := |es| - 1;
    } else {
      k := TradesComeFromEntries(Init(es), t);
    }
  }

  /** An A→B trade is of a filled order of the book. */
  lemma {:induction false} EntryOfSellerOfA(bk: Book, s: State, t: Trade) returns (k: nat)
    requires HasFills(bk, s) && t in TradesOfA(Machine, bk, s)
    ensures k < |bk.aToB| && FillsOf(s.fillsAb, k) > 0
    ensures t == TradeOf(Machine, bk.aToB[k], SoldBy(s.fillsAb, k), PriceOfA(Machine, bk, s))
  {
    var es := EntriesOfA(Machine, bk, s);
    k := TradesComeFromEntries(es, t);
    assert es[k] == EntryOf(Machine, bk.aToB[k], FillsOf(s.fillsAb, k), SoldBy(s.fillsAb, k),
                            PriceOfA(Machine, bk, s));
  }

  lemma {:induction false} EntryOfSellerOfB(bk: Book, s: State, t: Trade) returns (k: nat)
    requires HasFills(bk, s) && t in TradesOfB(Machine, bk, s)
    ensures k < |bk.bToA| && FillsOf(s.fillsBa, k) > 0
    ensures t == TradeOf(Machine, bk.bToA[k], SoldBy(s.fillsBa, k), Reciprocal(PriceOfA(Machine, bk, s)))
  {
    var es, q := EntriesOfB(Machine, bk, s), Reciprocal(PriceOfA(Machine, bk, s));
    k := TradesComeFromEntries(es, t);
    assert es[k] == EntryOf(Machine, bk.bToA[k], FillsOf(s.fillsBa, k), SoldBy(s.fillsBa, k), q);
  }

  /** The trade of an order that sold within its offer honours it if fill-or-kill was kept. */
  lemma {:induction false} TradeHonours(o: Order, fills: nat, sold: nat, p: Price)
    requires p.den > 0 && sold <= o.sellAmount && fills > 0
    requires !o.partialFill ==> sold == if fills > 0 then o.sellAmount else 0
    ensures HonoursOrder(TradeOf(Machine, o, sold, p)) && OrderOf(TradeOf(Machine, o, sold, p)) == o
  {
  }

  /** An A→B trade belongs to a filled order of the book and honours it, limit included. */
  lemma {:induction false} TradeOfSellerOfA(bk: Book, s: State, t: Trade)
    requires SortedBook(bk) && HasFills(bk, s) && s == Swept(bk) && t in TradesOfA(Machine, bk, s)
    ensures OrderOf(t) in bk.aToB && HonoursOrder(t) && RespectsLimit(t)
  {
    var k := EntryOfSellerOfA(bk, s, t);
    SellersOfAGetTheirLimit(bk, s, k);
    SoldWithinOffer(bk, s, k);
    FillOrKill(bk, k);
    TradeHonours(bk.aToB[k], FillsOf(s.fillsAb, k), SoldBy(s.fillsAb, k), PriceOfA(Machine, bk, s));
  }

  /** A B→A trade belongs to a filled order of the book and honours it, its limit whenever
      the guard holds. */
  lemma {:induction false} TradeOfSellerOfB(bk: Book, s: State, t: Trade)
    requires SortedBook(bk) && HasFills(bk, s) && s == Swept(bk) && t in TradesOfB(Machine, bk, s)
    ensures OrderOf(t) in bk.bToA && HonoursOrder(t)
    ensures SafeReciprocal(bk, s) ==> RespectsLimit(t)
  {
    var k := EntryOfSellerOfB(bk, s, t);
    if SafeReciprocal(bk, s) {
      SellersOfBGetTheirLimit(bk, s, k);
    }
    SoldWithinOffer(bk, s, k);
    FillOrKill(bk, k);
    TradeHonours(bk.bToA[k], FillsOf(s.fillsBa, k), SoldBy(s.fillsBa, k), Reciprocal(PriceOfA(Machine, bk, s)));
  }

  lemma {:induction false} HalfRangeBookIsSafe(bk: Book, s: State)
    requires HasFills(bk, s)
    requires forall o :: o in bk.aToB || o in bk.bToA ==> HalfRange(o)
    ensures SafeReciprocal(bk, s)
  {
    var oa, ob := bk.aToB[s.lastCross.value.a], bk.bToA[s.lastCross.value.b];
    assert HalfRange(oa) && HalfRange(ob);
    HalfRangeIsSafe(oa.LimitPrice(), ob.LimitPrice());
  }

  /** Individual rationality, fill-or-kill and the sell bound, for every trade of a market.
      Sellers of A always get their limit; sellers of B do when all amounts are below 2^63. */
  lemma {:induction false} EveryTradeIsFair(tokenA: Address, tokenB: Address, orders: seq<Order>, t: Trade)
    requires t in PairOutcome(Machine, tokenA, tokenB, orders).trades
    ensures OrderOf(t) in orders && HonoursOrder(t)
    ensures IsAToB(tokenA, tokenB, OrderOf(t)) || IsBToA(tokenA, tokenB, OrderOf(t))
    ensures IsAToB(tokenA, tokenB, OrderOf(t)) ==> RespectsLimit(t)
    ensures (forall o :: o in orders ==> HalfRange(o)) ==> RespectsLimit(t)
  {
    var bk := BookOf(tokenA, tokenB, orders);
    BookIsSorted(tokenA, tokenB, orders);
    FinalStateFacts(Machine, bk);
    var s := Swept(bk);
    BookMembers(tokenA, tokenB, orders, OrderOf(t));
    if t in TradesOfA(Machine, bk, s) {
      TradeOfSellerOfA(bk, s, t);
    } else {
      TradeOfSellerOfB(bk, s, t);
      if forall o :: o in orders ==> HalfRange(o) {
        forall o | o in bk.aToB || o in bk.bToA ensures HalfRange(o) {
          BookMembers(tokenA, tokenB, orders, o);
        }
        HalfRangeBookIsSafe(bk, s);
      }
    }
  }

  lemma {:induction false} SoldByAtLeast(legs: seq<Leg>, n: nat)
    requires n < |legs|
    ensures legs[n].sold <= SoldBy(legs, legs[n].idx)
  {
    if n < |legs| - 1 {
      SoldByAtLeast(Init(legs), n);
    }
  }

  /** Only orders that offer something have fills. */
  lemma {:induction false} FilledOrdersOfferSomething(bk: Book, s: State, k: nat)
    requires Inv(bk, s)
    ensures FillsOf(s.fillsAb, k) > 0 ==> k < |bk.aToB| && bk.aToB[k].sellAmount > 0
    ensures FillsOf(s.fillsBa, k) > 0 ==> k < |bk.bToA| && bk.bToA[k].sellAmount > 0
  {
    FillsOfPositive(s.fillsAb, k);
    FillsOfPositive(s.fillsBa, k);
    forall n | 0 <= n < |s.fillsAb|
      ensures s.fillsAb[n].idx == k ==> SoldBy(s.fillsAb, k) > 0
      ensures s.fillsBa[n].idx == k ==> bk.bToA[k].sellAmount > 0
    {
      assert AtBookRatio(bk.bToA[s.fillsBa[n].idx], s.fillsAb[n].sold, s.fillsAb[n].bought);
      SoldByAtLeast(s.fillsAb, n);
    }
  }

  /** Traders offered something, so a sale of the whole offer is not empty. */
  lemma {:induction false} TradersOfferSomething(tokenA: Address, tokenB: Address, orders: seq<Order>, t: Trade)
    requires t in PairOutcome(Machine, tokenA, tokenB, orders).trades
    ensures OrderOf(t).sellAmount > 0
  {
    var bk := BookOf(tokenA, tokenB, orders);
    FinalStateFacts(Machine, bk);
    var s := Swept(bk);
    if t in TradesOfA(Machine, bk, s) {
      var k := EntryOfSellerOfA(bk, s, t);
      FilledOrdersOfferSomething(bk, s, k);
    } else {
      var k := EntryOfSellerOfB(bk, s, t);
      FilledOrdersOfferSomething(bk, s, k);
    }
  }

  /** A fill-or-kill order that trades sells its whole offer and receives at least the whole
      amount it asked for: always if it sells A, and if it sells B when all amounts are below
      2^63. */
  lemma {:induction false} FillOrKillBuysItsAmount(tokenA: Address, tokenB: Address, orders: seq<Order>, t: Trade)
    requires t in PairOutcome(Machine, tokenA, tokenB, orders).trades && !OrderOf(t).partialFill
    requires IsAToB(tokenA, tokenB, OrderOf(t)) || forall o :: o in orders ==> HalfRange(o)
    ensures t.executedSell == OrderOf(t).sellAmount > 0
    ensures t.executedBuy >= OrderOf(t).buyAmount
  {
    EveryTradeIsFair(tokenA, tokenB, orders, t);
    TradersOfferSomething(tokenA, tokenB, orders, t);
    LimitNeverPaysMoreThanBuyAmount(OrderOf(t), t.executedSell);
  }

  // ---------------------------------------------------------------- conservation per token

  /** What the trades take in of token `mint`. */
  function SoldIn(ts: seq<Trade>, mint: Address): nat {
    if ts == [] then 0
    else SoldIn(Init(ts), mint) + if OrderOf(Last(ts)).sellMint == mint then Last(ts).executedSell else 0
  }

  /** What the trades hand out of token `mint`. */
  function BoughtIn(ts: seq<Trade>, mint: Address): nat {
    if ts == [] then 0
    else BoughtIn(Init(ts), mint) + if OrderOf(Last(ts)).buyMint == mint then Last(ts).executedBuy else 0
  }

  predicate OneWay(ts: seq<Trade>, from: Address, to: Address) {
    forall t :: t in ts ==> OrderOf(t).sellMint == from && OrderOf(t).buyMint == to
  }

  lemma {:induction false} FlowsOfOneWay(ts: seq<Trade>, from: Address, to: Address, mint: Address)
    requires OneWay(ts, from, to)
    ensures SoldIn(ts, mint) == if mint == from then Sells(ts) else 0
    ensures BoughtIn(ts, mint) == if mint == to then Buys(ts) else 0
  {
    if ts != [] {
      assert Last(ts) in ts;
      FlowsOfOneWay(Init(ts), from, to, mint);
    }
  }

  lemma {:induction false} FlowsAddUp(ts: seq<Trade>, us: seq<Trade>, mint: Address)
    ensures SoldIn(ts + us, mint) == SoldIn(ts, mint) + SoldIn(us, mint)
    ensures BoughtIn(ts + us, mint) == BoughtIn(ts, mint) + BoughtIn(us, mint)
  {
    if us == [] {
      assert ts + us == ts;
    } else {
      FlowsAddUp(ts, Init(us), mint);
      assert Init(ts + us) == ts + Init(us) && Last(ts + us) == Last(us);
    }
  }

  /** The two sides of a settled market trade in opposite directions. */
  lemma {:induction false} SidesAreOneWay(tokenA: Address, tokenB: Address, orders: seq<Order>, bk: Book, s: State)
    requires bk == BookOf(tokenA, tokenB, orders) && HasFills(bk, s)
    ensures tokenA != tokenB
    ensures OneWay(TradesOfA(Machine, bk, s), tokenA, tokenB) && OneWay(TradesOfB(Machine, bk, s), tokenB, tokenA)
  {
    BookMembers(tokenA, tokenB, orders, bk.bToA[s.fillsBa[0].idx]);
    var a, b := EntriesOfA(Machine, bk, s), EntriesOfB(Machine, bk, s);
    forall t | t in TradesOf(a) ensures IsAToB(tokenA, tokenB, OrderOf(t)) {
      var k := TradesComeFromEntries(a, t);
      assert OrderOf(t) == bk.aToB[k];
      BookMembers(tokenA, tokenB, orders, bk.aToB[k]);
    }
    forall t | t in TradesOf(b) ensures IsBToA(tokenA, tokenB, OrderOf(t)) {
      var k := TradesComeFromEntries(b, t);
      assert OrderOf(t) == bk.bToA[k];
      BookMembers(tokenA, tokenB, orders, bk.bToA[k]);
    }
  }

  lemma {:induction false} FlowsOfSides(a: seq<Trade>, b: seq<Trade>, tokenA: Address, tokenB: Address)
    requires tokenA != tokenB && OneWay(a, tokenA, tokenB) && OneWay(b, tokenB, tokenA)
    ensures SoldIn(a + b, tokenA) == Sells(a) && BoughtIn(a + b, tokenA) == Buys(b)
    ensures SoldIn(a + b, tokenB) == Sells(b) && BoughtIn(a + b, tokenB) == Buys(a)
  {
    FlowsAddUp(a, b, tokenA);
    FlowsAddUp(a, b, tokenB);
    FlowsOfOneWay(a, tokenA, tokenB, tokenA);
    FlowsOfOneWay(a, tokenA, tokenB, tokenB);
    FlowsOfOneWay(b, tokenB, tokenA, tokenA);
    FlowsOfOneWay(b, tokenB, tokenA, tokenB);
  }

  /** What a market with fills takes in and hands out, by the sides of its settled book. */
  lemma {:induction false} FlowsOfMarket(tokenA: Address, tokenB: Address, orders: seq<Order>, bk: Book, s: State)
    requires bk == BookOf(tokenA, tokenB, orders) && s == Swept(bk) && HasFills(bk, s)
    ensures var ts := PairOutcome(Machine, tokenA, tokenB, orders).trades;
            && SoldIn(ts, tokenA) == Sells(TradesOfA(Machine, bk, s))
            && BoughtIn(ts, tokenA) == Buys(TradesOfB(Machine, bk, s))
            && SoldIn(ts, tokenB) == Sells(TradesOfB(Machine, bk, s))
            && BoughtIn(ts, tokenB) == Buys(TradesOfA(Machine, bk, s))
  {
    OutcomeOfBook(Machine, tokenA, tokenB, orders);
    SidesAreOneWay(tokenA, tokenB, orders, bk, s);
    FlowsOfSides(TradesOfA(Machine, bk, s), TradesOfB(Machine, bk, s), tokenA, tokenB);
  }

  /** The same for the listing of a small sorted book, over unbounded arithmetic. */
  lemma {:induction false} FlowsOfListing(tokenA: Address, tokenB: Address, bk: Book)
    requires SortedBook(bk) && TradesPair(tokenA, tokenB, bk) && SmallBook(bk) && HasFills(bk, Swept(bk))
    ensures var ts := PairOutcome(Machine, tokenA, tokenB, bk.aToB + bk.bToA).trades;
            && SoldIn(ts, tokenA) == Sells(TradesOfA(Exact, bk, Swept(bk)))
            && BoughtIn(ts, tokenA) == Buys(TradesOfB(Exact, bk, Swept(bk)))
            && SoldIn(ts, tokenB) == Sells(TradesOfB(Exact, bk, Swept(bk)))
            && BoughtIn(ts, tokenB) == Buys(TradesOfA(Exact, bk, Swept(bk)))
  {
    BookOfListing(tokenA, tokenB, bk);
    FlowsOfMarket(tokenA, tokenB, bk.aToB + bk.bToA, bk, Swept(bk));
    SmallBookIsExact(bk, Swept(bk));
  }

  /** Every seller of B among the orders asks a clean ratio. */
  predicate CleanRatiosIn(tokenA: Address, tokenB: Address, orders: seq<Order>) {
    forall o :: o in orders && IsBToA(tokenA, tokenB, o) ==> CleanRatio(o.sellAmount, o.buyAmount)
  }

  /** Whichever pair of the market clears it, no seller of B gains a whole unit on its offer. */
  predicate NarrowSpreadIn(tokenA: Address, tokenB: Address, orders: seq<Order>) {
    forall oa, last, ob ::
      oa in orders && last in orders && ob in orders
      && IsAToB(tokenA, tokenB, oa) && IsBToA(tokenA, tokenB, last) && IsBToA(tokenA, tokenB, ob) ==>
      CrossingLimits(oa.LimitPrice(), last.LimitPrice()) ==>
      LessThanAUnit(oa.LimitPrice(), last.LimitPrice(), ob.sellAmount, ob.buyAmount)
  }

  lemma {:induction false} BookInherits(tokenA: Address, tokenB: Address, orders: seq<Order>)
    ensures var bk := BookOf(tokenA, tokenB, orders);
            && (CleanRatiosIn(tokenA, tokenB, orders) ==> CleanSellers(bk.bToA))
            && (NarrowSpreadIn(tokenA, tokenB, orders) ==> NarrowSpread(bk))
  {
    forall o {
      BookMembers(tokenA, tokenB, orders, o);
    }
  }

  /** What a market hands out of each token, against what it takes in, at B per A price `p`. */
  predicate FlowsConserve(ts: seq<Trade>, tokenA: Address, tokenB: Address, fills: nat, surplus: nat, p: Price) {
    var keptA, keptB := SoldIn(ts, tokenA) - BoughtIn(ts, tokenA), SoldIn(ts, tokenB) - BoughtIn(ts, tokenB);
    && -keptB <= fills && -keptA <= surplus
    && 0 <= p.num * keptA + p.den * keptB
    && (Unclamped(ts) ==> p.num * keptA + p.den * keptB < (p.den + p.num) * |ts|)
  }

  /** The flows of a reported outcome conserve value; token B too if `clean`, and token A too if
      `narrow`. */
  predicate Conserves(out: Outcome, tokenA: Address, tokenB: Address, fills: nat, clean: bool, narrow: bool) {
    && |out.clearing| == 2
    && FlowsConserve(out.trades, tokenA, tokenB, fills, out.surplus, out.clearing[1].price)
    && (clean ==> BoughtIn(out.trades, tokenB) <= SoldIn(out.trades, tokenB))
    && (narrow ==> BoughtIn(out.trades, tokenA) <= SoldIn(out.trades, tokenA))
  }

  /** Conservation, for every market of orders below 2^42. Token B is over-delivered by less
      than one unit per fill, and not at all for clean ratios; token A by at most the surplus
      the market reports, and not at all for a narrow spread; the value kept at the clearing
      price is non-negative and bounded by rounding. */
  lemma {:induction false} SmallMarketsConserve(tokenA: Address, tokenB: Address, orders: seq<Order>)
    requires SmallOrders(orders) && |orders| < COUNT_BOUND
    requires PairOutcome(Machine, tokenA, tokenB, orders).trades != []
    ensures Swept(BookOf(tokenA, tokenB, orders)).fillsAb != []
    ensures Conserves(PairOutcome(Machine, tokenA, tokenB, orders), tokenA, tokenB,
                      |Swept(BookOf(tokenA, tokenB, orders)).fillsAb| - 1,
                      CleanRatiosIn(tokenA, tokenB, orders), NarrowSpreadIn(tokenA, tokenB, orders))
  {
    var ea, eb, p := SmallMarketParts(tokenA, tokenB, orders);
    var out, fills := PairOutcome(Machine, tokenA, tokenB, orders), |Swept(BookOf(tokenA, tokenB, orders)).fillsAb| - 1;
    ReportedFlows(out, ea, eb, tokenA, tokenB, fills, p,
                  CleanRatiosIn(tokenA, tokenB, orders), NarrowSpreadIn(tokenA, tokenB, orders));
  }

  /** The priced sides of a small market with trades, and the laws they keep. */
  lemma {:induction false} SmallMarketParts(tokenA: Address, tokenB: Address, orders: seq<Order>)
    returns (ea: seq<Entry>, eb: seq<Entry>, p: Price)
    requires SmallOrders(orders) && |orders| < COUNT_BOUND
    requires PairOutcome(Machine, tokenA, tokenB, orders).trades != []
    ensures PairOutcome(Machine, tokenA, tokenB, orders) == Report(Machine, tokenA, tokenB, p, ea, eb)
    ensures tokenA != tokenB && OneWay(TradesOf(ea), tokenA, tokenB) && OneWay(TradesOf(eb), tokenB, tokenA)
    ensures SurplusOf(ea) + SurplusOf(eb) <= U128_MAX && |TradesOf(ea)| >= 1
    ensures Swept(BookOf(tokenA, tokenB, orders)).fillsAb != []
    ensures KeptInBalance(TradesOf(ea), TradesOf(eb), p, |Swept(BookOf(tokenA, tokenB, orders)).fillsAb|, SurplusOf(eb),
                          CleanRatiosIn(tokenA, tokenB, orders), NarrowSpreadIn(tokenA, tokenB, orders))
  {
    var bk := SmallMarketSettles(tokenA, tokenB, orders);
    SmallMarketInBalance(tokenA, tokenB, orders, bk, Swept(bk));
    SidesAreOneWay(tokenA, tokenB, orders, bk, Swept(bk));
    SurplusFits(bk, Swept(bk));
    SidesTrade(bk, Swept(bk));
    ea, eb := EntriesOfA(Machine, bk, Swept(bk)), EntriesOfB(Machine, bk, Swept(bk));
    p := PriceOfA(Machine, bk, Swept(bk));
  }

  lemma {:induction false} SmallMarketInBalance(tokenA: Address, tokenB: Address, orders: seq<Order>, bk: Book,
                                                s: State)
    requires bk == BookOf(tokenA, tokenB, orders) && SortedBook(bk) && SmallBook(bk)
    requires s == Swept(bk) && HasFills(bk, s)
    ensures KeptInBalance(TradesOfA(Machine, bk, s), TradesOfB(Machine, bk, s), PriceOfA(Machine, bk, s),
                          |s.fillsAb|, SurplusOf(EntriesOfB(Machine, bk, s)),
                          CleanRatiosIn(tokenA, tokenB, orders), NarrowSpreadIn(tokenA, tokenB, orders))
  {
    BookInherits(tokenA, tokenB, orders);
    SmallBooksConserve(bk, s, CleanRatiosIn(tokenA, tokenB, orders), NarrowSpreadIn(tokenA, tokenB, orders));
  }

  /** A small market with trades is the settlement of a small sorted book. */
  lemma {:induction false} SmallMarketSettles(tokenA: Address, tokenB: Address, orders: seq<Order>) returns (bk: Book)
    requires SmallOrders(orders) && |orders| < COUNT_BOUND
    requires PairOutcome(Machine, tokenA, tokenB, orders).trades != []
    ensures bk == BookOf(tokenA, tokenB, orders) && SortedBook(bk) && SmallBook(bk) && HasFills(bk, Swept(bk))
    ensures PairOutcome(Machine, tokenA, tokenB, orders) == Settle(Machine, tokenA, tokenB, bk, Swept(bk))
  {
    bk := BookOf(tokenA, tokenB, orders);
    OutcomeOfBook(Machine, tokenA, tokenB, orders);
    BookIsSorted(tokenA, tokenB, orders);
    SmallOrdersMakeSmallBook(tokenA, tokenB, orders);
  }

  lemma {:induction false} SurplusFits(bk: Book, s: State)
    requires SortedBook(bk) && HasFills(bk, s) && SmallBook(bk)
    ensures SurplusOf(EntriesOfA(Machine, bk, s)) + SurplusOf(EntriesOfB(Machine, bk, s)) <= U128_MAX
  {
    SmallBookIsExact(bk, s);
  }

  lemma {:induction false} SideTrades(orders: seq<Order>, legs: seq<Leg>, p: Price, n: nat)
    requires p.den > 0 && n < |legs| && legs[n].idx < |orders|
    ensures |TradesOf(Entries(Machine, orders, legs, p))| >= 1
  {
    FillsOfPositive(legs, legs[n].idx);
    SomeTrade(Entries(Machine, orders, legs, p), legs[n].idx);
  }

  lemma {:induction false} SidesTrade(bk: Book, s: State)
    requires HasFills(bk, s)
    ensures |TradesOf(EntriesOfA(Machine, bk, s))| >= 1
  {
    SideTrades(bk.aToB, s.fillsAb, PriceOfA(Machine, bk, s), 0);
  }

  /** The conservation laws of two priced sides, on the report made of them. */
  lemma {:induction false} ReportedFlows(out: Outcome, ea: seq<Entry>, eb: seq<Entry>, tokenA: Address,
                                         tokenB: Address, fills: nat, p: Price, clean: bool, narrow: bool)
    requires out == Report(Machine, tokenA, tokenB, p, ea, eb)
    requires tokenA != tokenB && OneWay(TradesOf(ea), tokenA, tokenB) && OneWay(TradesOf(eb), tokenB, tokenA)
    requires SurplusOf(ea) + SurplusOf(eb) <= U128_MAX && |TradesOf(ea)| >= 1
    requires KeptInBalance(TradesOf(ea), TradesOf(eb), p, fills + 1, SurplusOf(eb), clean, narrow)
    ensures Conserves(out, tokenA, tokenB, fills, clean, narrow)
  {
    FlowsOfSides(TradesOf(ea), TradesOf(eb), tokenA, tokenB);
    FlowsFromSides(TradesOf(ea), TradesOf(eb), tokenA, tokenB, fills, SurplusOf(ea) + SurplusOf(eb), p);
  }

  lemma {:induction false} FlowsFromSides(a: seq<Trade>, b: seq<Trade>, tokenA: Address, tokenB: Address,
                                          fills: nat, surplus: nat, p: Price)
    requires tokenA != tokenB && OneWay(a, tokenA, tokenB) && OneWay(b, tokenB, tokenA)
    requires Buys(a) <= Sells(b) + fills && Buys(b) <= Sells(a) + surplus && 0 <= ValueKept(a, b, p)
    requires Unclamped(a) && Unclamped(b) ==> ValueKept(a, b, p) < p.den * |a| + p.num * |b|
    ensures FlowsConserve(a + b, tokenA, tokenB, fills, surplus, p)
  {
    FlowsOfSides(a, b, tokenA, tokenB);
    ValueBound(p.den, p.num, |a|, |b|);
    if Unclamped(a + b) {
      assert forall t :: t in a || t in b ==> t in a + b;
    }
  }

  lemma {:induction false} ValueBound(d: nat, n: nat, x: nat, y: nat)
    ensures d * x + n * y <= (d + n) * (x + y)
  {
    Distribute(d, x, y);
    Distribute(n, x, y);
    assert (d + n) * (x + y) == d * (x + y) + n * (x + y);
  }

  /** How much all the trades of an order sell together. */
  function SoldOf(ts: seq<Trade>, id: OrderId): nat {
    if ts == [] then 0
    else SoldOf(Init(ts), id) + if Last(ts).orderId == id then Last(ts).executedSell else 0
  }

  // ---------------------------------------------------------------- one trade per order

  function Ids(ts: seq<Trade>): seq<OrderId> {
    seq(|ts|, k requires 0 <= k < |ts| => ts[k].orderId)
  }

  lemma {:induction false} PushId(ts: seq<Trade>, t: Trade)
    ensures Ids(ts + [t]) == Ids(ts) + [t.orderId]
  {
  }

  lemma {:induction false} IdsAtMostOncePerEntry(es: seq<Entry>, orders: seq<Order>, o: Order)
    requires |es| == |orders| && forall k :: 0 <= k < |es| ==> es[k].trade.orderId == orders[k].Id()
    ensures multiset(Ids(TradesOf(es)))[o.Id()] <= multiset(orders)[o]
  {
    if es != [] {
      IdsAtMostOncePerEntry(Init(es), Init(orders), o);
      assert orders == Init(orders) + [Last(orders)];
      assert es[|es| - 1].trade.orderId == Last(orders).Id();
      PushId(TradesOf(Init(es)), Last(es).trade);
    }
  }

  lemma {:induction false} FilterCount(s: seq<Order>, f: Order -> bool, o: Order)
    ensures multiset(Filter(s, f))[o] == if f(o) then multiset(s)[o] else 0
  {
    if s != [] {
      FilterCount(Init(s), f, o);
      assert s == Init(s) + [Last(s)];
    }
  }

  lemma {:induction false} BookCount(tokenA: Address, tokenB: Address, orders: seq<Order>, o: Order)
    ensures var bk := BookOf(tokenA, tokenB, orders);
            multiset(bk.aToB)[o] + multiset(bk.bToA)[o] <= multiset(orders)[o]
  {
    SortSorts(SellersOfA(tokenA, tokenB, orders));
    SortSorts(SellersOfB(tokenA, tokenB, orders));
    FilterCount(orders, x => IsAToB(tokenA, tokenB, x), o);
    FilterCount(orders, x => IsBToA(tokenA, tokenB, x), o);
  }

  lemma {:induction false} IdsConcat(ts: seq<Trade>, us: seq<Trade>)
    ensures Ids(ts + us) == Ids(ts) + Ids(us)
  {
  }

  lemma {:induction false} IdsOfSide(m: Arith, orders: seq<Order>, legs: seq<Leg>, p: Price, o: Order)
    requires p.den > 0
    ensures multiset(Ids(TradesOf(Entries(m, orders, legs, p))))[o.Id()] <= multiset(orders)[o]
  {
    var es := Entries(m, orders, legs, p);
    IdsAtMostOncePerEntry(es, orders, o);
  }

  lemma {:induction false} IdsOfSettledBook(bk: Book, s: State, o: Order)
    requires HasFills(bk, s)
    ensures multiset(Ids(TradesOfA(Machine, bk, s) + TradesOfB(Machine, bk, s)))[o.Id()]
            <= multiset(bk.aToB)[o] + multiset(bk.bToA)[o]
  {
    var p := PriceOfA(Machine, bk, s);
    IdsOfSide(Machine, bk.aToB, s.fillsAb, p, o);
    IdsOfSide(Machine, bk.bToA, s.fillsBa, Reciprocal(p), o);
    IdsConcat(TradesOfA(Machine, bk, s), TradesOfB(Machine, bk, s));
  }

  /** An order gets at most as many trades as it has entries in the market: one, when the
      orders are distinct. */
  lemma {:induction false} AtMostOneTradePerEntry(tokenA: Address, tokenB: Address, orders: seq<Order>, o: Order)
    ensures multiset(Ids(PairOutcome(Machine, tokenA, tokenB, orders).trades))[o.Id()] <= multiset(orders)[o]
  {
    var bk := BookOf(tokenA, tokenB, orders);
    FinalStateFacts(Machine, bk);
    if Swept(bk).fillsAb != [] {
      IdsOfSettledBook(bk, Swept(bk), o);
      BookCount(tokenA, tokenB, orders, o);
    }
  }

  // ---------------------------------------------------------------- arrival order

  /** The two lists agree on the arrival order inside each price level of each side. */
  ghost predicate SameQueues(tokenA: Address, tokenB: Address, xs: seq<Order>, ys: seq<Order>) {
    && SameTieOrder(SellersOfA(tokenA, tokenB, xs), SellersOfA(tokenA, tokenB, ys))
    && SameTieOrder(SellersOfB(tokenA, tokenB, xs), SellersOfB(tokenA, tokenB, ys))
  }

  /** Only the arrival order inside a price level of a side can matter: it decides the book, and
      through the book the outcome. */
  lemma {:induction false} ArrivalOrderOnlyBreaksTies(m: Arith, tokenA: Address, tokenB: Address,
                                                      xs: seq<Order>, ys: seq<Order>)
    ensures BookOf(tokenA, tokenB, xs) == BookOf(tokenA, tokenB, ys) <==> SameQueues(tokenA, tokenB, xs, ys)
    ensures SameQueues(tokenA, tokenB, xs, ys) ==>
              PairOutcome(m, tokenA, tokenB, xs) == PairOutcome(m, tokenA, tokenB, ys)
  {
    SortForgetsArrivalOrder(SellersOfA(tokenA, tokenB, xs), SellersOfA(tokenA, tokenB, ys));
    SortForgetsArrivalOrder(SellersOfB(tokenA, tokenB, xs), SellersOfB(tokenA, tokenB, ys));
  }

  lemma {:induction false} FilterOfPermutation(xs: seq<Order>, ys: seq<Order>, f: Order -> bool)
    requires multiset(xs) == multiset(ys)
    ensures multiset(Filter(xs, f)) == multiset(Filter(ys, f))
  {
    forall o: Order ensures multiset(Filter(xs, f))[o] == multiset(Filter(ys, f))[o] {
      FilterCount(xs, f, o);
      FilterCount(ys, f, o);
    }
  }

  /** With pairwise different limit prices on each side any permutation of the orders gives
      the same prices, trades and surplus. */
  lemma {:induction false} DistinctPricesForgetArrivalOrder(m: Arith, tokenA: Address, tokenB: Address,
                                                            xs: seq<Order>, ys: seq<Order>)
    requires multiset(xs) == multiset(ys)
    requires DistinctPrices(SellersOfA(tokenA, tokenB, xs)) && DistinctPrices(SellersOfB(tokenA, tokenB, xs))
    ensures PairOutcome(m, tokenA, tokenB, xs) == PairOutcome(m, tokenA, tokenB, ys)
  {
    FilterOfPermutation(xs, ys, o => IsAToB(tokenA, tokenB, o));
    FilterOfPermutation(xs, ys, o => IsBToA(tokenA, tokenB, o));
    DistinctPricesHaveNoTies(SellersOfA(tokenA, tokenB, xs), SellersOfA(tokenA, tokenB, ys));
    DistinctPricesHaveNoTies(SellersOfB(tokenA, tokenB, xs), SellersOfB(tokenA, tokenB, ys));
    ArrivalOrderOnlyBreaksTies(m, tokenA, tokenB, xs, ys);
  }
}
