/** When the saturating engine computes exactly what unbounded arithmetic would. */
module Exactness {
  import opened Numbers
  import opened Prices
  import opened Orders
  import opened Sorting
  import opened Sweep
  import opened BookCrossing
  import opened ClearingPrices
  import opened Settlement
  import opened Conservation
  import opened CleanRatios
  import opened NarrowSpreads

  const AMOUNT_BOUND: nat := 0x400_0000_0000   // 2^42
  const COUNT_BOUND: nat := 0x100_0000_0000    // 2^40
  const GAIN_BOUND: nat := 2 * AMOUNT_BOUND * AMOUNT_BOUND

  predicate SmallOrder(o: Order) {
    o.sellAmount < AMOUNT_BOUND && o.buyAmount < AMOUNT_BOUND
  }

  predicate SmallOrders(orders: seq<Order>) {
    forall o :: o in orders ==> SmallOrder(o)
  }

  predicate SmallPrice(p: Price) {
    p.num < AMOUNT_BOUND && 0 < p.den < AMOUNT_BOUND
  }

  lemma {:induction false} SmallProduct(x: nat, y: nat)
    requires x < AMOUNT_BOUND && y < AMOUNT_BOUND
    ensures x * y <= AMOUNT_BOUND * AMOUNT_BOUND
  {
    MulMono(x, y, AMOUNT_BOUND, AMOUNT_BOUND);
  }

  /** The clearing price of small limits does not saturate, and its parts stay below 2^85. */
  lemma {:induction false} SmallMidpoint(p: Price, q: Price)
    requires SmallPrice(p) && SmallPrice(q) && CrossingLimits(p, q)
    ensures Midpoint(Machine, p, q) == Midpoint(Exact, p, q)
    ensures Midpoint(Exact, p, q).num <= GAIN_BOUND && Midpoint(Exact, p, q).den <= GAIN_BOUND
  {
    MidpointParts(p, q);
    SmallProduct(p.num, q.num);
    SmallProduct(p.den, q.den);
    SmallProduct(p.den, q.num);
  }

  lemma {:induction false} SmallApply(p: Price, x: nat)
    requires p.den > 0 && p.num <= GAIN_BOUND && x < AMOUNT_BOUND
    ensures Apply(Machine, p, x) == Apply(Exact, p, x)
  {
    MulMono(x, p.num, AMOUNT_BOUND, GAIN_BOUND);
  }

  /** Re-priced amounts stay below 2^85, since the price lies between the limits. */
  lemma {:induction false} SmallBought(p: Price, q: Price, x: nat)
    requires SmallPrice(p) && SmallPrice(q) && CrossingLimits(p, q) && x < AMOUNT_BOUND
    ensures Apply(Exact, Midpoint(Exact, p, q), x) <= GAIN_BOUND
    ensures Apply(Exact, Reciprocal(Midpoint(Exact, p, q)), x) <= GAIN_BOUND
  {
    MidpointParts(p, q);
    PriceBounds(p.num, p.den, q.num, q.den);
    SmallPayment(x, Midpoint(Exact, p, q).num, Midpoint(Exact, p, q).den, q.num, q.den);
  }

  lemma {:induction false} SmallPayment(x: nat, n: nat, d: nat, c: nat, t: nat)
    requires n > 0 && d > 0 && n <= t * d && d <= (2 * c) * n
    requires x < AMOUNT_BOUND && c < AMOUNT_BOUND && t < AMOUNT_BOUND
    ensures x * n / d <= GAIN_BOUND && x * d / n <= GAIN_BOUND
  {
    SmallProduct(x, t);
    SmallProduct(x, c);
    ApplyBound(x, n, d, t);
    ApplyBound(x, d, n, 2 * c);
    assert x * (2 * c) == 2 * (x * c);
  }

  lemma {:induction false} PriceBounds(b: nat, s: nat, c: nat, t: nat)
    requires b * c <= s * t && s > 0 && c > 0 && t > 0
    ensures b * c + s * t <= t * (2 * (s * c))
    ensures 2 * (s * c) <= (2 * c) * (b * c + s * t)
  {
    UpperPriceBound(s, c, t, b * c);
    LowerPriceBound(s, c, t, b * c);
  }

  lemma {:induction false} UpperPriceBound(s: nat, c: nat, t: nat, u: nat)
    requires u <= s * t && c > 0
    ensures u + s * t <= t * (2 * (s * c))
  {
    MulMono(s * t, 1, s * t, c);
    assert t * (2 * (s * c)) == 2 * (s * t * c);
  }

  lemma {:induction false} LowerPriceBound(s: nat, c: nat, t: nat, u: nat)
    requires t > 0
    ensures 2 * (s * c) <= (2 * c) * (u + s * t)
  {
    MulMono(s, 1, s, t);
    MulMono(2 * c, s, 2 * c, u + s * t);
    assert 2 * (s * c) == (2 * c) * s;
  }

  lemma {:induction false} ApplyBound(x: nat, n: nat, d: nat, k: nat)
    requires d > 0 && n <= k * d
    ensures x * n / d <= x * k
  {
    MulMono(x, n, x, k * d);
    assert x * (k * d) == (x * k) * d;
    FloorAtLeast(x * n / d, x * n, d);
    CancelLe(x * n / d, x * k, d);
  }

  /** One side of a market, priced without saturation. */
  ghost predicate SmallSide(orders: seq<Order>, legs: seq<Leg>, p: Price) {
    && p.den > 0 && p.num <= GAIN_BOUND
    && WithinOffers(orders, legs)
    && (forall k :: 0 <= k < |orders| ==> SmallOrder(orders[k]))
    && forall x: nat {:trigger Apply(Exact, p, x)} :: x < AMOUNT_BOUND ==> Apply(Exact, p, x) <= GAIN_BOUND
  }

  lemma {:induction false} SmallTrade(o: Order, sold: nat, p: Price)
    requires SmallOrder(o) && sold <= o.sellAmount && p.den > 0 && p.num <= GAIN_BOUND
    ensures TradeOf(Machine, o, sold, p) == TradeOf(Exact, o, sold, p)
    ensures Gain(Machine, o, sold, p) == Gain(Exact, o, sold, p) <= Apply(Exact, p, sold)
  {
    SmallApply(p, sold);
    SmallApply(o.LimitPrice(), sold);
  }

  lemma {:induction false} SmallSideIsExact(orders: seq<Order>, legs: seq<Leg>, p: Price)
    requires SmallSide(orders, legs, p)
    ensures Entries(Machine, orders, legs, p) == Entries(Exact, orders, legs, p)
    ensures SurplusOf(Entries(Exact, orders, legs, p)) <= |orders| * GAIN_BOUND
  {
    var es := Entries(Exact, orders, legs, p);
    forall k | 0 <= k < |orders|
      ensures Entries(Machine, orders, legs, p)[k] == es[k] && es[k].gain <= GAIN_BOUND
    {
      SmallTrade(orders[k], SoldBy(legs, k), p);
      assert Apply(Exact, p, SoldBy(legs, k)) <= GAIN_BOUND;
    }
    SurplusBound(es);
  }

  lemma {:induction false} SurplusBound(es: seq<Entry>)
    requires forall k :: 0 <= k < |es| ==> es[k].gain <= GAIN_BOUND
    ensures SurplusOf(es) <= |es| * GAIN_BOUND
  {
    if es != [] {
      SurplusBound(Init(es));
    }
  }

  lemma {:induction false} FilterMembers(s: seq<Order>, f: Order -> bool, o: Order)
    ensures o in Filter(s, f) <==> o in s && f(o)
  {
    if s != [] {
      FilterMembers(Init(s), f, o);
      assert s == Init(s) + [Last(s)];
    }
  }

  lemma {:induction false} SplitKeepsCount(tokenA: Address, tokenB: Address, orders: seq<Order>)
    ensures |SellersOfA(tokenA, tokenB, orders)| + |SellersOfB(tokenA, tokenB, orders)| <= |orders|
  {
    if orders != [] {
      SplitKeepsCount(tokenA, tokenB, Init(orders));
    }
  }

  lemma {:induction false} BookMembers(tokenA: Address, tokenB: Address, orders: seq<Order>, o: Order)
    ensures o in BookOf(tokenA, tokenB, orders).aToB <==> o in orders && IsAToB(tokenA, tokenB, o)
    ensures o in BookOf(tokenA, tokenB, orders).bToA <==> o in orders && IsBToA(tokenA, tokenB, o)
  {
    var a, b := SellersOfA(tokenA, tokenB, orders), SellersOfB(tokenA, tokenB, orders);
    FilterMembers(orders, x => IsAToB(tokenA, tokenB, x), o);
    FilterMembers(orders, x => IsBToA(tokenA, tokenB, x), o);
    SortSorts(a);
    SortSorts(b);
    assert o in SortByLimitPrice(a) <==> o in multiset(SortByLimitPrice(a));
    assert o in SortByLimitPrice(b) <==> o in multiset(SortByLimitPrice(b));
  }

  predicate SmallBook(bk: Book) {
    SmallOrders(bk.aToB) && SmallOrders(bk.bToA) && |bk.aToB| + |bk.bToA| < COUNT_BOUND
  }

  lemma {:induction false} SmallOrdersMakeSmallBook(tokenA: Address, tokenB: Address, orders: seq<Order>)
    requires SmallOrders(orders) && |orders| < COUNT_BOUND
    ensures SmallBook(BookOf(tokenA, tokenB, orders))
  {
    forall o {
      BookMembers(tokenA, tokenB, orders, o);
    }
    SplitKeepsCount(tokenA, tokenB, orders);
    SortSorts(SellersOfA(tokenA, tokenB, orders));
    SortSorts(SellersOfB(tokenA, tokenB, orders));
  }

  /** Both prices of small crossing limits can be applied to small amounts. */
  ghost predicate SmallClearing(p: Price) {
    && p.num > 0 && p.den > 0 && p.num <= GAIN_BOUND && p.den <= GAIN_BOUND
    && (forall x: nat {:trigger Apply(Exact, p, x)} :: x < AMOUNT_BOUND ==> Apply(Exact, p, x) <= GAIN_BOUND)
    && (forall x: nat {:trigger Apply(Exact, Reciprocal(p), x)} ::
          x < AMOUNT_BOUND ==> Apply(Exact, Reciprocal(p), x) <= GAIN_BOUND)
  }

  lemma {:induction false} SmallLimitsClear(p: Price, q: Price)
    requires SmallPrice(p) && SmallPrice(q) && CrossingLimits(p, q)
    ensures Midpoint(Machine, p, q) == Midpoint(Exact, p, q)
    ensures SmallClearing(Midpoint(Exact, p, q))
  {
    SmallMidpoint(p, q);
    MidpointParts(p, q);
    var price := Midpoint(Exact, p, q);
    forall x: nat | x < AMOUNT_BOUND
      ensures Apply(Exact, price, x) <= GAIN_BOUND && Apply(Exact, Reciprocal(price), x) <= GAIN_BOUND
    {
      SmallBought(p, q, x);
    }
  }

  lemma {:induction false} SmallBookClears(bk: Book, s: State)
    requires SortedBook(bk) && HasFills(bk, s) && SmallBook(bk)
    ensures PriceOfA(Machine, bk, s) == PriceOfA(Exact, bk, s)
    ensures SmallClearing(PriceOfA(Exact, bk, s))
  {
    LastCrossFacts(bk, s);
    var oa, ob := bk.aToB[s.lastCross.value.a], bk.bToA[s.lastCross.value.b];
    assert SmallOrder(oa) && SmallOrder(ob);
    SmallLimitsClear(oa.LimitPrice(), ob.LimitPrice());
  }

  lemma {:induction false} SmallSidesAreExact(bk: Book, legsA: seq<Leg>, legsB: seq<Leg>, p: Price)
    requires SmallBook(bk) && SmallClearing(p) && WithinOffers(bk.aToB, legsA) && WithinOffers(bk.bToA, legsB)
    ensures Entries(Machine, bk.aToB, legsA, p) == Entries(Exact, bk.aToB, legsA, p)
    ensures Entries(Machine, bk.bToA, legsB, Reciprocal(p)) == Entries(Exact, bk.bToA, legsB, Reciprocal(p))
    ensures SurplusOf(Entries(Exact, bk.aToB, legsA, p)) + SurplusOf(Entries(Exact, bk.bToA, legsB, Reciprocal(p)))
            <= (|bk.aToB| + |bk.bToA|) * GAIN_BOUND <= U128_MAX
  {
    SmallSideIsExact(bk.aToB, legsA, p);
    SmallSideIsExact(bk.bToA, legsB, Reciprocal(p));
    MulMono(|bk.aToB| + |bk.bToA|, GAIN_BOUND, COUNT_BOUND, GAIN_BOUND);
  }

  /** Both sides of a small settled book are priced without saturation. */
  lemma {:induction false} SmallBookIsExact(bk: Book, s: State)
    requires SortedBook(bk) && HasFills(bk, s) && SmallBook(bk)
    ensures PriceOfA(Machine, bk, s) == PriceOfA(Exact, bk, s)
    ensures EntriesOfA(Machine, bk, s) == EntriesOfA(Exact, bk, s)
    ensures EntriesOfB(Machine, bk, s) == EntriesOfB(Exact, bk, s)
    ensures TotalSurplus(Exact, bk, s) <= (|bk.aToB| + |bk.bToA|) * GAIN_BOUND <= U128_MAX
  {
    SmallBookClears(bk, s);
    LedgerWithinOffers(bk, s);
    SmallSidesAreExact(bk, s.fillsAb, s.fillsBa, PriceOfA(Exact, bk, s));
  }

  /** Refinement: with amounts below 2^42 and fewer than 2^40 orders the saturating engine
      reports the prices, trades and surplus of the same algorithm over unbounded naturals. */
  lemma {:induction false} SmallMarketsAreExact(tokenA: Address, tokenB: Address, orders: seq<Order>)
    requires SmallOrders(orders) && |orders| < COUNT_BOUND
    ensures PairOutcome(Machine, tokenA, tokenB, orders) == PairOutcome(Exact, tokenA, tokenB, orders)
  {
    var bk := BookOf(tokenA, tokenB, orders);
    OutcomeOfBook(Machine, tokenA, tokenB, orders);
    OutcomeOfBook(Exact, tokenA, tokenB, orders);
    if Swept(bk).fillsAb != [] {
      BookIsSorted(tokenA, tokenB, orders);
      SmallOrdersMakeSmallBook(tokenA, tokenB, orders);
      SmallSettle(tokenA, tokenB, bk, Swept(bk));
    }
  }

  lemma {:induction false} SmallSettle(tokenA: Address, tokenB: Address, bk: Book, s: State)
    requires SortedBook(bk) && HasFills(bk, s) && SmallBook(bk)
    ensures Settle(Machine, tokenA, tokenB, bk, s) == Settle(Exact, tokenA, tokenB, bk, s)
  {
    SmallBookIsExact(bk, s);
  }

  /** The conservation laws for the trades `a` of the sellers of A and `b` of the sellers of B at
      price `p`: token B is over-delivered by at most the fills beyond each seller's first, and
      not at all if `clean`; token A by at most `surplus`, and not at all if `narrow`; the value
      kept is non-negative and bounded by rounding. */
  predicate KeptInBalance(a: seq<Trade>, b: seq<Trade>, p: Price, fills: nat, surplus: nat, clean: bool, narrow: bool) {
    && Buys(a) + |a| <= Sells(b) + fills
    && (clean ==> Buys(a) <= Sells(b))
    && Buys(b) <= Sells(a) + surplus
    && (narrow ==> Buys(b) <= Sells(a))
    && 0 <= ValueKept(a, b, p)
    && (Unclamped(a) && Unclamped(b) ==> ValueKept(a, b, p) < p.den * |a| + p.num * |b|)
  }

  /** The conservation laws, as the saturating engine keeps them on a small sorted book: clean
      ratios conserve token B and a narrow spread conserves token A. */
  lemma {:induction false} SmallBooksConserve(bk: Book, s: State, clean: bool, narrow: bool)
    requires SortedBook(bk) && HasFills(bk, s) && SmallBook(bk)
    requires clean ==> s == Swept(bk) && CleanSellers(bk.bToA)
    requires narrow ==> NarrowSpread(bk)
    ensures KeptInBalance(TradesOfA(Machine, bk, s), TradesOfB(Machine, bk, s), PriceOfA(Machine, bk, s),
                          |s.fillsAb|, SurplusOf(EntriesOfB(Machine, bk, s)), clean, narrow)
  {
    SmallBookIsExact(bk, s);
    NoOverDeliveryOfB(bk, s);
    if clean {
      CleanRatiosConserveB(bk);
    }
    BooksOfTokenA(bk, s);
    if narrow {
      NarrowSpreadConservesA(bk, s);
    }
    UniformPriceIsValueNeutral(bk, s);
  }

  /** With whole ratios and no clamped trade, the saturating engine over-delivers token A on a
      small book by exactly the surplus of the sellers of B: not at all if and only if the price
      pays none of them a whole unit over what was booked. */
  lemma {:induction false} SmallBooksConserveAIff(bk: Book, s: State)
    requires SortedBook(bk) && HasFills(bk, s) && SmallBook(bk) && (forall o :: o in bk.bToA ==> WholeRatio(o))
    requires Unclamped(TradesOfB(Machine, bk, s))
    ensures var a, b := TradesOfA(Machine, bk, s), TradesOfB(Machine, bk, s);
            && Buys(b) == Sells(a) + SurplusOf(EntriesOfB(Machine, bk, s))
            && (Buys(b) <= Sells(a) <==>
                forall k: nat {:trigger PaidAsBooked(bk, s, k)} :: FillsOf(s.fillsBa, k) > 0 ==> PaidAsBooked(bk, s, k))
  {
    SmallBookIsExact(bk, s);
    WholeRatiosConserveAIff(bk, s);
  }
}
