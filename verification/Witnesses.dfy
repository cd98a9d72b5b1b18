/** Concrete markets that show where a natural guarantee stops. */
module Witnesses {
  import opened Numbers
  import opened Prices
  import opened Orders
  import opened Sorting
  import opened Sweep
  import opened BookCrossing
  import opened ClearingPrices
  import opened Settlement
  import opened Conservation
  import opened Samples
  import opened UncleanRatios
  import opened NarrowSpreads
  import opened Exactness
  import opened Market

  const MINT_A: Address := 10
  const MINT_B: Address := 20

  function SellA(owner: Address, sell: U64, buy: U64, partialFill: bool): Order {
    Offer(owner, MINT_A, MINT_B, sell, buy).(partialFill := partialFill)
  }

  function SellB(owner: Address, sell: U64, buy: U64, partialFill: bool): Order {
    Offer(owner, MINT_B, MINT_A, sell, buy).(partialFill := partialFill)
  }

  // ---------------------------------------------------------------- token A is not conserved

  /** A seller of 100 A for 150 B and a seller of 200 B for 100 A, owned by `x` and `y`. */
  function PerfectOrders(x: Address, y: Address): seq<Order> {
    [SellA(x, 100, 150, true), SellB(y, 200, 100, true)]
  }

  function PerfectBook(x: Address, y: Address): Book {
    Book([SellA(x, 100, 150, true)], [SellB(y, 200, 100, true)])
  }

  lemma {:induction false} PerfectOrdersAreValid(x: Address, y: Address)
    ensures AllValid(PerfectOrders(x, y))
  {
  }

  /** Both perfect orders are filled completely: 100 A is sold, but at the midpoint price 114 A
      is bought. */
  lemma {:induction false} TokenAIsOverDelivered(x: Address, y: Address)
    ensures AllValid(PerfectOrders(x, y))
    ensures var ts := PairOutcome(Machine, MINT_A, MINT_B, PerfectOrders(x, y)).trades;
            SoldIn(ts, MINT_A) == 100 && BoughtIn(ts, MINT_A) == 114
  {
    PerfectOrdersAreValid(x, y);
    var bk := PerfectBook(x, y);
    assert bk.aToB + bk.bToA == PerfectOrders(x, y);
    PairFlows(bk, 100, 150, 200, 100);
    assert Midpoint(Exact, Price(150, 100), Price(100, 200)) == Price(35000, 20000);
  }

  /** What one seller of A (s, b) and one seller of B (t, c) make the engine report for A. */
  lemma {:induction false} PairFlows(bk: Book, s: nat, b: nat, t: nat, c: nat)
    requires PairBook(bk, s, b, t, c) && 0 < c <= s && 0 < t && b * c <= s * t
    requires SmallBook(bk) && TradesPair(MINT_A, MINT_B, bk)
    ensures var ts := PairOutcome(Machine, MINT_A, MINT_B, bk.aToB + bk.bToA).trades;
            && SoldIn(ts, MINT_A) == c && Midpoint(Exact, Price(b, s), Price(c, t)).num > 0
            && BoughtIn(ts, MINT_A) ==
               ClampU64(Apply(Exact, Reciprocal(Midpoint(Exact, Price(b, s), Price(c, t))), t))
  {
    PairSettles(bk, s, b, t, c);
    SalesOfOneSellerOfA(bk, Swept(bk));
    PaymentOfOneSellerOfB(bk, Swept(bk));
    FlowsOfListing(MINT_A, MINT_B, bk);
  }

  lemma {:induction false} SingleEntry(orders: seq<Order>, legs: seq<Leg>, p: Price)
    requires p.den > 0 && |orders| == 1 && |legs| == 1 && legs[0].idx == 0
    ensures TradesOf(Entries(Machine, orders, legs, p)) == [TradeOf(Machine, orders[0], legs[0].sold, p)]
    ensures var t := TradeOf(Machine, orders[0], legs[0].sold, p);
            Sells([t]) == t.executedSell && Buys([t]) == t.executedBuy
  {
    PushLeg([], legs[0], 0);
  }

  // ---------------------------------------------------------------- token B beyond rounding

  /** Sellers of 2 A for 1 B and of 3n A for 2n B, and one seller of 2 B for 3 A. */
  function DustyOrders(x: Address, y: Address, z: Address, n: nat): seq<Order>
    requires 3 * n < AMOUNT_BOUND
  {
    [SellA(x, 2, 1, true), SellA(y, 3 * n, 2 * n, true), SellB(z, 2, 3, true)]
  }

  lemma {:induction false} DustyOrdersAreValid(x: Address, y: Address, z: Address, n: nat)
    requires 0 < n && 3 * n < AMOUNT_BOUND
    ensures AllValid(DustyOrders(x, y, z, n))
  {
  }

  /** The first seller of A leaves one unit of B, which the second buys its 3n A through without
      being paid from it: 1 B is sold and 2n + 1 B handed out, for three orders. */
  lemma {:induction false} TokenBIsOverDelivered(x: Address, y: Address, z: Address, n: nat)
    requires 0 < n && 3 * n < AMOUNT_BOUND
    ensures AllValid(DustyOrders(x, y, z, n))
    ensures var ts := PairOutcome(Machine, MINT_A, MINT_B, DustyOrders(x, y, z, n)).trades;
            SoldIn(ts, MINT_B) == 1 && BoughtIn(ts, MINT_B) == 2 * n + 1
  {
    DustyOrdersAreValid(x, y, z, n);
    var orders := DustyOrders(x, y, z, n);
    DustyFlows(Book([orders[0], orders[1]], [orders[2]]), 2, 3, n);
    assert [orders[0], orders[1]] + [orders[2]] == orders;
  }

  lemma {:induction false} DustyFlows(bk: Book, t: nat, c: nat, n: nat)
    requires t == 2 && c == 3 && FineBook(bk, t, c, 1, n) && 0 < n && SmallBook(bk)
    requires TradesPair(MINT_A, MINT_B, bk)
    ensures var ts := PairOutcome(Machine, MINT_A, MINT_B, bk.aToB + bk.bToA).trades;
            SoldIn(ts, MINT_B) == t - 1 && BoughtIn(ts, MINT_B) == t - 1 + n * t
  {
    FineBookOverDelivers(bk, t, c, 1, n);
    FlowsOfListing(MINT_A, MINT_B, bk);
  }

  // ---------------------------------------------------------------- limits at the u64 edge

  /** Amounts near 2^64: a small seller of A, a fill-or-kill seller that is passed over but
      sets the price, and a seller of B asking 2 A per B. */
  function EdgeOrders(x: Address, y: Address, z: Address): seq<Order> {
    [SellA(x, 3, 1, true), SellA(y, U64_MAX, 0x6666_6666_6666_6666, false),
     SellB(z, 0x7FFF_FFFF_FFFF_FFFF, U64_MAX, true)]
  }

  function EdgeBook(x: Address, y: Address, z: Address): Book {
    Book([SellA(x, 3, 1, true), SellA(y, U64_MAX, 0x6666_6666_6666_6666, false)],
         [SellB(z, 0x7FFF_FFFF_FFFF_FFFF, U64_MAX, true)])
  }

  function EdgeBookSwept(): State {
    State(2, 0, [0, U64_MAX], [0x7FFF_FFFF_FFFF_FFFE], [Leg(0, 3, 1)], [Leg(0, 1, 3)], Some(Crossing(1, 0)))
  }

  lemma {:induction false} SweepOfEdgeBook(x: Address, y: Address, z: Address)
    ensures Swept(EdgeBook(x, y, z)) == EdgeBookSwept()
  {
    var bk := EdgeBook(x, y, z);
    var s0 := Start(bk);
    OneStep(Machine, bk, s0, Fill(3, 1));
  }

  lemma {:induction false} EdgeBookSettles(x: Address, y: Address, z: Address)
    ensures Swept(EdgeBook(x, y, z)) == EdgeBookSwept()
    ensures SortedBook(EdgeBook(x, y, z)) && HasFills(EdgeBook(x, y, z), EdgeBookSwept())
  {
    SweepOfEdgeBook(x, y, z);
  }

  /** At the saturated price of the edge book one unit of B brings one unit of A. */
  lemma {:induction false} EdgePrice(p: Price, q: Price, ob: Order)
    requires p == Price(0x6666_6666_6666_6666, U64_MAX) && q == Price(U64_MAX, 0x7FFF_FFFF_FFFF_FFFF)
    requires ob.LimitPrice() == q
    ensures !ReciprocalSafe(p, q)
    ensures Reciprocal(Midpoint(Machine, p, q)).den > 0
    ensures !RespectsLimit(TradeOf(Machine, ob, 1, Reciprocal(Midpoint(Machine, p, q))))
  {
  }

  lemma {:induction false} EdgeOrdersAreValid(x: Address, y: Address, z: Address)
    ensures AllValid(EdgeOrders(x, y, z))
  {
  }

  /** The seller of B in the edge market sells 1 B and receives 1 A, below its limit of 2 A: the
      guard is needed. */
  lemma {:induction false} SellerOfBCanMissItsLimit(x: Address, y: Address, z: Address)
    ensures AllValid(EdgeOrders(x, y, z))
    ensures exists t :: t in PairOutcome(Machine, MINT_A, MINT_B, EdgeOrders(x, y, z)).trades && !RespectsLimit(t)
  {
    EdgeOrdersAreValid(x, y, z);
    EdgeBookSettles(x, y, z);
    var bk, s := EdgeBook(x, y, z), EdgeBookSwept();
    assert bk.aToB + bk.bToA == EdgeOrders(x, y, z);
    BookOfListing(MINT_A, MINT_B, bk);
    EdgePrice(bk.aToB[1].LimitPrice(), bk.bToA[0].LimitPrice(), bk.bToA[0]);
    var t := TradeOfOnlySellerOfB(EdgeOrders(x, y, z), bk, s);
  }

  lemma {:induction false} TradeOfOnlySellerOfB(orders: seq<Order>, bk: Book, s: State) returns (t: Trade)
    requires BookOf(MINT_A, MINT_B, orders) == bk && s == Swept(bk) && HasFills(bk, s) && |bk.bToA| == 1
    requires |s.fillsBa| == 1
    ensures t == TradeOf(Machine, bk.bToA[0], s.fillsBa[0].sold, Reciprocal(PriceOfA(Machine, bk, s)))
    ensures t in PairOutcome(Machine, MINT_A, MINT_B, orders).trades
  {
    OutcomeOfBook(Machine, MINT_A, MINT_B, orders);
    SingleEntry(bk.bToA, s.fillsBa, Reciprocal(PriceOfA(Machine, bk, s)));
    t := TradeOf(Machine, bk.bToA[0], s.fillsBa[0].sold, Reciprocal(PriceOfA(Machine, bk, s)));
    assert TradesOfB(Machine, bk, s) == [t];
  }

  // ---------------------------------------------------------------- arrival order and ties

  lemma {:induction false} OneFillTrades(orders: seq<Order>, leg: Leg, p: Price) returns (t: Trade)
    requires p.den > 0 && |orders| == 2 && leg.idx == 0
    ensures TradesOf(Entries(Machine, orders, [leg], p)) == [t] && OrderOf(t) == orders[0]
  {
    var es := Entries(Machine, orders, [leg], p);
    PushLeg([], leg, 1);
    t := es[0].trade;
    assert TradesOf(Init(es)) == [t];
  }

  /** Two equally priced sellers of A and one seller of B with room for only the first. */
  function TiedOrders(first: Address, second: Address): seq<Order> {
    [SellA(first, 2, 1, true), SellA(second, 2, 1, true), SellB(3, 1, 2, true)]
  }

  function TiedBook(first: Address, second: Address): Book {
    Book([SellA(first, 2, 1, true), SellA(second, 2, 1, true)], [SellB(3, 1, 2, true)])
  }

  lemma {:induction false} BookOfTiedOrders(first: Address, second: Address)
    ensures BookOf(MINT_A, MINT_B, TiedOrders(first, second)) == TiedBook(first, second)
  {
    var bk := TiedBook(first, second);
    assert bk.aToB + bk.bToA == TiedOrders(first, second);
    BookOfListing(MINT_A, MINT_B, bk);
  }

  lemma {:induction false} SweepOfTiedBook(first: Address, second: Address)
    ensures Swept(TiedBook(first, second)) ==
            State(1, 1, [0, 2], [0], [Leg(0, 2, 1)], [Leg(0, 1, 2)], Some(Crossing(0, 0)))
  {
    var bk := TiedBook(first, second);
    var s0 := Start(bk);
    OneStep(Machine, bk, s0, Fill(2, 1));
  }

  lemma {:induction false} TradesOfTiedMarket(first: Address, second: Address) returns (t: Trade, u: Trade)
    ensures PairOutcome(Machine, MINT_A, MINT_B, TiedOrders(first, second)).trades == [t, u]
    ensures OrderOf(t) == SellA(first, 2, 1, true) && OrderOf(u) == SellB(3, 1, 2, true)
  {
    var bk := TiedBook(first, second);
    BookOfTiedOrders(first, second);
    OutcomeOfBook(Machine, MINT_A, MINT_B, TiedOrders(first, second));
    SweepOfTiedBook(first, second);
    t, u := TradesOfTiedBook(bk, Swept(bk));
  }

  lemma {:induction false} TradesOfTiedBook(bk: Book, s: State) returns (t: Trade, u: Trade)
    requires HasFills(bk, s) && |bk.aToB| == 2 && |bk.bToA| == 1
    requires s.fillsAb == [Leg(0, 2, 1)] && s.fillsBa == [Leg(0, 1, 2)]
    ensures TradesOfA(Machine, bk, s) + TradesOfB(Machine, bk, s) == [t, u]
    ensures OrderOf(t) == bk.aToB[0] && OrderOf(u) == bk.bToA[0]
  {
    var p := PriceOfA(Machine, bk, s);
    t := OneFillTrades(bk.aToB, Leg(0, 2, 1), p);
    SingleEntry(bk.bToA, [Leg(0, 1, 2)], Reciprocal(p));
    u := TradeOf(Machine, bk.bToA[0], 1, Reciprocal(p));
  }

  lemma {:induction false} TiedOrdersAreValid(first: Address, second: Address)
    ensures AllValid(TiedOrders(first, second))
  {
  }

  lemma {:induction false} SwappedTies(first: Address, second: Address)
    ensures multiset(TiedOrders(first, second)) == multiset(TiedOrders(second, first))
  {
  }

  /** Among equally priced orders the arrival order decides who trades. */
  lemma {:induction false} TiesAreBrokenByArrival(first: Address, second: Address)
    requires first != second
    ensures AllValid(TiedOrders(first, second))
    ensures multiset(TiedOrders(first, second)) == multiset(TiedOrders(second, first))
    ensures multiset(PairOutcome(Machine, MINT_A, MINT_B, TiedOrders(first, second)).trades)
            != multiset(PairOutcome(Machine, MINT_A, MINT_B, TiedOrders(second, first)).trades)
  {
    TiedOrdersAreValid(first, second);
    SwappedTies(first, second);
    var t, u := TradesOfTiedMarket(first, second);
    var t', u' := TradesOfTiedMarket(second, first);
  }
}
