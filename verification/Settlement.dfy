/** What `match_pair` reports: the specification of its outcome. */
module Settlement {
  import opened Numbers
  import opened Prices
  import opened Orders
  import opened Sorting
  import opened Sweep
  import opened BookCrossing
  import opened ClearingPrices

  datatype Outcome = Outcome(clearing: seq<ClearingPrice>, trades: seq<Trade>, surplus: nat)

  const NO_OUTCOME := Outcome([], [], 0)

  function Filter(s: seq<Order>, f: Order -> bool): seq<Order> {
    if s == [] then []
    else if f(Last(s)) then Filter(Init(s), f) + [Last(s)]
    else Filter(Init(s), f)
  }

  predicate IsAToB(tokenA: Address, tokenB: Address, o: Order) {
    o.sellMint == tokenA && o.buyMint == tokenB
  }

  /** The `else if` of the split: only what the first direction did not take. */
  predicate IsBToA(tokenA: Address, tokenB: Address, o: Order) {
    !IsAToB(tokenA, tokenB, o) && o.sellMint == tokenB && o.buyMint == tokenA
  }

  function SellersOfA(tokenA: Address, tokenB: Address, orders: seq<Order>): seq<Order> {
    Filter(orders, o => IsAToB(tokenA, tokenB, o))
  }

  function SellersOfB(tokenA: Address, tokenB: Address, orders: seq<Order>): seq<Order> {
    Filter(orders, o => IsBToA(tokenA, tokenB, o))
  }

  function BookOf(tokenA: Address, tokenB: Address, orders: seq<Order>): Book {
    Book(SortByLimitPrice(SellersOfA(tokenA, tokenB, orders)),
         SortByLimitPrice(SellersOfB(tokenA, tokenB, orders)))
  }

  /** The trade reported for an order that sold `sold` at price `p`. */
  function TradeOf(m: Arith, o: Order, sold: nat, p: Price): Trade
    requires p.den > 0
  {
    Trade(o.Id(), ClampU64(sold), ClampU64(Apply(m, p, sold)))
  }

  /** What the trade brings beyond the order's limit. */
  function Gain(m: Arith, o: Order, sold: nat, p: Price): nat
    requires p.den > 0
  {
    Monus(Apply(m, p, sold), Apply(m, o.LimitPrice(), sold))
  }

  /** One order of a side, priced: whether it has a fill, and what it then reports. */
  datatype Entry = Entry(traded: bool, trade: Trade, gain: nat)

  function EntryOf(m: Arith, o: Order, fills: nat, sold: nat, p: Price): Entry
    requires p.den > 0
  {
    Entry(fills > 0, TradeOf(m, o, sold, p), Gain(m, o, sold, p))
  }

  /** `es` is one side, priced order by order. */
  ghost predicate AreEntries(es: seq<Entry>, m: Arith, orders: seq<Order>, legs: seq<Leg>, p: Price)
    requires p.den > 0
  {
    && |es| == |orders|
    && forall k {:trigger EntryOf(m, orders[k], FillsOf(legs, k), SoldBy(legs, k), p)} ::
         0 <= k < |orders| ==> es[k] == EntryOf(m, orders[k], FillsOf(legs, k), SoldBy(legs, k), p)
  }

  function Entries(m: Arith, orders: seq<Order>, legs: seq<Leg>, p: Price): (es: seq<Entry>)
    requires p.den > 0
    ensures AreEntries(es, m, orders, legs, p)
  {
    seq(|orders|, k requires 0 <= k < |orders| => EntryOf(m, orders[k], FillsOf(legs, k), SoldBy(legs, k), p))
  }

  /** The trades of one side, in book order. */
  function TradesOf(es: seq<Entry>): seq<Trade> {
    if es == [] then []
    else if Last(es).traded then TradesOf(Init(es)) + [Last(es).trade]
    else TradesOf(Init(es))
  }

  function SurplusOf(es: seq<Entry>): nat {
    if es == [] then 0 else SurplusOf(Init(es)) + if Last(es).traded then Last(es).gain else 0
  }

  /** A settled book: the final state of the loop, with at least one fill. */
  ghost predicate HasFills(bk: Book, s: State) {
    Inv(bk, s) && s.fillsAb != []
  }

  /** B per A, from the last crossing pair. */
  ghost function PriceOfA(m: Arith, bk: Book, s: State): (p: Price)
    requires HasFills(bk, s)
    ensures p.num > 0 && p.den > 0
  {
    Midpoint(m, bk.aToB[s.lastCross.value.a].LimitPrice(), bk.bToA[s.lastCross.value.b].LimitPrice())
  }

  ghost function EntriesOfA(m: Arith, bk: Book, s: State): seq<Entry>
    requires HasFills(bk, s)
  {
    Entries(m, bk.aToB, s.fillsAb, PriceOfA(m, bk, s))
  }

  ghost function EntriesOfB(m: Arith, bk: Book, s: State): seq<Entry>
    requires HasFills(bk, s)
  {
    Entries(m, bk.bToA, s.fillsBa, Reciprocal(PriceOfA(m, bk, s)))
  }

  ghost function TradesOfA(m: Arith, bk: Book, s: State): seq<Trade>
    requires HasFills(bk, s)
  {
    TradesOf(EntriesOfA(m, bk, s))
  }

  ghost function TradesOfB(m: Arith, bk: Book, s: State): seq<Trade>
    requires HasFills(bk, s)
  {
    TradesOf(EntriesOfB(m, bk, s))
  }

  /** The sum of all per-order gains. */
  ghost function TotalSurplus(m: Arith, bk: Book, s: State): nat
    requires HasFills(bk, s)
  {
    SurplusOf(EntriesOfA(m, bk, s)) + SurplusOf(EntriesOfB(m, bk, s))
  }

  /** What a market reports for its priced sides at `p` B per A. */
  function Report(m: Arith, tokenA: Address, tokenB: Address, p: Price, a: seq<Entry>, b: seq<Entry>): Outcome {
    Outcome([ClearingPrice(tokenA, Reciprocal(p)), ClearingPrice(tokenB, p)],
            TradesOf(a) + TradesOf(b),
            Saturate(m, SurplusOf(a) + SurplusOf(b)))
  }

  ghost function Settle(m: Arith, tokenA: Address, tokenB: Address, bk: Book, s: State): Outcome
    requires HasFills(bk, s)
  {
    Report(m, tokenA, tokenB, PriceOfA(m, bk, s), EntriesOfA(m, bk, s), EntriesOfB(m, bk, s))
  }

  lemma {:induction false} FinalStateFacts(m: Arith, bk: Book)
    ensures Run(m, bk, Start(bk)) == Swept(bk)
    ensures Inv(bk, Run(m, bk, Start(bk)))
  {
    SweptHasInv(bk);
  }

  /** The outcome of a market, trades listed in book order. */
  ghost function PairOutcome(m: Arith, tokenA: Address, tokenB: Address, orders: seq<Order>): Outcome {
    var bk := BookOf(tokenA, tokenB, orders);
    FinalStateFacts(m, bk);
    var s := Run(m, bk, Start(bk));
    if s.fillsAb == [] then NO_OUTCOME else Settle(m, tokenA, tokenB, bk, s)
  }

  /** The outcome in terms of the state the program's loop leaves, in either arithmetic. */
  lemma {:induction false} OutcomeOfBook(m: Arith, tokenA: Address, tokenB: Address, orders: seq<Order>)
    ensures var bk := BookOf(tokenA, tokenB, orders);
            && Inv(bk, Swept(bk))
            && PairOutcome(m, tokenA, tokenB, orders) ==
               (if Swept(bk).fillsAb == [] then NO_OUTCOME else Settle(m, tokenA, tokenB, bk, Swept(bk)))
    ensures SellersOfA(tokenA, tokenB, orders) == [] || SellersOfB(tokenA, tokenB, orders) == [] ==>
              PairOutcome(m, tokenA, tokenB, orders) == NO_OUTCOME
  {
    FinalStateFacts(m, BookOf(tokenA, tokenB, orders));
  }

  lemma {:induction false} BookIsSorted(tokenA: Address, tokenB: Address, orders: seq<Order>)
    ensures SortedBook(BookOf(tokenA, tokenB, orders))
  {
    SortSorts(SellersOfA(tokenA, tokenB, orders));
    SortSorts(SellersOfB(tokenA, tokenB, orders));
  }

  /** The last crossing pair of a settled book, with the facts pricing rests on: the seller
      of B in it is not giving B away. */
  lemma {:induction false} LastCrossFacts(bk: Book, s: State)
    requires SortedBook(bk) && HasFills(bk, s)
    ensures CrossingLimits(bk.aToB[s.lastCross.value.a].LimitPrice(), bk.bToA[s.lastCross.value.b].LimitPrice())
  {
    var c := s.lastCross.value;
    assert AtBookRatio(bk.bToA[s.fillsBa[0].idx], s.fillsAb[0].sold, s.fillsAb[0].bought);
    var j := s.fillsBa[0].idx;
    if j < c.b {
      FreeOrdersComeFirst(bk.bToA[j].LimitPrice(), bk.bToA[c.b].LimitPrice());
    }
  }

  lemma {:induction false} FreeOrdersComeFirst(q: Price, r: Price)
    requires Le(q, r) && q.num > 0 && r.den > 0
    ensures r.num > 0
  {
    MulMono(1, 1, q.num, r.den);
    assert 0 * q.den == 0;
  }

  lemma {:induction false} FillsAreBehindTheCross(bk: Book, s: State, k: nat)
    requires HasFills(bk, s)
    ensures s.lastCross.Some? && s.lastCross.value.a < |bk.aToB| && s.lastCross.value.b < |bk.bToA|
    ensures FillsOf(s.fillsAb, k) > 0 ==> k <= s.lastCross.value.a
    ensures FillsOf(s.fillsBa, k) > 0 ==> k <= s.lastCross.value.b
  {
    FillsOfPositive(s.fillsAb, k);
    FillsOfPositive(s.fillsBa, k);
  }

  /** Every order that traded is limited no dearer than the last crossing order of its side. */
  lemma {:induction false} TradedIsNoDearerThanLastCross(bk: Book, s: State, k: nat)
    requires SortedBook(bk) && HasFills(bk, s)
    ensures FillsOf(s.fillsAb, k) > 0 ==>
              k < |bk.aToB| && Le(bk.aToB[k].LimitPrice(), bk.aToB[s.lastCross.value.a].LimitPrice())
    ensures FillsOf(s.fillsBa, k) > 0 ==>
              k < |bk.bToA| && Le(bk.bToA[k].LimitPrice(), bk.bToA[s.lastCross.value.b].LimitPrice())
  {
    FillsAreBehindTheCross(bk, s, k);
  }

  // ---------------------------------------------------------------- individual rationality

  /** The trade gives the order at least its limit on what it sells. */
  predicate RespectsLimit(t: Trade) {
    Apply(Exact, t.orderId.preimage.LimitPrice(), t.executedSell) <= t.executedBuy
  }

  lemma {:induction false} LimitNeverPaysMoreThanBuyAmount(o: Order, sold: nat)
    requires sold <= o.sellAmount
    ensures Apply(Exact, o.LimitPrice(), sold) <= o.buyAmount
    ensures sold * o.LimitPrice().num <= U128_MAX
    ensures sold == o.sellAmount && sold > 0 ==> Apply(Exact, o.LimitPrice(), sold) == o.buyAmount
  {
    var p := o.LimitPrice();
    U64ProductFits(sold, p.num);
    MulMono(sold, p.num, p.den, p.num);
    LimitOfWhole(sold, p.num, p.den);
  }

  lemma {:induction false} LimitOfWhole(sold: nat, num: nat, den: nat)
    requires den > 0 && sold * num <= den * num
    ensures sold * num / den <= num
    ensures sold == den ==> sold * num / den == num
  {
    assert (num + 1) * den == den * num + den;
    FloorBelow(num + 1, sold * num, den);
    if sold == den {
      FloorAtLeast(num, sold * num, den);
    }
  }

  lemma {:induction false} AskIsCovered(o: Order, p: Price, q: Price, sold: nat)
    requires CrossingLimits(p, q) && Le(o.LimitPrice(), p) && sold <= o.sellAmount
    ensures Apply(Machine, o.LimitPrice(), sold) <= Apply(Machine, Midpoint(Machine, p, q), sold)
    ensures RespectsLimit(TradeOf(Machine, o, sold, Midpoint(Machine, p, q)))
  {
    LimitNeverPaysMoreThanBuyAmount(o, sold);
    ApplyMono(Exact, o.LimitPrice(), sold, p, sold);
    ClearingCoversTheAsk(p, q, sold);
  }

  /** The clamps of a trade do not affect whether it respects its limit. */
  lemma {:induction false} RespectsLimitIff(o: Order, sold: nat, r: Price)
    requires r.den > 0 && sold <= o.sellAmount
    ensures RespectsLimit(TradeOf(Machine, o, sold, r)) <==>
            Apply(Exact, o.LimitPrice(), sold) <= Apply(Machine, r, sold)
  {
    LimitNeverPaysMoreThanBuyAmount(o, sold);
  }

  lemma {:induction false} BidIsCoveredIff(o: Order, p: Price, q: Price, sold: nat)
    requires CrossingLimits(p, q) && Le(o.LimitPrice(), q) && sold <= o.sellAmount
    ensures var r := Reciprocal(Midpoint(Machine, p, q));
            && Apply(Machine, o.LimitPrice(), sold) == Apply(Exact, o.LimitPrice(), sold)
            && (RespectsLimit(TradeOf(Machine, o, sold, r)) <==> AmountSafe(p, q, o.LimitPrice(), sold))
            && (RespectsLimit(TradeOf(Machine, o, sold, r)) <==>
                Apply(Exact, o.LimitPrice(), sold) <= Apply(Machine, r, sold))
  {
    LimitNeverPaysMoreThanBuyAmount(o, sold);
    ReciprocalCoversIff(p, q, o.LimitPrice(), sold);
    RespectsLimitIff(o, sold, Reciprocal(Midpoint(Machine, p, q)));
  }

  /** No order sells more than it offered. */
  lemma {:induction false} SoldWithinOffer(bk: Book, s: State, k: nat)
    requires Ledger(bk, s)
    ensures k < |bk.aToB| ==> SoldBy(s.fillsAb, k) <= bk.aToB[k].sellAmount
    ensures k < |bk.bToA| ==> SoldBy(s.fillsBa, k) <= bk.bToA[k].sellAmount
  {
  }

  /** A→B: every trade respects the seller's limit, for all u64 amounts, wherever the last
      crossing pair came from; so the guarded surplus term is never dropped. */
  lemma {:induction false} SellersOfAGetTheirLimit(bk: Book, s: State, k: nat)
    requires SortedBook(bk) && HasFills(bk, s) && FillsOf(s.fillsAb, k) > 0
    ensures k < |bk.aToB|
    ensures var sold, p := SoldBy(s.fillsAb, k), PriceOfA(Machine, bk, s);
            && Apply(Machine, bk.aToB[k].LimitPrice(), sold) <= Apply(Machine, p, sold)
            && RespectsLimit(TradeOf(Machine, bk.aToB[k], sold, p))
  {
    LastCrossFacts(bk, s);
    TradedIsNoDearerThanLastCross(bk, s, k);
    var c := s.lastCross.value;
    AskIsCovered(bk.aToB[k], bk.aToB[c.a].LimitPrice(), bk.bToA[c.b].LimitPrice(), SoldBy(s.fillsAb, k));
  }

  /** The guard for the seller of B at `k`, in terms of the last crossing pair. */
  ghost predicate SellerOfBSafe(bk: Book, s: State, k: nat)
    requires HasFills(bk, s) && k < |bk.bToA|
  {
    AmountSafe(bk.aToB[s.lastCross.value.a].LimitPrice(), bk.bToA[s.lastCross.value.b].LimitPrice(),
               bk.bToA[k].LimitPrice(), SoldBy(s.fillsBa, k))
  }

  /** B→A: a trade respects the seller's limit if and only if it sells more than one unit, or
      the price denominator did not saturate, or the saturated unit price still covers the
      limit; the surplus guard drops a term only where the limit is missed. */
  lemma {:induction false} SellersOfBGetTheirLimitIff(bk: Book, s: State, k: nat)
    requires SortedBook(bk) && HasFills(bk, s) && FillsOf(s.fillsBa, k) > 0
    ensures k < |bk.bToA|
    ensures var sold, r := SoldBy(s.fillsBa, k), Reciprocal(PriceOfA(Machine, bk, s));
            && (RespectsLimit(TradeOf(Machine, bk.bToA[k], sold, r)) <==> SellerOfBSafe(bk, s, k))
            && (Apply(Machine, bk.bToA[k].LimitPrice(), sold) <= Apply(Machine, r, sold) <==> SellerOfBSafe(bk, s, k))
  {
    LastCrossFacts(bk, s);
    TradedIsNoDearerThanLastCross(bk, s, k);
    var c := s.lastCross.value;
    BidIsCoveredIff(bk.bToA[k], bk.aToB[c.a].LimitPrice(), bk.bToA[c.b].LimitPrice(), SoldBy(s.fillsBa, k));
  }

  /** The guard under which no seller of B is short-changed, whatever it sells. */
  ghost predicate SafeReciprocal(bk: Book, s: State)
    requires HasFills(bk, s)
  {
    ReciprocalSafe(bk.aToB[s.lastCross.value.a].LimitPrice(), bk.bToA[s.lastCross.value.b].LimitPrice())
  }

  lemma {:induction false} SellersOfBGetTheirLimit(bk: Book, s: State, k: nat)
    requires SortedBook(bk) && HasFills(bk, s) && SafeReciprocal(bk, s) && FillsOf(s.fillsBa, k) > 0
    ensures k < |bk.bToA|
    ensures RespectsLimit(TradeOf(Machine, bk.bToA[k], SoldBy(s.fillsBa, k), Reciprocal(PriceOfA(Machine, bk, s))))
  {
    SellersOfBGetTheirLimitIff(bk, s, k);
    TradedIsNoDearerThanLastCross(bk, s, k);
    var c := s.lastCross.value;
    SafePairIsSafe(bk.aToB[c.a].LimitPrice(), bk.bToA[c.b].LimitPrice(),
                   bk.bToA[k].LimitPrice(), SoldBy(s.fillsBa, k));
  }
}
