/** What flows between the two sides of a settled market, over unbounded arithmetic. */
module Conservation {
  import opened Numbers
  import opened Prices
  import opened Orders
  import opened Sorting
  import opened Sweep
  import opened BookCrossing
  import opened ClearingPrices
  import opened Settlement

  function SumTo(n: nat, f: nat -> nat): nat {
    if n == 0 then 0 else SumTo(n - 1, f) + f(n - 1)
  }

  lemma {:induction false} SumToBump(n: nat, f: nat -> nat, g: nat -> nat, i: nat, v: nat)
    requires forall k: nat :: k < n ==> g(k) == f(k) + if k == i then v else 0
    ensures SumTo(n, g) == SumTo(n, f) + if i < n then v else 0
  {
    if n > 0 {
      SumToBump(n - 1, f, g, i, v);
    }
  }

  lemma {:induction false} SumToZero(n: nat, f: nat -> nat)
    requires forall k: nat :: k < n ==> f(k) == 0
    ensures SumTo(n, f) == 0
  {
    if n > 0 {
      SumToZero(n - 1, f);
    }
  }

  function LegsSold(legs: seq<Leg>): nat {
    if legs == [] then 0 else LegsSold(Init(legs)) + Last(legs).sold
  }

  function LegsBought(legs: seq<Leg>): nat {
    if legs == [] then 0 else LegsBought(Init(legs)) + Last(legs).bought
  }

  /** Summing per order counts every fill once. */
  lemma {:induction false} TotalsPerOrder(legs: seq<Leg>, n: nat)
    requires forall x :: 0 <= x < |legs| ==> legs[x].idx < n
    ensures SumTo(n, k => SoldBy(legs, k)) == LegsSold(legs)
    ensures SumTo(n, k => BoughtBy(legs, k)) == LegsBought(legs)
    ensures SumTo(n, k => FillsOf(legs, k)) == |legs|
  {
    if legs == [] {
      SumToZero(n, k => SoldBy(legs, k));
      SumToZero(n, k => BoughtBy(legs, k));
      SumToZero(n, k => FillsOf(legs, k));
    } else {
      var rest, leg := Init(legs), Last(legs);
      TotalsPerOrder(rest, n);
      SumToBump(n, k => SoldBy(rest, k), k => SoldBy(legs, k), leg.idx, leg.sold);
      SumToBump(n, k => BoughtBy(rest, k), k => BoughtBy(legs, k), leg.idx, leg.bought);
      SumToBump(n, k => FillsOf(rest, k), k => FillsOf(legs, k), leg.idx, 1);
    }
  }

  lemma {:induction false} MirroredTotals(xs: seq<Leg>, ys: seq<Leg>)
    requires |xs| == |ys|
    requires forall n :: 0 <= n < |xs| ==> xs[n].bought == ys[n].sold
    ensures LegsBought(xs) == LegsSold(ys)
  {
    if xs != [] {
      MirroredTotals(Init(xs), Init(ys));
    }
  }

  function Sells(ts: seq<Trade>): nat {
    if ts == [] then 0 else Sells(ts[..|ts| - 1]) + ts[|ts| - 1].executedSell
  }

  function Buys(ts: seq<Trade>): nat {
    if ts == [] then 0 else Buys(ts[..|ts| - 1]) + ts[|ts| - 1].executedBuy
  }

  lemma {:induction false} PushTrade(ts: seq<Trade>, t: Trade)
    ensures Sells(ts + [t]) == Sells(ts) + t.executedSell
    ensures Buys(ts + [t]) == Buys(ts) + t.executedBuy
  {
    assert (ts + [t])[..|ts|] == ts;
  }

  /** Each order's sales fit its offer. */
  predicate WithinOffers(orders: seq<Order>, legs: seq<Leg>) {
    forall k :: 0 <= k < |orders| ==> SoldBy(legs, k) <= orders[k].sellAmount
  }

  lemma {:induction false} LedgerWithinOffers(bk: Book, s: State)
    requires Ledger(bk, s)
    ensures WithinOffers(bk.aToB, s.fillsAb) && WithinOffers(bk.bToA, s.fillsBa)
  {
  }

  lemma {:induction false} SellsAddUp(es: seq<Entry>, f: nat -> nat)
    requires forall k: nat :: k < |es| ==> f(k) == if es[k].traded then es[k].trade.executedSell else 0
    ensures Sells(TradesOf(es)) == SumTo(|es|, f)
  {
    if es != [] {
      SellsAddUp(Init(es), f);
      PushTrade(TradesOf(Init(es)), Last(es).trade);
      assert f(|es| - 1) == if Last(es).traded then Last(es).trade.executedSell else 0;
    }
  }

  /** The trades report exactly what the fills sold. */
  lemma {:induction false} TradesReportAllSales(m: Arith, orders: seq<Order>, legs: seq<Leg>, p: Price)
    requires p.den > 0 && WithinOffers(orders, legs)
    requires forall n :: 0 <= n < |legs| ==> legs[n].idx < |orders|
    ensures Sells(TradesOf(Entries(m, orders, legs, p))) == LegsSold(legs)
  {
    var es := Entries(m, orders, legs, p);
    forall k: nat | k < |es|
      ensures SoldBy(legs, k) == if es[k].traded then es[k].trade.executedSell else 0
    {
      NoFillsNothingSold(legs, k);
      assert es[k] == EntryOf(m, orders[k], FillsOf(legs, k), SoldBy(legs, k), p);
    }
    SellsAddUp(es, k => SoldBy(legs, k));
    TotalsPerOrder(legs, |orders|);
  }

  // ---------------------------------------------------------------- delivery of token B

  /** Every fill is booked within one unit of what price `p` pays. */
  ghost predicate BookedNear(legs: seq<Leg>, p: Price) {
    forall n {:trigger NearPrice(legs[n], p)} :: 0 <= n < |legs| ==> NearPrice(legs[n], p)
  }

  ghost predicate NearPrice(leg: Leg, p: Price) {
    p.num * leg.sold < p.den * (leg.bought + 1)
  }

  lemma {:induction false} BookedNearAddsUp(legs: seq<Leg>, p: Price, k: nat)
    requires BookedNear(legs, p)
    ensures p.num * SoldBy(legs, k) + FillsOf(legs, k) <= p.den * (BoughtBy(legs, k) + FillsOf(legs, k))
  {
    if legs != [] {
      var rest, leg := Init(legs), Last(legs);
      assert BookedNear(rest, p) by {
        forall n | 0 <= n < |rest| ensures NearPrice(rest[n], p) {
          assert NearPrice(legs[n], p);
        }
      }
      BookedNearAddsUp(rest, p, k);
      assert NearPrice(legs[|legs| - 1], p);
      if leg.idx == k {
        assert p.num * (SoldBy(rest, k) + leg.sold) == p.num * SoldBy(rest, k) + p.num * leg.sold;
        assert p.den * (BoughtBy(rest, k) + leg.bought + FillsOf(rest, k) + 1)
            == p.den * (BoughtBy(rest, k) + FillsOf(rest, k)) + p.den * (leg.bought + 1);
      }
    }
  }

  /** An order is delivered at most what its own fills booked, plus one unit for every fill
      after its first. */
  lemma {:induction false} DeliveryPerOrder(legs: seq<Leg>, p: Price, k: nat)
    requires p.den > 0 && BookedNear(legs, p) && FillsOf(legs, k) > 0
    ensures Apply(Exact, p, SoldBy(legs, k)) + 1 <= BoughtBy(legs, k) + FillsOf(legs, k)
  {
    BookedNearAddsUp(legs, p, k);
    var cap := BoughtBy(legs, k) + FillsOf(legs, k);
    assert SoldBy(legs, k) * p.num < cap * p.den;
    FloorBelow(cap, SoldBy(legs, k) * p.num, p.den);
  }

  lemma {:induction false} DeliveriesAddUp(es: seq<Entry>, f: nat -> nat, g: nat -> nat)
    requires forall k: nat :: k < |es| && es[k].traded ==> es[k].trade.executedBuy + 1 <= f(k) + g(k)
    ensures Buys(TradesOf(es)) + |TradesOf(es)| <= SumTo(|es|, f) + SumTo(|es|, g)
  {
    if es != [] {
      DeliveriesAddUp(Init(es), f, g);
      PushTrade(TradesOf(Init(es)), Last(es).trade);
      assert Last(es).traded ==> es[|es| - 1].trade.executedBuy + 1 <= f(|es| - 1) + g(|es| - 1);
    }
  }

  lemma {:induction false} DeliveryOfSide(orders: seq<Order>, legs: seq<Leg>, p: Price)
    requires p.den > 0 && BookedNear(legs, p)
    requires forall n :: 0 <= n < |legs| ==> legs[n].idx < |orders|
    ensures var ts := TradesOf(Entries(Exact, orders, legs, p));
            Buys(ts) + |ts| <= LegsBought(legs) + |legs|
  {
    var es := Entries(Exact, orders, legs, p);
    forall k: nat | k < |es| && es[k].traded
      ensures es[k].trade.executedBuy + 1 <= BoughtBy(legs, k) + FillsOf(legs, k)
    {
      assert es[k] == EntryOf(Exact, orders[k], FillsOf(legs, k), SoldBy(legs, k), p);
      DeliveryPerOrder(legs, p, k);
    }
    DeliveriesAddUp(es, k => BoughtBy(legs, k), k => FillsOf(legs, k));
    TotalsPerOrder(legs, |orders|);
  }

  /** The clearing price never exceeds the inverse limit of a filled seller of B. */
  lemma {:induction false} FilledLimitIsCovered(bk: Book, s: State, n: nat)
    requires SortedBook(bk) && HasFills(bk, s) && n < |s.fillsAb|
    ensures Le(bk.bToA[s.fillsBa[n].idx].LimitPrice(), Reciprocal(PriceOfA(Exact, bk, s)))
  {
    LastCrossFacts(bk, s);
    var c, j := s.lastCross.value, s.fillsBa[n].idx;
    MidpointIsBetweenLimits(bk.aToB[c.a].LimitPrice(), bk.bToA[c.b].LimitPrice());
    FillsOfPositive(s.fillsBa, j);
    TradedIsNoDearerThanLastCross(bk, s, j);
    LeTransitive(bk.bToA[j].LimitPrice(), bk.bToA[c.b].LimitPrice(), Reciprocal(PriceOfA(Exact, bk, s)));
  }

  /** So every fill is booked within one unit of the clearing price. */
  lemma {:induction false} FillsAreBookedNearThePrice(bk: Book, s: State)
    requires SortedBook(bk) && HasFills(bk, s)
    ensures BookedNear(s.fillsAb, PriceOfA(Exact, bk, s))
  {
    var p := PriceOfA(Exact, bk, s);
    forall n | 0 <= n < |s.fillsAb| ensures NearPrice(s.fillsAb[n], p) {
      var ob := bk.bToA[s.fillsBa[n].idx];
      assert AtBookRatio(ob, s.fillsAb[n].sold, s.fillsAb[n].bought);
      FilledLimitIsCovered(bk, s, n);
      BookedWithinOneUnit(ob, s.fillsAb[n].sold, s.fillsAb[n].bought, p);
    }
  }

  lemma {:induction false} BookedWithinOneUnit(ob: Order, tradeA: nat, tradeB: nat, p: Price)
    requires AtBookRatio(ob, tradeA, tradeB) && p.num > 0 && p.den > 0
    requires Le(ob.LimitPrice(), Reciprocal(p))
    ensures p.num * tradeA < p.den * (tradeB + 1)
  {
    FloorBounds(tradeA * ob.sellAmount, ob.buyAmount);
    CrossMultiplied(p.num, p.den, tradeA, tradeB + 1, ob.buyAmount, ob.sellAmount);
  }

  lemma {:induction false} CrossMultiplied(n: nat, d: nat, a: nat, b: nat, c: nat, t: nat)
    requires d > 0 && a * t < b * c && c * n <= d * t
    ensures n * a < d * b
  {
    MulMono(a, c * n, a, d * t);
    assert (n * a) * c == a * (c * n) && a * (d * t) == d * (a * t);
    StrictlyMore(a * t, b * c, d);
    assert (b * c) * d == (d * b) * c;
    CancelLt(n * a, d * b, c);
  }

  /** Token B is never over-delivered beyond rounding: the B bought exceeds the B sold by at
      most the fills that were not the first of their A→B order. */
  lemma {:induction false} NoOverDeliveryOfB(bk: Book, s: State)
    requires SortedBook(bk) && HasFills(bk, s)
    ensures Buys(TradesOfA(Exact, bk, s)) + |TradesOfA(Exact, bk, s)|
            <= Sells(TradesOfB(Exact, bk, s)) + |s.fillsAb|
  {
    FillsAreBookedNearThePrice(bk, s);
    LedgerWithinOffers(bk, s);
    var p := PriceOfA(Exact, bk, s);
    DeliveryOfSide(bk.aToB, s.fillsAb, p);
    MirroredTotals(s.fillsAb, s.fillsBa);
    TradesReportAllSales(Exact, bk.bToA, s.fillsBa, Reciprocal(p));
  }

  /** The amount of B that one unit of A fetches at the order's own ratio is whole. */
  predicate WholeRatio(ob: Order) {
    ob.buyAmount > 0 ==> ob.sellAmount % ob.buyAmount == 0
  }

  /** The fill is booked at no less than what price `p` pays. */
  ghost predicate PaidInFull(leg: Leg, p: Price) {
    p.num * leg.sold <= p.den * leg.bought
  }

  lemma {:induction false} BookedInFullAddsUp(legs: seq<Leg>, p: Price, k: nat)
    requires forall n {:trigger PaidInFull(legs[n], p)} ::
               0 <= n < |legs| && legs[n].idx == k ==> PaidInFull(legs[n], p)
    ensures p.num * SoldBy(legs, k) <= p.den * BoughtBy(legs, k)
  {
    if legs == [] {
      assert p.num * 0 == 0;
    } else {
      var rest, leg := Init(legs), Last(legs);
      forall n | 0 <= n < |rest| && rest[n].idx == k ensures PaidInFull(rest[n], p) {
        assert PaidInFull(legs[n], p);
      }
      BookedInFullAddsUp(rest, p, k);
      assert leg.idx == k ==> PaidInFull(legs[|legs| - 1], p);
      Distribute(p.num, SoldBy(rest, k), leg.sold);
      Distribute(p.den, BoughtBy(rest, k), leg.bought);
    }
  }

  /** What is paid in full is not exceeded by pricing the sum. */
  lemma {:induction false} FullPaymentCaps(p: Price, sold: nat, booked: nat)
    requires p.den > 0 && p.num * sold <= p.den * booked
    ensures Apply(Exact, p, sold) <= booked
  {
    FloorBelow(booked + 1, sold * p.num, p.den);
    Distribute(p.den, booked, 1);
  }

  lemma {:induction false} FullPaymentsAddUp(es: seq<Entry>, f: nat -> nat)
    requires forall k: nat :: k < |es| && es[k].traded ==> es[k].trade.executedBuy <= f(k)
    ensures Buys(TradesOf(es)) <= SumTo(|es|, f)
  {
    if es != [] {
      FullPaymentsAddUp(Init(es), f);
      PushTrade(TradesOf(Init(es)), Last(es).trade);
      assert Last(es).traded ==> es[|es| - 1].trade.executedBuy <= f(|es| - 1);
    }
  }

  /** A side whose orders are each paid no more than their fills booked receives no more than
      was booked. */
  lemma {:induction false} PaymentsOfSide(orders: seq<Order>, legs: seq<Leg>, p: Price)
    requires p.den > 0
    requires forall k: nat {:trigger SoldBy(legs, k)} :: Apply(Exact, p, SoldBy(legs, k)) <= BoughtBy(legs, k)
    requires forall n :: 0 <= n < |legs| ==> legs[n].idx < |orders|
    ensures Buys(TradesOf(Entries(Exact, orders, legs, p))) <= LegsBought(legs)
  {
    var es := Entries(Exact, orders, legs, p);
    forall k: nat | k < |es| && es[k].traded ensures es[k].trade.executedBuy <= BoughtBy(legs, k) {
      assert es[k] == EntryOf(Exact, orders[k], FillsOf(legs, k), SoldBy(legs, k), p);
    }
    FullPaymentsAddUp(es, k => BoughtBy(legs, k));
    TotalsPerOrder(legs, |orders|);
  }

  // ---------------------------------------------------------------- delivery of token A

  predicate Unclamped(ts: seq<Trade>) {
    forall t :: t in ts ==> t.executedBuy < U64_MAX
  }

  /** What the seller of B asks, at its own limit, for everything it sold. */
  function Asked(orders: seq<Order>, legs: seq<Leg>, k: nat): nat
    requires k < |orders|
  {
    Apply(Exact, orders[k].LimitPrice(), SoldBy(legs, k))
  }

  /** What its fills booked for it beyond that, lost to rounding. */
  function Dust(orders: seq<Order>, legs: seq<Leg>, k: nat): nat {
    if k < |orders| then Monus(BoughtBy(legs, k), Asked(orders, legs, k)) else 0
  }

  function TotalDust(orders: seq<Order>, legs: seq<Leg>): nat {
    SumTo(|orders|, k => Dust(orders, legs, k))
  }

  /** A fill is booked at no less than the seller of B asks for it. */
  lemma {:induction false} BookingCoversTheAsk(ob: Order, tradeA: nat, tradeB: nat)
    requires AtBookRatio(ob, tradeA, tradeB)
    ensures PaidInFull(Leg(0, tradeB, tradeA), ob.LimitPrice())
    ensures WholeRatio(ob) ==> ob.buyAmount * tradeB == ob.sellAmount * tradeA
  {
    FloorBounds(tradeA * ob.sellAmount, ob.buyAmount);
    if WholeRatio(ob) {
      var k := ob.sellAmount / ob.buyAmount;
      assert ob.sellAmount == k * ob.buyAmount;
      assert tradeA * ob.sellAmount == (tradeA * k) * ob.buyAmount;
      FloorAtLeast(tradeA * k, tradeA * ob.sellAmount, ob.buyAmount);
      MulMono(ob.buyAmount, tradeA * k, ob.buyAmount, tradeB);
    }
  }

  lemma {:induction false} AskedIsBooked(bk: Book, s: State, k: nat)
    requires HasFills(bk, s) && k < |bk.bToA|
    ensures bk.bToA[k].LimitPrice().num * SoldBy(s.fillsBa, k) <= bk.bToA[k].LimitPrice().den * BoughtBy(s.fillsBa, k)
    ensures Asked(bk.bToA, s.fillsBa, k) <= BoughtBy(s.fillsBa, k)
    ensures WholeRatio(bk.bToA[k]) ==> Asked(bk.bToA, s.fillsBa, k) == BoughtBy(s.fillsBa, k)
  {
    var q, legs := bk.bToA[k].LimitPrice(), s.fillsBa;
    forall n | 0 <= n < |legs| && legs[n].idx == k
      ensures PaidInFull(legs[n], q)
      ensures WholeRatio(bk.bToA[k]) ==> ExactlyPaid(legs[n], q)
    {
      assert AtBookRatio(bk.bToA[legs[n].idx], s.fillsAb[n].sold, s.fillsAb[n].bought);
      BookingCoversTheAsk(bk.bToA[k], s.fillsAb[n].sold, s.fillsAb[n].bought);
    }
    BookedInFullAddsUp(legs, q, k);
    FullPaymentCaps(q, SoldBy(legs, k), BoughtBy(legs, k));
    if WholeRatio(bk.bToA[k]) {
      ExactPaymentsAddUp(legs, q, k);
      FloorAtLeast(BoughtBy(legs, k), SoldBy(legs, k) * q.num, q.den);
    }
  }

  ghost predicate ExactlyPaid(leg: Leg, p: Price) {
    p.num * leg.sold == p.den * leg.bought
  }

  lemma {:induction false} ExactPaymentsAddUp(legs: seq<Leg>, p: Price, k: nat)
    requires forall n {:trigger ExactlyPaid(legs[n], p)} ::
               0 <= n < |legs| && legs[n].idx == k ==> ExactlyPaid(legs[n], p)
    ensures p.num * SoldBy(legs, k) == p.den * BoughtBy(legs, k)
  {
    if legs == [] {
      assert p.num * 0 == p.den * 0;
    } else {
      var rest, leg := Init(legs), Last(legs);
      forall n | 0 <= n < |rest| && rest[n].idx == k ensures ExactlyPaid(rest[n], p) {
        assert ExactlyPaid(legs[n], p);
      }
      ExactPaymentsAddUp(rest, p, k);
      assert leg.idx == k ==> ExactlyPaid(legs[|legs| - 1], p);
      Distribute(p.num, SoldBy(rest, k), leg.sold);
      Distribute(p.den, BoughtBy(rest, k), leg.bought);
    }
  }

  /** Each entry's delivery and dust come out of its bookings and its gain. */
  lemma {:induction false} AccountsAddUp(es: seq<Entry>, f: nat -> nat, d: nat -> nat)
    requires forall k: nat :: k < |es| && es[k].traded ==> es[k].trade.executedBuy + d(k) <= f(k) + es[k].gain
    requires forall k: nat :: k < |es| && !es[k].traded ==> d(k) == f(k)
    ensures Buys(TradesOf(es)) + SumTo(|es|, d) <= SumTo(|es|, f) + SurplusOf(es)
    ensures (forall k: nat :: k < |es| && es[k].traded ==> es[k].trade.executedBuy + d(k) == f(k) + es[k].gain) ==>
              Buys(TradesOf(es)) + SumTo(|es|, d) == SumTo(|es|, f) + SurplusOf(es)
  {
    if es != [] {
      AccountsAddUp(Init(es), f, d);
      PushTrade(TradesOf(Init(es)), Last(es).trade);
      assert d(|es| - 1) == d(|es| - 1) && es[|es| - 1] == Last(es);
    }
  }

  lemma {:induction false} TradedEntry(es: seq<Entry>, k: nat)
    requires k < |es| && es[k].traded
    ensures es[k].trade in TradesOf(es)
  {
    if k < |es| - 1 {
      TradedEntry(Init(es), k);
    }
  }

  lemma {:induction false} AccountOfSellerOfB(bk: Book, s: State, k: nat)
    requires HasFills(bk, s) && k < |bk.bToA|
    ensures var e := EntriesOfB(Exact, bk, s)[k];
            && e.traded == (FillsOf(s.fillsBa, k) > 0)
            && (!e.traded ==> Dust(bk.bToA, s.fillsBa, k) == BoughtBy(s.fillsBa, k))
            && e.trade.executedBuy + Dust(bk.bToA, s.fillsBa, k) <= BoughtBy(s.fillsBa, k) + e.gain
            && (SortedBook(bk) && e.traded && e.trade.executedBuy < U64_MAX ==>
                  e.trade.executedBuy + Dust(bk.bToA, s.fillsBa, k) == BoughtBy(s.fillsBa, k) + e.gain)
  {
    AskedIsBooked(bk, s, k);
    NoFillsNothingSold(s.fillsBa, k);
    if SortedBook(bk) && FillsOf(s.fillsBa, k) > 0 {
      ExactPriceCoversTheBid(bk, s, k);
    }
  }

  /** Over unbounded arithmetic every seller of B gets its limit. */
  lemma {:induction false} ExactPriceCoversTheBid(bk: Book, s: State, k: nat)
    requires SortedBook(bk) && HasFills(bk, s) && FillsOf(s.fillsBa, k) > 0
    ensures k < |bk.bToA|
    ensures Asked(bk.bToA, s.fillsBa, k) <= Apply(Exact, Reciprocal(PriceOfA(Exact, bk, s)), SoldBy(s.fillsBa, k))
  {
    LastCrossFacts(bk, s);
    TradedIsNoDearerThanLastCross(bk, s, k);
    var c, r := s.lastCross.value, Reciprocal(PriceOfA(Exact, bk, s));
    MidpointIsBetweenLimits(bk.aToB[c.a].LimitPrice(), bk.bToA[c.b].LimitPrice());
    LeTransitive(bk.bToA[k].LimitPrice(), bk.bToA[c.b].LimitPrice(), r);
    ApplyMono(Exact, bk.bToA[k].LimitPrice(), SoldBy(s.fillsBa, k), r, SoldBy(s.fillsBa, k));
  }

  /** The books of token A. What the sellers of B receive, together with the dust of their
      fills, is covered by the A sold and their surplus; without clamping it is exactly that. */
  lemma {:induction false} BooksOfTokenA(bk: Book, s: State)
    requires HasFills(bk, s)
    ensures var a, b := TradesOfA(Exact, bk, s), TradesOfB(Exact, bk, s);
            var surplus, dust := SurplusOf(EntriesOfB(Exact, bk, s)), TotalDust(bk.bToA, s.fillsBa);
            && Buys(b) + dust <= Sells(a) + surplus
            && (SortedBook(bk) && Unclamped(b) ==> Buys(b) + dust == Sells(a) + surplus)
  {
    var es, legs := EntriesOfB(Exact, bk, s), s.fillsBa;
    forall k: nat | k < |es|
      ensures es[k].traded ==> es[k].trade.executedBuy + Dust(bk.bToA, legs, k) <= BoughtBy(legs, k) + es[k].gain
      ensures !es[k].traded ==> Dust(bk.bToA, legs, k) == BoughtBy(legs, k)
      ensures SortedBook(bk) && Unclamped(TradesOf(es)) && es[k].traded ==>
                es[k].trade.executedBuy + Dust(bk.bToA, legs, k) == BoughtBy(legs, k) + es[k].gain
    {
      AccountOfSellerOfB(bk, s, k);
      if es[k].traded {
        TradedEntry(es, k);
      }
    }
    AccountsAddUp(es, k => BoughtBy(legs, k), k => Dust(bk.bToA, legs, k));
    TotalsPerOrder(legs, |bk.bToA|);
    MirroredTotals(legs, s.fillsAb);
    LedgerWithinOffers(bk, s);
    TradesReportAllSales(Exact, bk.aToB, s.fillsAb, PriceOfA(Exact, bk, s));
  }

  lemma {:induction false} SurplusIsZeroIff(es: seq<Entry>)
    ensures SurplusOf(es) == 0 <==> forall k :: 0 <= k < |es| && es[k].traded ==> es[k].gain == 0
  {
    if es != [] {
      SurplusIsZeroIff(Init(es));
      assert forall k :: 0 <= k < |es| - 1 ==> Init(es)[k] == es[k];
      assert es[|es| - 1] == Last(es);
    }
  }

  /** The price pays the seller of B at `k` less than one unit of A over what was booked. */
  ghost predicate PaidAsBooked(bk: Book, s: State, k: nat)
    requires HasFills(bk, s)
  {
    SoldBy(s.fillsBa, k) * PriceOfA(Exact, bk, s).den < (BoughtBy(s.fillsBa, k) + 1) * PriceOfA(Exact, bk, s).num
  }

  lemma {:induction false} NothingOverBooked(r: Price, sold: nat, booked: nat)
    requires r.den > 0
    ensures Monus(Apply(Exact, r, sold), booked) == 0 <==> sold * r.num < (booked + 1) * r.den
  {
    FloorBelow(booked + 1, sold * r.num, r.den);
  }

  lemma {:induction false} NoGainIff(bk: Book, s: State, k: nat)
    requires HasFills(bk, s) && k < |bk.bToA| && WholeRatio(bk.bToA[k])
    ensures EntriesOfB(Exact, bk, s)[k].gain == 0 <==> PaidAsBooked(bk, s, k)
  {
    AskedIsBooked(bk, s, k);
    NothingOverBooked(Reciprocal(PriceOfA(Exact, bk, s)), SoldBy(s.fillsBa, k), BoughtBy(s.fillsBa, k));
  }

  /** When every seller of B sells a whole number of B per A, the A over-delivered is exactly
      the surplus of the sellers of B; so token A is conserved if and only if the price pays
      none of them a whole unit over what was booked. */
  lemma {:induction false} WholeRatiosConserveAIff(bk: Book, s: State)
    requires SortedBook(bk) && HasFills(bk, s) && (forall o :: o in bk.bToA ==> WholeRatio(o))
    requires Unclamped(TradesOfB(Exact, bk, s))
    ensures var a, b := TradesOfA(Exact, bk, s), TradesOfB(Exact, bk, s);
            && Buys(b) == Sells(a) + SurplusOf(EntriesOfB(Exact, bk, s))
            && (Buys(b) <= Sells(a) <==>
                forall k: nat {:trigger PaidAsBooked(bk, s, k)} :: FillsOf(s.fillsBa, k) > 0 ==> PaidAsBooked(bk, s, k))
  {
    BooksOfTokenA(bk, s);
    forall k: nat | k < |bk.bToA| ensures Dust(bk.bToA, s.fillsBa, k) == 0 {
      AskedIsBooked(bk, s, k);
    }
    SumToZero(|bk.bToA|, k => Dust(bk.bToA, s.fillsBa, k));
    var es := EntriesOfB(Exact, bk, s);
    SurplusIsZeroIff(es);
    forall k: nat
      ensures FillsOf(s.fillsBa, k) > 0 ==> k < |es|
      ensures k < |es| ==> (es[k].traded <==> FillsOf(s.fillsBa, k) > 0)
      ensures k < |es| ==> (es[k].gain == 0 <==> PaidAsBooked(bk, s, k))
    {
      FillsOfPositive(s.fillsBa, k);
      if k < |es| {
        NoGainIff(bk, s, k);
      }
    }
  }

  // ---------------------------------------------------------------- value at the uniform price

  /** The trades hand over no more value at price `p` than they take in, and without clamping
      at least one unit less than a denominator per trade below it. */
  predicate NeutralAt(ts: seq<Trade>, p: Price) {
    && p.den * Buys(ts) <= p.num * Sells(ts)
    && (Unclamped(ts) ==> p.num * Sells(ts) + |ts| <= p.den * (Buys(ts) + |ts|))
  }

  predicate NeutralTrade(t: Trade, p: Price) {
    && p.den * t.executedBuy <= p.num * t.executedSell
    && (t.executedBuy < U64_MAX ==> p.num * t.executedSell + 1 <= p.den * (t.executedBuy + 1))
  }

  lemma {:induction false} TradeIsValueNeutral(o: Order, sold: nat, p: Price)
    requires p.den > 0 && sold <= o.sellAmount
    ensures NeutralTrade(TradeOf(Exact, o, sold, p), p)
  {
    var t := TradeOf(Exact, o, sold, p);
    FloorLoss(sold * p.num, p.den);
    MulMono(p.den, t.executedBuy, p.den, Apply(Exact, p, sold));
    Distribute(p.den, t.executedBuy, 1);
  }

  ghost predicate NeutralEntries(es: seq<Entry>, p: Price) {
    forall k {:trigger NeutralTrade(es[k].trade, p)} :: 0 <= k < |es| ==> NeutralTrade(es[k].trade, p)
  }

  lemma {:induction false} EntriesAreNeutral(orders: seq<Order>, legs: seq<Leg>, p: Price)
    requires p.den > 0 && WithinOffers(orders, legs)
    ensures NeutralEntries(Entries(Exact, orders, legs, p), p)
  {
    var es := Entries(Exact, orders, legs, p);
    forall k | 0 <= k < |es| ensures NeutralTrade(es[k].trade, p) {
      assert es[k] == EntryOf(Exact, orders[k], FillsOf(legs, k), SoldBy(legs, k), p);
      TradeIsValueNeutral(orders[k], SoldBy(legs, k), p);
    }
  }

  /** At its own price a side gives up at least the value it receives, and by less than one
      price denominator per trade. */
  lemma {:induction false} SideIsValueNeutral(es: seq<Entry>, p: Price)
    requires NeutralEntries(es, p)
    ensures NeutralAt(TradesOf(es), p)
  {
    if es == [] {
      NothingIsNeutral(p);
    } else {
      NeutralSplit(es, p);
      SideIsValueNeutral(Init(es), p);
      NeutralStep(es, p);
    }
  }

  lemma {:induction false} NeutralSplit(es: seq<Entry>, p: Price)
    requires es != [] && NeutralEntries(es, p)
    ensures NeutralEntries(Init(es), p) && NeutralTrade(Last(es).trade, p)
  {
    forall k | 0 <= k < |es| - 1 ensures NeutralTrade(Init(es)[k].trade, p) {
      assert NeutralTrade(es[k].trade, p);
    }
    assert NeutralTrade(es[|es| - 1].trade, p);
  }

  lemma {:induction false} NeutralStep(es: seq<Entry>, p: Price)
    requires es != [] && NeutralAt(TradesOf(Init(es)), p) && NeutralTrade(Last(es).trade, p)
    ensures NeutralAt(TradesOf(es), p)
  {
    NeutralPush(TradesOf(Init(es)), Last(es).trade, p);
  }

  lemma {:induction false} NothingIsNeutral(p: Price)
    ensures NeutralAt([], p)
  {
  }

  lemma {:induction false} NeutralPush(rest: seq<Trade>, t: Trade, p: Price)
    requires NeutralAt(rest, p) && NeutralTrade(t, p)
    ensures NeutralAt(rest + [t], p)
  {
    PushTrade(rest, t);
    Distribute(p.num, Sells(rest), t.executedSell);
    Distribute(p.den, Buys(rest), t.executedBuy);
    if Unclamped(rest + [t]) {
      assert t in rest + [t] && (forall u :: u in rest ==> u in rest + [t]);
      Distribute(p.den, Buys(rest) + |rest|, t.executedBuy + 1);
    }
  }

  lemma {:induction false} Distribute(k: nat, x: nat, y: nat)
    ensures k * (x + y) == k * x + k * y
  {
  }

  lemma {:induction false} SomeTrade(es: seq<Entry>, k: nat)
    requires k < |es| && es[k].traded
    ensures TradesOf(es) != []
  {
    if k < |es| - 1 {
      SomeTrade(Init(es), k);
    }
  }

  lemma {:induction false} SidesAreNeutral(bk: Book, s: State)
    requires HasFills(bk, s)
    ensures NeutralAt(TradesOfA(Exact, bk, s), PriceOfA(Exact, bk, s))
    ensures NeutralAt(TradesOfB(Exact, bk, s), Reciprocal(PriceOfA(Exact, bk, s)))
    ensures TradesOfA(Exact, bk, s) != []
  {
    var p := PriceOfA(Exact, bk, s);
    LedgerWithinOffers(bk, s);
    EntriesAreNeutral(bk.aToB, s.fillsAb, p);
    EntriesAreNeutral(bk.bToA, s.fillsBa, Reciprocal(p));
    SideIsValueNeutral(EntriesOfA(Exact, bk, s), p);
    SideIsValueNeutral(EntriesOfB(Exact, bk, s), Reciprocal(p));
    FillsOfPositive(s.fillsAb, s.fillsAb[0].idx);
    SomeTrade(EntriesOfA(Exact, bk, s), s.fillsAb[0].idx);
  }

  /** What the market keeps of both tokens, valued at `p` B per A. */
  function ValueKept(a: seq<Trade>, b: seq<Trade>, p: Price): int {
    p.num * (Sells(a) - Buys(b)) + p.den * (Sells(b) - Buys(a))
  }

  lemma {:induction false} NeutralBothWays(a: seq<Trade>, b: seq<Trade>, p: Price)
    requires p.num > 0 && NeutralAt(a, p) && NeutralAt(b, Reciprocal(p)) && a != []
    ensures 0 <= ValueKept(a, b, p)
    ensures Unclamped(a) && Unclamped(b) ==> ValueKept(a, b, p) < p.den * |a| + p.num * |b|
  {
    Spread(p.num, Sells(a), Buys(b));
    Spread(p.den, Sells(b), Buys(a));
    Distribute(p.den, Buys(a), |a|);
    Distribute(p.num, Buys(b), |b|);
  }

  lemma {:induction false} Spread(k: int, x: int, y: int)
    ensures k * (x - y) == k * x - k * y
  {
  }

  /** Value neutrality at the uniform price N/D: the market keeps a non-negative value, which
      without clamped trades is below D per A→B trade plus N per B→A trade. */
  lemma {:induction false} UniformPriceIsValueNeutral(bk: Book, s: State)
    requires HasFills(bk, s)
    ensures var a, b, p := TradesOfA(Exact, bk, s), TradesOfB(Exact, bk, s), PriceOfA(Exact, bk, s);
            && 0 <= ValueKept(a, b, p)
            && (Unclamped(a) && Unclamped(b) ==> ValueKept(a, b, p) < p.den * |a| + p.num * |b|)
  {
    SidesAreNeutral(bk, s);
    NeutralBothWays(TradesOfA(Exact, bk, s), TradesOfB(Exact, bk, s), PriceOfA(Exact, bk, s));
  }
}
