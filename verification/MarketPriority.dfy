/** Exhaustiveness and price priority, on the orders and trades of a market. An order may be
    listed more than once; its copies are counted together. */
module MarketPriority {
  import opened Numbers
  import opened Prices
  import opened Orders
  import opened Sorting
  import opened Sweep
  import opened BookCrossing
  import opened FillOrKillService
  import opened ClearingPrices
  import opened Settlement
  import opened Conservation
  import opened Exactness
  import opened Market

  // ---------------------------------------------------------------- sales per order

  /** What the copies of `o` among the first `n` orders sold. */
  function SoldByCopies(orders: seq<Order>, legs: seq<Leg>, o: Order, n: nat): nat
    requires n <= |orders|
  {
    if n == 0 then 0
    else SoldByCopies(orders, legs, o, n - 1) + if orders[n - 1] == o then SoldBy(legs, n - 1) else 0
  }

  lemma {:induction false} SoldOfEntries(es: seq<Entry>, orders: seq<Order>, legs: seq<Leg>, o: Order)
    requires |es| <= |orders|
    requires forall k :: 0 <= k < |es| ==>
               && es[k].trade.orderId == orders[k].Id()
               && SoldBy(legs, k) == if es[k].traded then es[k].trade.executedSell else 0
    ensures SoldOf(TradesOf(es), o.Id()) == SoldByCopies(orders, legs, o, |es|)
  {
    if es != [] {
      SoldOfEntries(Init(es), orders, legs, o);
      var k := |es| - 1;
      assert es[k].trade.orderId == orders[k].Id();
      if es[k].traded {
        assert Init(TradesOf(es)) == TradesOf(Init(es)) && Last(TradesOf(es)) == es[k].trade;
      }
    }
  }

  lemma {:induction false} SoldOfSide(orders: seq<Order>, legs: seq<Leg>, p: Price, o: Order)
    requires p.den > 0 && WithinOffers(orders, legs)
    ensures SoldOf(TradesOf(Entries(Machine, orders, legs, p)), o.Id()) == SoldByCopies(orders, legs, o, |orders|)
  {
    var es := Entries(Machine, orders, legs, p);
    forall k | 0 <= k < |es|
      ensures es[k].trade.orderId == orders[k].Id()
      ensures SoldBy(legs, k) == if es[k].traded then es[k].trade.executedSell else 0
    {
      NoFillsNothingSold(legs, k);
      assert es[k] == EntryOf(Machine, orders[k], FillsOf(legs, k), SoldBy(legs, k), p);
    }
    SoldOfEntries(es, orders, legs, o);
  }

  lemma {:induction false} SoldOfConcat(ts: seq<Trade>, us: seq<Trade>, id: OrderId)
    ensures SoldOf(ts + us, id) == SoldOf(ts, id) + SoldOf(us, id)
  {
    if us == [] {
      assert ts + us == ts;
    } else {
      SoldOfConcat(ts, Init(us), id);
      assert Init(ts + us) == ts + Init(us) && Last(ts + us) == Last(us);
    }
  }

  lemma {:induction false} NoCopiesSellNothing(orders: seq<Order>, legs: seq<Leg>, o: Order, n: nat)
    requires n <= |orders| && o !in orders
    ensures SoldByCopies(orders, legs, o, n) == 0
  {
    if n > 0 {
      NoCopiesSellNothing(orders, legs, o, n - 1);
      assert orders[n - 1] in orders;
    }
  }

  lemma {:induction false} NothingSoldWithoutFills(orders: seq<Order>, o: Order, n: nat)
    requires n <= |orders|
    ensures SoldByCopies(orders, [], o, n) == 0
  {
    if n > 0 {
      NothingSoldWithoutFills(orders, o, n - 1);
    }
  }

  lemma {:induction false} SoldOfSettled(bk: Book, s: State, o: Order)
    requires HasFills(bk, s)
    ensures SoldOf(TradesOfA(Machine, bk, s) + TradesOfB(Machine, bk, s), o.Id()) ==
            SoldByCopies(bk.aToB, s.fillsAb, o, |bk.aToB|) + SoldByCopies(bk.bToA, s.fillsBa, o, |bk.bToA|)
  {
    var p := PriceOfA(Machine, bk, s);
    LedgerWithinOffers(bk, s);
    SoldOfConcat(TradesOfA(Machine, bk, s), TradesOfB(Machine, bk, s), o.Id());
    SoldOfSide(bk.aToB, s.fillsAb, p, o);
    SoldOfSide(bk.bToA, s.fillsBa, Reciprocal(p), o);
  }

  /** The trades reported for an order sell what its copies in the book sold. */
  lemma {:induction false} SoldInBook(tokenA: Address, tokenB: Address, orders: seq<Order>, o: Order)
    ensures var ts, bk := PairOutcome(Machine, tokenA, tokenB, orders).trades, BookOf(tokenA, tokenB, orders);
            SoldOf(ts, o.Id()) == SoldByCopies(bk.aToB, Swept(bk).fillsAb, o, |bk.aToB|)
                                  + SoldByCopies(bk.bToA, Swept(bk).fillsBa, o, |bk.bToA|)
  {
    var bk := BookOf(tokenA, tokenB, orders);
    var s := Swept(bk);
    OutcomeOfBook(Machine, tokenA, tokenB, orders);
    if s.fillsAb == [] {
      NothingSoldWithoutFills(bk.aToB, o, |bk.aToB|);
      NothingSoldWithoutFills(bk.bToA, o, |bk.bToA|);
    } else {
      SoldOfSettled(bk, s, o);
    }
  }

  lemma {:induction false} SoldOfOrder(tokenA: Address, tokenB: Address, orders: seq<Order>, o: Order)
    ensures var ts, bk := PairOutcome(Machine, tokenA, tokenB, orders).trades, BookOf(tokenA, tokenB, orders);
            && (IsAToB(tokenA, tokenB, o) ==>
                  SoldOf(ts, o.Id()) == SoldByCopies(bk.aToB, Swept(bk).fillsAb, o, |bk.aToB|))
            && (IsBToA(tokenA, tokenB, o) ==>
                  SoldOf(ts, o.Id()) == SoldByCopies(bk.bToA, Swept(bk).fillsBa, o, |bk.bToA|))
  {
    var bk := BookOf(tokenA, tokenB, orders);
    SoldInBook(tokenA, tokenB, orders, o);
    BookMembers(tokenA, tokenB, orders, o);
    if IsAToB(tokenA, tokenB, o) {
      NoCopiesSellNothing(bk.bToA, Swept(bk).fillsBa, o, |bk.bToA|);
    } else if IsBToA(tokenA, tokenB, o) {
      NoCopiesSellNothing(bk.aToB, Swept(bk).fillsAb, o, |bk.aToB|);
    }
  }

  /** Every copy of an order enters the book on its side. */
  lemma {:induction false} CopiesInBook(tokenA: Address, tokenB: Address, orders: seq<Order>, o: Order)
    ensures var bk := BookOf(tokenA, tokenB, orders);
            && (IsAToB(tokenA, tokenB, o) ==> multiset(bk.aToB)[o] == multiset(orders)[o])
            && (IsBToA(tokenA, tokenB, o) ==> multiset(bk.bToA)[o] == multiset(orders)[o])
  {
    SortSorts(SellersOfA(tokenA, tokenB, orders));
    SortSorts(SellersOfB(tokenA, tokenB, orders));
    FilterCount(orders, x => IsAToB(tokenA, tokenB, x), o);
    FilterCount(orders, x => IsBToA(tokenA, tokenB, x), o);
  }

  // ---------------------------------------------------------------- what copies leave

  function Copies(orders: seq<Order>, o: Order, n: nat): nat
    requires n <= |orders|
  {
    multiset(orders[..n])[o]
  }

  lemma {:induction false} OneMoreCopy(orders: seq<Order>, o: Order, n: nat)
    requires 0 < n <= |orders|
    ensures Copies(orders, o, n) == Copies(orders, o, n - 1) + if orders[n - 1] == o then 1 else 0
  {
    assert orders[..n] == orders[..n - 1] + [orders[n - 1]];
  }

  lemma {:induction false} OneMoreTimes(count: nat, x: nat)
    ensures (count + 1) * x == count * x + x
  {
  }

  /** If every copy is sold out, the copies together are. */
  lemma {:induction false} SoldOutCopies(orders: seq<Order>, legs: seq<Leg>, o: Order, n: nat)
    requires n <= |orders| && forall k :: 0 <= k < n && orders[k] == o ==> SoldBy(legs, k) == o.sellAmount
    ensures SoldByCopies(orders, legs, o, n) == Copies(orders, o, n) * o.sellAmount
  {
    if n == 0 {
      assert 0 * o.sellAmount == 0;
    } else {
      SoldOutCopies(orders, legs, o, n - 1);
      OneMoreCopy(orders, o, n);
      OneMoreTimes(Copies(orders, o, n - 1), o.sellAmount);
    }
  }

  /** What is left of a copy is too little to buy one unit at its limit. */
  predicate OnlyDust(o: Order, sold: nat) {
    sold <= o.sellAmount && (o.sellAmount - sold) * o.buyAmount < AtLeastOne(o.sellAmount)
  }

  /** If every copy keeps only dust, the copies together keep less than one unit's worth each. */
  lemma {:induction false} DustyCopies(orders: seq<Order>, legs: seq<Leg>, o: Order, n: nat)
    requires n <= |orders| && forall k :: 0 <= k < n && orders[k] == o ==> OnlyDust(o, SoldBy(legs, k))
    ensures SoldByCopies(orders, legs, o, n) <= Copies(orders, o, n) * o.sellAmount
    ensures (Copies(orders, o, n) * o.sellAmount - SoldByCopies(orders, legs, o, n)) * o.buyAmount
            + Copies(orders, o, n) <= Copies(orders, o, n) * AtLeastOne(o.sellAmount)
  {
    if n == 0 {
      assert 0 * o.sellAmount == 0 && 0 * o.buyAmount == 0;
    } else {
      DustyCopies(orders, legs, o, n - 1);
      OneMoreCopy(orders, o, n);
      if orders[n - 1] == o {
        assert OnlyDust(o, SoldBy(legs, n - 1));
        OneMoreDustyCopy(Copies(orders, o, n - 1), SoldByCopies(orders, legs, o, n - 1), SoldBy(legs, n - 1),
                         o.sellAmount, o.buyAmount, AtLeastOne(o.sellAmount));
      }
    }
  }

  lemma {:induction false} OneMoreDustyCopy(count: nat, total: nat, sold: nat, t: nat, c: nat, unit: nat)
    requires total <= count * t && (count * t - total) * c + count <= count * unit
    requires sold <= t && (t - sold) * c < unit
    ensures total + sold <= (count + 1) * t
    ensures ((count + 1) * t - (total + sold)) * c + (count + 1) <= (count + 1) * unit
  {
    var left := count * t - total;
    assert (count + 1) * t == count * t + t && (count + 1) * unit == count * unit + unit;
    assert (left + (t - sold)) * c == left * c + (t - sold) * c;
  }

  // ---------------------------------------------------------------- the market

  /** What the copies of an order still offer after the reported trades. */
  ghost function Unsold(tokenA: Address, tokenB: Address, orders: seq<Order>, o: Order): int {
    multiset(orders)[o] * o.sellAmount - SoldOf(PairOutcome(Machine, tokenA, tokenB, orders).trades, o.Id())
  }

  /** A copy of a seller of A that is not sold out, if the copies together are not. */
  lemma {:induction false} UnsoldSellerOfA(tokenA: Address, tokenB: Address, orders: seq<Order>, o: Order)
    returns (k: nat)
    requires IsAToB(tokenA, tokenB, o) && Unsold(tokenA, tokenB, orders, o) != 0
    ensures var bk := BookOf(tokenA, tokenB, orders);
            k < |bk.aToB| && bk.aToB[k] == o && SoldBy(Swept(bk).fillsAb, k) != o.sellAmount
  {
    var bk := BookOf(tokenA, tokenB, orders);
    SoldOfOrder(tokenA, tokenB, orders, o);
    CopiesInBook(tokenA, tokenB, orders, o);
    assert bk.aToB[..|bk.aToB|] == bk.aToB;
    if forall k :: 0 <= k < |bk.aToB| && bk.aToB[k] == o ==> SoldBy(Swept(bk).fillsAb, k) == o.sellAmount {
      SoldOutCopies(bk.aToB, Swept(bk).fillsAb, o, |bk.aToB|);
      assert false;
    }
    k :| k < |bk.aToB| && bk.aToB[k] == o && SoldBy(Swept(bk).fillsAb, k) != o.sellAmount;
  }

  /** Enough B is left among the copies for one of them to buy a unit of A at its limit. */
  ghost predicate CanStillBuy(tokenA: Address, tokenB: Address, orders: seq<Order>, o: Order) {
    multiset(orders)[o] * AtLeastOne(o.sellAmount) <= Unsold(tokenA, tokenB, orders, o) * o.buyAmount
  }

  lemma {:induction false} BuyingSellerOfB(tokenA: Address, tokenB: Address, orders: seq<Order>, o: Order)
    returns (k: nat)
    requires IsBToA(tokenA, tokenB, o) && o in orders && CanStillBuy(tokenA, tokenB, orders, o)
    ensures var bk := BookOf(tokenA, tokenB, orders);
            k < |bk.bToA| && bk.bToA[k] == o && !OnlyDust(o, SoldBy(Swept(bk).fillsBa, k))
  {
    var bk := BookOf(tokenA, tokenB, orders);
    SoldOfOrder(tokenA, tokenB, orders, o);
    CopiesInBook(tokenA, tokenB, orders, o);
    assert bk.bToA[..|bk.bToA|] == bk.bToA && o in multiset(orders);
    if forall k :: 0 <= k < |bk.bToA| && bk.bToA[k] == o ==> OnlyDust(o, SoldBy(Swept(bk).fillsBa, k)) {
      DustyCopies(bk.bToA, Swept(bk).fillsBa, o, |bk.bToA|);
      assert false;
    }
    k :| k < |bk.bToA| && bk.bToA[k] == o && !OnlyDust(o, SoldBy(Swept(bk).fillsBa, k));
  }

  lemma {:induction false} RemaindersOf(bk: Book, a: nat, b: nat)
    requires a < |bk.aToB| && b < |bk.bToA|
    ensures Swept(bk).aRem[a] == bk.aToB[a].sellAmount - SoldBy(Swept(bk).fillsAb, a)
    ensures Swept(bk).bRem[b] == bk.bToA[b].sellAmount - SoldBy(Swept(bk).fillsBa, b)
  {
    SweptHasInv(bk);
  }

  /** Exhaustiveness: if a partially fillable seller of A has A left and a partially fillable
      seller of B can still buy, their limits do not cross. */
  lemma {:induction false} NoTradeLeftBehind(tokenA: Address, tokenB: Address, orders: seq<Order>, x: Order, y: Order)
    requires y in orders && IsAToB(tokenA, tokenB, x) && IsBToA(tokenA, tokenB, y) && x.partialFill && y.partialFill
    requires Unsold(tokenA, tokenB, orders, x) != 0 && CanStillBuy(tokenA, tokenB, orders, y)
    ensures !Crosses(Exact, x, y)
  {
    var bk := BookOf(tokenA, tokenB, orders);
    BookIsSorted(tokenA, tokenB, orders);
    var a := UnsoldSellerOfA(tokenA, tokenB, orders, x);
    var b := BuyingSellerOfB(tokenA, tokenB, orders, y);
    RemaindersOf(bk, a, b);
    NoCapacityMeansDust(Swept(bk).bRem[b], y);
    NoCrossingLeftBehind(bk, a, b);
  }

  /** The position of a traded order in its side of the book. */
  lemma {:induction false} TradedPosition(tokenA: Address, tokenB: Address, orders: seq<Order>, t: Trade)
    returns (k: nat)
    requires t in PairOutcome(Machine, tokenA, tokenB, orders).trades
    ensures var bk := BookOf(tokenA, tokenB, orders);
            && (IsAToB(tokenA, tokenB, OrderOf(t)) ==>
                  k < |bk.aToB| && bk.aToB[k] == OrderOf(t) && FillsOf(Swept(bk).fillsAb, k) > 0)
            && (IsBToA(tokenA, tokenB, OrderOf(t)) ==>
                  k < |bk.bToA| && bk.bToA[k] == OrderOf(t) && FillsOf(Swept(bk).fillsBa, k) > 0)
  {
    var bk := BookOf(tokenA, tokenB, orders);
    OutcomeOfBook(Machine, tokenA, tokenB, orders);
    SidesAreOneWay(tokenA, tokenB, orders, bk, Swept(bk));
    k := TradedIndex(bk, Swept(bk), t);
  }

  lemma {:induction false} TradedIndex(bk: Book, s: State, t: Trade) returns (k: nat)
    requires HasFills(bk, s) && t in TradesOfA(Machine, bk, s) + TradesOfB(Machine, bk, s)
    ensures t in TradesOfA(Machine, bk, s) ==>
              k < |bk.aToB| && bk.aToB[k] == OrderOf(t) && FillsOf(s.fillsAb, k) > 0
    ensures t !in TradesOfA(Machine, bk, s) ==>
              t in TradesOfB(Machine, bk, s) && k < |bk.bToA| && bk.bToA[k] == OrderOf(t) && FillsOf(s.fillsBa, k) > 0
  {
    if t in TradesOfA(Machine, bk, s) {
      k := EntryOfSellerOfA(bk, s, t);
    } else {
      k := EntryOfSellerOfB(bk, s, t);
    }
  }

  /** Price priority, A→B: if an order trades, every strictly better priced, partially fillable
      order is sold out. */
  lemma {:induction false} BetterPricedSellersOfASellOut(tokenA: Address, tokenB: Address, orders: seq<Order>,
                                                         t: Trade, better: Order)
    requires t in PairOutcome(Machine, tokenA, tokenB, orders).trades
    requires IsAToB(tokenA, tokenB, OrderOf(t)) && IsAToB(tokenA, tokenB, better) && better.partialFill
    requires Lt(better.LimitPrice(), OrderOf(t).LimitPrice())
    ensures Unsold(tokenA, tokenB, orders, better) == 0
  {
    BookIsSorted(tokenA, tokenB, orders);
    var k := TradedPosition(tokenA, tokenB, orders, t);
    if Unsold(tokenA, tokenB, orders, better) != 0 {
      var a := UnsoldSellerOfA(tokenA, tokenB, orders, better);
      BetterSellersOfAGoFirst(BookOf(tokenA, tokenB, orders), k, a);
      assert false;
    }
  }

  lemma {:induction false} BetterKeepsDust(bk: Book, traded: nat, better: nat)
    requires SortedBook(bk) && traded < |bk.bToA| && better < |bk.bToA|
    requires FillsOf(Swept(bk).fillsBa, traded) > 0 && bk.bToA[better].partialFill
    requires Lt(bk.bToA[better].LimitPrice(), bk.bToA[traded].LimitPrice())
    ensures OnlyDust(bk.bToA[better], SoldBy(Swept(bk).fillsBa, better))
  {
    BetterSellersOfBGoFirst(bk, traded, better);
  }

  /** Price priority, B→A: if an order trades, no strictly better priced, partially fillable order
      can still buy a unit of A at its limit. */
  lemma {:induction false} BetterPricedSellersOfBAreSpent(tokenA: Address, tokenB: Address, orders: seq<Order>,
                                                          t: Trade, better: Order)
    requires t in PairOutcome(Machine, tokenA, tokenB, orders).trades && better in orders
    requires IsBToA(tokenA, tokenB, OrderOf(t)) && IsBToA(tokenA, tokenB, better) && better.partialFill
    requires Lt(better.LimitPrice(), OrderOf(t).LimitPrice())
    ensures !CanStillBuy(tokenA, tokenB, orders, better)
  {
    BookIsSorted(tokenA, tokenB, orders);
    var k := TradedPosition(tokenA, tokenB, orders, t);
    if CanStillBuy(tokenA, tokenB, orders, better) {
      var b := BuyingSellerOfB(tokenA, tokenB, orders, better);
      BetterKeepsDust(BookOf(tokenA, tokenB, orders), k, b);
      assert false;
    }
  }

  // ---------------------------------------------------------------- fill-or-kill orders

  lemma {:induction false} OneCopySoldWithin(orders: seq<Order>, legs: seq<Leg>, o: Order, n: nat, k: nat)
    requires k < n <= |orders| && orders[k] == o
    ensures SoldBy(legs, k) <= SoldByCopies(orders, legs, o, n)
  {
    if k < n - 1 {
      OneCopySoldWithin(orders, legs, o, n - 1, k);
    }
  }

  /** What every single copy of the order still offers, at least. */
  ghost function LeftOfEachCopy(tokenA: Address, tokenB: Address, orders: seq<Order>, o: Order): int {
    Unsold(tokenA, tokenB, orders, o) - (multiset(orders)[o] - 1) * o.sellAmount
  }

  lemma {:induction false} LeftOfOne(count: nat, offer: nat, total: nat, sold: nat)
    requires sold <= total
    ensures count * offer - total - (count - 1) * offer <= offer - sold
  {
    assert (count - 1) * offer == count * offer - offer;
  }

  lemma {:induction false} CopyOfAKeeps(tokenA: Address, tokenB: Address, orders: seq<Order>, o: Order, k: nat)
    requires IsAToB(tokenA, tokenB, o)
    requires k < |BookOf(tokenA, tokenB, orders).aToB| && BookOf(tokenA, tokenB, orders).aToB[k] == o
    ensures LeftOfEachCopy(tokenA, tokenB, orders, o) <=
            o.sellAmount - SoldBy(Swept(BookOf(tokenA, tokenB, orders)).fillsAb, k)
  {
    var bk := BookOf(tokenA, tokenB, orders);
    SoldOfOrder(tokenA, tokenB, orders, o);
    OneCopySoldWithin(bk.aToB, Swept(bk).fillsAb, o, |bk.aToB|, k);
    LeftOfOne(multiset(orders)[o], o.sellAmount, SoldByCopies(bk.aToB, Swept(bk).fillsAb, o, |bk.aToB|),
              SoldBy(Swept(bk).fillsAb, k));
  }

  lemma {:induction false} CopyOfBKeeps(tokenA: Address, tokenB: Address, orders: seq<Order>, o: Order, k: nat)
    requires IsBToA(tokenA, tokenB, o)
    requires k < |BookOf(tokenA, tokenB, orders).bToA| && BookOf(tokenA, tokenB, orders).bToA[k] == o
    ensures LeftOfEachCopy(tokenA, tokenB, orders, o) <=
            o.sellAmount - SoldBy(Swept(BookOf(tokenA, tokenB, orders)).fillsBa, k)
  {
    var bk := BookOf(tokenA, tokenB, orders);
    SoldOfOrder(tokenA, tokenB, orders, o);
    OneCopySoldWithin(bk.bToA, Swept(bk).fillsBa, o, |bk.bToA|, k);
    LeftOfOne(multiset(orders)[o], o.sellAmount, SoldByCopies(bk.bToA, Swept(bk).fillsBa, o, |bk.bToA|),
              SoldBy(Swept(bk).fillsBa, k));
  }

  /** Each copy of the seller of B can still take `amount` of A at its limit. */
  ghost predicate StillTakes(tokenA: Address, tokenB: Address, orders: seq<Order>, y: Order, amount: nat) {
    amount * AtLeastOne(y.sellAmount) <= LeftOfEachCopy(tokenA, tokenB, orders, y) * y.buyAmount
  }

  lemma {:induction false} CapacityFor(amount: nat, left: int, bLeft: nat, y: Order)
    requires left <= bLeft && amount * AtLeastOne(y.sellAmount) <= left * y.buyAmount
    ensures amount <= Capacity(Exact, bLeft, y)
  {
    assert left * y.buyAmount <= bLeft * y.buyAmount;
    FloorAtLeast(amount, bLeft * y.buyAmount, AtLeastOne(y.sellAmount));
  }

  lemma {:induction false} TakersAreNotInTheWay(tokenA: Address, tokenB: Address, orders: seq<Order>, k: nat, b: nat)
    requires var bk := BookOf(tokenA, tokenB, orders);
             && k < |bk.aToB| && b < |bk.bToA|
             && StillTakes(tokenA, tokenB, orders, bk.bToA[b], bk.aToB[k].sellAmount)
    ensures var bk := BookOf(tokenA, tokenB, orders);
            bk.aToB[k].sellAmount <= Capacity(Exact, Swept(bk).bRem[b], bk.bToA[b])
  {
    var bk := BookOf(tokenA, tokenB, orders);
    var y := bk.bToA[b];
    BookMembers(tokenA, tokenB, orders, y);
    CopyOfBKeeps(tokenA, tokenB, orders, y, b);
    RemaindersOf(bk, k, b);
    CapacityFor(bk.aToB[k].sellAmount, LeftOfEachCopy(tokenA, tokenB, orders, y), Swept(bk).bRem[b], y);
  }

  /** A fill-or-kill seller of A sells its whole offer if it crosses some partially fillable seller
      of B, and every seller of B it crosses can still take that offer after the reported trades. */
  lemma {:induction false} FillOrKillSellersOfASell(tokenA: Address, tokenB: Address, orders: seq<Order>,
                                                    x: Order, taker: Order)
    requires IsAToB(tokenA, tokenB, x) && !x.partialFill && x.sellAmount > 0
    requires taker in orders && IsBToA(tokenA, tokenB, taker) && taker.partialFill && Crosses(Exact, x, taker)
    requires forall y :: y in orders && IsBToA(tokenA, tokenB, y) && Crosses(Exact, x, y) ==>
               StillTakes(tokenA, tokenB, orders, y, x.sellAmount)
    ensures Unsold(tokenA, tokenB, orders, x) == 0
  {
    var bk := BookOf(tokenA, tokenB, orders);
    BookIsSorted(tokenA, tokenB, orders);
    BookMembers(tokenA, tokenB, orders, taker);
    var b0: nat :| b0 < |bk.bToA| && bk.bToA[b0] == taker;
    if Unsold(tokenA, tokenB, orders, x) != 0 {
      var k := UnsoldSellerOfA(tokenA, tokenB, orders, x);
      forall b: nat | b < |bk.bToA| && Crosses(Exact, x, bk.bToA[b])
        ensures x.sellAmount <= Capacity(Exact, Swept(bk).bRem[b], bk.bToA[b])
      {
        BookMembers(tokenA, tokenB, orders, bk.bToA[b]);
        TakersAreNotInTheWay(tokenA, tokenB, orders, k, b);
      }
      FillOrKillSellerOfAIsServed(bk, k, b0);
    }
  }

  /** Each copy of the seller of A still offers `amount` of A. */
  ghost predicate StillOffers(tokenA: Address, tokenB: Address, orders: seq<Order>, x: Order, amount: nat) {
    amount <= LeftOfEachCopy(tokenA, tokenB, orders, x)
  }

  lemma {:induction false} UnsoldSellerOfB(tokenA: Address, tokenB: Address, orders: seq<Order>, o: Order)
    returns (k: nat)
    requires IsBToA(tokenA, tokenB, o) && Unsold(tokenA, tokenB, orders, o) != 0
    ensures var bk := BookOf(tokenA, tokenB, orders);
            k < |bk.bToA| && bk.bToA[k] == o && SoldBy(Swept(bk).fillsBa, k) != o.sellAmount
  {
    var bk := BookOf(tokenA, tokenB, orders);
    SoldOfOrder(tokenA, tokenB, orders, o);
    CopiesInBook(tokenA, tokenB, orders, o);
    assert bk.bToA[..|bk.bToA|] == bk.bToA;
    if forall k :: 0 <= k < |bk.bToA| && bk.bToA[k] == o ==> SoldBy(Swept(bk).fillsBa, k) == o.sellAmount {
      SoldOutCopies(bk.bToA, Swept(bk).fillsBa, o, |bk.bToA|);
      assert false;
    }
    k :| k < |bk.bToA| && bk.bToA[k] == o && SoldBy(Swept(bk).fillsBa, k) != o.sellAmount;
  }

  /** A fill-or-kill seller of B sells its whole offer if it crosses some partially fillable seller
      of A, and every seller of A it crosses still offers as much A as it asks for. */
  lemma {:induction false} FillOrKillSellersOfBSell(tokenA: Address, tokenB: Address, orders: seq<Order>,
                                                    y: Order, payer: Order)
    requires IsBToA(tokenA, tokenB, y) && !y.partialFill && y.sellAmount > 0 && y.buyAmount > 0
    requires payer in orders && IsAToB(tokenA, tokenB, payer) && payer.partialFill && Crosses(Exact, payer, y)
    requires forall x :: x in orders && IsAToB(tokenA, tokenB, x) && Crosses(Exact, x, y) ==>
               StillOffers(tokenA, tokenB, orders, x, y.buyAmount)
    ensures Unsold(tokenA, tokenB, orders, y) == 0
  {
    var bk := BookOf(tokenA, tokenB, orders);
    BookIsSorted(tokenA, tokenB, orders);
    BookMembers(tokenA, tokenB, orders, payer);
    var a0: nat :| a0 < |bk.aToB| && bk.aToB[a0] == payer;
    if Unsold(tokenA, tokenB, orders, y) != 0 {
      var k := UnsoldSellerOfB(tokenA, tokenB, orders, y);
      forall a: nat | a < |bk.aToB| && Crosses(Exact, bk.aToB[a], y) ensures y.buyAmount <= Swept(bk).aRem[a] {
        BookMembers(tokenA, tokenB, orders, bk.aToB[a]);
        CopyOfAKeeps(tokenA, tokenB, orders, bk.aToB[a], a);
        RemaindersOf(bk, a, k);
      }
      FillOrKillSellerOfBIsServed(bk, k, a0);
    }
  }
}
