/** What a market does with many counter-orders to one partially fillable seller of A. */
module CounterOrders {
  import opened Numbers
  import opened Orders
  import opened Sorting
  import opened Sweep
  import opened BookCrossing
  import opened Settlement
  import opened Conservation
  import opened Samples
  import opened Market
  import opened MarketPriority
  import opened Batches

  /** The exact opposite of an order, by another owner. */
  function Counter(o: Order, owner: Address): Order {
    Offer(owner, o.buyMint, o.sellMint, o.buyAmount, o.sellAmount)
  }

  function Counters(o: Order, first: Address, n: nat): seq<Order> {
    if n == 0 then [] else Counters(o, first, n - 1) + [Counter(o, first + n - 1)]
  }

  lemma {:induction false} CountersAreCounters(o: Order, first: Address, n: nat)
    ensures |Counters(o, first, n)| == n
    ensures forall c :: c in Counters(o, first, n) ==> c == Counter(o, c.owner)
  {
    if n > 0 {
      CountersAreCounters(o, first, n - 1);
    }
  }

  // ---------------------------------------------------------------- the market with counter-orders

  /** How much A a side offers altogether. */
  function OfferedBy(orders: seq<Order>): nat {
    Sum(Offers(orders))
  }

  lemma {:induction false} SumWithin(n: nat, f: nat -> nat, xs: seq<nat>)
    requires n <= |xs| && forall k: nat :: k < n ==> f(k) <= xs[k]
    ensures SumTo(n, f) <= Sum(xs[..n])
  {
    if n > 0 {
      SumWithin(n - 1, f, xs);
      assert xs[..n][..n - 1] == xs[..n - 1];
    }
  }

  lemma {:induction false} LegsSellSomething(legs: seq<Leg>)
    requires forall n :: 0 <= n < |legs| ==> legs[n].sold > 0
    ensures |legs| <= LegsSold(legs)
  {
    if legs != [] {
      LegsSellSomething(Init(legs));
    }
  }

  /** Every fill sells some A, so there are no more fills than A on offer. */
  lemma {:induction false} FillsWithinOffers(bk: Book, s: State)
    requires Inv(bk, s)
    ensures |s.fillsAb| <= OfferedBy(bk.aToB)
  {
    forall n | 0 <= n < |s.fillsAb| ensures s.fillsAb[n].sold > 0 {
      assert AtBookRatio(bk.bToA[s.fillsBa[n].idx], s.fillsAb[n].sold, s.fillsAb[n].bought);
    }
    LegsSellSomething(s.fillsAb);
    TotalsPerOrder(s.fillsAb, |bk.aToB|);
    var xs := Offers(bk.aToB);
    SumWithin(|bk.aToB|, k => SoldBy(s.fillsAb, k), xs);
    assert xs[..|bk.aToB|] == xs;
  }

  lemma {:induction false} FilledPositions(orders: seq<Order>, f: Order -> bool, g: nat -> nat, n: nat)
    requires n <= |orders| && forall k: nat :: k < n && f(orders[k]) ==> g(k) > 0
    ensures |Filter(orders[..n], f)| <= SumTo(n, g)
  {
    if n > 0 {
      FilledPositions(orders, f, g, n - 1);
      assert Init(orders[..n]) == orders[..n - 1] && Last(orders[..n]) == orders[n - 1];
    }
  }

  /** While a position of `o` keeps some A, every counter-order in the book has a fill. */
  lemma {:induction false} CountersAreFilled(bk: Book, o: Order, a: nat, b: nat)
    requires SortedBook(bk) && a < |bk.aToB| && bk.aToB[a] == o && o.partialFill
    requires o.sellAmount > 0 && o.buyAmount > 0 && SoldBy(Swept(bk).fillsAb, a) != o.sellAmount
    requires b < |bk.bToA| && bk.bToA[b] == Counter(o, bk.bToA[b].owner)
    ensures FillsOf(Swept(bk).fillsBa, b) > 0
  {
    RemaindersOf(bk, a, b);
    NoFillsNothingSold(Swept(bk).fillsBa, b);
    if FillsOf(Swept(bk).fillsBa, b) == 0 {
      MulMono(o.buyAmount, 1, o.buyAmount, o.sellAmount);
      NoCapacityMeansDust(o.buyAmount, bk.bToA[b]);
      assert o.buyAmount * o.sellAmount == o.sellAmount * o.buyAmount;
      NoCrossingLeftBehind(bk, a, b);
    }
  }

  lemma {:induction false} CountersOutnumberFills(bk: Book, o: Order, a: nat, n: nat, f: Order -> bool)
    requires SortedBook(bk) && a < |bk.aToB| && bk.aToB[a] == o && o.partialFill
    requires o.sellAmount > 0 && o.buyAmount > 0 && n <= |Filter(bk.bToA, f)| && OfferedBy(bk.aToB) < n
    requires forall x :: f(x) ==> x == Counter(o, x.owner)
    ensures SoldBy(Swept(bk).fillsAb, a) == o.sellAmount
  {
    var s := Swept(bk);
    SweptHasInv(bk);
    if SoldBy(s.fillsAb, a) != o.sellAmount {
      forall b: nat | b < |bk.bToA| && f(bk.bToA[b]) ensures FillsOf(s.fillsBa, b) > 0 {
        CountersAreFilled(bk, o, a, b);
      }
      FilledPositions(bk.bToA, f, k => FillsOf(s.fillsBa, k), |bk.bToA|);
      assert bk.bToA[..|bk.bToA|] == bk.bToA;
      TotalsPerOrder(s.fillsBa, |bk.bToA|);
      FillsWithinOffers(bk, s);
    }
  }

  /** The pair's market, with counter-orders added to it. */
  lemma {:induction false} GroupWithCounters(orders: seq<Order>, key: Pair, counters: seq<Order>)
    requires forall c :: c in counters ==> PairOf(c) == key && !IsAToB(key.a, key.b, c) && IsBToA(key.a, key.b, c)
    ensures Group(orders + counters, key) == Group(orders, key) + counters
    ensures SellersOfA(key.a, key.b, Group(orders + counters, key)) == SellersOfA(key.a, key.b, Group(orders, key))
    ensures SellersOfB(key.a, key.b, Group(orders + counters, key)) ==
            SellersOfB(key.a, key.b, Group(orders, key)) + counters
  {
    var g := Group(orders, key);
    FilterConcat(orders, counters, o => PairOf(o) == key);
    FilterAll(counters, o => PairOf(o) == key);
    FilterConcat(g, counters, o => IsAToB(key.a, key.b, o));
    FilterAll(counters, o => IsAToB(key.a, key.b, o));
    FilterConcat(g, counters, o => IsBToA(key.a, key.b, o));
    FilterAll(counters, o => IsBToA(key.a, key.b, o));
  }

  lemma {:induction false} CountersEnterTheBook(tokenA: Address, tokenB: Address, orders: seq<Order>,
                                                others: seq<Order>, counters: seq<Order>, f: Order -> bool)
    requires SellersOfB(tokenA, tokenB, orders) == others + counters && forall c :: c in counters ==> f(c)
    ensures |counters| <= |Filter(BookOf(tokenA, tokenB, orders).bToA, f)|
  {
    SortSorts(others + counters);
    FilterOfPermutation(SortByLimitPrice(others + counters), others + counters, f);
    var x, y := Filter(SortByLimitPrice(others + counters), f), Filter(others + counters, f);
    assert |x| == |multiset(x)| == |multiset(y)| == |y|;
    FilterConcat(others, counters, f);
    FilterAll(counters, f);
  }

  /** One counter-order more than there is A on offer in the order's market. */
  function CountersNeeded(orders: seq<Order>, o: Order): nat {
    var key := PairOf(o);
    OfferedBy(SortByLimitPrice(SellersOfA(key.a, key.b, Group(orders, key)))) + 1
  }

  /** A partially fillable seller of A that is listed with more counter-orders than there is A on
      offer in its market is sold out. */
  lemma {:induction false} CountersSellTheOrderOut(orders: seq<Order>, o: Order, first: Address, n: nat)
    requires o in orders && o.partialFill && o.sellMint < o.buyMint && o.sellAmount > 0 && o.buyAmount > 0
    requires n == CountersNeeded(orders, o)
    ensures var key, all := PairOf(o), orders + Counters(o, first, n);
            Unsold(key.a, key.b, Group(all, key), o) == 0 && o in Group(all, key)
  {
    var key, cs := PairOf(o), Counters(o, first, n);
    var all := orders + cs;
    var g := Group(all, key);
    CountersAreCounters(o, first, n);
    GroupWithCounters(orders, key, cs);
    GroupsMeet(all, key, o);
    BookIsSorted(key.a, key.b, g);
    var f := (x: Order) => x == Counter(o, x.owner);
    CountersEnterTheBook(key.a, key.b, g, SellersOfB(key.a, key.b, Group(orders, key)), cs, f);
    if Unsold(key.a, key.b, g, o) != 0 {
      var a := UnsoldSellerOfA(key.a, key.b, g, o);
      CountersOutnumberFills(BookOf(key.a, key.b, g), o, a, n, f);
    }
  }
}
