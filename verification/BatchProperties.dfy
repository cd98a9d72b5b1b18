/** What a whole batch guarantees, across its markets. */
module BatchProperties {
  import opened Numbers
  import opened Orders
  import opened Sorting
  import opened Sweep
  import opened Settlement
  import opened BookCrossing
  import opened Conservation
  import opened Exactness
  import opened Market
  import opened Batches

  // ---------------------------------------------------------------- trades of a batch

  /** The trades of the markets `keys`, market by market. */
  ghost function TradeList(orders: seq<Order>, keys: seq<Pair>): seq<Trade> {
    if keys == [] then []
    else
      TradeList(orders, Init(keys))
      + PairOutcome(Machine, Last(keys).a, Last(keys).b, Group(orders, Last(keys))).trades
  }

  lemma {:induction false} TradeListIsTheSum(orders: seq<Order>, keys: seq<Pair>)
    ensures multiset(TradeList(orders, keys)) == SumOver(Share(Machine, orders), keys).trades
  {
    if keys != [] {
      TradeListIsTheSum(orders, Init(keys));
    }
  }

  lemma {:induction false} TradeListMembers(orders: seq<Order>, keys: seq<Pair>, t: Trade) returns (key: Pair)
    requires t in TradeList(orders, keys)
    ensures key in keys && t in PairOutcome(Machine, key.a, key.b, Group(orders, key)).trades
  {
    var key' := Last(keys);
    if t in PairOutcome(Machine, key'.a, key'.b, Group(orders, key')).trades {
      key := key';
    } else {
      key := TradeListMembers(orders, Init(keys), t);
    }
  }

  /** Every trade of a batch is of a batch order and honours it; if all amounts are below 2^63
      it also respects the order's limit price. */
  lemma {:induction false} BatchTradesAreFair(orders: seq<Order>, t: Trade)
    requires t in BatchTotals(Machine, orders).trades
    ensures OrderOf(t) in orders && HonoursOrder(t)
    ensures (forall o :: o in orders ==> HalfRange(o)) ==> RespectsLimit(t)
  {
    TradeListIsTheSum(orders, Pairs(orders));
    var key := TradeListMembers(orders, Pairs(orders), t);
    EveryTradeIsFair(key.a, key.b, Group(orders, key), t);
    forall o ensures o in Group(orders, key) ==> o in orders {
      GroupsMeet(orders, key, o);
    }
  }

  lemma {:induction false} IdsPerMarket(orders: seq<Order>, keys: seq<Pair>, o: Order)
    requires Distinct(keys)
    ensures multiset(Ids(TradeList(orders, keys)))[o.Id()] <= if PairOf(o) in keys then multiset(orders)[o] else 0
  {
    if keys != [] {
      var key := Last(keys);
      IdsPerMarket(orders, Init(keys), o);
      AtMostOneTradePerEntry(key.a, key.b, Group(orders, key), o);
      FilterCount(orders, x => PairOf(x) == key, o);
      IdsConcat(TradeList(orders, Init(keys)), PairOutcome(Machine, key.a, key.b, Group(orders, key)).trades);
    }
  }

  lemma {:induction false} IdsOfPermutation(ts: seq<Trade>, us: seq<Trade>)
    requires multiset(ts) == multiset(us)
    ensures multiset(Ids(ts)) == multiset(Ids(us))
  {
    if ts == [] {
      assert |multiset(us)| == 0;
    } else {
      var k := RemoveFromBoth(ts, us);
      IdsOfPermutation(Init(ts), Without(us, k));
      assert ts == Init(ts) + [Last(ts)];
      PushId(Init(ts), Last(ts));
      IdsConcat(us[..k], us[k + 1..]);
      assert us == us[..k] + [us[k]] + us[k + 1..];
      IdsConcat(us[..k] + [us[k]], us[k + 1..]);
      PushId(us[..k], us[k]);
    }
  }

  /** In whatever order a batch lists its trades, an order gets at most as many trades as it
      has entries in the batch. */
  lemma {:induction false} BatchTradesPerOrder(orders: seq<Order>, ts: seq<Trade>, o: Order)
    requires multiset(ts) == BatchTotals(Machine, orders).trades
    ensures multiset(Ids(ts))[o.Id()] <= multiset(orders)[o]
  {
    TradeListIsTheSum(orders, Pairs(orders));
    IdsOfPermutation(ts, TradeList(orders, Pairs(orders)));
    PairsAreTheKeys(orders);
    IdsPerMarket(orders, Pairs(orders), o);
  }

  // ---------------------------------------------------------------- locality

  lemma {:induction false} MarketTradesStayInTheirPair(orders: seq<Order>, key: Pair, t: Trade)
    requires t in PairOutcome(Machine, key.a, key.b, Group(orders, key)).trades
    ensures PairOf(OrderOf(t)) == key
  {
    EveryTradeIsFair(key.a, key.b, Group(orders, key), t);
    GroupsMeet(orders, key, OrderOf(t));
  }

  lemma {:induction false} SumIsLocal(f: Pair -> Totals, keys: seq<Pair>, key: Pair, t: Trade)
    requires Distinct(keys) && forall k :: k in keys && k != key ==> f(k).trades[t] == 0
    ensures SumOver(f, keys).trades[t] == if key in keys then f(key).trades[t] else 0
  {
    if keys != [] {
      SumIsLocal(f, Init(keys), key, t);
      assert Last(keys) in keys;
    }
  }

  /** Pair locality: the trades a batch reports for a pair are those of that pair's market
      alone. */
  lemma {:induction false} PairLocality(orders: seq<Order>, t: Trade)
    ensures var key := PairOf(OrderOf(t));
            BatchTotals(Machine, orders).trades[t] ==
            multiset(PairOutcome(Machine, key.a, key.b, Group(orders, key)).trades)[t]
  {
    var key := PairOf(OrderOf(t));
    PairsAreTheKeys(orders);
    forall k | k in Pairs(orders) && k != key ensures Share(Machine, orders)(k).trades[t] == 0 {
      if t in PairOutcome(Machine, k.a, k.b, Group(orders, k)).trades {
        MarketTradesStayInTheirPair(orders, k, t);
      }
    }
    SumIsLocal(Share(Machine, orders), Pairs(orders), key, t);
    if t in PairOutcome(Machine, key.a, key.b, Group(orders, key)).trades {
      EveryTradeIsFair(key.a, key.b, Group(orders, key), t);
      GroupsMeet(orders, key, OrderOf(t));
    }
  }

  lemma {:induction false} GroupIgnoresOtherPairs(orders: seq<Order>, extra: seq<Order>, key: Pair)
    requires forall o :: o in extra ==> PairOf(o) != key
    ensures Group(orders + extra, key) == Group(orders, key)
  {
    if extra == [] {
      assert orders + extra == orders;
    } else {
      GroupIgnoresOtherPairs(orders, Init(extra), key);
      assert Init(orders + extra) == orders + Init(extra);
      assert Last(orders + extra) == Last(extra) && Last(extra) in extra;
    }
  }

  /** Adding orders on other pairs leaves a pair's trades, clearing prices and surplus
      unchanged, and with them what the batch reports for the pair's orders. */
  lemma {:induction false} OtherPairsDoNotInterfere(orders: seq<Order>, extra: seq<Order>, key: Pair, t: Trade)
    requires forall o :: o in extra ==> PairOf(o) != key
    ensures MarketTotals(Machine, orders + extra, key) == MarketTotals(Machine, orders, key)
    ensures PairOf(OrderOf(t)) == key ==>
              BatchTotals(Machine, orders + extra).trades[t] == BatchTotals(Machine, orders).trades[t]
  {
    GroupIgnoresOtherPairs(orders, extra, key);
    if PairOf(OrderOf(t)) == key {
      PairLocality(orders + extra, t);
      PairLocality(orders, t);
    }
  }

  // ---------------------------------------------------------------- arrival order

  lemma {:induction false} SharesAgree(f: Pair -> Totals, g: Pair -> Totals, keys: seq<Pair>)
    requires forall key :: key in keys ==> f(key) == g(key)
    ensures SumOver(f, keys) == SumOver(g, keys)
  {
    if keys != [] {
      SharesAgree(f, g, Init(keys));
    }
  }

  lemma {:induction false} SamePairs(xs: seq<Order>, ys: seq<Order>)
    requires multiset(xs) == multiset(ys)
    ensures multiset(Pairs(xs)) == multiset(Pairs(ys))
  {
    PairsAreTheKeys(xs);
    PairsAreTheKeys(ys);
    forall o: Order ensures o in xs <==> o in ys {
      assert o in xs <==> o in multiset(xs);
      assert o in ys <==> o in multiset(ys);
    }
    DistinctWithSameElements(Pairs(xs), Pairs(ys));
  }

  /** Limit prices differ pairwise on each side of each market. */
  ghost predicate NoTies(orders: seq<Order>) {
    forall key: Pair {:trigger Group(orders, key)} ::
      && DistinctPrices(SellersOfA(key.a, key.b, Group(orders, key)))
      && DistinctPrices(SellersOfB(key.a, key.b, Group(orders, key)))
  }

  lemma {:induction false} MarketForgetsArrivalOrder(xs: seq<Order>, ys: seq<Order>, key: Pair)
    requires multiset(xs) == multiset(ys) && NoTies(xs)
    ensures MarketTotals(Machine, xs, key) == MarketTotals(Machine, ys, key)
  {
    FilterOfPermutation(xs, ys, o => PairOf(o) == key);
    var gx, gy := Group(xs, key), Group(ys, key);
    SameBooks(key, gx, gy);
  }

  lemma {:induction false} SameBooks(key: Pair, gx: seq<Order>, gy: seq<Order>)
    requires multiset(gx) == multiset(gy)
    requires DistinctPrices(SellersOfA(key.a, key.b, gx)) && DistinctPrices(SellersOfB(key.a, key.b, gx))
    ensures BookOf(key.a, key.b, gx) == BookOf(key.a, key.b, gy)
  {
    FilterOfPermutation(gx, gy, o => IsAToB(key.a, key.b, o));
    FilterOfPermutation(gx, gy, o => IsBToA(key.a, key.b, o));
    DistinctPricesHaveNoTies(SellersOfA(key.a, key.b, gx), SellersOfA(key.a, key.b, gy));
    DistinctPricesHaveNoTies(SellersOfB(key.a, key.b, gx), SellersOfB(key.a, key.b, gy));
    SortForgetsArrivalOrder(SellersOfA(key.a, key.b, gx), SellersOfA(key.a, key.b, gy));
    SortForgetsArrivalOrder(SellersOfB(key.a, key.b, gx), SellersOfB(key.a, key.b, gy));
  }

  /** Arrival order is no advantage: without price ties every permutation of a batch gives the
      same trades, prices and surplus. */
  lemma {:induction false} BatchForgetsArrivalOrder(xs: seq<Order>, ys: seq<Order>)
    requires multiset(xs) == multiset(ys) && NoTies(xs)
    ensures BatchTotals(Machine, xs) == BatchTotals(Machine, ys)
  {
    forall key | key in Pairs(xs) ensures Share(Machine, xs)(key) == Share(Machine, ys)(key) {
      MarketForgetsArrivalOrder(xs, ys, key);
    }
    SharesAgree(Share(Machine, xs), Share(Machine, ys), Pairs(xs));
    SamePairs(xs, ys);
    ScheduleDoesNotMatter(Share(Machine, ys), Pairs(xs), Pairs(ys));
  }

  // ---------------------------------------------------------------- exactness

  function GroupSize(orders: seq<Order>): Pair -> nat {
    key => |Group(orders, key)|
  }

  function SizeOver(g: Pair -> nat, keys: seq<Pair>): nat {
    if keys == [] then 0 else SizeOver(g, Init(keys)) + g(Last(keys))
  }

  lemma {:induction false} GroupSizesPush(orders: seq<Order>, o: Order, keys: seq<Pair>)
    requires Distinct(keys)
    ensures SizeOver(GroupSize(orders + [o]), keys)
            == SizeOver(GroupSize(orders), keys) + if PairOf(o) in keys then 1 else 0
  {
    if keys != [] {
      GroupSizesPush(orders, o, Init(keys));
      assert Init(orders + [o]) == orders;
    }
  }

  lemma {:induction false} EmptyGroup(orders: seq<Order>, key: Pair)
    requires key !in Pairs(orders)
    ensures Group(orders, key) == []
  {
    PairsAreTheKeys(orders);
    if Group(orders, key) != [] {
      GroupsMeet(orders, key, Group(orders, key)[0]);
    }
  }

  /** The groups partition the batch. */
  lemma {:induction false} GroupsPartitionTheBatch(orders: seq<Order>)
    ensures SizeOver(GroupSize(orders), Pairs(orders)) == |orders|
  {
    if orders != [] {
      var rest, o := Init(orders), Last(orders);
      GroupsPartitionTheBatch(rest);
      PairsAreTheKeys(rest);
      assert orders == rest + [o];
      GroupSizesPush(rest, o, Pairs(rest));
      if PairOf(o) !in Pairs(rest) {
        EmptyGroup(rest, PairOf(o));
        assert Init(Pairs(orders)) == Pairs(rest);
        assert Group(orders, PairOf(o)) == [o];
      }
    }
  }

  lemma {:induction false} SmallMarket(orders: seq<Order>, key: Pair)
    requires SmallOrders(orders) && |Group(orders, key)| < COUNT_BOUND
    ensures MarketTotals(Machine, orders, key) == MarketTotals(Exact, orders, key)
    ensures MarketTotals(Exact, orders, key).surplus <= GAIN_BOUND * |Group(orders, key)|
  {
    var g := Group(orders, key);
    forall o ensures o in g ==> o in orders {
      GroupsMeet(orders, key, o);
    }
    SmallMarketsAreExact(key.a, key.b, g);
    SmallRawSurplus(key, g);
  }

  lemma {:induction false} SmallRawSurplus(key: Pair, g: seq<Order>)
    requires SmallOrders(g) && |g| < COUNT_BOUND
    ensures RawSurplus(Machine, key, g) == RawSurplus(Exact, key, g) <= GAIN_BOUND * |g|
  {
    var bk := BookOf(key.a, key.b, g);
    BookIsSorted(key.a, key.b, g);
    SmallOrdersMakeSmallBook(key.a, key.b, g);
    BookSize(key.a, key.b, g);
    FinalStateFacts(Exact, bk);
    if Swept(bk).fillsAb != [] {
      SmallBookSurplus(bk, Swept(bk), |g|);
    }
  }

  lemma {:induction false} SmallBookSurplus(bk: Book, s: State, n: nat)
    requires SortedBook(bk) && SmallBook(bk) && |bk.aToB| + |bk.bToA| <= n && HasFills(bk, s)
    ensures TotalSurplus(Machine, bk, s) == TotalSurplus(Exact, bk, s) <= GAIN_BOUND * n
  {
    SmallBookIsExact(bk, s);
    MulMono(|bk.aToB| + |bk.bToA|, GAIN_BOUND, n, GAIN_BOUND);
  }

  lemma {:induction false} BookSize(tokenA: Address, tokenB: Address, orders: seq<Order>)
    ensures |BookOf(tokenA, tokenB, orders).aToB| + |BookOf(tokenA, tokenB, orders).bToA| <= |orders|
  {
    SplitKeepsCount(tokenA, tokenB, orders);
    SortSorts(SellersOfA(tokenA, tokenB, orders));
    SortSorts(SellersOfB(tokenA, tokenB, orders));
  }

  lemma {:induction false} SharesWithin(f: Pair -> Totals, h: Pair -> nat, keys: seq<Pair>)
    requires forall key :: key in keys ==> f(key).surplus <= h(key)
    ensures SumOver(f, keys).surplus <= SizeOver(h, keys)
  {
    if keys != [] {
      SharesWithin(f, h, Init(keys));
      assert Last(keys) in keys;
    }
  }

  lemma {:induction false} SizesScale(g: Pair -> nat, h: Pair -> nat, keys: seq<Pair>, w: nat)
    requires forall key :: h(key) == w * g(key)
    ensures SizeOver(h, keys) == w * SizeOver(g, keys)
  {
    if keys == [] {
      assert w * 0 == 0;
    } else {
      SizesScale(g, h, Init(keys), w);
      Distribute(w, SizeOver(g, Init(keys)), g(Last(keys)));
    }
  }

  lemma {:induction false} FilterShrinks(s: seq<Order>, f: Order -> bool)
    ensures |Filter(s, f)| <= |s|
  {
    if s != [] {
      FilterShrinks(Init(s), f);
    }
  }

  lemma {:induction false} SmallShare(orders: seq<Order>, key: Pair)
    requires SmallOrders(orders) && |orders| < COUNT_BOUND
    ensures Share(Machine, orders)(key) == Share(Exact, orders)(key)
    ensures Share(Exact, orders)(key).surplus <= GAIN_BOUND * GroupSize(orders)(key)
  {
    FilterShrinks(orders, o => PairOf(o) == key);
    SmallMarket(orders, key);
  }

  lemma {:induction false} SmallSharesAgree(orders: seq<Order>)
    requires SmallOrders(orders) && |orders| < COUNT_BOUND
    ensures BatchTotals(Machine, orders) == BatchTotals(Exact, orders)
  {
    forall key | key in Pairs(orders) ensures Share(Machine, orders)(key) == Share(Exact, orders)(key) {
      SmallShare(orders, key);
    }
    SharesAgree(Share(Machine, orders), Share(Exact, orders), Pairs(orders));
  }

  lemma {:induction false} SmallSharesFit(orders: seq<Order>)
    requires SmallOrders(orders) && |orders| < COUNT_BOUND
    ensures BatchTotals(Exact, orders).surplus <= GAIN_BOUND * |orders| <= U128_MAX
  {
    var g := GroupSize(orders);
    var h := (key: Pair) => GAIN_BOUND * g(key);
    forall key | key in Pairs(orders) ensures Share(Exact, orders)(key).surplus <= h(key) {
      SmallShare(orders, key);
    }
    SharesWithin(Share(Exact, orders), h, Pairs(orders));
    SizesScale(g, h, Pairs(orders), GAIN_BOUND);
    GroupsPartitionTheBatch(orders);
    MulMono(GAIN_BOUND, |orders|, GAIN_BOUND, COUNT_BOUND);
  }

  /** Refinement of a whole batch: with amounts below 2^42 and fewer than 2^40 orders the
      engine reports what unbounded arithmetic would, and the score is the exact sum of all
      per-order surpluses. */
  lemma {:induction false} SmallBatchesAreExact(orders: seq<Order>)
    requires SmallOrders(orders) && |orders| < COUNT_BOUND
    ensures BatchTotals(Machine, orders) == BatchTotals(Exact, orders)
    ensures Saturate(Machine, BatchTotals(Machine, orders).surplus) == BatchTotals(Exact, orders).surplus
  {
    SmallSharesAgree(orders);
    SmallSharesFit(orders);
  }
}
