/** A concrete run of the auction that overwrites a cancellation. */
module AuctionWitnesses {
  import opened Numbers
  import opened Prices
  import opened Orders
  import opened Sorting
  import opened Sweep
  import opened BookCrossing
  import opened ClearingPrices
  import opened Settlement
  import opened Market
  import opened Batches
  import opened Samples
  import opened NarrowSpreads
  import opened Witnesses
  import opened Repository
  import opened Auction
  import opened Runs

  /** The two perfect orders, signed. */
  function FirstSigned(x: Address): SignedOrder {
    SignedOrder(SellA(x, 100, 150, true), [])
  }

  function SecondSigned(y: Address): SignedOrder {
    SignedOrder(SellB(y, 200, 100, true), [])
  }

  function FirstId(x: Address): OrderId {
    FirstSigned(x).order.Id()
  }

  function SecondId(y: Address): OrderId {
    SecondSigned(y).order.Id()
  }

  function BothOpen(x: Address, y: Address): Store {
    map[FirstId(x) := NewRecord(FirstSigned(x), 0), SecondId(y) := NewRecord(SecondSigned(y), 0)]
  }

  function FirstCancelled(x: Address, y: Address): Store {
    BothOpen(x, y)[FirstId(x) := NewRecord(FirstSigned(x), 0).(status := Cancelled)]
  }

  function BothListed(x: Address, y: Address): Phase {
    Listing({FirstId(x), SecondId(y)}, [FirstSigned(x), SecondSigned(y)])
  }

  /** Both orders are submitted, and a round lists them. */
  lemma {:induction false} ListingBoth(x: Address, y: Address) returns (steps: seq<Step>)
    ensures ValidRun(GENESIS, steps) && ReferenceRaces(GENESIS, steps)
    ensures End(GENESIS, steps) == World(BothOpen(x, y), BothListed(x, y), [])
  {
    var first, second := FirstSigned(x), SecondSigned(y);
    steps := [];
    OneMoreStep(GENESIS, steps, Submit(first, 0));
    steps := steps + [Submit(first, 0)];
    var st1 := map[FirstId(x) := NewRecord(first, 0)];
    assert End(GENESIS, steps) == World(st1, Idle, []);
    OneMoreStep(GENESIS, steps, Submit(second, 0));
    steps := steps + [Submit(second, 0)];
    assert End(GENESIS, steps) == World(BothOpen(x, y), Idle, []);
    var rest := ListingRound(x, y);
    RunsCompose(GENESIS, steps, rest);
    steps := steps + rest;
  }

  lemma {:induction false} ListingRound(x: Address, y: Address) returns (steps: seq<Step>)
    ensures var w := World(BothOpen(x, y), Idle, []);
            && ValidRun(w, steps) && ReferenceRaces(w, steps)
            && End(w, steps) == World(BothOpen(x, y), BothListed(x, y), [])
  {
    var st, w := BothOpen(x, y), World(BothOpen(x, y), Idle, []);
    steps := [];
    OneMoreStep(w, steps, BeginRound(0));
    steps := steps + [BeginRound(0)];
    OneMoreStep(w, steps, BeginListing);
    steps := steps + [BeginListing];
    assert End(w, steps) == World(st, Listing({}, []), []);
    OneMoreStep(w, steps, ReadOne(FirstId(x)));
    steps := steps + [ReadOne(FirstId(x))];
    assert {} + {FirstId(x)} == {FirstId(x)} && [] + [FirstSigned(x)] == [FirstSigned(x)];
    assert End(w, steps) == World(st, Listing({FirstId(x)}, [FirstSigned(x)]), []);
    OneMoreStep(w, steps, ReadOne(SecondId(y)));
    steps := steps + [ReadOne(SecondId(y))];
    assert {FirstId(x)} + {SecondId(y)} == {FirstId(x), SecondId(y)};
    assert [FirstSigned(x)] + [SecondSigned(y)] == [FirstSigned(x), SecondSigned(y)];
  }

  /** The reference matcher's answer to the two orders: one trade of each. */
  lemma {:induction false} AnswerToBoth(x: Address, y: Address) returns (sol: Solution)
    ensures IsReferenceAnswer(PerfectOrders(x, y), sol)
    ensures |sol.trades| == 2 && sol.trades[0].orderId == FirstId(x) && sol.trades[1].orderId == SecondId(y)
  {
    var orders, key := PerfectOrders(x, y), Pair(MINT_A, MINT_B);
    var t, u := TradesOfPerfectMarket(x, y);
    var out := PairOutcome(Machine, MINT_A, MINT_B, orders);
    OnePairBatch(orders[0], orders[1], key, out);
    sol := Solution(0, 0, out.clearing, out.trades, ReferenceScore(orders));
  }

  lemma {:induction false} OnePair(x: Order, y: Order, key: Pair)
    requires PairOf(x) == key && PairOf(y) == key
    ensures Pairs([x, y]) == [key] && Group([x, y], key) == [x, y]
  {
    assert Init([x, y]) == [x] && Init([x]) == [];
    assert Pairs([]) == [] && Pairs([x]) == [key];
    assert Group([], key) == [] && Group([x], key) == [x];
  }

  lemma {:induction false} SumOfOne(f: Pair -> Totals, key: Pair)
    ensures SumOver(f, [key]).trades == f(key).trades && SumOver(f, [key]).clearing == f(key).clearing
  {
    assert Init([key]) == [] && SumOver(f, []) == NOTHING;
  }

  lemma {:induction false} OnePairBatch(x: Order, y: Order, key: Pair, out: Outcome)
    requires PairOf(x) == key && PairOf(y) == key && out == PairOutcome(Machine, key.a, key.b, [x, y])
    ensures BatchTotals(Machine, [x, y]).trades == multiset(out.trades)
    ensures BatchTotals(Machine, [x, y]).clearing == multiset(out.clearing)
  {
    OnePair(x, y, key);
    SumOfOne(Share(Machine, [x, y]), key);
  }

  lemma {:induction false} TradesOfPerfectMarket(x: Address, y: Address) returns (t: Trade, u: Trade)
    ensures PairOutcome(Machine, MINT_A, MINT_B, PerfectOrders(x, y)).trades == [t, u]
    ensures t.orderId == FirstId(x) && u.orderId == SecondId(y)
  {
    var orders, bk := PerfectOrders(x, y), PerfectBook(x, y);
    assert bk.aToB + bk.bToA == orders;
    PairSettles(bk, 100, 150, 200, 100);
    BookOfListing(MINT_A, MINT_B, bk);
    OutcomeOfBook(Machine, MINT_A, MINT_B, orders);
    t, u := TradesOfPair(bk, Swept(bk));
  }

  lemma {:induction false} TradesOfPair(bk: Book, s: State) returns (t: Trade, u: Trade)
    requires HasFills(bk, s) && |bk.aToB| == |bk.bToA| == 1
    requires SoldBy(s.fillsAb, 0) > 0 && SoldBy(s.fillsBa, 0) > 0
    ensures TradesOfA(Machine, bk, s) + TradesOfB(Machine, bk, s) == [t, u]
    ensures t.orderId == bk.aToB[0].Id() && u.orderId == bk.bToA[0].Id()
  {
    var p := PriceOfA(Machine, bk, s);
    t := OnlyTradeOfSide(bk.aToB, s.fillsAb, p);
    u := OnlyTradeOfSide(bk.bToA, s.fillsBa, Reciprocal(p));
  }

  lemma {:induction false} OnlyTradeOfSide(orders: seq<Order>, legs: seq<Leg>, p: Price) returns (t: Trade)
    requires p.den > 0 && |orders| == 1 && SoldBy(legs, 0) > 0
    ensures TradesOf(Entries(Machine, orders, legs, p)) == [t] && t.orderId == orders[0].Id()
  {
    var es := Entries(Machine, orders, legs, p);
    NoFillsNothingSold(legs, 0);
    assert Init(es) == [];
    t := es[0].trade;
  }

  /** Marking two trades and delivering them. */
  lemma {:induction false} FinishRound(w: World, sol: Solution) returns (steps: seq<Step>)
    requires w.phase == Marking(sol, 0) && w.delivered == [] && |sol.trades| == 2
    requires sol.trades[0].orderId in w.store && sol.trades[1].orderId in w.store
    requires sol.trades[0].orderId != sol.trades[1].orderId
    ensures ValidRun(w, steps) && ReferenceRaces(w, steps) && DeliveredIn(End(w, steps), sol.trades[0].orderId)
  {
    steps := [];
    OneMoreStep(w, steps, MarkOne(0));
    steps := steps + [MarkOne(0)];
    assert End(w, steps).phase == Marking(sol, 1);
    OneMoreStep(w, steps, MarkOne(0));
    steps := steps + [MarkOne(0)];
    assert End(w, steps).phase == Marking(sol, 2);
    OneMoreStep(w, steps, Deliver);
    steps := steps + [Deliver];
    assert AllTrades([sol]) == sol.trades && Ids(sol.trades)[0] == sol.trades[0].orderId;
  }

  /** Between rounds, the order shows as auctioned and a trade of it was delivered. */
  ghost predicate DeliveredIn(w: World, id: OrderId) {
    w.phase.Idle? && id in w.store && w.store[id].status == Auctioned && id in Ids(AllTrades(w.delivered))
  }

  lemma {:induction false} RaceAndFinish(w: World, sol: Solution) returns (steps: seq<Step>)
    requires w.phase.Listing? && w.phase.batch != [] && IsReferenceAnswer(OrdersOf(w.phase.batch), sol)
    requires w.delivered == [] && |sol.trades| == 2
    requires sol.trades[0].orderId in w.store && sol.trades[1].orderId in w.store
    requires sol.trades[0].orderId != sol.trades[1].orderId
    ensures ValidRun(w, steps) && ReferenceRaces(w, steps) && DeliveredIn(End(w, steps), sol.trades[0].orderId)
  {
    var race := Race([Solved(sol)]);
    ReferenceAnswerWins(w, sol);
    OneMoreStep(w, [], race);
    assert [] + [race] == [race];
    var rest := FinishRound(w.(phase := Marking(sol, 0)), sol);
    RunsCompose(w, [race], rest);
    steps := [race] + rest;
  }

  /** Cancelling the first order, whatever the round is at. */
  lemma {:induction false} CancelFirst(x: Address, y: Address, w: World)
    requires w.store == BothOpen(x, y)
    ensures Next(w, CancelOrder(FirstId(x), x, 0)) == w.(store := FirstCancelled(x, y))
  {
  }

  lemma {:induction false} ListedThenCancelled(x: Address, y: Address) returns (steps: seq<Step>)
    ensures ValidRun(GENESIS, steps) && ReferenceRaces(GENESIS, steps)
    ensures steps != [] && Last(steps) == CancelOrder(FirstId(x), x, 0)
    ensures End(GENESIS, steps) == World(FirstCancelled(x, y), BothListed(x, y), [])
  {
    var cancel := CancelOrder(FirstId(x), x, 0);
    steps := ListingBoth(x, y);
    CancelFirst(x, y, End(GENESIS, steps));
    OneMoreStep(GENESIS, steps, cancel);
    steps := steps + [cancel];
  }

  /** From the empty repository, with the reference matcher as the only solver: the first order
      is cancelled by its owner while the round lists it, and is marked as auctioned and
      delivered all the same. */
  lemma {:induction false} CancelledWhileListed(x: Address, y: Address) returns (before: seq<Step>, after: seq<Step>)
    ensures ValidRun(GENESIS, before) && ReferenceRaces(GENESIS, before)
    ensures before != [] && Last(before) == CancelOrder(FirstId(x), x, 0)
    ensures End(GENESIS, before).store == FirstCancelled(x, y)
    ensures ValidRun(End(GENESIS, before), after) && ReferenceRaces(End(GENESIS, before), after)
    ensures DeliveredIn(End(End(GENESIS, before), after), FirstId(x))
  {
    var sol := AnswerToBoth(x, y);
    before := ListedThenCancelled(x, y);
    var w := End(GENESIS, before);
    assert OrdersOf(w.phase.batch) == PerfectOrders(x, y);
    after := RaceAndFinish(w, sol);
  }

  /** The same when the cancellation lands after the race, before the marking. */
  lemma {:induction false} CancelledAfterTheRace(x: Address, y: Address) returns (before: seq<Step>, after: seq<Step>)
    ensures ValidRun(GENESIS, before) && ReferenceRaces(GENESIS, before)
    ensures before != [] && Last(before) == CancelOrder(FirstId(x), x, 0)
    ensures End(GENESIS, before).store == FirstCancelled(x, y)
    ensures ValidRun(End(GENESIS, before), after) && ReferenceRaces(End(GENESIS, before), after)
    ensures DeliveredIn(End(End(GENESIS, before), after), FirstId(x))
  {
    var cancel := CancelOrder(FirstId(x), x, 0);
    var sol := AnswerToBoth(x, y);
    before := ListingBoth(x, y);
    var w := World(BothOpen(x, y), BothListed(x, y), []);
    assert OrdersOf(w.phase.batch) == PerfectOrders(x, y);
    ReferenceAnswerWins(w, sol);
    OneMoreStep(GENESIS, before, Race([Solved(sol)]));
    before := before + [Race([Solved(sol)])];
    w := w.(phase := Marking(sol, 0));
    CancelFirst(x, y, w);
    OneMoreStep(GENESIS, before, cancel);
    before := before + [cancel];
    after := FinishRound(w.(store := FirstCancelled(x, y)), sol);
  }
}
