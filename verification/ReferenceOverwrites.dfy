/** Cancellation when only the reference matcher answers, for partially fillable sellers of the
    smaller mint: enough counter-orders submitted while a round lists make it pick the order up. */
module ReferenceOverwrites {
  import opened Numbers
  import opened Orders
  import opened Sorting
  import opened Settlement
  import opened Market
  import opened MarketPriority
  import opened Batches
  import opened CounterOrders
  import opened BatchProperties
  import opened Repository
  import opened Auction
  import opened Runs

  function Sign(o: Order): SignedOrder {
    SignedOrder(o, [])
  }

  function SignAll(orders: seq<Order>): seq<SignedOrder> {
    if orders == [] then [] else SignAll(Init(orders)) + [Sign(Last(orders))]
  }

  lemma {:induction false} SignedOrders(orders: seq<Order>)
    ensures OrdersOf(SignAll(orders)) == orders
  {
    if orders != [] {
      SignedOrders(Init(orders));
      assert orders == Init(orders) + [Last(orders)];
    }
  }

  // ---------------------------------------------------------------- listing the counter-orders

  lemma {:induction false} OwnerBound(ids: set<OrderId>) returns (bound: Address)
    ensures forall id :: id in ids ==> id.preimage.owner < bound
    decreases |ids|
  {
    bound := 0;
    if ids != {} {
      var id :| id in ids;
      var rest := OwnerBound(ids - {id});
      bound := if rest <= id.preimage.owner then id.preimage.owner + 1 else rest;
      assert forall other :: other in ids ==> other == id || other in ids - {id};
    }
  }

  predicate OwnersBelow(st: Store, bound: Address) {
    forall id :: id in st ==> id.preimage.owner < bound
  }

  /** One counter-order is submitted and read into the round. */
  lemma {:induction false} ListOne(w: World, o: Order, owner: Address) returns (w': World)
    requires Inv(w) && w.phase.Listing? && OwnersBelow(w.store, owner)
    requires o.sellMint != o.buyMint && o.sellAmount > 0 && o.buyAmount > 0
    ensures var signed := Sign(Counter(o, owner));
            && Enabled(w, Submit(signed, 0))
            && Enabled(Next(w, Submit(signed, 0)), ReadOne(signed.order.Id()))
            && w' == Next(Next(w, Submit(signed, 0)), ReadOne(signed.order.Id()))
            && w'.phase.Listing? && w'.phase.batch == w.phase.batch + [signed] && OwnersBelow(w'.store, owner + 1)
  {
    var signed := Sign(Counter(o, owner));
    var mid := Next(w, Submit(signed, 0));
    assert signed.order.Id() !in w.store;
    assert mid.store[signed.order.Id()] == NewRecord(signed, 0);
    w' := Next(mid, ReadOne(signed.order.Id()));
  }

  /** A run raced by the reference matcher leads to a round that lists `batch`, with every owner
      below `owner`. */
  ghost predicate CanList(w: World, v: World, batch: seq<SignedOrder>, owner: Address) {
    ReferenceReaches(w, v) && v.phase.Listing? && v.phase.batch == batch && OwnersBelow(v.store, owner)
  }

  lemma {:induction false} ListOneMore(w: World, v: World, batch: seq<SignedOrder>, o: Order, owner: Address)
    returns (v': World)
    requires Inv(w) && CanList(w, v, batch, owner) && o.sellMint != o.buyMint && o.sellAmount > 0 && o.buyAmount > 0
    ensures CanList(w, v', batch + [Sign(Counter(o, owner))], owner + 1)
  {
    ReferenceReachesKeepsInv(w, v);
    v' := ListOne(v, o, owner);
    var signed := Sign(Counter(o, owner));
    ReferenceReachesNext(w, v, Submit(signed, 0));
    ReferenceReachesNext(w, Next(v, Submit(signed, 0)), ReadOne(signed.order.Id()));
  }

  lemma {:induction false} SignOneMore(batch: seq<SignedOrder>, o: Order, first: Address, n: nat)
    ensures n == 0 ==> batch + SignAll(Counters(o, first, n)) == batch
    ensures n > 0 ==> batch + SignAll(Counters(o, first, n)) ==
                      batch + SignAll(Counters(o, first, n - 1)) + [Sign(Counter(o, first + n - 1))]
  {
    if n > 0 {
      assert Init(Counters(o, first, n)) == Counters(o, first, n - 1);
    }
  }

  /** `n` counter-orders can be added to the round. */
  lemma {:induction false} ListCounters(w: World, batch: seq<SignedOrder>, o: Order, first: Address, n: nat)
    returns (v: World)
    requires Inv(w) && CanList(w, w, batch, first) && o.sellMint != o.buyMint && o.sellAmount > 0 && o.buyAmount > 0
    ensures CanList(w, v, batch + SignAll(Counters(o, first, n)), first + n)
  {
    SignOneMore(batch, o, first, n);
    v := w;
    if n > 0 {
      v := ListCounters(w, batch, o, first, n - 1);
      v := ListOneMore(w, v, batch + SignAll(Counters(o, first, n - 1)), o, first + n - 1);
    }
  }

  // ---------------------------------------------------------------- the reference answer

  lemma {:induction false} SomeListing<T>(m: multiset<T>) returns (s: seq<T>)
    ensures multiset(s) == m
    decreases |m|
  {
    s := [];
    if m != multiset{} {
      var x :| x in m;
      s := SomeListing(m - multiset{x});
      s := s + [x];
    }
  }

  lemma {:induction false} SomeReferenceAnswer(orders: seq<Order>) returns (sol: Solution)
    ensures IsReferenceAnswer(orders, sol)
  {
    var totals := BatchTotals(Machine, orders);
    var trades := SomeListing(totals.trades);
    var clearing := SomeListing(totals.clearing);
    sol := Solution(0, 0, clearing, trades, ReferenceScore(orders));
  }

  lemma {:induction false} SoldMeansTraded(ts: seq<Trade>, id: OrderId) returns (t: Trade)
    requires SoldOf(ts, id) > 0
    ensures t in ts && t.orderId == id
  {
    t := Last(ts);
    if t.orderId != id || t.executedSell == 0 {
      t := SoldMeansTraded(Init(ts), id);
    }
  }

  /** An order whose copies are sold out in its market is in every reference answer. */
  lemma {:induction false} SoldOutIsAnswered(orders: seq<Order>, o: Order, sol: Solution) returns (t: Trade)
    requires IsReferenceAnswer(orders, sol) && o.sellAmount > 0 && o in Group(orders, PairOf(o))
    requires Unsold(PairOf(o).a, PairOf(o).b, Group(orders, PairOf(o)), o) == 0
    ensures t in sol.trades && t.orderId == o.Id()
  {
    var key := PairOf(o);
    var g := Group(orders, key);
    var ts := PairOutcome(Machine, key.a, key.b, g).trades;
    assert o in multiset(g);
    MulMono(1, 1, multiset(g)[o], o.sellAmount);
    t := SoldMeansTraded(ts, o.Id());
    PairLocality(orders, t);
    assert t in multiset(ts);
    assert t in multiset(sol.trades);
  }

  // ---------------------------------------------------------------- overwriting a cancellation

  /** An order the reference matcher can always be made to pick up. */
  predicate PartialSellerOfSmallerMint(o: Order) {
    o.partialFill && o.sellMint < o.buyMint
  }

  /** The reference answer to a batch with enough counter-orders trades the order. */
  lemma {:induction false} AnswerWithCounters(orders: seq<Order>, o: Order, first: Address, n: nat)
    returns (sol: Solution, t: Trade)
    requires o in orders && PartialSellerOfSmallerMint(o) && o.sellAmount > 0 && o.buyAmount > 0
    requires n == CountersNeeded(orders, o)
    ensures IsReferenceAnswer(orders + Counters(o, first, n), sol) && t in sol.trades && t.orderId == o.Id()
  {
    var all := orders + Counters(o, first, n);
    CountersSellTheOrderOut(orders, o, first, n);
    sol := SomeReferenceAnswer(all);
    t := SoldOutIsAnswered(all, o, sol);
  }

  lemma {:induction false} SignedBatch(batch: seq<SignedOrder>, counters: seq<Order>)
    ensures OrdersOf(batch + SignAll(counters)) == OrdersOf(batch) + counters
  {
    SignedOrders(counters);
  }

  lemma {:induction false} RaceAndMark(w: World, sol: Solution, t: Trade) returns (steps: seq<Step>)
    requires Inv(w) && w.phase.Listing? && w.phase.batch != [] && IsReferenceAnswer(OrdersOf(w.phase.batch), sol)
    requires t in sol.trades
    ensures ValidRun(w, steps) && ReferenceRaces(w, steps)
    ensures t.orderId in End(w, steps).store && End(w, steps).store[t.orderId].status == Auctioned
  {
    var race := Race([Solved(sol)]);
    ReferenceAnswerWins(w, sol);
    StepKeepsInv(w, race);
    var marking := w.(phase := Marking(sol, 0));
    var k :| 0 <= k < |sol.trades| && sol.trades[k] == t;
    var rest := CancelInsideMarkingIsOverwritten(marking, t.orderId, 0);
    RacelessRun(marking, rest);
    OneMoreStep(w, [], race);
    assert [] + [race] == [race];
    RunsCompose(w, [race], rest);
    steps := [race] + rest;
  }

  /** While a round lists a partially fillable seller of the smaller mint, counter-orders can be
      submitted that make the reference matcher pick it up, cancelled or not. */
  lemma {:induction false} ListedSellerIsPickedUp(w: World, id: OrderId) returns (steps: seq<Step>)
    requires Inv(w) && w.phase.Listing? && InRound(w, id) && PartialSellerOfSmallerMint(id.preimage)
    ensures ValidRun(w, steps) && ReferenceRaces(w, steps)
    ensures id in End(w, steps).store && End(w, steps).store[id].status == Auctioned
  {
    var o, batch := id.preimage, w.phase.batch;
    var s :| s in batch && s.order.Id() == id;
    var k :| 0 <= k < |batch| && batch[k] == s;
    assert RecordOk(id, w.store[id]) && OrdersOf(batch)[k] == o && o in OrdersOf(batch);
    var n := CountersNeeded(OrdersOf(batch), o);
    var first := OwnerBound(w.store.Keys);
    ReferenceReachesItself(w);
    var v := ListCounters(w, batch, o, first, n);
    var listing :| ValidRun(w, listing) && ReferenceRaces(w, listing) && End(w, listing) == v;
    ReferenceReachesKeepsInv(w, v);
    SignedBatch(batch, Counters(o, first, n));
    var sol, t := AnswerWithCounters(OrdersOf(batch), o, first, n);
    var rest := RaceAndMark(v, sol, t);
    RunsCompose(w, listing, rest);
    steps := listing + rest;
  }

  /** With the reference matcher as the only solver, the cancellation of a partially fillable
      seller of the smaller mint is final if and only if the order is not part of the round under
      way. */
  lemma {:induction false} ReferenceCancellationIsFinalIff(w: World, id: OrderId)
    requires Inv(w) && id in w.store && w.store[id].status == Cancelled && PartialSellerOfSmallerMint(id.preimage)
    ensures !InRound(w, id) <==>
            forall steps :: ValidRun(w, steps) && ReferenceRaces(w, steps) ==> CancelledForGood(End(w, steps), id)
  {
    if !InRound(w, id) {
      forall steps | ValidRun(w, steps) && ReferenceRaces(w, steps) ensures CancelledForGood(End(w, steps), id) {
        CancelOutsideRoundIsFinal(w, steps, id);
      }
    } else if w.phase.Listing? {
      var steps := ListedSellerIsPickedUp(w, id);
      assert !CancelledForGood(End(w, steps), id);
    } else {
      var steps := CancelInsideMarkingIsOverwritten(w, id, 0);
      RacelessRun(w, steps);
      assert !CancelledForGood(End(w, steps), id);
    }
  }
}
