/** The auction as a step system: API calls interleave freely with the steps of a round. */
module Auction {
  import opened Numbers
  import opened Orders
  import opened Sorting
  import opened Settlement
  import opened Market
  import opened Batches
  import opened BatchProperties
  import opened Repository

  // ---------------------------------------------------------------- solver results

  datatype SolverResult = Solved(solution: Solution) | Failed

  /** The winner so far, after the results in arrival order: a later solution must be strictly
      better to replace an earlier one. */
  function Best(results: seq<SolverResult>): Option<Solution> {
    if results == [] then None
    else
      var best := Best(Init(results));
      match Last(results)
      case Failed => best
      case Solved(s) => if best.None? || s.score > best.value.score then Some(s) else best
  }

  /** Result `k` has the maximum score among successes and is the earliest with that score. */
  ghost predicate IsWinner(results: seq<SolverResult>, k: nat) {
    && k < |results| && results[k].Solved?
    && forall i :: 0 <= i < |results| && results[i].Solved? ==>
         && results[i].solution.score <= results[k].solution.score
         && (results[i].solution.score == results[k].solution.score ==> k <= i)
  }

  lemma {:induction false} FindWinner(results: seq<SolverResult>) returns (k: nat)
    ensures Best(results).None? ==> forall i :: 0 <= i < |results| ==> results[i].Failed?
    ensures Best(results).Some? ==> IsWinner(results, k) && results[k] == Solved(Best(results).value)
  {
    if results == [] {
      k := 0;
    } else {
      var rest, last, n := Init(results), Last(results), |results| - 1;
      k := FindWinner(rest);
      if last.Solved? && (Best(rest).None? || last.solution.score > Best(rest).value.score) {
        k := n;
      } else {
        assert Best(results) == Best(rest);
      }
    }
  }

  /** Winner optimality, for every arrival order and any subset of failures. */
  lemma {:induction false} BestIsTheWinner(results: seq<SolverResult>)
    ensures Best(results).None? <==> forall k :: 0 <= k < |results| ==> results[k].Failed?
    ensures forall k: nat :: IsWinner(results, k) ==> Best(results) == Some(results[k].solution)
    ensures Best(results).Some? ==> exists k: nat :: IsWinner(results, k)
  {
    var k := FindWinner(results);
  }

  // ---------------------------------------------------------------- what a solver may return

  predicate InBatch(orders: seq<Order>, t: Trade) {
    OrderOf(t) in orders && HonoursOrder(t)
  }

  /** A sound answer to a batch: its trades are of batch orders and honour them, no order gets
      more trades than it has entries, and limits are respected where amounts are below 2^63. */
  ghost predicate Sound(orders: seq<Order>, ts: seq<Trade>) {
    && (forall t :: t in ts ==> InBatch(orders, t))
    && (forall o: Order {:trigger o.Id()} :: multiset(Ids(ts))[o.Id()] <= multiset(orders)[o])
    && ((forall o :: o in orders ==> HalfRange(o)) ==> forall t :: t in ts ==> RespectsLimit(t))
  }

  /** The score of the reference matcher on a batch. */
  ghost function ReferenceScore(orders: seq<Order>): nat {
    Saturate(Machine, BatchTotals(Machine, orders).surplus)
  }

  /** The trades, prices and score are those of the reference matcher, in some listing order. */
  ghost predicate IsReferenceAnswer(orders: seq<Order>, solution: Solution) {
    && multiset(solution.trades) == BatchTotals(Machine, orders).trades
    && multiset(solution.clearingPrices) == BatchTotals(Machine, orders).clearing
    && solution.score == ReferenceScore(orders)
  }

  /** The reference matcher is sound, in whatever order it lists its trades. */
  lemma {:induction false} ReferenceMatcherIsSound(orders: seq<Order>, ts: seq<Trade>)
    requires multiset(ts) == BatchTotals(Machine, orders).trades
    ensures Sound(orders, ts)
  {
    forall t | t in ts
      ensures InBatch(orders, t)
      ensures (forall o :: o in orders ==> HalfRange(o)) ==> RespectsLimit(t)
    {
      assert t in multiset(ts);
      BatchTradesAreFair(orders, t);
    }
    forall o: Order ensures multiset(Ids(ts))[o.Id()] <= multiset(orders)[o] {
      BatchTradesPerOrder(orders, ts, o);
    }
  }

  // ---------------------------------------------------------------- the step system

  /** Where the auctioneer is in its round. The expiry sweep and the listing visit one map
      entry per step, because the map is only locked shard by shard. Either may end before it
      has seen every entry, as it may miss one inserted meanwhile. */
  datatype Phase =
    | Idle
    | Expiring(now: int)
    | Listing(seen: set<OrderId>, batch: seq<SignedOrder>)
    | Marking(winner: Solution, next: nat)

  datatype World = World(store: Store, phase: Phase, delivered: seq<Solution>)

  datatype Step =
    | Submit(signed: SignedOrder, clock: int)
    | CancelOrder(id: OrderId, owner: Address, clock: int)
    | BeginRound(now: int)
    | ExpireOne(id: OrderId, clock: int)
    | BeginListing
    | ReadOne(id: OrderId)
    | Race(results: seq<SolverResult>)
    | MarkOne(clock: int)
    | Deliver

  /** An order is submitted only after validation; a solver answers soundly or fails. */
  ghost predicate Enabled(w: World, step: Step) {
    match step
    case Submit(signed, clock) => signed.order.Validate(clock).Valid?
    case CancelOrder(_, _, _) => true
    case BeginRound(_) => w.phase.Idle?
    case ExpireOne(id, _) => w.phase.Expiring? && id in DueIds(w.store, w.phase.now)
    case BeginListing => w.phase.Expiring?
    case ReadOne(id) => w.phase.Listing? && id in w.store && id !in w.phase.seen
    case Race(results) =>
      w.phase.Listing? && forall k :: 0 <= k < |results| && results[k].Solved? ==>
        Sound(OrdersOf(w.phase.batch), results[k].solution.trades)
    case MarkOne(_) => w.phase.Marking? && w.phase.next < |w.phase.winner.trades|
    case Deliver => w.phase.Marking? && w.phase.next == |w.phase.winner.trades|
  }

  function MarkTrade(st: Store, t: Trade, clock: int): Store {
    Updated(st, t.orderId, Auctioned, Some(t.executedSell), Some(t.executedBuy), clock)
  }

  ghost function Next(w: World, step: Step): World
    requires Enabled(w, step)
  {
    match step
    case Submit(signed, clock) => w.(store := Inserted(w.store, signed, clock))
    case CancelOrder(id, owner, clock) => w.(store := CancelledIn(w.store, id, owner, clock))
    case BeginRound(now) => w.(phase := Expiring(now))
    case ExpireOne(id, clock) => w.(store := ExpiredIn(w.store, {id}, clock))
    case BeginListing => w.(phase := Listing({}, []))
    case ReadOne(id) =>
      var r := w.store[id];
      w.(phase := Listing(w.phase.seen + {id},
                          if r.status == Open then w.phase.batch + [r.signed] else w.phase.batch))
    case Race(results) =>
      if w.phase.batch == [] || Best(results).None? then w.(phase := Idle)
      else w.(phase := Marking(Best(results).value, 0))
    case MarkOne(clock) =>
      w.(store := MarkTrade(w.store, w.phase.winner.trades[w.phase.next], clock),
         phase := w.phase.(next := w.phase.next + 1))
    case Deliver => w.(phase := Idle, delivered := w.delivered + [w.phase.winner])
  }

  const GENESIS := World(map[], Idle, [])

  ghost predicate ValidRun(w: World, steps: seq<Step>)
    decreases |steps|
  {
    steps == [] || (Enabled(w, steps[0]) && ValidRun(Next(w, steps[0]), steps[1..]))
  }

  ghost function End(w: World, steps: seq<Step>): World
    requires ValidRun(w, steps)
    decreases |steps|
  {
    if steps == [] then w else End(Next(w, steps[0]), steps[1..])
  }

  // ---------------------------------------------------------------- invariants

  /** Every trade of every delivered solution, in delivery order. */
  function AllTrades(delivered: seq<Solution>): seq<Trade> {
    if delivered == [] then [] else AllTrades(Init(delivered)) + Last(delivered).trades
  }

  predicate RecordOk(id: OrderId, r: OrderRecord) {
    && r.id == id == r.signed.order.Id()
    && r.signed.order.sellMint != r.signed.order.buyMint
    && r.signed.order.sellAmount > 0 && r.signed.order.buyAmount > 0
    && (r.status != Auctioned ==> r.filledSell == 0 && r.filledBuy == 0)
    && r.filledSell <= r.signed.order.sellAmount
  }

  /** Keys are the ids of the stored orders, orders that were not auctioned are unfilled, and
      nobody is filled beyond the signed amount. */
  ghost predicate StoreOk(st: Store) {
    forall id :: id in st ==> RecordOk(id, st[id])
  }

  /** The record of the trade's order shows it as auctioned, with the trade's amounts. */
  predicate Settled(st: Store, t: Trade) {
    && t.orderId in st && st[t.orderId].status == Auctioned
    && st[t.orderId].filledSell == t.executedSell && st[t.orderId].filledBuy == t.executedBuy
  }

  ghost predicate DeliveredOk(w: World) {
    var ts := AllTrades(w.delivered);
    && (forall t :: t in ts ==> Settled(w.store, t) && HonoursOrder(t))
    && Distinct(Ids(ts))
  }

  /** The trades under way are of stored, undelivered orders, each order at most once. */
  ghost predicate InFlightOk(w: World, ts: seq<Trade>) {
    && (forall t :: t in ts ==> t.orderId in w.store && HonoursOrder(t) && t.orderId !in Ids(AllTrades(w.delivered)))
    && Distinct(Ids(ts))
  }

  ghost predicate BatchOk(w: World, seen: set<OrderId>, batch: seq<SignedOrder>) {
    && (forall s :: s in batch ==>
          && s.order.Id() in seen && s.order.Id() in w.store && w.store[s.order.Id()].signed == s
          && s.order.Id() !in Ids(AllTrades(w.delivered)))
    && seen <= w.store.Keys
    && (forall i, j :: 0 <= i < j < |batch| ==> batch[i].order != batch[j].order)
  }

  ghost predicate PhaseOk(w: World) {
    match w.phase
    case Idle => true
    case Expiring(_) => true
    case Listing(seen, batch) => BatchOk(w, seen, batch)
    case Marking(winner, next) =>
      && next <= |winner.trades| && InFlightOk(w, winner.trades)
      && forall k :: 0 <= k < next ==> Settled(w.store, winner.trades[k])
  }

  /** The round under way has marked order `id`. */
  predicate MarkedInRound(w: World, id: OrderId) {
    && w.phase.Marking? && w.phase.next <= |w.phase.winner.trades|
    && exists k :: 0 <= k < w.phase.next && w.phase.winner.trades[k].orderId == id
  }

  /** Only traded orders are auctioned. */
  ghost predicate AuctionedOk(w: World) {
    forall id :: id in w.store && w.store[id].status == Auctioned ==>
      id in Ids(AllTrades(w.delivered)) || MarkedInRound(w, id)
  }

  ghost predicate HalfRangeStore(st: Store) {
    forall id :: id in st ==> HalfRange(st[id].signed.order)
  }

  /** If every stored amount is below 2^63, every trade delivered or under way respects its
      order's limit price. */
  ghost predicate LimitsOk(w: World) {
    HalfRangeStore(w.store) ==>
      && (forall t :: t in AllTrades(w.delivered) ==> RespectsLimit(t))
      && (w.phase.Marking? ==> forall t :: t in w.phase.winner.trades ==> RespectsLimit(t))
  }

  ghost predicate Inv(w: World) {
    StoreOk(w.store) && DeliveredOk(w) && PhaseOk(w) && AuctionedOk(w) && LimitsOk(w)
  }

  /** No record disappears, the signed order under an id never changes, and no order returns
      to Open. */
  ghost predicate Evolves(st: Store, st': Store) {
    forall id :: id in st ==>
      && id in st' && st'[id].signed == st[id].signed && st'[id].id == st[id].id
      && st'[id].createdAt == st[id].createdAt
      && (st[id].status != Open ==> st'[id].status != Open)
  }

  lemma {:induction false} StepEvolves(w: World, step: Step)
    requires Enabled(w, step)
    ensures Evolves(w.store, Next(w, step).store)
  {
  }

  /** API calls and expiry touch open records only, and never mark one. */
  predicate SparesClosed(st: Store, st': Store) {
    && (forall id :: id in st && st[id].status != Open ==> id in st' && st'[id] == st[id])
    && forall id :: id in st' && st'[id].status == Auctioned ==> id in st && st[id].status == Auctioned
  }

  /** What depends on the store only through its evolution is kept by every step that leaves
      the phase, the deliveries and the settled records alone. */
  lemma {:induction false} StoreChangeKeepsTheRest(w: World, st': Store)
    requires Inv(w) && Evolves(w.store, st') && SparesClosed(w.store, st')
    ensures var w' := w.(store := st'); DeliveredOk(w') && PhaseOk(w') && AuctionedOk(w') && LimitsOk(w')
  {
    var w' := w.(store := st');
    forall id | id in st' && st'[id].status == Auctioned
      ensures id in Ids(AllTrades(w.delivered)) || MarkedInRound(w', id)
    {
      assert MarkedInRound(w, id) ==> MarkedInRound(w', id);
    }
  }

  lemma {:induction false} ApiStepsKeepStoreOk(w: World, step: Step)
    requires StoreOk(w.store) && Enabled(w, step) && (step.Submit? || step.CancelOrder? || step.ExpireOne?)
    ensures StoreOk(Next(w, step).store)
  {
  }

  lemma {:induction false} ApiStepsSpareClosed(w: World, step: Step)
    requires Enabled(w, step) && (step.Submit? || step.CancelOrder? || step.ExpireOne?)
    ensures SparesClosed(w.store, Next(w, step).store) && Next(w, step) == w.(store := Next(w, step).store)
  {
  }

  lemma {:induction false} ApiStepsKeepInv(w: World, step: Step)
    requires Inv(w) && Enabled(w, step) && (step.Submit? || step.CancelOrder? || step.ExpireOne?)
    ensures Inv(Next(w, step))
  {
    StepEvolves(w, step);
    ApiStepsKeepStoreOk(w, step);
    ApiStepsSpareClosed(w, step);
    StoreChangeKeepsTheRest(w, Next(w, step).store);
  }

  lemma {:induction false} UnlessAuctionedUndelivered(w: World, id: OrderId)
    requires DeliveredOk(w) && id in w.store && w.store[id].status != Auctioned
    ensures id !in Ids(AllTrades(w.delivered))
  {
    var ts := AllTrades(w.delivered);
    forall k | 0 <= k < |ts| ensures ts[k].orderId != id {
      assert Settled(w.store, ts[k]);
    }
  }

  lemma {:induction false} ReadKeepsInv(w: World, id: OrderId)
    requires Inv(w) && Enabled(w, ReadOne(id))
    ensures Inv(Next(w, ReadOne(id)))
  {
    var r, batch := w.store[id], w.phase.batch;
    if r.status == Open {
      UnlessAuctionedUndelivered(w, id);
      forall i | 0 <= i < |batch| ensures batch[i].order != r.signed.order {
        assert batch[i] in batch && batch[i].order.Id() in w.phase.seen;
      }
    }
  }

  lemma {:induction false} MultiplicityMeansDistinct<T>(s: seq<T>)
    requires forall x :: multiset(s)[x] <= 1
    ensures Distinct(s)
  {
    forall i, j | 0 <= i < j < |s| ensures s[i] != s[j] {
      assert s == s[..i] + [s[i]] + s[i + 1..j] + [s[j]] + s[j + 1..];
      assert multiset(s)[s[i]] <= 1;
    }
  }

  lemma {:induction false} SoundIdsAreDistinct(orders: seq<Order>, ts: seq<Trade>)
    requires Sound(orders, ts) && Distinct(orders)
    ensures Distinct(Ids(ts))
  {
    DistinctCounts(orders);
    forall id: OrderId ensures multiset(Ids(ts))[id] <= 1 {
      assert id == id.preimage.Id();
    }
    MultiplicityMeansDistinct(Ids(ts));
  }

  lemma {:induction false} BestIsOneOf(results: seq<SolverResult>)
    requires Best(results).Some?
    ensures exists k :: 0 <= k < |results| && results[k] == Solved(Best(results).value)
  {
    var k := FindWinner(results);
  }

  lemma {:induction false} RaceKeepsInv(w: World, results: seq<SolverResult>)
    requires Inv(w) && Enabled(w, Race(results))
    ensures Inv(Next(w, Race(results)))
  {
    var w' := Next(w, Race(results));
    if w'.phase.Marking? {
      BestIsOneOf(results);
      var batch, ts := w.phase.batch, w'.phase.winner.trades;
      var orders := OrdersOf(batch);
      assert Sound(orders, ts);
      SoundIdsAreDistinct(orders, ts);
      forall o | o in orders
        ensures o.Id() in w.store && w.store[o.Id()].signed.order == o && o.Id() !in Ids(AllTrades(w.delivered))
      {
        var k :| 0 <= k < |orders| && orders[k] == o;
        assert batch[k] in batch;
      }
      assert InFlightOk(w', ts) by {
        forall t | t in ts
          ensures t.orderId in w.store && HonoursOrder(t) && t.orderId !in Ids(AllTrades(w.delivered))
        {
          assert InBatch(orders, t) && t.orderId == OrderOf(t).Id();
        }
      }
      if HalfRangeStore(w.store) {
        forall o | o in orders ensures HalfRange(o) {
          assert HalfRange(w.store[o.Id()].signed.order);
        }
      }
    }
  }

  /** Marking a trade touches no record of another trade. */
  lemma {:induction false} MarkSettles(w: World, clock: int)
    requires Inv(w) && Enabled(w, MarkOne(clock))
    ensures DeliveredOk(Next(w, MarkOne(clock))) && PhaseOk(Next(w, MarkOne(clock)))
  {
    var w', ts, n := Next(w, MarkOne(clock)), w.phase.winner.trades, w.phase.next;
    assert ts[n] in ts && ts[n].orderId in w.store;
    forall t | t in AllTrades(w.delivered) ensures Settled(w'.store, t) {
      IdOfMember(AllTrades(w.delivered), t);
      assert t.orderId != ts[n].orderId;
    }
    forall k | 0 <= k < n + 1 ensures Settled(w'.store, ts[k]) {
      if k < n {
        assert Ids(ts)[k] != Ids(ts)[n];
      }
    }
  }

  lemma {:induction false} IdOfMember(ts: seq<Trade>, t: Trade)
    requires t in ts
    ensures t.orderId in Ids(ts)
  {
    var k :| 0 <= k < |ts| && ts[k] == t;
    assert Ids(ts)[k] == t.orderId;
  }

  lemma {:induction false} MarkKeepsAuctioned(w: World, clock: int)
    requires Inv(w) && Enabled(w, MarkOne(clock))
    ensures AuctionedOk(Next(w, MarkOne(clock)))
  {
    var w', ts, n := Next(w, MarkOne(clock)), w.phase.winner.trades, w.phase.next;
    forall id | id in w'.store && w'.store[id].status == Auctioned
      ensures id in Ids(AllTrades(w.delivered)) || MarkedInRound(w', id)
    {
      if id == ts[n].orderId {
        assert MarkedInRound(w', id);
      } else if MarkedInRound(w, id) {
        var k :| 0 <= k < n && ts[k].orderId == id;
        assert w'.phase.winner.trades[k].orderId == id;
      }
    }
  }

  lemma {:induction false} MarkKeepsInv(w: World, clock: int)
    requires Inv(w) && Enabled(w, MarkOne(clock))
    ensures Inv(Next(w, MarkOne(clock)))
  {
    var w', t := Next(w, MarkOne(clock)), w.phase.winner.trades[w.phase.next];
    assert t in w.phase.winner.trades;
    MarkSettles(w, clock);
    MarkKeepsAuctioned(w, clock);
    assert StoreOk(w'.store) by {
      assert RecordOk(t.orderId, w.store[t.orderId]);
    }
    StepEvolves(w, MarkOne(clock));
    MarkKeepsLimits(w, clock);
  }

  lemma {:induction false} MarkKeepsLimits(w: World, clock: int)
    requires Inv(w) && Enabled(w, MarkOne(clock))
    ensures LimitsOk(Next(w, MarkOne(clock)))
  {
    var w' := Next(w, MarkOne(clock));
    if HalfRangeStore(w'.store) {
      assert forall id :: id in w.store ==> id in w'.store && w'.store[id].signed == w.store[id].signed;
    }
  }

  lemma {:induction false} DeliverAppends(w: World)
    requires Enabled(w, Deliver)
    ensures AllTrades(Next(w, Deliver).delivered) == AllTrades(w.delivered) + w.phase.winner.trades
  {
  }

  lemma {:induction false} DeliverKeepsDelivered(w: World)
    requires Inv(w) && Enabled(w, Deliver)
    ensures DeliveredOk(Next(w, Deliver))
  {
    var before, ts := AllTrades(w.delivered), w.phase.winner.trades;
    DeliverAppends(w);
    IdsConcat(before, ts);
  }

  lemma {:induction false} DeliverKeepsAuctioned(w: World)
    requires Inv(w) && Enabled(w, Deliver)
    ensures AuctionedOk(Next(w, Deliver))
  {
    var before, ts := AllTrades(w.delivered), w.phase.winner.trades;
    DeliverAppends(w);
    IdsConcat(before, ts);
    forall id | id in w.store && w.store[id].status == Auctioned ensures id in Ids(before + ts) {
      if MarkedInRound(w, id) {
        var k :| 0 <= k < w.phase.next && ts[k].orderId == id;
        IdOfMember(ts, ts[k]);
      }
    }
  }

  lemma {:induction false} DeliverKeepsInv(w: World)
    requires Inv(w) && Enabled(w, Deliver)
    ensures Inv(Next(w, Deliver))
  {
    DeliverKeepsDelivered(w);
    DeliverKeepsAuctioned(w);
  }

  /** Every step of every interleaving keeps the invariant. */
  lemma {:induction false} StepKeepsInv(w: World, step: Step)
    requires Inv(w) && Enabled(w, step)
    ensures Inv(Next(w, step)) && Evolves(w.store, Next(w, step).store)
  {
    StepEvolves(w, step);
    match step
    case Submit(_, _) => ApiStepsKeepInv(w, step);
    case CancelOrder(_, _, _) => ApiStepsKeepInv(w, step);
    case ExpireOne(_, _) => ApiStepsKeepInv(w, step);
    case ReadOne(id) => ReadKeepsInv(w, id);
    case Race(results) => RaceKeepsInv(w, results);
    case MarkOne(clock) => MarkKeepsInv(w, clock);
    case Deliver => DeliverKeepsInv(w);
    case BeginRound(_) =>
    case BeginListing =>
  }

  // ---------------------------------------------------------------- whole runs

  lemma {:induction false} EvolvesTransitively(a: Store, b: Store, c: Store)
    requires Evolves(a, b) && Evolves(b, c)
    ensures Evolves(a, c)
  {
  }

  /** The invariant holds after every run, and the store only evolves. */
  lemma {:induction false} RunKeepsInv(w: World, steps: seq<Step>)
    requires Inv(w) && ValidRun(w, steps)
    ensures Inv(End(w, steps)) && Evolves(w.store, End(w, steps).store)
    decreases |steps|
  {
    if steps != [] {
      StepKeepsInv(w, steps[0]);
      var w' := Next(w, steps[0]);
      RunKeepsInv(w', steps[1..]);
      EvolvesTransitively(w.store, w'.store, End(w, steps).store);
    }
  }

  /** The repository after every run: every key is the id of its order, open orders are
      unfilled, and no order is filled beyond its signed amount. */
  lemma {:induction false} RepositoryStaysConsistent(steps: seq<Step>)
    requires ValidRun(GENESIS, steps)
    ensures StoreOk(End(GENESIS, steps).store)
  {
    RunKeepsInv(GENESIS, steps);
  }

  /** At-most-once delivery: over every interleaving of submissions, cancellations and any
      number of rounds, no order id appears in two delivered trades. */
  lemma {:induction false} DeliveredAtMostOnce(steps: seq<Step>, i: nat, j: nat)
    requires ValidRun(GENESIS, steps)
    requires i < |AllTrades(End(GENESIS, steps).delivered)| && j < |AllTrades(End(GENESIS, steps).delivered)|
    ensures var ts := AllTrades(End(GENESIS, steps).delivered);
            ts[i].orderId == ts[j].orderId ==> i == j
  {
    RunKeepsInv(GENESIS, steps);
    var ts := AllTrades(End(GENESIS, steps).delivered);
    assert Ids(ts)[i] == ts[i].orderId && Ids(ts)[j] == ts[j].orderId;
  }

  lemma {:induction false} SoldOfDistinct(ts: seq<Trade>, id: OrderId)
    requires Distinct(Ids(ts)) && forall t :: t in ts ==> HonoursOrder(t)
    ensures id !in Ids(ts) ==> SoldOf(ts, id) == 0
    ensures SoldOf(ts, id) <= id.preimage.sellAmount
  {
    if ts != [] {
      var rest, t := Init(ts), Last(ts);
      assert ts == rest + [t];
      PushId(rest, t);
      DistinctPush(Ids(rest), t.orderId);
      SoldOfDistinct(rest, id);
      assert t in ts;
    }
  }

  lemma {:induction false} DistinctPush<T>(s: seq<T>, x: T)
    requires Distinct(s + [x])
    ensures Distinct(s) && x !in s
  {
    forall i, j | 0 <= i < j < |s| ensures s[i] != s[j] {
      assert (s + [x])[i] == s[i] && (s + [x])[j] == s[j];
    }
    forall k | 0 <= k < |s| ensures s[k] != x {
      assert (s + [x])[k] == s[k] && (s + [x])[|s|] == x;
    }
  }

  /** Over a whole run no order ever sells more than it was signed for, and a fill-or-kill
      order that trades sells all of it. */
  lemma {:induction false} NeverOversold(steps: seq<Step>, id: OrderId)
    requires ValidRun(GENESIS, steps)
    ensures var ts := AllTrades(End(GENESIS, steps).delivered);
            && SoldOf(ts, id) <= id.preimage.sellAmount
            && forall t :: t in ts && !OrderOf(t).partialFill ==> t.executedSell == OrderOf(t).sellAmount
  {
    RunKeepsInv(GENESIS, steps);
    SoldOfDistinct(AllTrades(End(GENESIS, steps).delivered), id);
  }

  /** How much all the trades of an order buy together. */
  function BoughtOf(ts: seq<Trade>, id: OrderId): nat {
    if ts == [] then 0
    else BoughtOf(Init(ts), id) + if Last(ts).orderId == id then Last(ts).executedBuy else 0
  }

  lemma {:induction false} OnlyTradeOf(ts: seq<Trade>, id: OrderId)
    requires Distinct(Ids(ts))
    ensures id !in Ids(ts) ==> SoldOf(ts, id) == 0 && BoughtOf(ts, id) == 0
    ensures forall t :: t in ts && t.orderId == id ==>
              SoldOf(ts, id) == t.executedSell && BoughtOf(ts, id) == t.executedBuy
  {
    if ts != [] {
      var rest, last := Init(ts), Last(ts);
      assert ts == rest + [last];
      PushId(rest, last);
      DistinctPush(Ids(rest), last.orderId);
      OnlyTradeOf(rest, id);
      forall t | t in rest ensures t.orderId in Ids(rest) {
        IdOfMember(rest, t);
      }
    }
  }

  /** The books agree. Between rounds of any run, the repository shows an order as auctioned
      exactly when a trade of it was delivered, and its fills are what its deliveries sold
      and bought, whatever was cancelled or expired meanwhile. */
  lemma {:induction false} BooksAgree(steps: seq<Step>, id: OrderId)
    requires ValidRun(GENESIS, steps) && End(GENESIS, steps).phase.Idle? && id in End(GENESIS, steps).store
    ensures var r, ts := End(GENESIS, steps).store[id], AllTrades(End(GENESIS, steps).delivered);
            && (r.status == Auctioned <==> id in Ids(ts))
            && r.filledSell == SoldOf(ts, id) && r.filledBuy == BoughtOf(ts, id)
  {
    RunKeepsInv(GENESIS, steps);
    var w := End(GENESIS, steps);
    var ts := AllTrades(w.delivered);
    OnlyTradeOf(ts, id);
    assert RecordOk(id, w.store[id]);
    if w.store[id].status == Auctioned {
      var k :| 0 <= k < |ts| && Ids(ts)[k] == id;
      assert ts[k] in ts && Settled(w.store, ts[k]);
    } else {
      UnlessAuctionedUndelivered(w, id);
    }
  }

  /** Over a whole run in which every stored amount is below 2^63, every delivered trade
      respects the limit price its owner signed. */
  lemma {:induction false} DeliveredTradesRespectLimits(steps: seq<Step>, t: Trade)
    requires ValidRun(GENESIS, steps) && HalfRangeStore(End(GENESIS, steps).store)
    requires t in AllTrades(End(GENESIS, steps).delivered)
    ensures t.orderId in End(GENESIS, steps).store && RespectsLimit(t)
  {
    RunKeepsInv(GENESIS, steps);
  }

  // ---------------------------------------------------------------- cancellation

  /** The step marks order `id` as auctioned. */
  predicate Marks(w: World, step: Step, id: OrderId) {
    && step.MarkOne? && w.phase.Marking? && w.phase.next < |w.phase.winner.trades|
    && w.phase.winner.trades[w.phase.next].orderId == id
  }

  /** A cancelled order stays cancelled over a step exactly when the step does not mark it. */
  lemma {:induction false} CancelledStaysUnlessMarked(w: World, step: Step, id: OrderId)
    requires Inv(w) && Enabled(w, step) && id in w.store && w.store[id].status == Cancelled
    ensures id in Next(w, step).store
    ensures Next(w, step).store[id].status == Cancelled <==> !Marks(w, step, id)
  {
  }

  /** The order was already read into the round under way. */
  predicate InRound(w: World, id: OrderId) {
    match w.phase
    case Idle => false
    case Expiring(_) => false
    case Listing(_, batch) => exists s :: s in batch && s.order.Id() == id
    case Marking(winner, next) => exists k :: next <= k < |winner.trades| && winner.trades[k].orderId == id
  }

  lemma {:induction false} OutsideStaysOutside(w: World, step: Step, id: OrderId)
    requires Inv(w) && Enabled(w, step) && id in w.store && w.store[id].status == Cancelled && !InRound(w, id)
    ensures id in Next(w, step).store && Next(w, step).store[id].status == Cancelled
    ensures !InRound(Next(w, step), id)
  {
    CancelledStaysUnlessMarked(w, step, id);
    if step.Race? && Next(w, step).phase.Marking? {
      BestIsOneOf(step.results);
      var orders, ts := OrdersOf(w.phase.batch), Best(step.results).value.trades;
      assert Sound(orders, ts);
      forall k | 0 <= k < |ts| ensures ts[k].orderId != id {
        assert InBatch(orders, ts[k]);
        var n :| 0 <= n < |orders| && orders[n] == OrderOf(ts[k]);
        assert w.phase.batch[n] in w.phase.batch;
      }
    } else if step.ReadOne? {
      assert RecordOk(step.id, w.store[step.id]);
    }
  }

  /** The order is cancelled and no trade of it was delivered. */
  predicate CancelledForGood(w: World, id: OrderId) {
    id in w.store && w.store[id].status == Cancelled && id !in Ids(AllTrades(w.delivered))
  }

  /** A cancellation that lands outside a round that has already read the order is final: no
      later step undoes it, and the order never trades. */
  lemma {:induction false} CancelOutsideRoundIsFinal(w: World, steps: seq<Step>, id: OrderId)
    requires Inv(w) && ValidRun(w, steps)
    requires id in w.store && w.store[id].status == Cancelled && !InRound(w, id)
    ensures CancelledForGood(End(w, steps), id)
    decreases |steps|
  {
    if steps == [] {
      UnlessAuctionedUndelivered(w, id);
    } else {
      StepKeepsInv(w, steps[0]);
      OutsideStaysOutside(w, steps[0], id);
      CancelOutsideRoundIsFinal(Next(w, steps[0]), steps[1..], id);
    }
  }

  /** A cancellation of an order whose trade is still to be marked is overwritten: the round
      can always go on to mark it. */
  lemma {:induction false} CancelInsideMarkingIsOverwritten(w: World, id: OrderId, clock: int)
    returns (steps: seq<Step>)
    requires Inv(w) && w.phase.Marking? && InRound(w, id)
    ensures ValidRun(w, steps) && id in End(w, steps).store && End(w, steps).store[id].status == Auctioned
    ensures forall k :: 0 <= k < |steps| ==> steps[k].MarkOne?
    decreases if w.phase.Marking? then |w.phase.winner.trades| - w.phase.next else 0
  {
    var step := MarkOne(clock);
    assert w.phase.next < |w.phase.winner.trades|;
    var w' := Next(w, step);
    StepKeepsInv(w, step);
    if w.phase.winner.trades[w.phase.next].orderId == id {
      assert w.phase.winner.trades[w.phase.next] in w.phase.winner.trades;
      steps := [step];
      assert steps[1..] == [] && ValidRun(w', []) && End(w', []) == w';
      assert ValidRun(w, steps) && End(w, steps) == End(w', steps[1..]);
    } else {
      var rest := CancelInsideMarkingIsOverwritten(w', id, clock);
      steps := [step] + rest;
      assert steps[1..] == rest;
    }
  }

  /** A solver may fill a listed order completely at its limit. */
  lemma {:induction false} FillingOneOrderIsSound(orders: seq<Order>, o: Order)
    requires o in orders
    ensures Sound(orders, [Trade(o.Id(), o.sellAmount, o.buyAmount)])
  {
    LimitNeverPaysMoreThanBuyAmount(o, o.sellAmount);
  }

  /** A race with a single sound answer goes on to mark that answer. */
  lemma {:induction false} OneAnswerRace(w: World, sol: Solution)
    requires w.phase.Listing? && w.phase.batch != [] && Sound(OrdersOf(w.phase.batch), sol.trades)
    ensures Enabled(w, Race([Solved(sol)]))
    ensures Next(w, Race([Solved(sol)])) == w.(phase := Marking(sol, 0))
  {
    assert Init([Solved(sol)]) == [];
    assert Best([Solved(sol)]) == Some(sol);
  }

  /** While the round is still listing, some sound solver can pick the cancelled order up. The
      solver is any the auctioneer may be given, not only the reference matcher. */
  lemma {:induction false} CancelInsideListingIsOverwritten(w: World, id: OrderId, clock: int)
    returns (steps: seq<Step>)
    requires Inv(w) && w.phase.Listing? && InRound(w, id)
    ensures ValidRun(w, steps) && id in End(w, steps).store && End(w, steps).store[id].status == Auctioned
  {
    var s :| s in w.phase.batch && s.order.Id() == id;
    var k :| 0 <= k < |w.phase.batch| && w.phase.batch[k] == s;
    assert OrdersOf(w.phase.batch)[k] == s.order;
    FillingOneOrderIsSound(OrdersOf(w.phase.batch), s.order);
    var sol := Solution(0, 0, [], [Trade(id, s.order.sellAmount, s.order.buyAmount)], 0);
    OneAnswerRace(w, sol);
    StepKeepsInv(w, Race([Solved(sol)]));
    var w' := w.(phase := Marking(sol, 0));
    assert sol.trades[0].orderId == id;
    var rest := CancelInsideMarkingIsOverwritten(w', id, clock);
    steps := [Race([Solved(sol)])] + rest;
    assert steps[1..] == rest;
  }

  /** Cancellation is final exactly when the order is not part of the round under way. */
  lemma {:induction false} CancellationIsFinalIff(w: World, id: OrderId)
    requires Inv(w) && id in w.store && w.store[id].status == Cancelled
    ensures !InRound(w, id) <==>
            forall steps :: ValidRun(w, steps) ==> CancelledForGood(End(w, steps), id)
  {
    if !InRound(w, id) {
      forall steps | ValidRun(w, steps) ensures CancelledForGood(End(w, steps), id) {
        CancelOutsideRoundIsFinal(w, steps, id);
      }
    } else if w.phase.Listing? {
      var steps := CancelInsideListingIsOverwritten(w, id, 0);
      assert End(w, steps).store[id].status != Cancelled;
    } else {
      var steps := CancelInsideMarkingIsOverwritten(w, id, 0);
      assert End(w, steps).store[id].status != Cancelled;
    }
  }
}
