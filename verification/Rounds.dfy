/** What the rounds of the auctioneer do to the repository and the sink, as values: the stages of
    a round as runs of the step system, the effect of one round, and rounds one after the other. */
module Rounds {
  import opened Orders
  import opened Sorting
  import opened Market
  import opened Batches
  import opened Repository
  import opened ApiCalls
  import opened Auction
  import opened Runs

  /** What arrives in a race: the reference solver, in time or not, or any other solver's
      result, whatever it contains. */
  datatype Arrival = Reference(solver: Address, inTime: bool) | External(result: SolverResult)

  /** One tick of the timer: the results of its race in arrival order, and the API calls served
      before its round, between the sweep and the listing, during the race, and before each
      trade is marked. */
  datatype Tick = Tick(
    batchId: nat,
    now: int,
    clock: int,
    arrivals: seq<Arrival>,
    before: seq<ApiCall>,
    amidSeal: seq<ApiCall>,
    amidRace: seq<ApiCall>,
    amidMarking: seq<seq<ApiCall>>)

  // ---------------------------------------------------------------- stages of a round as runs

  /** A whole sweep is a run of single expiries. */
  lemma {:induction false} SweepIsARun(st: Store, now: int, d: seq<Solution>, ids: set<OrderId>, clock: int)
    requires ids <= DueIds(st, now)
    ensures Reaches(World(st, Expiring(now), d), World(ExpiredIn(st, ids, clock), Expiring(now), d))
    decreases |ids|
  {
    var w := World(st, Expiring(now), d);
    if ids == {} {
      assert ExpiredIn(st, ids, clock) == st;
      ReachesItself(w);
    } else {
      var id :| id in ids;
      var rest := ids - {id};
      SweepIsARun(st, now, d, rest, clock);
      var w' := World(ExpiredIn(st, rest, clock), Expiring(now), d);
      assert id in DueIds(st, now) && w'.store[id] == st[id];
      ReachesNext(w, w', ExpireOne(id, clock));
      assert ExpiredIn(w'.store, {id}, clock) == ExpiredIn(st, ids, clock);
    }
  }

  function Elements(ids: seq<OrderId>): set<OrderId> {
    set id | id in ids
  }

  function SignedOf(v: seq<OrderRecord>): seq<SignedOrder> {
    seq(|v|, k requires 0 <= k < |v| => v[k].signed)
  }

  /** A whole listing is a run of single reads. */
  lemma {:induction false} ListingIsARun(st: Store, d: seq<Solution>, ids: seq<OrderId>, v: seq<OrderRecord>)
    requires |ids| == |v| && forall i, j :: 0 <= i < j < |ids| ==> ids[i] != ids[j]
    requires forall k :: 0 <= k < |ids| ==> ids[k] in st && v[k] == st[ids[k]] && v[k].status == Open
    ensures Reaches(World(st, Listing({}, []), d), World(st, Listing(Elements(ids), SignedOf(v)), d))
    decreases |ids|
  {
    var w := World(st, Listing({}, []), d);
    if ids == [] {
      assert Elements(ids) == {} && SignedOf(v) == [];
      ReachesItself(w);
    } else {
      var n := |ids| - 1;
      ListingIsARun(st, d, ids[..n], v[..n]);
      var w' := World(st, Listing(Elements(ids[..n]), SignedOf(v[..n])), d);
      ReachesNext(w, w', ReadOne(ids[n]));
      assert ids == ids[..n] + [ids[n]];
      assert Elements(ids) == Elements(ids[..n]) + {ids[n]};
      assert SignedOf(v) == SignedOf(v[..n]) + [v[n].signed];
    }
  }

  // ---------------------------------------------------------------- a race

  /** The batch consists of exactly the open orders of the store. */
  ghost predicate ListsOpen(st: Store, batch: seq<SignedOrder>) {
    forall s :: s in batch <==> exists id :: id in st && st[id].status == Open && st[id].signed == s
  }

  /** The calls served before trade `n` is marked. */
  function CallsBefore(calls: seq<seq<ApiCall>>, n: nat): seq<ApiCall> {
    if n < |calls| then calls[n] else []
  }

  /** The store after marking the first `n` trades, with calls served before each. */
  function Marked(st: Store, ts: seq<Trade>, n: nat, clock: int, calls: seq<seq<ApiCall>>): Store
    requires n <= |ts|
  {
    if n == 0 then st
    else
      var now := CallsBefore(calls, n - 1);
      MarkTrade(Served(Marked(st, ts, n - 1, clock, calls), now, |now|), ts[n - 1], clock)
  }

  ghost predicate Answers(batch: Batch, arrival: Arrival, result: SolverResult) {
    match arrival
    case Reference(solver, inTime) =>
      if inTime then
        && result.Solved? && IsReferenceAnswer(OrdersOf(batch.orders), result.solution)
        && result.solution.batchId == batch.id && result.solution.solver == solver
      else result.Failed?
    case External(r) => result == r
  }

  predicate Succeeds(arrival: Arrival) {
    match arrival
    case Reference(_, inTime) => inTime
    case External(r) => r.Solved?
  }

  /** The answers of the other solvers are sound for the batch. */
  ghost predicate SoundArrivals(batch: Batch, arrivals: seq<Arrival>) {
    forall k :: 0 <= k < |arrivals| && arrivals[k].External? && arrivals[k].result.Solved? ==>
      Sound(OrdersOf(batch.orders), arrivals[k].result.solution.trades)
  }

  /** The results of a race, in arrival order. */
  ghost predicate RaceRan(batch: Batch, arrivals: seq<Arrival>, results: seq<SolverResult>) {
    && |results| == |arrivals|
    && forall k {:trigger Answers(batch, arrivals[k], results[k])} ::
         0 <= k < |results| ==> Answers(batch, arrivals[k], results[k])
  }

  lemma {:induction false} RaceOneMore(batch: Batch, arrivals: seq<Arrival>, n: nat, results: seq<SolverResult>,
                                       result: SolverResult)
    requires n < |arrivals| && RaceRan(batch, arrivals[..n], results) && Answers(batch, arrivals[n], result)
    ensures RaceRan(batch, arrivals[..n + 1], results + [result])
    ensures Init(results + [result]) == results && Last(results + [result]) == result
  {
    forall k | 0 <= k < n + 1 ensures Answers(batch, arrivals[..n + 1][k], (results + [result])[k]) {
      if k < n {
        assert Answers(batch, arrivals[..n][k], results[k]);
      }
    }
  }

  lemma {:induction false} RaceWinner(batch: Batch, arrivals: seq<Arrival>, results: seq<SolverResult>)
    requires RaceRan(batch, arrivals, results)
    ensures Best(results).None? <==> forall k :: 0 <= k < |arrivals| ==> !Succeeds(arrivals[k])
    ensures Best(results).Some? ==> exists k: nat :: IsWinner(results, k) && results[k].solution == Best(results).value
    ensures (exists k :: 0 <= k < |arrivals| && arrivals[k].Reference? && arrivals[k].inTime) ==>
              Best(results).Some? && ReferenceScore(OrdersOf(batch.orders)) <= Best(results).value.score
  {
    var w := FindWinner(results);
    forall k | 0 <= k < |arrivals|
      ensures results[k].Solved? <==> Succeeds(arrivals[k])
      ensures arrivals[k].Reference? && arrivals[k].inTime ==>
                results[k].Solved? && results[k].solution.score == ReferenceScore(OrdersOf(batch.orders))
    {
      assert Answers(batch, arrivals[k], results[k]);
    }
  }

  // ---------------------------------------------------------------- one round

  /** What a round leaves behind: its batch, the results of its race, and the winner if any. */
  datatype Round = Round(batch: Batch, results: seq<SolverResult>, winner: Option<Solution>)

  /** Every order of the batch is good past the time of the sweep, or was only placed, by one of
      `calls`, between the sweep and the listing. */
  ghost predicate FreshBatch(now: int, calls: seq<ApiCall>, batch: seq<SignedOrder>) {
    forall s :: s in batch ==> now < s.order.validTo || exists k :: 0 <= k < |calls| && PlacesSigned(calls[k], s)
  }

  predicate PlacesSigned(call: ApiCall, s: SignedOrder) {
    Places(call, s.order.Id()) && call.signed == s
  }

  lemma {:induction false} SealedOrdersAreFresh(st: Store, now: int, clock: int, calls: seq<ApiCall>, id: OrderId)
    requires var sealed := Served(ExpiredIn(st, DueIds(st, now), clock), calls, |calls|);
             id in sealed && sealed[id].status == Open
    ensures var s := Served(ExpiredIn(st, DueIds(st, now), clock), calls, |calls|)[id].signed;
            now < s.order.validTo || exists k :: 0 <= k < |calls| && PlacesSigned(calls[k], s)
  {
    var swept := ExpiredIn(st, DueIds(st, now), clock);
    SweepExpiresTheDue(st, now, clock);
    StoredIffPlaced(swept, calls, |calls|, id);
    if id in st {
      CancelledIffWithdrawn(swept, calls, |calls|, id);
    } else {
      var k := FirstPlacing(calls, |calls|, id);
      PlacedThenWithdrawn(swept, calls, |calls|, id, k);
      assert PlacesSigned(calls[k], calls[k].signed);
    }
  }

  lemma {:induction false} SealedBatchIsFresh(st: Store, now: int, clock: int, calls: seq<ApiCall>,
                                              batch: seq<SignedOrder>)
    requires ListsOpen(Served(ExpiredIn(st, DueIds(st, now), clock), calls, |calls|), batch)
    ensures FreshBatch(now, calls, batch)
  {
    var sealed := Served(ExpiredIn(st, DueIds(st, now), clock), calls, |calls|);
    forall s | s in batch
      ensures now < s.order.validTo || exists k :: 0 <= k < |calls| && PlacesSigned(calls[k], s)
    {
      var id :| id in sealed && sealed[id].status == Open && sealed[id].signed == s;
      SealedOrdersAreFresh(st, now, clock, calls, id);
    }
  }

  /** The effect of a round on the store and the sink. Without a winner only the sweep and the
      calls remain; with one, every trade of it is marked, and it is delivered. */
  ghost predicate RoundEffect(enough: bool, tick: Tick, w: World, w': World, round: Round) {
    && w.phase == Idle == w'.phase
    && round.batch.id == tick.batchId && round.batch.sealedAt == tick.now
    && (!enough ==> round.winner.None? && w' == w)
    && (enough ==>
          var swept := ExpiredIn(w.store, DueIds(w.store, tick.now), tick.clock);
          var sealed := Served(swept, tick.amidSeal, |tick.amidSeal|);
          var raced := Served(sealed, tick.amidRace, |tick.amidRace|);
          && ListsOpen(sealed, round.batch.orders)
          && FreshBatch(tick.now, tick.amidSeal, round.batch.orders)
          && (round.winner.None? <==>
                round.batch.orders == [] || forall k :: 0 <= k < |tick.arrivals| ==> !Succeeds(tick.arrivals[k]))
          && (round.winner.None? ==>
                w' == w.(store := if round.batch.orders == [] then sealed else raced))
          && (round.winner.Some? ==>
                var ts := round.winner.value.trades;
                && RaceRan(round.batch, tick.arrivals, round.results) && round.winner == Best(round.results)
                && w' == World(Marked(raced, ts, |ts|, tick.clock, tick.amidMarking), Idle,
                               w.delivered + [round.winner.value])))
  }

  // ---------------------------------------------------------------- rounds one after the other

  /** The state after the calls that arrive before the round of a tick. */
  function AfterCalls(w: World, tick: Tick): World {
    w.(store := Served(w.store, tick.before, |tick.before|))
  }

  /** Between consecutive worlds the calls before the tick are served and its round runs. */
  ghost predicate RoundsRan(enough: bool, ticks: seq<Tick>, worlds: seq<World>, rounds: seq<Round>) {
    && |worlds| == |ticks| + 1 && |rounds| == |ticks|
    && forall k :: 0 <= k < |ticks| ==>
         RoundEffect(enough, ticks[k], AfterCalls(worlds[k], ticks[k]), worlds[k + 1], rounds[k])
  }

  /** In every round the answers of the other solvers were sound for its batch. */
  ghost predicate SoundRounds(rounds: seq<Round>, ticks: seq<Tick>) {
    |rounds| == |ticks| && forall k :: 0 <= k < |ticks| ==> SoundArrivals(rounds[k].batch, ticks[k].arrivals)
  }

  /** The winners of the rounds that have one, in order. */
  function Winners(rounds: seq<Round>): seq<Solution> {
    if rounds == [] then []
    else Winners(Init(rounds)) + if Last(rounds).winner.Some? then [Last(rounds).winner.value] else []
  }

  lemma {:induction false} OneMoreRound(enough: bool, ticks: seq<Tick>, n: nat, worlds: seq<World>,
                                        rounds: seq<Round>, w: World, round: Round)
    requires n < |ticks| && RoundsRan(enough, ticks[..n], worlds, rounds)
    requires RoundEffect(enough, ticks[n], AfterCalls(worlds[n], ticks[n]), w, round)
    ensures RoundsRan(enough, ticks[..n + 1], worlds + [w], rounds + [round])
    ensures SoundRounds(rounds + [round], ticks[..n + 1]) ==>
              SoundRounds(rounds, ticks[..n]) && SoundArrivals(round.batch, ticks[n].arrivals)
  {
    var ticks', worlds', rounds' := ticks[..n + 1], worlds + [w], rounds + [round];
    assert ticks'[n] == ticks[n] && worlds'[n] == worlds[n] && worlds'[n + 1] == w && rounds'[n] == round;
    forall k | 0 <= k < n
      ensures RoundEffect(enough, ticks'[k], AfterCalls(worlds'[k], ticks'[k]), worlds'[k + 1], rounds'[k])
      ensures ticks[..n][k] == ticks'[k] && rounds'[k] == rounds[k]
    {
      assert ticks[..n][k] == ticks'[k];
      assert worlds'[k] == worlds[k] && worlds'[k + 1] == worlds[k + 1] && rounds'[k] == rounds[k];
    }
  }

  lemma {:induction false} RoundDeliversItsWinner(enough: bool, tick: Tick, w: World, w': World, round: Round)
    requires RoundEffect(enough, tick, w, w', round)
    ensures w'.delivered == w.delivered + if round.winner.Some? then [round.winner.value] else []
  {
  }

  lemma {:induction false} OneRoundLess(enough: bool, ticks: seq<Tick>, worlds: seq<World>, rounds: seq<Round>)
    requires RoundsRan(enough, ticks, worlds, rounds) && ticks != []
    ensures RoundsRan(enough, Init(ticks), Init(worlds), Init(rounds))
    ensures Last(worlds).delivered ==
            Last(Init(worlds)).delivered + if Last(rounds).winner.Some? then [Last(rounds).winner.value] else []
  {
    var n := |ticks| - 1;
    RoundDeliversItsWinner(enough, ticks[n], AfterCalls(worlds[n], ticks[n]), worlds[n + 1], rounds[n]);
  }

  /** Over any number of rounds the sink receives exactly the winners, in order. */
  lemma {:induction false} RoundsDeliverTheWinners(enough: bool, ticks: seq<Tick>, worlds: seq<World>,
                                                   rounds: seq<Round>)
    requires RoundsRan(enough, ticks, worlds, rounds)
    ensures Last(worlds).delivered == worlds[0].delivered + Winners(rounds)
    decreases |ticks|
  {
    if ticks != [] {
      OneRoundLess(enough, ticks, worlds, rounds);
      RoundsDeliverTheWinners(enough, Init(ticks), Init(worlds), Init(rounds));
    }
  }

  // ---------------------------------------------------------------- what a round does to orders

  /** A traded order ends as its last trade says, whatever calls land between the marks. */
  lemma {:induction false} LastTradeIsRecorded(st: Store, ts: seq<Trade>, n: nat, clock: int,
                                               calls: seq<seq<ApiCall>>, k: nat)
    requires k < n <= |ts| && ts[k].orderId in st
    requires forall j :: k < j < n ==> ts[j].orderId != ts[k].orderId
    ensures Settled(Marked(st, ts, n, clock, calls), ts[k])
  {
    var id, now := ts[k].orderId, CallsBefore(calls, n - 1);
    var before := Marked(st, ts, n - 1, clock, calls);
    if k < n - 1 {
      LastTradeIsRecorded(st, ts, n - 1, clock, calls, k);
    } else {
      StoredOrdersStay(st, ts, n - 1, clock, calls, id);
    }
    CancelledIffWithdrawn(before, now, |now|, id);
  }

  lemma {:induction false} StoredOrdersStay(st: Store, ts: seq<Trade>, n: nat, clock: int,
                                            calls: seq<seq<ApiCall>>, id: OrderId)
    requires n <= |ts| && id in st
    ensures id in Marked(st, ts, n, clock, calls)
  {
    if n > 0 {
      var now := CallsBefore(calls, n - 1);
      StoredOrdersStay(st, ts, n - 1, clock, calls, id);
      CancelledIffWithdrawn(Marked(st, ts, n - 1, clock, calls), now, |now|, id);
    }
  }

  /** One of the calls that land before the first `n` marks withdraws order `id`. */
  ghost predicate WithdrawnAmid(calls: seq<seq<ApiCall>>, n: nat, id: OrderId, owner: Address) {
    exists m: nat, k: nat :: m < n && m < |calls| && k < |calls[m]| && Withdraws(calls[m][k], id, owner)
  }

  lemma {:induction false} OneMoreMark(calls: seq<seq<ApiCall>>, n: nat, id: OrderId, owner: Address)
    requires n > 0
    ensures var now := CallsBefore(calls, n - 1);
            WithdrawnAmid(calls, n, id, owner) <==>
            WithdrawnAmid(calls, n - 1, id, owner) || exists k :: 0 <= k < |now| && Withdraws(now[k], id, owner)
  {
    var now := CallsBefore(calls, n - 1);
    if m: nat, k: nat :| m < n && m < |calls| && k < |calls[m]| && Withdraws(calls[m][k], id, owner) {
      if m == n - 1 {
        assert Withdraws(now[k], id, owner);
      }
    }
    if k :| 0 <= k < |now| && Withdraws(now[k], id, owner) {
      assert Withdraws(calls[n - 1][k], id, owner);
    }
  }

  /** An order without a trade is not marked: nothing of it changes, unless it was open and its
      owner withdrew it while the round marked others. */
  lemma {:induction false} UntradedStaysUnmarked(st: Store, ts: seq<Trade>, n: nat, clock: int,
                                                 calls: seq<seq<ApiCall>>, id: OrderId)
    requires n <= |ts| && id in st && forall j :: 0 <= j < n ==> ts[j].orderId != id
    ensures id in Marked(st, ts, n, clock, calls)
    ensures var r, r' := st[id], Marked(st, ts, n, clock, calls)[id];
            if r.status == Open && WithdrawnAmid(calls, n, id, r.signed.order.owner)
            then r' == r.(status := Cancelled, updatedAt := r'.updatedAt)
            else r' == r
  {
    if n > 0 {
      var now := CallsBefore(calls, n - 1);
      UntradedStaysUnmarked(st, ts, n - 1, clock, calls, id);
      CancelledIffWithdrawn(Marked(st, ts, n - 1, clock, calls), now, |now|, id);
      OneMoreMark(calls, n, id, st[id].signed.order.owner);
    }
  }

  /** If the other solvers' answers are sound, a round delivers trades only of orders in its batch:
      open at the listing, and good past the time of the sweep or placed since. */
  lemma {:induction false} WinnersTradeFreshOrders(tick: Tick, w: World, w': World, round: Round, t: Trade)
    requires RoundEffect(true, tick, w, w', round) && SoundArrivals(round.batch, tick.arrivals)
    requires round.winner.Some? && t in round.winner.value.trades
    ensures exists s :: s in round.batch.orders && s.order == OrderOf(t)
    ensures tick.now < OrderOf(t).validTo
            || exists k :: 0 <= k < |tick.amidSeal| && Places(tick.amidSeal[k], t.orderId)
  {
    var batch := round.batch.orders;
    AnswersAreSound(round.batch, tick.arrivals, round.results);
    BestIsOneOf(round.results);
    assert InBatch(OrdersOf(batch), t);
    var k :| 0 <= k < |batch| && OrdersOf(batch)[k] == OrderOf(t);
    assert batch[k] in batch && t.orderId == batch[k].order.Id();
    if j :| 0 <= j < |tick.amidSeal| && PlacesSigned(tick.amidSeal[j], batch[k]) {
      assert Places(tick.amidSeal[j], t.orderId);
    }
  }

  /** Sweeping, serving the calls that land then, and listing. */
  lemma {:induction false} RoundReachesListing(w0: World, now: int, clock: int, calls: seq<ApiCall>,
                                               ids: seq<OrderId>, open: seq<OrderRecord>)
    requires w0.phase.Idle?
    requires |ids| == |open| && forall i, j :: 0 <= i < j < |ids| ==> ids[i] != ids[j]
    requires var sealed := Served(ExpiredIn(w0.store, DueIds(w0.store, now), clock), calls, |calls|);
             forall k :: 0 <= k < |ids| ==> ids[k] in sealed && open[k] == sealed[ids[k]] && open[k].status == Open
    ensures var sealed := Served(ExpiredIn(w0.store, DueIds(w0.store, now), clock), calls, |calls|);
            Reaches(w0, World(sealed, Listing(Elements(ids), SignedOf(open)), w0.delivered))
  {
    var sealed := RoundReachesSealing(w0, now, clock, calls);
    ReachesNext(w0, World(sealed, Expiring(now), w0.delivered), BeginListing);
    ListingIsARun(sealed, w0.delivered, ids, open);
    ReachesTransitively(w0, World(sealed, Listing({}, []), w0.delivered),
                        World(sealed, Listing(Elements(ids), SignedOf(open)), w0.delivered));
  }

  lemma {:induction false} RoundReachesSealing(w0: World, now: int, clock: int, calls: seq<ApiCall>)
    returns (sealed: Store)
    requires w0.phase.Idle?
    ensures sealed == Served(ExpiredIn(w0.store, DueIds(w0.store, now), clock), calls, |calls|)
    ensures Reaches(w0, World(sealed, Expiring(now), w0.delivered))
  {
    var swept := ExpiredIn(w0.store, DueIds(w0.store, now), clock);
    sealed := Served(swept, calls, |calls|);
    ReachesItself(w0);
    ReachesNext(w0, w0, BeginRound(now));
    SweepIsARun(w0.store, now, w0.delivered, DueIds(w0.store, now), clock);
    ReachesTransitively(w0, World(w0.store, Expiring(now), w0.delivered), World(swept, Expiring(now), w0.delivered));
    ServingIsARun(World(swept, Expiring(now), w0.delivered), calls, |calls|);
    ReachesTransitively(w0, World(swept, Expiring(now), w0.delivered), World(sealed, Expiring(now), w0.delivered));
  }

  lemma {:induction false} AnswersAreSound(batch: Batch, arrivals: seq<Arrival>, results: seq<SolverResult>)
    requires RaceRan(batch, arrivals, results) && SoundArrivals(batch, arrivals)
    ensures forall k :: 0 <= k < |results| && results[k].Solved? ==>
              Sound(OrdersOf(batch.orders), results[k].solution.trades)
  {
    forall k | 0 <= k < |results| && results[k].Solved?
      ensures Sound(OrdersOf(batch.orders), results[k].solution.trades)
    {
      assert Answers(batch, arrivals[k], results[k]);
      if arrivals[k].Reference? {
        ReferenceMatcherIsSound(OrdersOf(batch.orders), results[k].solution.trades);
      }
    }
  }

  /** The race is one step from the listing to the marking of the best answer, or to idleness. */
  lemma {:induction false} RaceIsAStep(w0: World, listed: World, batch: Batch, arrivals: seq<Arrival>,
                                       results: seq<SolverResult>)
    requires Reaches(w0, listed) && listed.phase.Listing? && listed.phase.batch == batch.orders != []
    requires RaceRan(batch, arrivals, results) && SoundArrivals(batch, arrivals)
    ensures Reaches(w0, World(listed.store,
                              if Best(results).None? then Idle else Marking(Best(results).value, 0),
                              listed.delivered))
  {
    AnswersAreSound(batch, arrivals, results);
    ReachesNext(w0, listed, Race(results));
  }

  /** Marking and delivering the winner ends the round. */
  lemma {:induction false} SettlingIsARun(w0: World, w: World, clock: int, calls: seq<seq<ApiCall>>)
    requires w.phase.Marking? && w.phase.next == 0
    ensures var ts := w.phase.winner.trades;
            Reaches(w0, w) ==>
              Reaches(w0, World(Marked(w.store, ts, |ts|, clock, calls), Idle, w.delivered + [w.phase.winner]))
  {
    var winner := w.phase.winner;
    var n := |winner.trades|;
    var marked := World(Marked(w.store, winner.trades, n, clock, calls), Marking(winner, n), w.delivered);
    MarkingIsARun(w, n, clock, calls);
    if Reaches(w0, w) {
      ReachesTransitively(w0, w, marked);
      ReachesNext(w0, marked, Deliver);
    }
  }

  lemma {:induction false} BatchIsTheOpenOrders(st: Store, ids: seq<OrderId>, open: seq<OrderRecord>)
    requires |ids| == |open|
    requires forall id :: id in ids <==> id in st && st[id].status == Open
    requires forall k :: 0 <= k < |ids| ==> open[k] == st[ids[k]]
    ensures ListsOpen(st, SignedOf(open))
  {
    forall s ensures s in SignedOf(open) <==> exists id :: id in st && st[id].status == Open && st[id].signed == s {
      if s in SignedOf(open) {
        var k :| 0 <= k < |open| && SignedOf(open)[k] == s;
        assert ids[k] in st && st[ids[k]].signed == s;
      }
      if id :| id in st && st[id].status == Open && st[id].signed == s {
        var k :| 0 <= k < |ids| && ids[k] == id;
        assert SignedOf(open)[k] == s;
      }
    }
  }

  /** Marking the winner's trades one after the other, serving calls in between, is a run. */
  lemma {:induction false} MarkingIsARun(w: World, n: nat, clock: int, calls: seq<seq<ApiCall>>)
    requires w.phase.Marking? && w.phase.next == 0 && n <= |w.phase.winner.trades|
    ensures var winner := w.phase.winner;
            Reaches(w, World(Marked(w.store, winner.trades, n, clock, calls), Marking(winner, n), w.delivered))
  {
    if n == 0 {
      ReachesItself(w);
    } else {
      MarkingIsARun(w, n - 1, clock, calls);
      var winner, now := w.phase.winner, CallsBefore(calls, n - 1);
      var w' := World(Marked(w.store, winner.trades, n - 1, clock, calls), Marking(winner, n - 1), w.delivered);
      ServingIsARun(w', now, |now|);
      var w'' := w'.(store := Served(w'.store, now, |now|));
      ReachesTransitively(w, w', w'');
      ReachesNext(w, w'', MarkOne(clock));
    }
  }
}
