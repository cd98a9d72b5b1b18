/** The auctioneer (`crates/oxdex-auctioneer/src/lib.rs`), with API calls served between its rounds
    and between the repository calls of a round. */
module Auctioneers {
  import opened Orders
  import opened Market
  import opened Batches
  import opened Repository
  import opened ApiCalls
  import opened Auction
  import opened Runs
  import opened Rounds

  class SolutionSink {
    var delivered: seq<Solution>

    constructor ()
      ensures delivered == []
    {
      delivered := [];
    }

    method Deliver(solution: Solution)
      modifies this
      ensures delivered == old(delivered) + [solution]
    {
      delivered := delivered + [solution];
    }
  }

  class Auctioneer {
    const minSolvers: nat
    const solvers: nat
    const repo: InMemoryOrderRepository
    const sink: SolutionSink

    constructor (minSolvers: nat, solvers: nat, repo: InMemoryOrderRepository, sink: SolutionSink)
      ensures this.minSolvers == minSolvers && this.solvers == solvers && this.repo == repo && this.sink == sink
    {
      this.minSolvers, this.solvers, this.repo, this.sink := minSolvers, solvers, repo, sink;
    }

    ghost function View(): World
      reads repo, sink
    {
      World(repo.inner, Idle, sink.delivered)
    }

    /** Collect the results in arrival order and keep the best: maximum score, earliest first,
        and never below the reference score when the reference solver is in time. */
    method RaceSolvers(batch: Batch, arrivals: seq<Arrival>)
      returns (best: Option<Solution>, ghost results: seq<SolverResult>)
      ensures RaceRan(batch, arrivals, results) && best == Best(results)
      ensures best.None? <==> forall k :: 0 <= k < |arrivals| ==> !Succeeds(arrivals[k])
      ensures best.Some? ==> exists k: nat :: IsWinner(results, k) && results[k].solution == best.value
      ensures (exists k :: 0 <= k < |arrivals| && arrivals[k].Reference? && arrivals[k].inTime) ==>
                best.Some? && ReferenceScore(OrdersOf(batch.orders)) <= best.value.score
    {
      best, results := None, [];
      for n := 0 to |arrivals|
        invariant RaceRan(batch, arrivals[..n], results) && best == Best(results)
      {
        var result;
        result := Solve(batch, arrivals[n]);
        RaceOneMore(batch, arrivals, n, results, result);
        results := results + [result];
        if result.Solved? && (best.None? || result.solution.score > best.value.score) {
          best := Some(result.solution);
        }
      }
      assert arrivals[..|arrivals|] == arrivals;
      RaceWinner(batch, arrivals, results);
    }

    /** One solver's result. */
    method Solve(batch: Batch, arrival: Arrival) returns (result: SolverResult)
      ensures Answers(batch, arrival, result)
    {
      match arrival
      case Reference(solver, inTime) =>
        if inTime {
          var solution := MatchBatch(batch.id, solver, batch.orders);
          result := Solved(solution);
        } else {
          result := Failed;
        }
      case External(r) => result := r;
    }

    /** Serve API calls: an order that does not validate, or whose signature does not verify,
        never reaches the repository. */
    method Serve(calls: seq<ApiCall>)
      modifies repo
      ensures repo.inner == Served(old(repo.inner), calls, |calls|)
    {
      for n := 0 to |calls|
        invariant repo.inner == Served(old(repo.inner), calls, n)
      {
        match calls[n]
        case PlaceOrder(signed, verifies, clock) =>
          if signed.order.Validate(clock).Valid? {
            if verifies {
              var r := repo.Insert(signed, clock);
            }
          }
        case WithdrawOrder(id, owner, clock) =>
          var r := repo.Cancel(id, owner, clock);
      }
    }

    /** Mark every trade of the winner, serving API calls before each; failures to mark are only
        logged. */
    method MarkTrades(winner: Solution, clock: int, calls: seq<seq<ApiCall>>)
      modifies repo
      ensures repo.inner == Marked(old(repo.inner), winner.trades, |winner.trades|, clock, calls)
    {
      for n := 0 to |winner.trades|
        invariant repo.inner == Marked(old(repo.inner), winner.trades, n, clock, calls)
      {
        Serve(CallsBefore(calls, n));
        var t := winner.trades[n];
        var r := repo.UpdateStatus(t.orderId, Auctioned, Some(t.executedSell), Some(t.executedBuy), clock);
      }
    }

    /** Expire what is due and list what is open, with API calls in between. */
    method SealBatch(now: int, clock: int, calls: seq<ApiCall>) returns (open: seq<OrderRecord>)
      modifies repo
      ensures repo.inner == Served(ExpiredIn(old(repo.inner), DueIds(old(repo.inner), now), clock), calls, |calls|)
      ensures exists seen :: Reaches(old(View()), World(repo.inner, Listing(seen, SignedOf(open)), sink.delivered))
      ensures ListsOpen(repo.inner, SignedOf(open))
    {
      ghost var w0 := View();
      var count := repo.ExpireDue(now, clock);
      Serve(calls);
      ghost var ids;
      open, ids := repo.ListOpen(None);
      RoundReachesListing(w0, now, clock, calls, ids, open);
      BatchIsTheOpenOrders(repo.inner, ids, open);
    }

    /** One round: sweep, list, race, mark, deliver, with API calls landing in between. If the
        other solvers' answers are sound, the round is one of the runs of the step system. */
    method RunOneAuction(tick: Tick) returns (winner: Option<Solution>, ghost round: Round)
      requires |tick.arrivals| == solvers
      modifies repo, sink
      ensures round.winner == winner
      ensures RoundEffect(solvers >= minSolvers, tick, old(View()), View(), round)
      ensures SoundArrivals(round.batch, tick.arrivals) ==> Reaches(old(View()), View())
    {
      winner := None;
      round := Round(Batch(tick.batchId, tick.now, []), [], None);
      ghost var w0 := View();
      ReachesItself(w0);
      if solvers < minSolvers {
        return;
      }

      var open := SealBatch(tick.now, tick.clock, tick.amidSeal);
      var batch := Batch(tick.batchId, tick.now, SignedOf(open));
      round := Round(batch, [], None);
      SealedBatchIsFresh(w0.store, tick.now, tick.clock, tick.amidSeal, batch.orders);
      ghost var seen :| Reaches(w0, World(repo.inner, Listing(seen, SignedOf(open)), sink.delivered));
      ghost var listed := World(repo.inner, Listing(seen, SignedOf(open)), sink.delivered);
      if open == [] {
        ReachesNext(w0, listed, Race([]));
        return;
      }

      Serve(tick.amidRace);
      ServingIsARun(listed, tick.amidRace, |tick.amidRace|);
      ReachesTransitively(w0, listed, listed.(store := repo.inner));
      ghost var results;
      winner, results := RaceSolvers(batch, tick.arrivals);
      round := Round(batch, results, winner);
      if SoundArrivals(batch, tick.arrivals) {
        RaceIsAStep(w0, listed.(store := repo.inner), batch, tick.arrivals, results);
      }
      if winner.None? {
        return;
      }
      SettlingIsARun(w0, World(repo.inner, Marking(winner.value, 0), sink.delivered), tick.clock, tick.amidMarking);
      MarkTrades(winner.value, tick.clock, tick.amidMarking);
      sink.Deliver(winner.value);
    }

    /** Serve the API, then run one round, for every tick and never two rounds at once. `worlds`
        are the states between the ticks. If the other solvers' answers are sound, the invariant
        of the step system is kept over all rounds, so no order is delivered twice. */
    method Run(ticks: seq<Tick>) returns (ghost worlds: seq<World>, ghost rounds: seq<Round>)
      requires forall k :: 0 <= k < |ticks| ==> |ticks[k].arrivals| == solvers
      modifies repo, sink
      ensures |worlds| == |ticks| + 1 && worlds[0] == old(View()) && worlds[|ticks|] == View()
      ensures RoundsRan(solvers >= minSolvers, ticks, worlds, rounds)
      ensures sink.delivered == old(sink.delivered) + Winners(rounds)
      ensures SoundRounds(rounds, ticks) ==> Reaches(old(View()), View())
      ensures SoundRounds(rounds, ticks) && Inv(old(View())) ==>
                && Inv(View()) && Evolves(old(repo.inner), repo.inner)
                && Distinct(Ids(AllTrades(sink.delivered)))
    {
      ghost var w0 := View();
      worlds, rounds := [w0], [];
      ReachesItself(w0);
      for n := 0 to |ticks|
        invariant |worlds| == n + 1 && worlds[0] == w0 && worlds[n] == View()
        invariant RoundsRan(solvers >= minSolvers, ticks[..n], worlds, rounds)
        invariant SoundRounds(rounds, ticks[..n]) ==> Reaches(w0, View())
      {
        ghost var before := View();
        var tick := ticks[n];
        Serve(tick.before);
        ghost var served := View();
        var winner; ghost var round;
        winner, round := RunOneAuction(tick);
        OneMoreRound(solvers >= minSolvers, ticks, n, worlds, rounds, View(), round);
        if SoundRounds(rounds + [round], ticks[..n + 1]) {
          ServingIsARun(before, tick.before, |tick.before|);
          ReachesTransitively(w0, before, served);
          ReachesTransitively(w0, served, View());
        }
        worlds, rounds := worlds + [View()], rounds + [round];
      }
      assert ticks[..|ticks|] == ticks;
      RoundsDeliverTheWinners(solvers >= minSolvers, ticks, worlds, rounds);
      if SoundRounds(rounds, ticks) && Inv(w0) {
        ReachesKeepsInv(w0, View());
      }
    }
  }
}
