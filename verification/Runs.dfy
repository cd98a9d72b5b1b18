/** Runs of the step system, put together step by step. */
module Runs {
  import opened Orders
  import opened Batches
  import opened Auction

  /** Some run of the step system leads from `w` to `w'`. */
  ghost predicate Reaches(w: World, w': World) {
    exists steps :: ValidRun(w, steps) && End(w, steps) == w'
  }

  /** A race in which only the reference matcher answers. */
  ghost predicate ReferenceStep(w: World, step: Step) {
    step.Race? && w.phase.Listing? ==>
      forall k :: 0 <= k < |step.results| && step.results[k].Solved? ==>
        IsReferenceAnswer(OrdersOf(w.phase.batch), step.results[k].solution)
  }

  /** Every race of the run is one between reference matchers. */
  ghost predicate ReferenceRaces(w: World, steps: seq<Step>)
    requires ValidRun(w, steps)
    decreases |steps|
  {
    steps == [] || (ReferenceStep(w, steps[0]) && ReferenceRaces(Next(w, steps[0]), steps[1..]))
  }

  lemma {:induction false} RunsCompose(w: World, xs: seq<Step>, ys: seq<Step>)
    requires ValidRun(w, xs) && ValidRun(End(w, xs), ys)
    ensures ValidRun(w, xs + ys) && End(w, xs + ys) == End(End(w, xs), ys)
    ensures ReferenceRaces(w, xs) && ReferenceRaces(End(w, xs), ys) ==> ReferenceRaces(w, xs + ys)
    decreases |xs|
  {
    if xs == [] {
      assert xs + ys == ys;
    } else {
      RunsCompose(Next(w, xs[0]), xs[1..], ys);
      assert (xs + ys)[1..] == xs[1..] + ys;
    }
  }

  /** Some run raced by the reference matcher alone leads from `w` to `w'`. */
  ghost predicate ReferenceReaches(w: World, w': World) {
    exists steps :: ValidRun(w, steps) && ReferenceRaces(w, steps) && End(w, steps) == w'
  }

  lemma {:induction false} ReferenceReachesItself(w: World)
    ensures ReferenceReaches(w, w)
  {
    assert ValidRun(w, []) && ReferenceRaces(w, []) && End(w, []) == w;
  }

  lemma {:induction false} ReferenceReachesNext(a: World, b: World, step: Step)
    requires ReferenceReaches(a, b) && Enabled(b, step) && ReferenceStep(b, step)
    ensures ReferenceReaches(a, Next(b, step))
  {
    var steps :| ValidRun(a, steps) && ReferenceRaces(a, steps) && End(a, steps) == b;
    OneMoreStep(a, steps, step);
  }

  lemma {:induction false} RacelessRun(w: World, steps: seq<Step>)
    requires ValidRun(w, steps) && forall k :: 0 <= k < |steps| ==> !steps[k].Race?
    ensures ReferenceRaces(w, steps)
    decreases |steps|
  {
    if steps != [] {
      RacelessRun(Next(w, steps[0]), steps[1..]);
    }
  }

  lemma {:induction false} ReachesItself(w: World)
    ensures Reaches(w, w)
  {
    assert ValidRun(w, []) && End(w, []) == w;
  }

  lemma {:induction false} ReachesTransitively(a: World, b: World, c: World)
    requires Reaches(a, b) && Reaches(b, c)
    ensures Reaches(a, c)
  {
    var xs :| ValidRun(a, xs) && End(a, xs) == b;
    var ys :| ValidRun(b, ys) && End(b, ys) == c;
    RunsCompose(a, xs, ys);
  }

  lemma {:induction false} OneMoreStep(w: World, steps: seq<Step>, step: Step)
    requires ValidRun(w, steps) && Enabled(End(w, steps), step)
    ensures ValidRun(w, steps + [step]) && End(w, steps + [step]) == Next(End(w, steps), step)
    ensures ReferenceRaces(w, steps) && ReferenceStep(End(w, steps), step) ==> ReferenceRaces(w, steps + [step])
  {
    var w' := Next(End(w, steps), step);
    assert [step][1..] == [] && ValidRun(w', []) && End(w', []) == w' && ReferenceRaces(w', []);
    RunsCompose(w, steps, [step]);
  }

  lemma {:induction false} ReachesNext(a: World, b: World, step: Step)
    requires Reaches(a, b) && Enabled(b, step)
    ensures Reaches(a, Next(b, step))
  {
    var steps :| ValidRun(a, steps) && End(a, steps) == b;
    OneMoreStep(a, steps, step);
  }

  lemma {:induction false} ReferenceIsSound(orders: seq<Order>, sol: Solution)
    requires IsReferenceAnswer(orders, sol)
    ensures Sound(orders, sol.trades)
  {
    ReferenceMatcherIsSound(orders, sol.trades);
  }

  /** A race with a single reference answer goes on to mark it. */
  lemma {:induction false} ReferenceAnswerWins(w: World, sol: Solution)
    requires w.phase.Listing? && w.phase.batch != [] && IsReferenceAnswer(OrdersOf(w.phase.batch), sol)
    ensures Enabled(w, Race([Solved(sol)])) && ReferenceStep(w, Race([Solved(sol)]))
    ensures Next(w, Race([Solved(sol)])) == w.(phase := Marking(sol, 0))
  {
    ReferenceIsSound(OrdersOf(w.phase.batch), sol);
    OneAnswerRace(w, sol);
  }

  /** What a run starts from is kept: the invariant, and every fact about stored orders. */
  lemma {:induction false} ReachesKeepsInv(w: World, w': World)
    requires Inv(w) && Reaches(w, w')
    ensures Inv(w') && Evolves(w.store, w'.store)
  {
    var steps :| ValidRun(w, steps) && End(w, steps) == w';
    RunKeepsInv(w, steps);
  }

  lemma {:induction false} ReferenceReachesKeepsInv(w: World, w': World)
    requires Inv(w) && ReferenceReaches(w, w')
    ensures Inv(w')
  {
    var steps :| ValidRun(w, steps) && ReferenceRaces(w, steps) && End(w, steps) == w';
    RunKeepsInv(w, steps);
  }
}
