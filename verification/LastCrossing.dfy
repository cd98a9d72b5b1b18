/** Which pair of orders sets the clearing price: the last two heads that met and crossed. */
module LastCrossing {
  import opened Numbers
  import opened Orders
  import opened Sorting
  import opened Sweep
  import opened BookCrossing

  /** Orders past a pointer are untouched, and the order at it has something left. */
  ghost predicate Untouched(orders: seq<Order>, rem: seq<nat>, i: nat)
    requires |rem| == |orders|
  {
    && (forall k :: i < k < |orders| ==> rem[k] == orders[k].sellAmount)
    && (i < |orders| ==> rem[i] > 0 || orders[i].sellAmount == 0)
  }

  /** The last fill was between the two orders. */
  ghost predicate LastFillIs(s: State, c: Crossing) {
    && s.fillsAb != [] && s.fillsBa != []
    && Last(s.fillsAb).idx == c.a && Last(s.fillsBa).idx == c.b
  }

  /** An order still has something left, or gave its last in the fill of this very pair. */
  ghost predicate HadSomething(o: Order, left: nat, lastFill: bool) {
    left > 0 || o.sellAmount == 0 || lastFill
  }

  /** The remembered pair was at the heads in the last iteration, and both orders had something to
      trade when they met. */
  ghost predicate LastMet(bk: Book, s: State)
    requires Fits(bk, s)
  {
    match s.lastCross
    case None => s == Start(bk)
    case Some(c) =>
      && c.a < |bk.aToB| && c.a <= s.i <= c.a + 1 && c.b < |bk.bToA| && c.b <= s.j <= c.b + 1
      && Crosses(Exact, bk.aToB[c.a], bk.bToA[c.b])
      && HadSomething(bk.aToB[c.a], s.aRem[c.a], LastFillIs(s, c))
      && HadSomething(bk.bToA[c.b], s.bRem[c.b], LastFillIs(s, c))
  }

  ghost predicate Heads(bk: Book, s: State)
    requires Fits(bk, s)
  {
    Untouched(bk.aToB, s.aRem, s.i) && Untouched(bk.bToA, s.bRem, s.j) && LastMet(bk, s)
  }

  lemma {:induction false} StepKeepsUntouched(bk: Book, s: State)
    requires Fits(bk, s) && !Done(Exact, bk, s)
    requires Untouched(bk.aToB, s.aRem, s.i) && Untouched(bk.bToA, s.bRem, s.j)
    ensures Untouched(bk.aToB, Step(Exact, bk, s).aRem, Step(Exact, bk, s).i)
    ensures Untouched(bk.bToA, Step(Exact, bk, s).bRem, Step(Exact, bk, s).j)
  {
  }

  lemma {:induction false} StepMeets(bk: Book, s: State)
    requires Fits(bk, s) && !Done(Exact, bk, s)
    requires Untouched(bk.aToB, s.aRem, s.i) && Untouched(bk.bToA, s.bRem, s.j)
    ensures LastMet(bk, Step(Exact, bk, s))
  {
    var t := Step(Exact, bk, s);
    assert t.lastCross == Some(Crossing(s.i, s.j));
    if MoveAt(Exact, bk, s).Fill? {
      assert LastFillIs(t, Crossing(s.i, s.j));
    }
  }

  lemma {:induction false} RunKeepsHeads(bk: Book, s: State)
    requires Fits(bk, s) && Heads(bk, s)
    ensures Heads(bk, Run(Exact, bk, s))
    decreases Measure(bk, s)
  {
    if !Done(Exact, bk, s) {
      StepKeepsUntouched(bk, s);
      StepMeets(bk, s);
      StepDecreases(Exact, bk, s);
      RunKeepsHeads(bk, Step(Exact, bk, s));
    }
  }

  /** When the loop ends, the remembered pair is the last pair of heads that met: it crosses, both
      orders had something to trade when they met, each pointer stands at or one past it, and the
      heads it stands at now, if there are two, do not cross. */
  lemma {:induction false} ClearingPairIsTheLastMet(bk: Book)
    ensures Heads(bk, Swept(bk)) && Done(Exact, bk, Swept(bk))
  {
    SweptHasInv(bk);
    RunKeepsHeads(bk, Start(bk));
  }
}
