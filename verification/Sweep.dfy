/** The greedy two-pointer crossing loop of `match_pair`, as a step function on values. */
module Sweep {
  import opened Numbers
  import opened Orders
  import opened Sorting

  /** One side of a fill: what the order at `idx` sold and, at the book ratio, bought. */
  datatype Leg = Leg(idx: nat, sold: nat, bought: nat)

  /** The two directions of one market. */
  datatype Book = Book(aToB: seq<Order>, bToA: seq<Order>)

  datatype Crossing = Crossing(a: nat, b: nat)

  datatype State = State(
    i: nat,
    j: nat,
    aRem: seq<nat>,
    bRem: seq<nat>,
    fillsAb: seq<Leg>,
    fillsBa: seq<Leg>,
    lastCross: Option<Crossing>)

  predicate Crosses(m: Arith, oa: Order, ob: Order) {
    var p, q := oa.LimitPrice(), ob.LimitPrice();
    Mul(m, p.num, q.num) <= Mul(m, p.den, q.den)
  }

  /** How much A an order with `bLeft` of B to sell still takes at its own limit. */
  function Capacity(m: Arith, bLeft: nat, ob: Order): nat {
    Mul(m, bLeft, ob.buyAmount) / AtLeastOne(ob.sellAmount)
  }

  /** The B booked against `tradeA` at the B→A order's own ratio. */
  function BookedB(m: Arith, tradeA: nat, ob: Order): nat {
    Mul(m, tradeA, ob.sellAmount) / AtLeastOne(ob.buyAmount)
  }

  predicate Fits(bk: Book, s: State) {
    && |s.aRem| == |bk.aToB| && |s.bRem| == |bk.bToA|
    && s.i <= |bk.aToB| && s.j <= |bk.bToA|
  }

  predicate Done(m: Arith, bk: Book, s: State)
    requires Fits(bk, s)
  {
    s.i == |bk.aToB| || s.j == |bk.bToA| || !Crosses(m, bk.aToB[s.i], bk.bToA[s.j])
  }

  /** What each order has to sell. */
  function Offers(orders: seq<Order>): seq<nat> {
    seq(|orders|, k requires 0 <= k < |orders| => orders[k].sellAmount)
  }

  function Start(bk: Book): (s: State)
    ensures Fits(bk, s)
  {
    State(0, 0, Offers(bk.aToB), Offers(bk.bToA), [], [], None)
  }

  /** What one iteration decides to do with the two heads. */
  datatype Move = PassA | PassB | Fill(tradeA: nat, tradeB: nat)

  /** A fill that would leave a fill-or-kill order partly filled is dropped and that order
      is passed over. */
  function Decide(m: Arith, oa: Order, aLeft: nat, ob: Order, bLeft: nat): Move {
    var tradeA := Min(aLeft, Capacity(m, bLeft, ob));
    var tradeB := BookedB(m, tradeA, ob);
    if tradeA == 0 then if aLeft == 0 then PassA else PassB
    else if !oa.partialFill && Monus(aLeft, tradeA) != 0 then PassA
    else if !ob.partialFill && Monus(bLeft, tradeB) != 0 then PassB
    else Fill(tradeA, tradeB)
  }

  function Perform(s: State, move: Move): State
    requires s.i < |s.aRem| && s.j < |s.bRem|
  {
    var seen := s.(lastCross := Some(Crossing(s.i, s.j)));
    match move
    case PassA => seen.(i := s.i + 1)
    case PassB => seen.(j := s.j + 1)
    case Fill(tradeA, tradeB) =>
      var aLeft, bLeft := Monus(s.aRem[s.i], tradeA), Monus(s.bRem[s.j], tradeB);
      seen.(
      i := if aLeft == 0 then s.i + 1 else s.i,
      j := if bLeft == 0 then s.j + 1 else s.j,
      aRem := s.aRem[s.i := aLeft],
      bRem := s.bRem[s.j := bLeft],
      fillsAb := s.fillsAb + [Leg(s.i, tradeA, tradeB)],
      fillsBa := s.fillsBa + [Leg(s.j, tradeB, tradeA)])
  }

  function MoveAt(m: Arith, bk: Book, s: State): Move
    requires Fits(bk, s) && !Done(m, bk, s)
  {
    Decide(m, bk.aToB[s.i], s.aRem[s.i], bk.bToA[s.j], s.bRem[s.j])
  }

  /** One iteration of the loop. */
  function Step(m: Arith, bk: Book, s: State): (t: State)
    requires Fits(bk, s) && !Done(m, bk, s)
    ensures Fits(bk, t)
  {
    Perform(s, MoveAt(m, bk, s))
  }

  /** Unvisited orders plus A still on offer. */
  function Measure(bk: Book, s: State): nat
    requires Fits(bk, s)
  {
    |bk.aToB| - s.i + (|bk.bToA| - s.j) + Sum(s.aRem)
  }

  /** Every iteration moves a pointer or sells some A, even one that books no B. */
  lemma {:induction false} StepDecreases(m: Arith, bk: Book, s: State)
    requires Fits(bk, s) && !Done(m, bk, s)
    ensures Measure(bk, Step(m, bk, s)) < Measure(bk, s)
  {
    SumUpdate(s.aRem, s.i, Step(m, bk, s).aRem[s.i]);
    assert s.aRem[s.i := s.aRem[s.i]] == s.aRem;
  }

  function Run(m: Arith, bk: Book, s: State): (t: State)
    requires Fits(bk, s)
    ensures Fits(bk, t) && Done(m, bk, t)
    decreases Measure(bk, s)
  {
    if Done(m, bk, s) then s
    else
      StepDecreases(m, bk, s);
      Run(m, bk, Step(m, bk, s))
  }

  /** How many iterations `Run` makes. */
  function Rounds(m: Arith, bk: Book, s: State): nat
    requires Fits(bk, s)
    decreases Measure(bk, s)
  {
    if Done(m, bk, s) then 0
    else
      StepDecreases(m, bk, s);
      1 + Rounds(m, bk, Step(m, bk, s))
  }

  /** The loop ends within |A→B| + |B→A| + (total A offered) iterations. */
  lemma {:induction false} RoundsAreBounded(m: Arith, bk: Book, s: State)
    requires Fits(bk, s)
    ensures Rounds(m, bk, s) <= |bk.aToB| - s.i + (|bk.bToA| - s.j) + Sum(s.aRem)
    decreases Measure(bk, s)
  {
    if !Done(m, bk, s) {
      StepDecreases(m, bk, s);
      RoundsAreBounded(m, bk, Step(m, bk, s));
    }
  }

  // ---------------------------------------------------------------- fill ledgers

  function SoldBy(legs: seq<Leg>, k: nat): nat {
    if legs == [] then 0
    else SoldBy(Init(legs), k) + if Last(legs).idx == k then Last(legs).sold else 0
  }

  function BoughtBy(legs: seq<Leg>, k: nat): nat {
    if legs == [] then 0
    else BoughtBy(Init(legs), k) + if Last(legs).idx == k then Last(legs).bought else 0
  }

  /** How many fills the order at `k` has. */
  function FillsOf(legs: seq<Leg>, k: nat): nat {
    if legs == [] then 0
    else FillsOf(Init(legs), k) + if Last(legs).idx == k then 1 else 0
  }

  lemma {:induction false} PushLeg(legs: seq<Leg>, leg: Leg, k: nat)
    ensures SoldBy(legs + [leg], k) == SoldBy(legs, k) + if leg.idx == k then leg.sold else 0
    ensures BoughtBy(legs + [leg], k) == BoughtBy(legs, k) + if leg.idx == k then leg.bought else 0
    ensures FillsOf(legs + [leg], k) == FillsOf(legs, k) + if leg.idx == k then 1 else 0
  {
    assert Init(legs + [leg]) == legs;
  }

  lemma {:induction false} FillsOfPositive(legs: seq<Leg>, k: nat)
    ensures FillsOf(legs, k) > 0 <==> exists n :: 0 <= n < |legs| && legs[n].idx == k
  {
    if legs != [] {
      FillsOfPositive(Init(legs), k);
      assert legs == Init(legs) + [Last(legs)];
    }
  }

  /** The fill lists mirror each other and account for every unit that left an order. */
  ghost predicate Ledger(bk: Book, s: State) {
    && Fits(bk, s)
    && |s.fillsAb| == |s.fillsBa|
    && (forall n :: 0 <= n < |s.fillsAb| ==>
          && s.fillsAb[n].idx < |bk.aToB| && s.fillsBa[n].idx < |bk.bToA|
          && s.fillsAb[n].sold == s.fillsBa[n].bought && s.fillsAb[n].bought == s.fillsBa[n].sold)
    && (forall k :: 0 <= k < |bk.aToB| ==> s.aRem[k] + SoldBy(s.fillsAb, k) == bk.aToB[k].sellAmount)
    && (forall k :: 0 <= k < |bk.bToA| ==> s.bRem[k] + SoldBy(s.fillsBa, k) == bk.bToA[k].sellAmount)
  }

  ghost predicate AtBookRatio(ob: Order, tradeA: nat, tradeB: nat) {
    ob.sellAmount > 0 && ob.buyAmount > 0 && tradeA > 0 && tradeB == BookedB(Exact, tradeA, ob)
  }

  /** Every fill moves some A, booked at the ratio of a B→A order with positive amounts. */
  ghost predicate BookRatio(bk: Book, s: State)
    requires Ledger(bk, s)
  {
    forall n {:trigger AtBookRatio(bk.bToA[s.fillsBa[n].idx], s.fillsAb[n].sold, s.fillsAb[n].bought)} ::
      0 <= n < |s.fillsAb| ==>
      AtBookRatio(bk.bToA[s.fillsBa[n].idx], s.fillsAb[n].sold, s.fillsAb[n].bought)
  }

  /** The last crossing pair lies at or behind the pointers and at or past every fill. */
  ghost predicate CrossBehind(bk: Book, s: State)
    requires |s.fillsAb| == |s.fillsBa|
  {
    match s.lastCross
    case None => s.fillsAb == []
    case Some(c) =>
      && c.a < |bk.aToB| && c.a <= s.i && c.b < |bk.bToA| && c.b <= s.j
      && Crosses(Exact, bk.aToB[c.a], bk.bToA[c.b])
      && forall n :: 0 <= n < |s.fillsAb| ==> s.fillsAb[n].idx <= c.a && s.fillsBa[n].idx <= c.b
  }

  /** A fill-or-kill order that has a fill has nothing left. */
  ghost predicate KillsRespected(bk: Book, s: State)
    requires Ledger(bk, s)
  {
    forall n :: 0 <= n < |s.fillsAb| ==>
      && (!bk.aToB[s.fillsAb[n].idx].partialFill ==> s.aRem[s.fillsAb[n].idx] == 0)
      && (!bk.bToA[s.fillsBa[n].idx].partialFill ==> s.bRem[s.fillsBa[n].idx] == 0)
  }

  /** Partially fillable orders behind a pointer are spent. */
  ghost predicate Drained(bk: Book, s: State)
    requires Fits(bk, s)
  {
    && (forall k :: 0 <= k < s.i && bk.aToB[k].partialFill ==> s.aRem[k] == 0)
    && (forall k {:trigger Capacity(Exact, s.bRem[k], bk.bToA[k])} ::
          0 <= k < s.j && bk.bToA[k].partialFill ==> Capacity(Exact, s.bRem[k], bk.bToA[k]) == 0)
  }

  ghost predicate Inv(bk: Book, s: State) {
    Ledger(bk, s) && BookRatio(bk, s) && CrossBehind(bk, s) && KillsRespected(bk, s) && Drained(bk, s)
  }

  /** A fill within capacity never books more B than is left. */
  lemma {:induction false} FillFitsCapacity(tradeA: nat, bLeft: nat, ob: Order)
    requires 0 < tradeA <= Capacity(Exact, bLeft, ob) && bLeft <= ob.sellAmount
    ensures ob.sellAmount > 0 && ob.buyAmount > 0
    ensures tradeA * ob.sellAmount <= bLeft * ob.buyAmount
    ensures BookedB(Exact, tradeA, ob) <= bLeft
  {
    var t, c := ob.sellAmount, ob.buyAmount;
    FloorAtLeast(tradeA, bLeft * c, AtLeastOne(t));
    if c == 0 || t == 0 {
      assert bLeft * c == 0;
      MulMono(1, 1, tradeA, AtLeastOne(t));
      assert false;
    }
    FloorAtLeast(BookedB(Exact, tradeA, ob), tradeA * t, c);
    CancelLe(BookedB(Exact, tradeA, ob), bLeft, c);
  }

  /** With u64 amounts no product of an iteration saturates. */
  lemma {:induction false} DecideIsExact(oa: Order, aLeft: nat, ob: Order, bLeft: nat)
    requires bLeft <= ob.sellAmount
    ensures Decide(Machine, oa, aLeft, ob, bLeft) == Decide(Exact, oa, aLeft, ob, bLeft)
    ensures Crosses(Machine, oa, ob) == Crosses(Exact, oa, ob)
  {
    U64ProductFits(oa.LimitPrice().num, ob.LimitPrice().num);
    U64ProductFits(oa.LimitPrice().den, ob.LimitPrice().den);
    U64ProductFits(bLeft, ob.buyAmount);
    var tradeA := Min(aLeft, Capacity(Exact, bLeft, ob));
    if tradeA > 0 {
      FillFitsCapacity(tradeA, bLeft, ob);
    } else {
      assert tradeA * ob.sellAmount == 0;
    }
  }

  lemma {:induction false} StepIsExact(bk: Book, s: State)
    requires Ledger(bk, s)
    ensures Done(Machine, bk, s) == Done(Exact, bk, s)
    ensures !Done(Exact, bk, s) ==> Step(Machine, bk, s) == Step(Exact, bk, s)
  {
    if s.i < |bk.aToB| && s.j < |bk.bToA| {
      DecideIsExact(bk.aToB[s.i], s.aRem[s.i], bk.bToA[s.j], s.bRem[s.j]);
    }
  }

  /** What each decision says about the two heads; in a fill no subtraction clips. */
  ghost predicate Justified(oa: Order, aLeft: nat, ob: Order, bLeft: nat, move: Move) {
    match move
    case PassA => aLeft == 0 || !oa.partialFill
    case PassB => Capacity(Exact, bLeft, ob) == 0 || !ob.partialFill
    case Fill(a, b) =>
      && AtBookRatio(ob, a, b) && a <= aLeft && b <= bLeft
      && (oa.partialFill || a == aLeft) && (ob.partialFill || b == bLeft)
  }

  lemma {:induction false} DecisionsAreJustified(oa: Order, aLeft: nat, ob: Order, bLeft: nat)
    requires bLeft <= ob.sellAmount
    ensures Justified(oa, aLeft, ob, bLeft, Decide(Exact, oa, aLeft, ob, bLeft))
  {
    var tradeA := Min(aLeft, Capacity(Exact, bLeft, ob));
    if tradeA > 0 {
      FillFitsCapacity(tradeA, bLeft, ob);
    }
  }

  lemma {:induction false} CapacityOfNothing(ob: Order)
    ensures Capacity(Exact, 0, ob) == 0
  {
    assert 0 * ob.buyAmount == 0;
  }

  ghost predicate JustifiedAt(bk: Book, s: State, move: Move) {
    && Fits(bk, s) && s.i < |bk.aToB| && s.j < |bk.bToA|
    && Justified(bk.aToB[s.i], s.aRem[s.i], bk.bToA[s.j], s.bRem[s.j], move)
  }

  lemma {:induction false} PerformKeepsLedger(bk: Book, s: State, move: Move)
    requires Ledger(bk, s) && JustifiedAt(bk, s, move)
    ensures Ledger(bk, Perform(s, move))
  {
    if move.Fill? {
      var t := Perform(s, move);
      var legA, legB := Leg(s.i, move.tradeA, move.tradeB), Leg(s.j, move.tradeB, move.tradeA);
      forall k | 0 <= k < |bk.aToB| ensures t.aRem[k] + SoldBy(t.fillsAb, k) == bk.aToB[k].sellAmount {
        PushLeg(s.fillsAb, legA, k);
      }
      forall k | 0 <= k < |bk.bToA| ensures t.bRem[k] + SoldBy(t.fillsBa, k) == bk.bToA[k].sellAmount {
        PushLeg(s.fillsBa, legB, k);
      }
    }
  }

  lemma {:induction false} PerformKeepsBookRatio(bk: Book, s: State, move: Move)
    requires Ledger(bk, s) && JustifiedAt(bk, s, move) && Ledger(bk, Perform(s, move))
    requires BookRatio(bk, s)
    ensures BookRatio(bk, Perform(s, move))
  {
    var t := Perform(s, move);
    forall n | 0 <= n < |t.fillsAb|
      ensures AtBookRatio(bk.bToA[t.fillsBa[n].idx], t.fillsAb[n].sold, t.fillsAb[n].bought)
    {
      if n < |s.fillsAb| {
        assert AtBookRatio(bk.bToA[s.fillsBa[n].idx], s.fillsAb[n].sold, s.fillsAb[n].bought);
      }
    }
  }

  lemma {:induction false} PerformKeepsCrossBehind(bk: Book, s: State, move: Move)
    requires Fits(bk, s) && s.i < |bk.aToB| && s.j < |bk.bToA| && |s.fillsAb| == |s.fillsBa|
    requires CrossBehind(bk, s) && Crosses(Exact, bk.aToB[s.i], bk.bToA[s.j])
    ensures |Perform(s, move).fillsAb| == |Perform(s, move).fillsBa| && CrossBehind(bk, Perform(s, move))
  {
    var t := Perform(s, move);
    assert t.lastCross == Some(Crossing(s.i, s.j));
    forall n | 0 <= n < |t.fillsAb| ensures t.fillsAb[n].idx <= s.i && t.fillsBa[n].idx <= s.j {
      if n < |s.fillsAb| {
        assert s.fillsAb[n].idx <= s.i && s.fillsBa[n].idx <= s.j;
      }
    }
  }

  lemma {:induction false} PerformKeepsKills(bk: Book, s: State, move: Move)
    requires Ledger(bk, s) && JustifiedAt(bk, s, move) && Ledger(bk, Perform(s, move))
    requires KillsRespected(bk, s)
    ensures KillsRespected(bk, Perform(s, move))
  {
  }

  lemma {:induction false} PerformKeepsDrained(bk: Book, s: State, move: Move)
    requires Ledger(bk, s) && JustifiedAt(bk, s, move) && Drained(bk, s)
    ensures Drained(bk, Perform(s, move))
  {
    CapacityOfNothing(bk.bToA[s.j]);
  }

  lemma {:induction false} StepKeepsInv(bk: Book, s: State)
    requires Inv(bk, s) && !Done(Exact, bk, s)
    ensures Inv(bk, Step(Exact, bk, s))
  {
    var move := MoveAt(Exact, bk, s);
    DecisionsAreJustified(bk.aToB[s.i], s.aRem[s.i], bk.bToA[s.j], s.bRem[s.j]);
    PerformKeepsLedger(bk, s, move);
    PerformKeepsBookRatio(bk, s, move);
    PerformKeepsCrossBehind(bk, s, move);
    PerformKeepsKills(bk, s, move);
    PerformKeepsDrained(bk, s, move);
  }

  lemma {:induction false} StartHasInv(bk: Book)
    ensures Inv(bk, Start(bk))
  {
  }

  /** The invariants hold after the whole loop, which ran without saturation. */
  lemma {:induction false} RunKeepsInv(bk: Book, s: State)
    requires Inv(bk, s)
    ensures Run(Machine, bk, s) == Run(Exact, bk, s)
    ensures Inv(bk, Run(Exact, bk, s))
    decreases Measure(bk, s)
  {
    StepIsExact(bk, s);
    if !Done(Exact, bk, s) {
      StepKeepsInv(bk, s);
      StepDecreases(Exact, bk, s);
      RunKeepsInv(bk, Step(Exact, bk, s));
    }
  }
}
