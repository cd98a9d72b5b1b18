/** The imperative `match_pair` (`crates/oxdex-matching/src/lib.rs`), proved against `PairOutcome`. */
module MatchPair {
  import opened Numbers
  import opened Prices
  import opened Orders
  import opened Sorting
  import opened Sweep
  import opened BookCrossing
  import opened ClearingPrices
  import opened Settlement

  type U128 = n: nat | n <= U128_MAX

  /** The limit prices of the crossing pair that a state remembers. */
  function CrossPrices(bk: Book, cross: Option<Crossing>): Option<(Price, Price)>
    requires InBook(bk, cross)
  {
    match cross
    case None => None
    case Some(c) => Some((bk.aToB[c.a].LimitPrice(), bk.bToA[c.b].LimitPrice()))
  }

  predicate InBook(bk: Book, cross: Option<Crossing>) {
    cross.Some? ==> cross.value.a < |bk.aToB| && cross.value.b < |bk.bToA|
  }

  method SplitByDirection(tokenA: Address, tokenB: Address, orders: seq<Order>)
    returns (aToB: seq<Order>, bToA: seq<Order>)
    ensures aToB == SellersOfA(tokenA, tokenB, orders)
    ensures bToA == SellersOfB(tokenA, tokenB, orders)
  {
    aToB, bToA := [], [];
    for n := 0 to |orders|
      invariant aToB == SellersOfA(tokenA, tokenB, orders[..n])
      invariant bToA == SellersOfB(tokenA, tokenB, orders[..n])
    {
      var o := orders[n];
      assert Init(orders[..n + 1]) == orders[..n];
      if o.sellMint == tokenA && o.buyMint == tokenB {
        aToB := aToB + [o];
      } else if o.sellMint == tokenB && o.buyMint == tokenA {
        bToA := bToA + [o];
      }
    }
    assert orders[..|orders|] == orders;
  }

  /** One pass of the loop body over the heads `i` and `j`, after they were found to cross:
      tentatively fill, undo the fill if a fill-or-kill order would be left partly filled,
      and advance. */
  method FillHeads(oa: Order, ob: Order, i0: nat, j0: nat, aRemaining: array<nat>, bRemaining: array<nat>,
                   fillsAb0: seq<Leg>, fillsBa0: seq<Leg>, ghost cross0: Option<Crossing>)
    returns (i: nat, j: nat, fillsAb: seq<Leg>, fillsBa: seq<Leg>)
    requires i0 < aRemaining.Length && j0 < bRemaining.Length && aRemaining != bRemaining
    requires aRemaining[i0] <= oa.sellAmount && bRemaining[j0] <= ob.sellAmount
    modifies aRemaining, bRemaining
    ensures State(i, j, aRemaining[..], bRemaining[..], fillsAb, fillsBa, Some(Crossing(i0, j0)))
            == Perform(State(i0, j0, old(aRemaining[..]), old(bRemaining[..]), fillsAb0, fillsBa0, cross0),
                       Decide(Machine, oa, old(aRemaining[i0]), ob, old(bRemaining[j0])))
  {
    i, j, fillsAb, fillsBa := i0, j0, fillsAb0, fillsBa0;
    var aLeft := aRemaining[i];
    var capacity := Mul(Machine, bRemaining[j], ob.buyAmount) / AtLeastOne(ob.sellAmount);
    var tradeA := Min(aLeft, capacity);
    if tradeA == 0 {
      if aLeft == 0 {
        i := i + 1;
      } else {
        j := j + 1;
      }
      return;
    }

    var tradeB := Mul(Machine, tradeA, ob.sellAmount) / AtLeastOne(ob.buyAmount);
    NothingClips(oa, aLeft, ob, bRemaining[j]);
    aRemaining[i] := Monus(aLeft, tradeA);
    bRemaining[j] := Monus(bRemaining[j], tradeB);
    fillsAb := fillsAb + [Leg(i, tradeA, tradeB)];
    fillsBa := fillsBa + [Leg(j, tradeB, tradeA)];

    if !oa.partialFill && aRemaining[i] != 0 {
      aRemaining[i] := Add(Machine, aRemaining[i], tradeA);
      bRemaining[j] := Add(Machine, bRemaining[j], tradeB);
      fillsAb, fillsBa := Init(fillsAb), Init(fillsBa);
      i := i + 1;
      return;
    }
    if !ob.partialFill && bRemaining[j] != 0 {
      aRemaining[i] := Add(Machine, aRemaining[i], tradeA);
      bRemaining[j] := Add(Machine, bRemaining[j], tradeB);
      fillsAb, fillsBa := Init(fillsAb), Init(fillsBa);
      j := j + 1;
      return;
    }

    if aRemaining[i] == 0 {
      i := i + 1;
    }
    if bRemaining[j] == 0 {
      j := j + 1;
    }
  }

  /** The same pass, seen as one more state of the specification's trace. */
  method Iterate(bk: Book, i0: nat, j0: nat, aRemaining: array<nat>, bRemaining: array<nat>, fillsAb0: seq<Leg>,
                 fillsBa0: seq<Leg>, ghost cross0: Option<Crossing>, ghost trace0: seq<State>)
    returns (i: nat, j: nat, fillsAb: seq<Leg>, fillsBa: seq<Leg>, ghost trace: seq<State>)
    requires aRemaining != bRemaining && IsTrace(bk, trace0) && !Done(Machine, bk, Last(trace0))
    requires Last(trace0) == State(i0, j0, aRemaining[..], bRemaining[..], fillsAb0, fillsBa0, cross0)
    modifies aRemaining, bRemaining
    ensures IsTrace(bk, trace)
    ensures Last(trace) == State(i, j, aRemaining[..], bRemaining[..], fillsAb, fillsBa, Some(Crossing(i0, j0)))
    ensures Measure(bk, Last(trace)) < Measure(bk, Last(trace0))
  {
    trace := ExtendTrace(bk, trace0);
    i, j, fillsAb, fillsBa :=
      FillHeads(bk.aToB[i0], bk.bToA[j0], i0, j0, aRemaining, bRemaining, fillsAb0, fillsBa0, cross0);
  }

  /** A buffer holding what each order still has to sell. */
  method LoadOffers(orders: seq<Order>) returns (remaining: array<nat>)
    ensures fresh(remaining) && remaining[..] == Offers(orders)
  {
    remaining := new nat[|orders|](k requires 0 <= k < |orders| => orders[k].sellAmount);
  }

  /** The crossing loop, with the remaining amounts in two buffers updated in place and the
      fills pushed and popped; `trace` records the specification's states along the way. */
  method SweepLoop(bk: Book)
    returns (fillsAb: seq<Leg>, fillsBa: seq<Leg>, lastCross: Option<(Price, Price)>, ghost trace: seq<State>)
    ensures IsTrace(bk, trace) && Done(Machine, bk, Last(trace))
    ensures fillsAb == Last(trace).fillsAb && fillsBa == Last(trace).fillsBa
    ensures InBook(bk, Last(trace).lastCross) && lastCross == CrossPrices(bk, Last(trace).lastCross)
  {
    var aToB, bToA := bk.aToB, bk.bToA;
    var aRemaining := LoadOffers(aToB);
    var bRemaining := LoadOffers(bToA);
    fillsAb, fillsBa, lastCross := [], [], None;
    var i: nat, j: nat := 0, 0;

    trace := [Start(bk)];
    ghost var cross := None;
    while i < |aToB| && j < |bToA|
      invariant i <= |aToB| && j <= |bToA| && IsTrace(bk, trace)
      invariant Last(trace) == State(i, j, aRemaining[..], bRemaining[..], fillsAb, fillsBa, cross)
      invariant InBook(bk, cross) && lastCross == CrossPrices(bk, cross)
      decreases Measure(bk, Last(trace))
    {
      var lpAb, lpBa := aToB[i].LimitPrice(), bToA[j].LimitPrice();
      var lhs := Mul(Machine, lpAb.num, lpBa.num);
      var rhs := Mul(Machine, lpAb.den, lpBa.den);
      if lhs > rhs {
        break;
      }
      lastCross := Some((lpAb, lpBa));
      ghost var seen := Some(Crossing(i, j));
      i, j, fillsAb, fillsBa, trace := Iterate(bk, i, j, aRemaining, bRemaining, fillsAb, fillsBa, cross, trace);
      cross := seen;
    }
  }

  /** The crossing loop ends in the state `Swept` describes. */
  method SweepBook(bk: Book)
    returns (fillsAb: seq<Leg>, fillsBa: seq<Leg>, lastCross: Option<(Price, Price)>)
    ensures fillsAb == Swept(bk).fillsAb && fillsBa == Swept(bk).fillsBa
    ensures InBook(bk, Swept(bk).lastCross) && lastCross == CrossPrices(bk, Swept(bk).lastCross)
  {
    ghost var trace;
    fillsAb, fillsBa, lastCross, trace := SweepLoop(bk);
    TraceIsOnTheWay(bk, trace, |trace| - 1);
  }

  ghost predicate Linked(bk: Book, trace: seq<State>, k: nat)
    requires 0 < k < |trace|
  {
    Fits(bk, trace[k - 1]) && !Done(Machine, bk, trace[k - 1]) && trace[k] == Step(Machine, bk, trace[k - 1])
  }

  /** The specification's states from the start of the loop on, one per iteration. */
  ghost predicate IsTrace(bk: Book, trace: seq<State>) {
    && trace != [] && trace[0] == Start(bk) && Fits(bk, Last(trace))
    && forall k: nat {:trigger Linked(bk, trace, k)} :: 0 < k < |trace| ==> Linked(bk, trace, k)
  }

  lemma {:induction false} TraceIsOnTheWay(bk: Book, trace: seq<State>, k: nat)
    requires IsTrace(bk, trace) && k < |trace|
    ensures Inv(bk, trace[k]) && Run(Machine, bk, trace[k]) == Swept(bk)
  {
    if k == 0 {
      StartHasInv(bk);
    } else {
      TraceIsOnTheWay(bk, trace, k - 1);
      assert Linked(bk, trace, k);
      StepIsExact(bk, trace[k - 1]);
      StepKeepsInv(bk, trace[k - 1]);
      StepDecreases(Machine, bk, trace[k - 1]);
    }
  }

  lemma {:induction false} LinkOneMore(bk: Book, trace: seq<State>)
    requires IsTrace(bk, trace) && !Done(Machine, bk, Last(trace))
    ensures IsTrace(bk, trace + [Step(Machine, bk, Last(trace))])
  {
    var t := Step(Machine, bk, Last(trace));
    var longer := trace + [t];
    forall k: nat | 0 < k < |longer| ensures Linked(bk, longer, k) {
      if k < |trace| {
        assert Linked(bk, trace, k);
      }
    }
  }

  lemma {:induction false} ExtendTrace(bk: Book, trace: seq<State>) returns (longer: seq<State>)
    requires IsTrace(bk, trace) && !Done(Machine, bk, Last(trace))
    ensures var s := Last(trace);
            && s.aRem[s.i] <= bk.aToB[s.i].sellAmount && s.bRem[s.j] <= bk.bToA[s.j].sellAmount
            && IsTrace(bk, longer)
            && Last(longer) == Perform(s, Decide(Machine, bk.aToB[s.i], s.aRem[s.i], bk.bToA[s.j], s.bRem[s.j]))
            && Measure(bk, Last(longer)) < Measure(bk, s)
  {
    var s := Last(trace);
    longer := trace + [Step(Machine, bk, s)];
    LinkOneMore(bk, trace);
    StepDecreases(Machine, bk, s);
    HeadsWithinOffers(bk, trace);
  }

  lemma {:induction false} HeadsWithinOffers(bk: Book, trace: seq<State>)
    requires IsTrace(bk, trace) && !Done(Machine, bk, Last(trace))
    ensures var s := Last(trace);
            s.aRem[s.i] <= bk.aToB[s.i].sellAmount && s.bRem[s.j] <= bk.bToA[s.j].sellAmount
  {
    TraceIsOnTheWay(bk, trace, |trace| - 1);
  }

  /** The subtractions of a tentative fill do not clip, so adding the amounts back undoes it. */
  lemma {:induction false} NothingClips(oa: Order, aLeft: nat, ob: Order, bLeft: nat)
    requires aLeft <= oa.sellAmount && bLeft <= ob.sellAmount
    ensures var tradeA := Min(aLeft, Capacity(Machine, bLeft, ob));
            var tradeB := BookedB(Machine, tradeA, ob);
            && tradeB <= bLeft
            && Add(Machine, Monus(aLeft, tradeA), tradeA) == aLeft
            && Add(Machine, Monus(bLeft, tradeB), tradeB) == bLeft
  {
    U64ProductFits(bLeft, ob.buyAmount);
    var tradeA := Min(aLeft, Capacity(Machine, bLeft, ob));
    if tradeA > 0 {
      FillFitsCapacity(tradeA, bLeft, ob);
    } else {
      assert tradeA * ob.sellAmount == 0;
    }
  }

  lemma {:induction false} SoldByPrefix(legs: seq<Leg>, n: nat, k: nat)
    requires n <= |legs|
    ensures SoldBy(legs[..n], k) <= SoldBy(legs, k)
  {
    if n < |legs| {
      assert Init(legs)[..n] == legs[..n];
      SoldByPrefix(Init(legs), n, k);
    } else {
      assert legs[..n] == legs;
    }
  }

  /** Sum the fills of each order; the plain additions stay in range. */
  method SumPerOrder(legs: seq<Leg>) returns (sums: map<nat, U128>)
    requires forall k: nat :: SoldBy(legs, k) <= U128_MAX
    ensures forall k: nat :: k in sums <==> FillsOf(legs, k) > 0
    ensures forall k: nat :: k in sums ==> sums[k] == SoldBy(legs, k)
  {
    sums := map[];
    for n := 0 to |legs|
      invariant forall k: nat :: k in sums <==> FillsOf(legs[..n], k) > 0
      invariant forall k: nat :: k in sums ==> sums[k] == SoldBy(legs[..n], k)
    {
      var leg := legs[n];
      assert legs[..n + 1] == legs[..n] + [leg];
      forall k: nat
        ensures SoldBy(legs[..n + 1], k) == SoldBy(legs[..n], k) + if leg.idx == k then leg.sold else 0
        ensures FillsOf(legs[..n + 1], k) == FillsOf(legs[..n], k) + if leg.idx == k then 1 else 0
      {
        PushLeg(legs[..n], leg, k);
      }
      SoldByPrefix(legs, n + 1, leg.idx);
      NoFillsNothingSold(legs[..n], leg.idx);
      var entry := if leg.idx in sums then sums[leg.idx] else 0;
      sums := sums[leg.idx := entry + leg.sold];
    }
    assert legs[..|legs|] == legs;
  }

  // ---------------------------------------------------------------- hash-map iteration

  /** The trades of the entries whose index is in `keys`. */
  ghost function TradesAmong(es: seq<Entry>, keys: set<nat>): multiset<Trade> {
    if es == [] then multiset{}
    else TradesAmong(Init(es), keys) + if |es| - 1 in keys then multiset{Last(es).trade} else multiset{}
  }

  ghost function GainsAmong(es: seq<Entry>, keys: set<nat>): nat {
    if es == [] then 0
    else GainsAmong(Init(es), keys) + if |es| - 1 in keys then Last(es).gain else 0
  }

  lemma {:induction false} VisitOneMore(es: seq<Entry>, keys: set<nat>, k: nat)
    requires k !in keys
    ensures TradesAmong(es, keys + {k}) == TradesAmong(es, keys)
            + if k < |es| then multiset{es[k].trade} else multiset{}
    ensures GainsAmong(es, keys + {k}) == GainsAmong(es, keys) + if k < |es| then es[k].gain else 0
  {
    if es != [] {
      VisitOneMore(Init(es), keys, k);
    }
  }

  lemma {:induction false} VisitNone(es: seq<Entry>)
    ensures TradesAmong(es, {}) == multiset{} && GainsAmong(es, {}) == 0
  {
    if es != [] {
      VisitNone(Init(es));
    }
  }

  lemma {:induction false} VisitAll(es: seq<Entry>, keys: set<nat>)
    requires forall k: nat :: k < |es| ==> (k in keys <==> es[k].traded)
    ensures TradesAmong(es, keys) == multiset(TradesOf(es)) && GainsAmong(es, keys) == SurplusOf(es)
  {
    if es != [] {
      VisitAll(Init(es), keys);
    }
  }

  /** Re-price one order; the guard on the surplus term only drops terms that are zero. */
  method PriceOrder(order: Order, sold: U128, p: Price, surplus0: U128) returns (trade: Trade, surplus: U128)
    requires p.den > 0
    ensures trade == TradeOf(Machine, order, sold, p)
    ensures surplus == Add(Machine, surplus0, Gain(Machine, order, sold, p))
  {
    var bought := Apply(Machine, p, sold);
    var least := Apply(Machine, order.LimitPrice(), sold);
    surplus := surplus0;
    if bought >= least {
      surplus := Add(Machine, surplus, bought - least);
    }
    trade := Trade(order.Id(), ClampU64(sold), ClampU64(bought));
  }

  /** The running totals after pricing the entries in `keys`. */
  ghost predicate Priced(es: seq<Entry>, keys: set<nat>, trades0: seq<Trade>, surplus0: nat,
                         trades: seq<Trade>, surplus: nat)
  {
    && multiset(trades) == multiset(trades0) + TradesAmong(es, keys)
    && surplus == Saturate(Machine, surplus0 + GainsAmong(es, keys))
  }

  lemma {:induction false} PriceOneMore(es: seq<Entry>, keys: set<nat>, trades0: seq<Trade>, surplus0: nat,
                     trades: seq<Trade>, surplus: nat, k: nat)
    requires k < |es| && k !in keys && Priced(es, keys, trades0, surplus0, trades, surplus)
    ensures Priced(es, keys + {k}, trades0, surplus0, trades + [es[k].trade], Add(Machine, surplus, es[k].gain))
  {
    VisitOneMore(es, keys, k);
  }

  /** Re-price one side, visiting its traded orders in whatever order the hash map yields. */
  method PriceSide(orders: seq<Order>, sums: map<nat, U128>, p: Price, trades0: seq<Trade>, surplus0: U128,
                   ghost es: seq<Entry>)
    returns (trades: seq<Trade>, surplus: U128)
    requires p.den > 0 && |es| == |orders|
    requires forall k: nat :: k in sums <==> k < |es| && es[k].traded
    requires forall k: nat :: k in sums && k < |es| ==>
               && es[k].trade == TradeOf(Machine, orders[k], sums[k], p)
               && es[k].gain == Gain(Machine, orders[k], sums[k], p)
    ensures multiset(trades) == multiset(trades0) + multiset(TradesOf(es))
    ensures surplus == Saturate(Machine, surplus0 + SurplusOf(es))
  {
    trades, surplus := trades0, surplus0;
    var pending := sums.Keys;
    ghost var visited: set<nat> := {};
    VisitNone(es);
    while pending != {}
      invariant visited + pending == sums.Keys && visited !! pending
      invariant Priced(es, visited, trades0, surplus0, trades, surplus)
      decreases pending
    {
      var idx :| idx in pending;
      pending := pending - {idx};
      PriceOneMore(es, visited, trades0, surplus0, trades, surplus, idx);
      visited := visited + {idx};
      var trade;
      trade, surplus := PriceOrder(orders[idx], sums[idx], p, surplus);
      trades := trades + [trade];
    }
    assert visited == sums.Keys;
    VisitAll(es, sums.Keys);
  }

  /** Aggregate the fills of one side per order and re-price them. */
  method SettleSide(orders: seq<Order>, legs: seq<Leg>, p: Price, trades0: seq<Trade>, surplus0: U128,
                    ghost es: seq<Entry>)
    returns (trades: seq<Trade>, surplus: U128)
    requires p.den > 0 && AreEntries(es, Machine, orders, legs, p)
    requires forall k: nat :: SoldBy(legs, k) <= U128_MAX
    requires forall k: nat :: FillsOf(legs, k) > 0 ==> k < |orders|
    ensures multiset(trades) == multiset(trades0) + multiset(TradesOf(es))
    ensures surplus == Saturate(Machine, surplus0 + SurplusOf(es))
  {
    var sums := SumPerOrder(legs);
    forall k: nat | k < |es|
      ensures es[k].traded <==> k in sums
      ensures k in sums ==>
                && es[k].trade == TradeOf(Machine, orders[k], sums[k], p)
                && es[k].gain == Gain(Machine, orders[k], sums[k], p)
    {
      assert es[k] == EntryOf(Machine, orders[k], FillsOf(legs, k), SoldBy(legs, k), p);
    }
    trades, surplus := PriceSide(orders, sums, p, trades0, surplus0, es);
  }

  // ---------------------------------------------------------------- the whole method

  /** Equal up to the order in which trades are listed. */
  ghost predicate SameOutcome(x: Outcome, y: Outcome) {
    x.clearing == y.clearing && multiset(x.trades) == multiset(y.trades) && x.surplus == y.surplus
  }

  lemma {:induction false} SalesFitU128(bk: Book, s: State)
    requires Ledger(bk, s)
    ensures forall k: nat :: SoldBy(s.fillsAb, k) <= U128_MAX && SoldBy(s.fillsBa, k) <= U128_MAX
    ensures forall k: nat :: FillsOf(s.fillsAb, k) > 0 ==> k < |bk.aToB|
    ensures forall k: nat :: FillsOf(s.fillsBa, k) > 0 ==> k < |bk.bToA|
  {
    forall k: nat
      ensures SoldBy(s.fillsAb, k) <= U128_MAX && SoldBy(s.fillsBa, k) <= U128_MAX
      ensures FillsOf(s.fillsAb, k) > 0 ==> k < |bk.aToB|
      ensures FillsOf(s.fillsBa, k) > 0 ==> k < |bk.bToA|
    {
      SoldWithinOffer(bk, s, k);
      FillsOfPositive(s.fillsAb, k);
      FillsOfPositive(s.fillsBa, k);
      NoFillsNothingSold(s.fillsAb, k);
      NoFillsNothingSold(s.fillsBa, k);
    }
  }

  /** A price with both parts at least one. */
  method MakePrice(num: nat, den: nat) returns (p: Price)
    ensures p == PriceOfParts(num, den) && p.num > 0 && p.den > 0
  {
    var made := New(AtLeastOne(num), AtLeastOne(den));
    p := if made.Made? then made.price else Price(1, 1);
  }

  /** The clearing price, computed from the remembered limit prices. */
  method ComputePrice(lpAb: Price, lpBa: Price) returns (bPerA: Price)
    ensures bPerA == Midpoint(Machine, lpAb, lpBa) && bPerA.num > 0 && bPerA.den > 0
  {
    var num := Add(Machine, Mul(Machine, lpAb.num, lpBa.num), Mul(Machine, lpAb.den, lpBa.den));
    var den := Mul(Machine, Mul(Machine, lpAb.den, lpBa.num), 2);
    bPerA := MakePrice(num, den);
  }

  /** Aggregate the fills per order and re-price both sides at the clearing price. */
  method SettleFills(bk: Book, fillsAb: seq<Leg>, fillsBa: seq<Leg>, bPerA: Price, aPerB: Price,
                     ghost a: seq<Entry>, ghost b: seq<Entry>)
    returns (trades: seq<Trade>, surplus: U128)
    requires bPerA.den > 0 && AreEntries(a, Machine, bk.aToB, fillsAb, bPerA)
    requires aPerB.den > 0 && AreEntries(b, Machine, bk.bToA, fillsBa, aPerB)
    requires forall k: nat :: SoldBy(fillsAb, k) <= U128_MAX && SoldBy(fillsBa, k) <= U128_MAX
    requires forall k: nat :: FillsOf(fillsAb, k) > 0 ==> k < |bk.aToB|
    requires forall k: nat :: FillsOf(fillsBa, k) > 0 ==> k < |bk.bToA|
    ensures multiset(trades) == multiset(TradesOf(a) + TradesOf(b))
    ensures surplus == Saturate(Machine, SurplusOf(a) + SurplusOf(b))
  {
    trades, surplus := SettleSide(bk.aToB, fillsAb, bPerA, [], 0, a);
    ghost var once := surplus;
    trades, surplus := SettleSide(bk.bToA, fillsBa, aPerB, trades, surplus, b);
    SaturateTwice(SurplusOf(a), SurplusOf(b), once, surplus);
  }

  lemma {:induction false} SaturateTwice(x: nat, y: nat, once: nat, twice: nat)
    requires once == Saturate(Machine, 0 + x) && twice == Saturate(Machine, once + y)
    ensures twice == Saturate(Machine, x + y)
  {
  }

  /** The parts of a settled outcome, with its entries as plain sequences. */
  lemma {:induction false} SettledParts(tokenA: Address, tokenB: Address, bk: Book, s: State, p: Price)
    returns (a: seq<Entry>, b: seq<Entry>)
    requires HasFills(bk, s) && p == PriceOfA(Machine, bk, s)
    ensures p.num > 0 && p.den > 0
    ensures AreEntries(a, Machine, bk.aToB, s.fillsAb, p)
    ensures AreEntries(b, Machine, bk.bToA, s.fillsBa, Reciprocal(p))
    ensures Settle(Machine, tokenA, tokenB, bk, s) == Report(Machine, tokenA, tokenB, p, a, b)
  {
    a := Entries(Machine, bk.aToB, s.fillsAb, p);
    b := Entries(Machine, bk.bToA, s.fillsBa, Reciprocal(p));
  }

  lemma {:induction false} ReportsTheSame(tokenA: Address, tokenB: Address, p: Price, a: seq<Entry>, b: seq<Entry>,
                                          trades: seq<Trade>, surplus: nat)
    requires multiset(trades) == multiset(TradesOf(a) + TradesOf(b))
    requires surplus == Saturate(Machine, SurplusOf(a) + SurplusOf(b))
    ensures SameOutcome(Outcome([ClearingPrice(tokenA, Reciprocal(p)), ClearingPrice(tokenB, p)], trades, surplus),
                        Report(Machine, tokenA, tokenB, p, a, b))
  {
  }

  /** Price the fills of the swept book at the midpoint of the last crossing limits. */
  method SettleBook(tokenA: Address, tokenB: Address, bk: Book, fillsAb: seq<Leg>, fillsBa: seq<Leg>,
                    lastCross: Option<(Price, Price)>)
    returns (out: Outcome)
    requires HasFills(bk, Swept(bk)) && fillsAb == Swept(bk).fillsAb && fillsBa == Swept(bk).fillsBa
    requires InBook(bk, Swept(bk).lastCross) && lastCross == CrossPrices(bk, Swept(bk).lastCross)
    ensures SameOutcome(out, Settle(Machine, tokenA, tokenB, bk, Swept(bk)))
  {
    var (lpAb, lpBa) := lastCross.value;
    var bPerA := ComputePrice(lpAb, lpBa);
    SalesFitU128(bk, Swept(bk));
    var aPerB := Price(bPerA.den, AtLeastOne(bPerA.num));
    ghost var a, b := SettledParts(tokenA, tokenB, bk, Swept(bk), bPerA);
    var trades, surplus := SettleFills(bk, fillsAb, fillsBa, bPerA, aPerB, a, b);
    ReportsTheSame(tokenA, tokenB, bPerA, a, b, trades, surplus);
    out := Outcome([ClearingPrice(tokenA, aPerB), ClearingPrice(tokenB, bPerA)], trades, surplus);
  }

  /** Whatever order the hash maps are iterated in, the engine reports the specified clearing
      prices and surplus and the specified multiset of trades. */
  method MatchPair(tokenA: Address, tokenB: Address, orders: seq<Order>) returns (out: Outcome)
    ensures SameOutcome(out, PairOutcome(Machine, tokenA, tokenB, orders))
  {
    var aToB, bToA := SplitByDirection(tokenA, tokenB, orders);
    OutcomeOfBook(Machine, tokenA, tokenB, orders);
    if aToB == [] || bToA == [] {
      return Outcome([], [], 0);
    }
    var bk := Book(SortByLimitPrice(aToB), SortByLimitPrice(bToA));
    var fillsAb, fillsBa, lastCross := SweepBook(bk);
    if fillsAb == [] {
      return Outcome([], [], 0);
    }
    out := SettleBook(tokenA, tokenB, bk, fillsAb, fillsBa, lastCross);
  }
}
