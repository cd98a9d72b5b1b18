/** When token B is conserved: exactly when every seller of B asks a clean ratio. */
module CleanRatios {
  import opened Numbers
  import opened Prices
  import opened Orders
  import opened Sorting
  import opened Sweep
  import opened BookCrossing
  import opened ClearingPrices
  import opened Settlement
  import opened Conservation

  /** One amount is a multiple of the other: a whole number of B per A, or of A per B. */
  predicate CleanRatio(sell: nat, buy: nat) {
    sell > 0 && buy > 0 ==> sell % buy == 0 || buy % sell == 0
  }

  predicate CleanSellers(orders: seq<Order>) {
    forall o :: o in orders ==> CleanRatio(o.sellAmount, o.buyAmount)
  }

  // ---------------------------------------------------------------- clean ratios conserve B

  lemma {:induction false} Multiple(n: nat, d: nat)
    requires d > 0 && n % d == 0
    ensures n == n / d * d
  {
  }

  lemma {:induction false} DivideMultiple(k: nat, d: nat)
    requires d > 0
    ensures k * d / d == k
  {
    FloorAtLeast(k, k * d, d);
    FloorBelow(k + 1, k * d, d);
    assert (k + 1) * d == k * d + d;
  }

  /** Booking a whole number of B per A, or a full capacity, loses nothing to rounding. */
  lemma {:induction false} CleanBooking(t: nat, c: nat, tradeA: nat, bLeft: nat)
    requires t > 0 && c > 0 && CleanRatio(t, c)
    ensures t % c == 0 || tradeA == bLeft * c / t ==> tradeA * t / c * c == tradeA * t
  {
    if t % c == 0 {
      var k := t / c;
      Multiple(t, c);
      assert tradeA * t == (tradeA * k) * c;
      DivideMultiple(tradeA * k, c);
    } else {
      var m := c / t;
      Multiple(c, t);
      if tradeA == bLeft * c / t {
        assert bLeft * c == (bLeft * m) * t;
        DivideMultiple(bLeft * m, t);
        assert tradeA * t == bLeft * c;
        DivideMultiple(bLeft, c);
      }
    }
  }

  /** The fill booked exactly what the seller of B asks for it. */
  predicate BookedExactly(ob: Order, leg: Leg) {
    leg.sold * ob.sellAmount == leg.bought * ob.buyAmount
  }

  /** Under a clean ratio a fill is booked exactly unless it sells all that the A→B order has
      left. */
  lemma {:induction false} LossyFillEmptiesTheOrder(oa: Order, aLeft: nat, ob: Order, bLeft: nat, i: nat)
    requires bLeft <= ob.sellAmount && CleanRatio(ob.sellAmount, ob.buyAmount)
    ensures match Decide(Exact, oa, aLeft, ob, bLeft)
            case Fill(a, b) => BookedExactly(ob, Leg(i, a, b)) || a == aLeft
            case _ => true
  {
    var tradeA := Min(aLeft, Capacity(Exact, bLeft, ob));
    if tradeA > 0 {
      FillFitsCapacity(tradeA, bLeft, ob);
      CleanBooking(ob.sellAmount, ob.buyAmount, tradeA, bLeft);
    }
  }

  /** The fill emptied its A→B order. */
  ghost predicate EmptiesItsOrder(s: State, n: nat)
    requires n < |s.fillsAb| && s.fillsAb[n].idx < |s.aRem|
  {
    && s.aRem[s.fillsAb[n].idx] == 0
    && forall later :: n < later < |s.fillsAb| ==> s.fillsAb[later].idx != s.fillsAb[n].idx
  }

  ghost predicate ExactOrLast(bk: Book, s: State, n: nat)
    requires Ledger(bk, s) && n < |s.fillsAb|
  {
    BookedExactly(bk.bToA[s.fillsBa[n].idx], s.fillsAb[n]) || EmptiesItsOrder(s, n)
  }

  /** A fill that loses B to rounding is the last fill of its A→B order. */
  ghost predicate LossIsLast(bk: Book, s: State)
    requires Ledger(bk, s)
  {
    forall n: nat {:trigger ExactOrLast(bk, s, n)} :: n < |s.fillsAb| ==> ExactOrLast(bk, s, n)
  }

  lemma {:induction false} FillKeepsLossIsLast(bk: Book, s: State, tradeA: nat, tradeB: nat)
    requires Ledger(bk, s) && s.i < |bk.aToB| && s.j < |bk.bToA| && LossIsLast(bk, s)
    requires BookedExactly(bk.bToA[s.j], Leg(s.i, tradeA, tradeB)) || tradeA == s.aRem[s.i]
    requires Ledger(bk, Perform(s, Fill(tradeA, tradeB))) && 0 < s.aRem[s.i]
    ensures LossIsLast(bk, Perform(s, Fill(tradeA, tradeB)))
  {
    var t := Perform(s, Fill(tradeA, tradeB));
    forall n: nat | n < |t.fillsAb| ensures ExactOrLast(bk, t, n) {
      if n < |s.fillsAb| {
        assert ExactOrLast(bk, s, n);
      }
    }
  }

  /** What the decision at the two heads means for the booking. */
  lemma {:induction false} LossyStep(bk: Book, s: State)
    requires Inv(bk, s) && !Done(Exact, bk, s) && CleanSellers(bk.bToA)
    ensures match MoveAt(Exact, bk, s)
            case Fill(a, b) => 0 < a <= s.aRem[s.i] && (BookedExactly(bk.bToA[s.j], Leg(s.i, a, b)) || a == s.aRem[s.i])
            case _ => true
  {
    var ob := bk.bToA[s.j];
    assert ob in bk.bToA;
    LossyFillEmptiesTheOrder(bk.aToB[s.i], s.aRem[s.i], ob, s.bRem[s.j], s.i);
  }

  lemma {:induction false} StepKeepsLossIsLast(bk: Book, s: State)
    requires Inv(bk, s) && !Done(Exact, bk, s) && LossIsLast(bk, s) && CleanSellers(bk.bToA)
    requires Inv(bk, Step(Exact, bk, s))
    ensures LossIsLast(bk, Step(Exact, bk, s))
  {
    LossyStep(bk, s);
    match MoveAt(Exact, bk, s)
    case Fill(tradeA, tradeB) => FillKeepsLossIsLast(bk, s, tradeA, tradeB);
    case PassA => PassKeepsLossIsLast(bk, s, PassA);
    case PassB => PassKeepsLossIsLast(bk, s, PassB);
  }

  lemma {:induction false} PassKeepsLossIsLast(bk: Book, s: State, move: Move)
    requires Ledger(bk, s) && s.i < |bk.aToB| && s.j < |bk.bToA| && LossIsLast(bk, s) && !move.Fill?
    requires Ledger(bk, Perform(s, move))
    ensures LossIsLast(bk, Perform(s, move))
  {
    var t := Perform(s, move);
    forall n: nat | n < |t.fillsAb| ensures ExactOrLast(bk, t, n) {
      assert ExactOrLast(bk, s, n);
    }
  }

  lemma {:induction false} RunKeepsLossIsLast(bk: Book, s: State)
    requires Inv(bk, s) && LossIsLast(bk, s) && CleanSellers(bk.bToA)
    ensures Inv(bk, Run(Exact, bk, s)) && LossIsLast(bk, Run(Exact, bk, s))
    decreases Measure(bk, s)
  {
    if !Done(Exact, bk, s) {
      StepKeepsInv(bk, s);
      StepKeepsLossIsLast(bk, s);
      StepDecreases(Exact, bk, s);
      RunKeepsLossIsLast(bk, Step(Exact, bk, s));
    }
  }

  lemma {:induction false} SweptLosesLast(bk: Book)
    requires CleanSellers(bk.bToA)
    ensures Inv(bk, Swept(bk)) && LossIsLast(bk, Swept(bk))
  {
    StartHasInv(bk);
    SweptHasInv(bk);
    RunKeepsLossIsLast(bk, Start(bk));
  }

  /** Fill `n` is paid in full, or is the last of its order. */
  ghost predicate FullOrLast(legs: seq<Leg>, p: Price, n: nat)
    requires n < |legs|
  {
    PaidInFull(legs[n], p) || forall later :: n < later < |legs| ==> legs[later].idx != legs[n].idx
  }

  /** If only the last fill of an order may be booked short, and by less than one unit, the
      whole order is delivered no more than was booked. */
  lemma {:induction false} OneShortBookingRoundsAway(legs: seq<Leg>, p: Price, k: nat)
    requires p.den > 0 && BookedNear(legs, p)
    requires forall n: nat {:trigger FullOrLast(legs, p, n)} :: n < |legs| ==> FullOrLast(legs, p, n)
    ensures p.num * SoldBy(legs, k) < p.den * (BoughtBy(legs, k) + 1)
  {
    if legs == [] {
      assert p.num * 0 == 0;
    } else {
      var rest, leg := Init(legs), Last(legs);
      assert NearPrice(legs[|legs| - 1], p);
      if leg.idx == k {
        forall n | 0 <= n < |rest| && rest[n].idx == k ensures PaidInFull(rest[n], p) {
          assert FullOrLast(legs, p, n) && legs[|legs| - 1].idx == legs[n].idx;
        }
        BookedInFullAddsUp(rest, p, k);
        Distribute(p.num, SoldBy(rest, k), leg.sold);
        Distribute(p.den, BoughtBy(rest, k), leg.bought + 1);
      } else {
        forall n | 0 <= n < |rest| ensures NearPrice(rest[n], p) {
          assert NearPrice(legs[n], p);
        }
        forall n: nat | n < |rest| ensures FullOrLast(rest, p, n) {
          assert FullOrLast(legs, p, n);
        }
        OneShortBookingRoundsAway(rest, p, k);
      }
    }
  }

  lemma {:induction false} ExactBookingPaysInFull(ob: Order, leg: Leg, p: Price)
    requires BookedExactly(ob, leg) && ob.buyAmount > 0 && ob.sellAmount > 0
    requires p.num > 0 && p.den > 0 && Le(ob.LimitPrice(), Reciprocal(p))
    ensures PaidInFull(leg, p)
  {
    var c, t := ob.buyAmount, ob.sellAmount;
    MulMono(leg.sold, c * p.num, leg.sold, p.den * t);
    assert leg.sold * (c * p.num) == (p.num * leg.sold) * c;
    assert leg.sold * (p.den * t) == p.den * (leg.sold * t) == p.den * (leg.bought * c) == (p.den * leg.bought) * c;
    CancelLe(p.num * leg.sold, p.den * leg.bought, c);
  }

  lemma {:induction false} FillsAreFullOrLast(bk: Book, s: State)
    requires SortedBook(bk) && HasFills(bk, s) && LossIsLast(bk, s)
    ensures forall n: nat {:trigger FullOrLast(s.fillsAb, PriceOfA(Exact, bk, s), n)} ::
              n < |s.fillsAb| ==> FullOrLast(s.fillsAb, PriceOfA(Exact, bk, s), n)
  {
    var p := PriceOfA(Exact, bk, s);
    forall n: nat | n < |s.fillsAb| ensures FullOrLast(s.fillsAb, p, n) {
      var ob := bk.bToA[s.fillsBa[n].idx];
      assert ExactOrLast(bk, s, n) && AtBookRatio(ob, s.fillsAb[n].sold, s.fillsAb[n].bought);
      if BookedExactly(ob, s.fillsAb[n]) {
        FilledLimitIsCovered(bk, s, n);
        ExactBookingPaysInFull(ob, s.fillsAb[n], p);
      }
    }
  }

  lemma {:induction false} PaidWithinBookings(bk: Book, s: State, k: nat)
    requires SortedBook(bk) && HasFills(bk, s) && LossIsLast(bk, s)
    ensures Apply(Exact, PriceOfA(Exact, bk, s), SoldBy(s.fillsAb, k)) <= BoughtBy(s.fillsAb, k)
  {
    var p := PriceOfA(Exact, bk, s);
    FillsAreBookedNearThePrice(bk, s);
    FillsAreFullOrLast(bk, s);
    OneShortBookingRoundsAway(s.fillsAb, p, k);
    ShortOfOneUnit(p, SoldBy(s.fillsAb, k), BoughtBy(s.fillsAb, k));
  }

  lemma {:induction false} ShortOfOneUnit(p: Price, sold: nat, booked: nat)
    requires p.den > 0 && p.num * sold < p.den * (booked + 1)
    ensures Apply(Exact, p, sold) <= booked
  {
    FloorBelow(booked + 1, sold * p.num, p.den);
  }

  /** On the swept book, no more B is bought than is sold. */
  ghost predicate ConservesB(bk: Book) {
    HasFills(bk, Swept(bk)) ==> Buys(TradesOfA(Exact, bk, Swept(bk))) <= Sells(TradesOfB(Exact, bk, Swept(bk)))
  }

  /** If no order is paid more than its fills booked, no more B is bought than is sold. */
  lemma {:induction false} DeliveryWithinBookings(bk: Book, s: State)
    requires HasFills(bk, s)
    requires forall k: nat {:trigger SoldBy(s.fillsAb, k)} ::
               Apply(Exact, PriceOfA(Exact, bk, s), SoldBy(s.fillsAb, k)) <= BoughtBy(s.fillsAb, k)
    ensures Buys(TradesOfA(Exact, bk, s)) <= Sells(TradesOfB(Exact, bk, s))
  {
    var p := PriceOfA(Exact, bk, s);
    PaymentsOfSide(bk.aToB, s.fillsAb, p);
    LedgerWithinOffers(bk, s);
    MirroredTotals(s.fillsAb, s.fillsBa);
    TradesReportAllSales(Exact, bk.bToA, s.fillsBa, Reciprocal(p));
  }

  /** Token B is conserved on every sorted book whose sellers of B ask clean ratios: no more is
      bought than is sold. */
  lemma {:induction false} CleanRatiosConserveB(bk: Book)
    requires SortedBook(bk) && CleanSellers(bk.bToA)
    ensures ConservesB(bk)
  {
    var s := Swept(bk);
    SweptLosesLast(bk);
    if HasFills(bk, s) {
      forall k: nat {
        PaidWithinBookings(bk, s, k);
      }
      DeliveryWithinBookings(bk, s);
    }
  }
}
