/** When token A is conserved, by a condition on the orders alone. */
module NarrowSpreads {
  import opened Numbers
  import opened Prices
  import opened Orders
  import opened Sorting
  import opened Sweep
  import opened BookCrossing
  import opened ClearingPrices
  import opened Settlement
  import opened Conservation
  import opened Samples
  import opened CleanRatios
  import opened UncleanRatios

  /** At the clearing price of the crossing limits, `t` of B brings less than one unit of A over
      `c`. */
  predicate LessThanAUnit(p: Price, q: Price, t: nat, c: nat) {
    t * Midpoint(Exact, p, q).den < (c + 1) * Midpoint(Exact, p, q).num
  }

  /** Whichever pair of the book clears it, no seller of B gains a whole unit on its offer. */
  predicate NarrowSpread(bk: Book) {
    forall oa, last, ob :: oa in bk.aToB && last in bk.bToA && ob in bk.bToA ==>
      CrossingLimits(oa.LimitPrice(), last.LimitPrice()) ==>
      LessThanAUnit(oa.LimitPrice(), last.LimitPrice(), ob.sellAmount, ob.buyAmount)
  }

  lemma {:induction false} NarrowProduct(t: nat, c: nat, sold: nat, booked: nat, n: nat, d: nat)
    requires 0 < t && 0 < sold && t * d < (c + 1) * n && c * sold + sold <= (booked + 1) * t
    ensures sold * d < (booked + 1) * n
  {
    StrictlyMore(t * d, (c + 1) * n, sold);
    assert sold * (t * d) == (sold * d) * t;
    assert ((c + 1) * n) * sold == (c * sold + sold) * n;
    MulMono(c * sold + sold, n, (booked + 1) * t, n);
    assert ((booked + 1) * t) * n == ((booked + 1) * n) * t;
    CancelLt(sold * d, (booked + 1) * n, t);
  }

  lemma {:induction false} NarrowPayment(t: nat, c: nat, sold: nat, booked: nat, n: nat, d: nat)
    requires 0 < n && 0 < t && sold <= t && t * d < (c + 1) * n && c * sold <= t * booked
    ensures sold * d / n <= booked
  {
    if sold == 0 {
      DivideMultiple(0, n);
      assert sold * d == 0 == 0 * n;
    } else {
      assert (booked + 1) * t == t * booked + t;
      NarrowProduct(t, c, sold, booked, n, d);
      FloorBelow(booked + 1, sold * d, n);
    }
  }

  lemma {:induction false} PaidWithinBookings(bk: Book, s: State, k: nat)
    requires SortedBook(bk) && HasFills(bk, s) && NarrowSpread(bk)
    ensures Apply(Exact, Reciprocal(PriceOfA(Exact, bk, s)), SoldBy(s.fillsBa, k)) <= BoughtBy(s.fillsBa, k)
  {
    NoFillsNothingSold(s.fillsBa, k);
    if FillsOf(s.fillsBa, k) == 0 {
      NothingPaidForNothing(Reciprocal(PriceOfA(Exact, bk, s)));
    } else {
      FilledSellerOffers(bk, s, k);
      AskedIsBooked(bk, s, k);
      SoldWithinOffer(bk, s, k);
      var p := NarrowForSeller(bk, s, k);
      var ob := bk.bToA[k];
      NarrowPayment(ob.sellAmount, ob.buyAmount, SoldBy(s.fillsBa, k), BoughtBy(s.fillsBa, k), p.num, p.den);
    }
  }

  lemma {:induction false} NothingPaidForNothing(r: Price)
    requires r.den > 0
    ensures Apply(Exact, r, 0) == 0
  {
    DivideMultiple(0, r.den);
    assert 0 * r.num == 0 * r.den;
  }

  /** The clearing price pays a seller of B less than one unit over what it asks. */
  lemma {:induction false} NarrowForSeller(bk: Book, s: State, k: nat) returns (p: Price)
    requires SortedBook(bk) && HasFills(bk, s) && NarrowSpread(bk) && k < |bk.bToA|
    ensures p == PriceOfA(Exact, bk, s)
    ensures bk.bToA[k].sellAmount * p.den < (bk.bToA[k].buyAmount + 1) * p.num
  {
    LastCrossFacts(bk, s);
    var c := s.lastCross.value;
    var oa, last, ob := bk.aToB[c.a], bk.bToA[c.b], bk.bToA[k];
    assert oa in bk.aToB && last in bk.bToA && ob in bk.bToA;
    assert LessThanAUnit(oa.LimitPrice(), last.LimitPrice(), ob.sellAmount, ob.buyAmount);
    p := PriceOfA(Exact, bk, s);
  }

  lemma {:induction false} FilledSellerOffers(bk: Book, s: State, k: nat)
    requires HasFills(bk, s) && FillsOf(s.fillsBa, k) > 0
    ensures k < |bk.bToA| && bk.bToA[k].sellAmount > 0
  {
    FillsOfPositive(s.fillsBa, k);
    var n :| 0 <= n < |s.fillsBa| && s.fillsBa[n].idx == k;
    assert AtBookRatio(bk.bToA[s.fillsBa[n].idx], s.fillsAb[n].sold, s.fillsAb[n].bought);
  }

  /** Token A is conserved on every sorted book with a narrow spread: no more is bought than is
      sold. */
  lemma {:induction false} NarrowSpreadConservesA(bk: Book, s: State)
    requires SortedBook(bk) && HasFills(bk, s) && NarrowSpread(bk)
    ensures Buys(TradesOfB(Exact, bk, s)) <= Sells(TradesOfA(Exact, bk, s))
  {
    var p := PriceOfA(Exact, bk, s);
    forall k: nat {
      PaidWithinBookings(bk, s, k);
    }
    PaymentsOfSide(bk.bToA, s.fillsBa, Reciprocal(p));
    LedgerWithinOffers(bk, s);
    MirroredTotals(s.fillsBa, s.fillsAb);
    TradesReportAllSales(Exact, bk.aToB, s.fillsAb, p);
  }

  // ---------------------------------------------------------------- no spread at all

  /** The limits of the two orders are reciprocal: they cross without a spread. */
  predicate Touches(oa: Order, ob: Order) {
    oa.LimitPrice().num * ob.LimitPrice().num == oa.LimitPrice().den * ob.LimitPrice().den
  }

  /** No two orders of the book cross with a spread between their limits. */
  predicate NoSpread(bk: Book) {
    forall oa, ob :: oa in bk.aToB && ob in bk.bToA && Crosses(Exact, oa, ob) ==> Touches(oa, ob)
  }

  lemma {:induction false} DoubledSides(x: nat, u: nat, y: nat, v: nat)
    requires x * u <= y * v && 0 < v
    ensures x * (2 * u) < (y + 1) * (v + v)
  {
    assert x * (2 * u) == 2 * (x * u);
    assert (y + 1) * (v + v) == 2 * (y * v) + 2 * v;
  }

  lemma {:induction false} NoSpreadArithmetic(b: nat, s: nat, c: nat, t: nat, c': nat, t': nat)
    requires s > 0 && c > 0 && t > 0 && b * c == s * t && s * t' <= b * c'
    ensures t' * (2 * (s * c)) < (c' + 1) * (b * c + s * t)
  {
    MulMono(s * t', c, b * c', c);
    assert (s * t') * c == t' * (s * c);
    assert (b * c') * c == c' * (b * c);
    MulMono(1, 1, s, t);
    DoubledSides(t', s * c, c', b * c);
  }

  lemma {:induction false} TouchingProducts(b: nat, s: nat, c: nat, t: nat, c': nat, t': nat, n: nat, d: nat)
    requires n == b * c + s * t && d == 2 * (s * c)
    requires s > 0 && c > 0 && t > 0 && b * c == s * t && s * t' <= b * c'
    ensures t' * d < (c' + 1) * n
  {
    NoSpreadArithmetic(b, s, c, t, c', t');
  }

  lemma {:induction false} TouchingIsNarrow(p: Price, q: Price, t: nat, c: nat)
    requires CrossingLimits(p, q) && p.num * q.num == p.den * q.den && p.den * t <= p.num * c
    ensures LessThanAUnit(p, q, t, c)
  {
    MidpointParts(p, q);
    var mid := Midpoint(Exact, p, q);
    TouchingProducts(p.num, p.den, q.num, q.den, c, t, mid.num, mid.den);
  }

  /** An order that touches `p`, or does not cross it, offers no more than it asks at `p`. */
  lemma {:induction false} OffersNoMore(p: Price, ob: Order)
    requires p.den * ob.LimitPrice().den <= p.num * ob.LimitPrice().num
    ensures p.den * ob.sellAmount <= p.num * ob.buyAmount
  {
    MulMono(p.den, ob.sellAmount, p.den, ob.LimitPrice().den);
  }

  /** A book without a spread has a narrow one. */
  lemma {:induction false} NoSpreadIsNarrow(bk: Book)
    requires NoSpread(bk)
    ensures NarrowSpread(bk)
  {
    forall oa, last, ob | oa in bk.aToB && last in bk.bToA && ob in bk.bToA
      ensures CrossingLimits(oa.LimitPrice(), last.LimitPrice()) ==>
                LessThanAUnit(oa.LimitPrice(), last.LimitPrice(), ob.sellAmount, ob.buyAmount)
    {
      if CrossingLimits(oa.LimitPrice(), last.LimitPrice()) {
        CrossesOrNot(oa, last);
        CrossesOrNot(oa, ob);
        assert Touches(oa, last);
        assert Crosses(Exact, oa, ob) ==> Touches(oa, ob);
        OffersNoMore(oa.LimitPrice(), ob);
        TouchingIsNarrow(oa.LimitPrice(), last.LimitPrice(), ob.sellAmount, ob.buyAmount);
      }
    }
  }

  lemma {:induction false} CrossesOrNot(oa: Order, ob: Order)
    ensures Crosses(Exact, oa, ob) <==>
            oa.LimitPrice().num * ob.LimitPrice().num <= oa.LimitPrice().den * ob.LimitPrice().den
  {
  }

  // ---------------------------------------------------------------- the exact condition

  /** On the swept book, no more A is bought than is sold. */
  ghost predicate ConservesA(bk: Book) {
    HasFills(bk, Swept(bk)) ==> Buys(TradesOfB(Exact, bk, Swept(bk))) <= Sells(TradesOfA(Exact, bk, Swept(bk)))
  }

  /** One seller of A (s, b) against one seller of B (t, c). */
  predicate PairBook(bk: Book, s: nat, b: nat, t: nat, c: nat) {
    && |bk.aToB| == 1 && |bk.bToA| == 1 && AllOffer(bk.aToB, s, b) && AllOffer(bk.bToA, t, c)
    && bk.aToB[0].partialFill && bk.bToA[0].partialFill
  }

  lemma {:induction false} PairDecision(oa: Order, ob: Order, s: nat, b: nat, t: nat, c: nat)
    requires oa.sellAmount == s && oa.buyAmount == b && ob.sellAmount == t && ob.buyAmount == c
    requires oa.partialFill && ob.partialFill && 0 < c <= s && 0 < t && b * c <= s * t
    ensures Crosses(Exact, oa, ob) && Decide(Exact, oa, s, ob, t) == Fill(c, t)
  {
    DivideMultiple(c, t);
    DivideMultiple(t, c);
    PartialMove(oa, s, ob, t, c, t);
  }

  /** The heads are one partially filled by the other's whole offer. */
  ghost predicate PairMoves(bk: Book, s: nat, t: nat, c: nat) {
    && |bk.aToB| == 1 && |bk.bToA| == 1 && bk.aToB[0].sellAmount == s && bk.bToA[0].sellAmount == t
    && Crosses(Exact, bk.aToB[0], bk.bToA[0]) && Decide(Exact, bk.aToB[0], s, bk.bToA[0], t) == Fill(c, t)
  }

  lemma {:induction false} PairFill(bk: Book, s: nat, t: nat, c: nat) returns (r: State)
    requires PairMoves(bk, s, t, c) && 0 < c <= s && 0 < t
    ensures Fits(bk, r) && Run(Exact, bk, Start(bk)) == Run(Exact, bk, r)
    ensures r.j == 1 && r.aRem == [s - c] && r.bRem == [0] && r.lastCross == Some(Crossing(0, 0))
  {
    var s0 := Start(bk);
    assert s0.aRem == [s] && s0.bRem == [t];
    OneStep(Exact, bk, s0, Fill(c, t));
    r := Perform(s0, Fill(c, t));
    assert r.aRem == [s - c] && r.bRem == [0];
  }

  lemma {:induction false} PairSweep(bk: Book, s: nat, t: nat, c: nat)
    requires PairMoves(bk, s, t, c) && 0 < c <= s && 0 < t
    ensures Swept(bk).aRem == [s - c] && Swept(bk).bRem == [0] && Swept(bk).lastCross == Some(Crossing(0, 0))
  {
    SweptHasInv(bk);
    var r := PairFill(bk, s, t, c);
    RunEnds(Exact, bk, r);
  }

  lemma {:induction false} SingleTrade(es: seq<Entry>)
    requires |es| == 1 && es[0].traded
    ensures Buys(TradesOf(es)) == es[0].trade.executedBuy
  {
    assert Init(es) == [];
    PushTrade([], es[0].trade);
  }

  lemma {:induction false} PairSettles(bk: Book, s: nat, b: nat, t: nat, c: nat)
    requires PairBook(bk, s, b, t, c) && 0 < c <= s && 0 < t && b * c <= s * t
    ensures SortedBook(bk) && HasFills(bk, Swept(bk))
    ensures PriceOfA(Exact, bk, Swept(bk)) == Midpoint(Exact, Price(b, s), Price(c, t))
    ensures SoldBy(Swept(bk).fillsAb, 0) == c && SoldBy(Swept(bk).fillsBa, 0) == t
  {
    assert bk.aToB[0] in bk.aToB && bk.bToA[0] in bk.bToA;
    PairDecision(bk.aToB[0], bk.bToA[0], s, b, t, c);
    PairSweep(bk, s, t, c);
    SweptHasInv(bk);
    SoldIsOffered(bk, Swept(bk), 0);
  }

  lemma {:induction false} SalesOfOneSellerOfA(bk: Book, s: State)
    requires HasFills(bk, s) && |bk.aToB| == 1
    ensures Sells(TradesOfA(Exact, bk, s)) == SoldBy(s.fillsAb, 0)
  {
    LedgerWithinOffers(bk, s);
    TradesReportAllSales(Exact, bk.aToB, s.fillsAb, PriceOfA(Exact, bk, s));
    TotalsPerOrder(s.fillsAb, 1);
    SumOfTwo(k => SoldBy(s.fillsAb, k));
  }

  lemma {:induction false} PaymentOfOneSellerOfB(bk: Book, s: State)
    requires HasFills(bk, s) && |bk.bToA| == 1 && SoldBy(s.fillsBa, 0) > 0
    ensures Buys(TradesOfB(Exact, bk, s)) ==
            ClampU64(Apply(Exact, Reciprocal(PriceOfA(Exact, bk, s)), SoldBy(s.fillsBa, 0)))
  {
    NoFillsNothingSold(s.fillsBa, 0);
    SingleTrade(EntriesOfB(Exact, bk, s));
  }

  /** If the seller of B gains a whole unit, it is handed more A than was sold. */
  lemma {:induction false} PairBookOverDelivers(bk: Book, s: nat, b: nat, t: nat, c: nat)
    requires PairBook(bk, s, b, t, c) && 0 < c <= s && 0 < t && b * c <= s * t && c < U64_MAX
    requires !LessThanAUnit(Price(b, s), Price(c, t), t, c)
    ensures SortedBook(bk) && HasFills(bk, Swept(bk))
    ensures Sells(TradesOfA(Exact, bk, Swept(bk))) < Buys(TradesOfB(Exact, bk, Swept(bk)))
  {
    PairSettles(bk, s, b, t, c);
    SalesOfOneSellerOfA(bk, Swept(bk));
    PaymentOfOneSellerOfB(bk, Swept(bk));
    AUnitOrMore(Midpoint(Exact, Price(b, s), Price(c, t)), t, c);
  }

  lemma {:induction false} AUnitOrMore(p: Price, t: nat, c: nat)
    requires p.num > 0 && p.den > 0 && (c + 1) * p.num <= t * p.den && c < U64_MAX
    ensures c < ClampU64(Apply(Exact, Reciprocal(p), t))
  {
    FloorAtLeast(c + 1, t * p.den, p.num);
  }

  lemma {:induction false} UniformBookIsNarrow(bk: Book, s: U64, b: U64, t: U64, c: U64)
    requires AllOffer(bk.aToB, s, b) && AllOffer(bk.bToA, t, c) && 0 < s && 0 < t
    requires LessThanAUnit(Price(b, s), Price(c, t), t, c)
    ensures NarrowSpread(bk)
  {
    forall oa, last, ob | oa in bk.aToB && last in bk.bToA && ob in bk.bToA
      ensures LessThanAUnit(oa.LimitPrice(), last.LimitPrice(), ob.sellAmount, ob.buyAmount)
    {
      assert oa.LimitPrice() == Price(b, s) && last.LimitPrice() == Price(c, t);
    }
  }

  /** For sellers of A that offer `s` for `b` and sellers of B that offer `t` for `c`, crossing,
      where one seller of A can fill one of B: token A is conserved on every sorted book if and
      only if the clearing price pays a seller of B less than one unit over `c`. */
  lemma {:induction false} NarrowSpreadIff(s: U64, b: U64, t: U64, c: U64)
    requires 0 < c <= s && 0 < t && b * c <= s * t && c < U64_MAX
    ensures LessThanAUnit(Price(b, s), Price(c, t), t, c) <==>
            forall bk {:trigger ConservesA(bk)} ::
              SortedBook(bk) && AllOffer(bk.aToB, s, b) && AllOffer(bk.bToA, t, c) ==> ConservesA(bk)
  {
    if LessThanAUnit(Price(b, s), Price(c, t), t, c) {
      forall bk | SortedBook(bk) && AllOffer(bk.aToB, s, b) && AllOffer(bk.bToA, t, c) ensures ConservesA(bk) {
        UniformBookIsNarrow(bk, s, b, t, c);
        if HasFills(bk, Swept(bk)) {
          NarrowSpreadConservesA(bk, Swept(bk));
        }
      }
    } else {
      var bk := PairListing(10, 20, s, b, t, c);
      PairBookOverDelivers(bk, s, b, t, c);
      assert !ConservesA(bk);
    }
  }

  function PairListing(tokenA: Address, tokenB: Address, s: U64, b: U64, t: U64, c: U64): (bk: Book)
    ensures PairBook(bk, s, b, t, c)
  {
    Book([Offer(1, tokenA, tokenB, s, b)], [Offer(2, tokenB, tokenA, t, c)])
  }
}
