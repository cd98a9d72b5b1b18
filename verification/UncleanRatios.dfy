/** Sorted books on which token B is over-delivered, one for every ratio that is not clean. */
module UncleanRatios {
  import opened Numbers
  import opened Prices
  import opened Orders
  import opened Sorting
  import opened Sweep
  import opened BookCrossing
  import opened ClearingPrices
  import opened Settlement
  import opened Conservation
  import opened Samples
  import opened CleanRatios

  // ---------------------------------------------------------------- totals of small books

  lemma {:induction false} SoldIsOffered(bk: Book, s: State, k: nat)
    requires Inv(bk, s)
    ensures k < |bk.aToB| ==> SoldBy(s.fillsAb, k) == bk.aToB[k].sellAmount - s.aRem[k]
    ensures k < |bk.bToA| ==> SoldBy(s.fillsBa, k) == bk.bToA[k].sellAmount - s.bRem[k]
  {
  }

  lemma {:induction false} SumOfTwo(f: nat -> nat)
    ensures SumTo(1, f) == f(0) && SumTo(2, f) == f(0) + f(1)
  {
    assert SumTo(0, f) == 0 && SumTo(1, f) == SumTo(0, f) + f(0);
  }

  /** What one or two sellers of B sold altogether. */
  lemma {:induction false} SalesOfB(bk: Book, s: State)
    requires HasFills(bk, s)
    ensures |bk.bToA| == 1 ==> Sells(TradesOfB(Exact, bk, s)) == bk.bToA[0].sellAmount - s.bRem[0]
    ensures |bk.bToA| == 2 ==>
              Sells(TradesOfB(Exact, bk, s)) ==
              bk.bToA[0].sellAmount - s.bRem[0] + (bk.bToA[1].sellAmount - s.bRem[1])
  {
    LedgerWithinOffers(bk, s);
    TradesReportAllSales(Exact, bk.bToA, s.fillsBa, Reciprocal(PriceOfA(Exact, bk, s)));
    TotalsPerOrder(s.fillsBa, |bk.bToA|);
    SumOfTwo(k => SoldBy(s.fillsBa, k));
    SoldIsOffered(bk, s, 0);
    SoldIsOffered(bk, s, 1);
  }

  /** A seller of A that sold its whole offer is paid for all of it. */
  lemma {:induction false} PaidForAll(bk: Book, s: State, k: nat, value: Price)
    requires HasFills(bk, s) && k < |bk.aToB| && s.aRem[k] == 0 && bk.aToB[k].sellAmount > 0
    requires value.den > 0 && Same(PriceOfA(Exact, bk, s), value)
    ensures EntriesOfA(Exact, bk, s)[k].traded
    ensures EntriesOfA(Exact, bk, s)[k].trade.executedBuy == ClampU64(Apply(Exact, value, bk.aToB[k].sellAmount))
  {
    SoldIsOffered(bk, s, k);
    NoFillsNothingSold(s.fillsAb, k);
    ApplySame(PriceOfA(Exact, bk, s), value, bk.aToB[k].sellAmount);
  }

  lemma {:induction false} TwoTrades(es: seq<Entry>)
    requires |es| == 2 && es[0].traded && es[1].traded
    ensures TradesOf(es) == [es[0].trade, es[1].trade]
    ensures Buys(TradesOf(es)) == es[0].trade.executedBuy + es[1].trade.executedBuy
  {
    assert Init(Init(es)) == [];
    assert TradesOf(Init(es)) == [es[0].trade];
    PushTrade([], es[0].trade);
    PushTrade([es[0].trade], es[1].trade);
    assert [es[0].trade] + [es[1].trade] == [es[0].trade, es[1].trade];
  }

  lemma {:induction false} TouchingArithmetic(s: nat, c: nat, t: nat, d: nat)
    requires d == s * t
    ensures (d + d) * c == t * (2 * (s * c))
  {
    assert (d + d) * c == 2 * ((s * t) * c) == 2 * (t * (s * c)) == t * (2 * (s * c));
  }

  /** A last crossing pair that touches clears at its common limit. */
  lemma {:induction false} TouchingPairClears(p: Price, q: Price)
    requires CrossingLimits(p, q) && p.num * q.num == p.den * q.den
    ensures Same(Midpoint(Exact, p, q), Price(q.den, q.num))
  {
    MidpointParts(p, q);
    TouchingArithmetic(p.den, q.num, q.den, p.den * q.den);
  }

  /** Two partially fillable heads, when the capacity and the booked amount are known. */
  lemma {:induction false} PartialMove(oa: Order, aLeft: nat, ob: Order, bLeft: nat, cap: nat, booked: nat)
    requires oa.partialFill && ob.partialFill && ob.sellAmount > 0 && ob.buyAmount > 0
    requires cap == bLeft * ob.buyAmount / ob.sellAmount && booked == Min(aLeft, cap) * ob.sellAmount / ob.buyAmount
    ensures Decide(Exact, oa, aLeft, ob, bLeft) ==
            if Min(aLeft, cap) > 0 then Fill(Min(aLeft, cap), booked) else if aLeft == 0 then PassA else PassB
  {
  }

  // ---------------------------------------------------------------- more than one B per A

  lemma {:induction false} CoarseProducts(t: nat, c: nat, k: nat)
    requires 0 < c < t && k * c < t < (k + 1) * c
    ensures 1 <= k && 2 <= c && k + 1 < t && t / c == k
  {
    assert (k + 1) * c == k * c + c;
    MulMono(k, 2, k, c);
    FloorAtLeast(k, t, c);
    FloorBelow(k + 1, t, c);
  }

  lemma {:induction false} CoarseCapacity(t: nat, c: nat, k: nat)
    requires 1 <= k < t && k * c < t && 1 <= c
    ensures (t - k) * c / t == c - 1
  {
    assert (t - k) * c == t * c - k * c && (c - 1) * t == t * c - t;
    MulMono(1, 1, k, c);
    FloorAtLeast(c - 1, (t - k) * c, t);
    FloorBelow(c, (t - k) * c, t);
  }

  lemma {:induction false} CoarseBooking(t: nat, c: nat, k: nat)
    requires k + 1 < t && k * c < t < (k + 1) * c && 1 <= c
    ensures (c - 1) * t / c == t - k - 1
  {
    assert (c - 1) * t == t * c - t;
    assert (t - k - 1) * c == t * c - (k + 1) * c && (t - k) * c == t * c - k * c;
    FloorAtLeast(t - k - 1, (c - 1) * t, c);
    FloorBelow(t - k, (c - 1) * t, c);
  }

  lemma {:induction false} CoarseArithmetic(t: nat, c: nat, k: nat)
    requires 0 < c < t && k * c < t < (k + 1) * c
    ensures 1 <= k && 2 <= c && k + 1 < t
    ensures t * c / t == c && 1 * t / c == k
    ensures (t - k) * c / t == c - 1 && (c - 1) * t / c == t - k - 1 && 1 * c / t == 0
  {
    CoarseProducts(t, c, k);
    CoarseCapacity(t, c, k);
    CoarseBooking(t, c, k);
    DivideMultiple(c, t);
  }

  /** Sellers of A (1, k) and (c, t) against two sellers of B (t, c), where k is t / c rounded
      down. */
  predicate CoarseBook(bk: Book, t: nat, c: nat, k: nat) {
    && |bk.aToB| == 2 && |bk.bToA| == 2
    && bk.aToB[0].sellAmount == 1 && bk.aToB[0].buyAmount == k
    && bk.aToB[1].sellAmount == c && bk.aToB[1].buyAmount == t
    && (forall o :: o in bk.bToA ==> o.sellAmount == t && o.buyAmount == c)
    && (forall o :: o in bk.bToA ==> o.partialFill) && bk.aToB[0].partialFill && bk.aToB[1].partialFill
  }

  /** The decisions the loop takes on that book. */
  ghost predicate CoarseMoves(bk: Book, t: nat, c: nat, k: nat)
    requires |bk.aToB| == 2 && |bk.bToA| == 2 && 1 <= c && k + 1 <= t
  {
    var small, large, first, second := bk.aToB[0], bk.aToB[1], bk.bToA[0], bk.bToA[1];
    && Crosses(Exact, small, first) && Crosses(Exact, large, first) && Crosses(Exact, large, second)
    && Decide(Exact, small, 1, first, t) == Fill(1, k)
    && Decide(Exact, large, c, first, t - k) == Fill(c - 1, t - k - 1)
    && Decide(Exact, large, 1, first, 1) == PassB
    && Decide(Exact, large, 1, second, t) == Fill(1, k)
  }

  lemma {:induction false} CoarseDecisions(small: Order, large: Order, ob: Order, t: nat, c: nat, k: nat)
    requires 0 < c < t && k * c < t < (k + 1) * c && small.partialFill && large.partialFill && ob.partialFill
    requires small.sellAmount == 1 && small.buyAmount == k && large.sellAmount == c && large.buyAmount == t
    requires ob.sellAmount == t && ob.buyAmount == c
    ensures 1 <= k && k + 1 < t && 2 <= c
    ensures Crosses(Exact, small, ob) && Crosses(Exact, large, ob)
    ensures Decide(Exact, small, 1, ob, t) == Fill(1, k) && Decide(Exact, large, 1, ob, t) == Fill(1, k)
    ensures Decide(Exact, large, c, ob, t - k) == Fill(c - 1, t - k - 1) && Decide(Exact, large, 1, ob, 1) == PassB
  {
    CoarseArithmetic(t, c, k);
    DivideMultiple(0, c);
    PartialMove(small, 1, ob, t, c, k);
    PartialMove(large, 1, ob, t, c, k);
    PartialMove(large, c, ob, t - k, c - 1, t - k - 1);
    PartialMove(large, 1, ob, 1, 0, 0);
  }

  /** The amounts offered on that book. */
  predicate CoarseOffers(bk: Book, t: nat, c: nat) {
    && |bk.aToB| == 2 && |bk.bToA| == 2 && bk.aToB[0].sellAmount == 1 && bk.aToB[1].sellAmount == c
    && bk.bToA[0].sellAmount == t && bk.bToA[1].sellAmount == t
  }

  lemma {:induction false} CoarseSweep(bk: Book, t: nat, c: nat, k: nat)
    requires CoarseOffers(bk, t, c) && 2 <= c && 1 <= k && k + 1 < t && CoarseMoves(bk, t, c, k)
    ensures Swept(bk).aRem == [0, 0] && Swept(bk).bRem == [1, t - k] && Swept(bk).lastCross == Some(Crossing(1, 1))
  {
    SweptHasInv(bk);
    var s1 := CoarseFirstFill(bk, t, c, k);
    var s2 := CoarseSecondFill(bk, t, c, k, s1);
    CoarseLastFill(bk, t, c, k, s2);
  }

  lemma {:induction false} CoarseFirstFill(bk: Book, t: nat, c: nat, k: nat) returns (r: State)
    requires CoarseOffers(bk, t, c) && 2 <= c && 1 <= k && k + 1 < t && CoarseMoves(bk, t, c, k)
    ensures Fits(bk, r) && Run(Exact, bk, Start(bk)) == Run(Exact, bk, r)
    ensures r.i == 1 && r.j == 0 && r.aRem == [0, c] && r.bRem == [t - k, t]
  {
    var s := Start(bk);
    assert s.aRem == [1, c] && s.bRem == [t, t];
    OneStep(Exact, bk, s, Fill(1, k));
    r := Perform(s, Fill(1, k));
    assert r.aRem == [0, c] && r.bRem == [t - k, t];
  }

  lemma {:induction false} CoarseSecondFill(bk: Book, t: nat, c: nat, k: nat, s: State) returns (r: State)
    requires CoarseOffers(bk, t, c) && 2 <= c && 1 <= k && k + 1 < t && CoarseMoves(bk, t, c, k)
    requires Fits(bk, s) && s.i == 1 && s.j == 0 && s.aRem == [0, c] && s.bRem == [t - k, t]
    ensures Fits(bk, r) && Run(Exact, bk, s) == Run(Exact, bk, r)
    ensures r.i == 1 && r.j == 0 && r.aRem == [0, 1] && r.bRem == [1, t]
  {
    OneStep(Exact, bk, s, Fill(c - 1, t - k - 1));
    r := Perform(s, Fill(c - 1, t - k - 1));
    assert r.aRem == [0, 1] && r.bRem == [1, t];
  }

  lemma {:induction false} CoarseLastFill(bk: Book, t: nat, c: nat, k: nat, s: State)
    requires CoarseOffers(bk, t, c) && 2 <= c && 1 <= k && k + 1 < t && CoarseMoves(bk, t, c, k)
    requires Fits(bk, s) && s.i == 1 && s.j == 0 && s.aRem == [0, 1] && s.bRem == [1, t]
    ensures var r := Run(Exact, bk, s);
            r.aRem == [0, 0] && r.bRem == [1, t - k] && r.lastCross == Some(Crossing(1, 1))
  {
    OneStep(Exact, bk, s, PassB);
    var s3 := Perform(s, PassB);
    OneStep(Exact, bk, s3, Fill(1, k));
    var s4 := Perform(s3, Fill(1, k));
    assert s4.i == 2 && s4.aRem == [0, 0] && s4.bRem == [1, t - k];
  }

  lemma {:induction false} CoarseBookSweeps(bk: Book, t: nat, c: nat, k: nat)
    requires CoarseBook(bk, t, c, k) && 0 < c < t && k * c < t < (k + 1) * c
    ensures 1 <= k <= t
    ensures Swept(bk).aRem == [0, 0] && Swept(bk).bRem == [1, t - k] && Swept(bk).lastCross == Some(Crossing(1, 1))
  {
    assert bk.bToA[0] in bk.bToA && bk.bToA[1] in bk.bToA;
    CoarseDecisions(bk.aToB[0], bk.aToB[1], bk.bToA[0], t, c, k);
    CoarseDecisions(bk.aToB[0], bk.aToB[1], bk.bToA[1], t, c, k);
    CoarseSweep(bk, t, c, k);
  }

  lemma {:induction false} CoarseBookIsSorted(bk: Book, t: nat, c: nat, k: nat)
    requires CoarseBook(bk, t, c, k) && 0 < c < t && k * c <= t
    ensures SortedBook(bk)
  {
    assert bk.bToA[0] in bk.bToA && bk.bToA[1] in bk.bToA;
    LeReflexive(bk.bToA[0]);
  }

  /** Once a seller of A has sold its whole offer, there are fills. */
  lemma {:induction false} SoldOutMeansFills(bk: Book)
    requires bk.aToB != [] && bk.aToB[0].sellAmount > 0 && Swept(bk).aRem[0] == 0
    ensures HasFills(bk, Swept(bk))
  {
    SweptHasInv(bk);
    SoldIsOffered(bk, Swept(bk), 0);
  }

  /** The clearing price, when the last crossing pair is limited at `p` and its reciprocal. */
  lemma {:induction false} ClearsAtTouch(bk: Book, s: State, p: Price)
    requires HasFills(bk, s) && p.num > 0 && IsU64Price(p)
    requires var q := bk.aToB[s.lastCross.value.a].LimitPrice(); q.num * p.den == p.num * q.den
    requires bk.bToA[s.lastCross.value.b].LimitPrice() == Price(p.den, p.num)
    ensures Same(PriceOfA(Exact, bk, s), p)
  {
    TouchingPairClears(bk.aToB[s.lastCross.value.a].LimitPrice(), bk.bToA[s.lastCross.value.b].LimitPrice());
  }

  lemma {:induction false} CoarseBookSettles(bk: Book, t: nat, c: nat, k: nat)
    requires CoarseBook(bk, t, c, k) && 0 < c < t && k * c < t < (k + 1) * c
    ensures SortedBook(bk) && HasFills(bk, Swept(bk)) && 1 <= k <= t
    ensures Swept(bk).aRem == [0, 0] && Swept(bk).bRem == [1, t - k]
    ensures Same(PriceOfA(Exact, bk, Swept(bk)), Price(t, c))
  {
    CoarseBookSweeps(bk, t, c, k);
    CoarseBookIsSorted(bk, t, c, k);
    SoldOutMeansFills(bk);
    assert bk.bToA[1] in bk.bToA;
    ClearsAtTouch(bk, Swept(bk), Price(t, c));
  }

  lemma {:induction false} CoarseAmounts(t: U64, c: nat, k: nat)
    requires 0 < c < t && k * c < t < (k + 1) * c
    ensures ClampU64(Apply(Exact, Price(t, c), 1)) == k && ClampU64(Apply(Exact, Price(t, c), c)) == t
  {
    CoarseProducts(t, c, k);
    DivideMultiple(t, c);
    assert 1 * t == t && c * t == t * c;
  }

  /** Two sellers of A that sold everything are paid for everything at `value`. */
  lemma {:induction false} TwoSellersPaid(bk: Book, s: State, value: Price)
    requires HasFills(bk, s) && |bk.aToB| == 2 && s.aRem == [0, 0]
    requires bk.aToB[0].sellAmount > 0 && bk.aToB[1].sellAmount > 0
    requires value.den > 0 && Same(PriceOfA(Exact, bk, s), value)
    ensures Buys(TradesOfA(Exact, bk, s)) ==
            ClampU64(Apply(Exact, value, bk.aToB[0].sellAmount)) + ClampU64(Apply(Exact, value, bk.aToB[1].sellAmount))
  {
    PaidForAll(bk, s, 0, value);
    PaidForAll(bk, s, 1, value);
    TwoTrades(EntriesOfA(Exact, bk, s));
  }

  /** t + k of B is handed out for t + k - 1 sold. */
  lemma {:induction false} CoarseBookOverDelivers(bk: Book, t: nat, c: nat, k: nat)
    requires CoarseBook(bk, t, c, k) && 0 < c < t && k * c < t < (k + 1) * c
    ensures SortedBook(bk) && HasFills(bk, Swept(bk))
    ensures Buys(TradesOfA(Exact, bk, Swept(bk))) == t + k
    ensures Sells(TradesOfB(Exact, bk, Swept(bk))) == t + k - 1
  {
    assert bk.bToA[0] in bk.bToA && bk.bToA[1] in bk.bToA;
    CoarseBookSettles(bk, t, c, k);
    SalesOfB(bk, Swept(bk));
    CoarseAmounts(t, c, k);
    TwoSellersPaid(bk, Swept(bk), Price(t, c));
  }

  // ---------------------------------------------------------------- more than one A per B

  lemma {:induction false} FineArithmetic(t: nat, c: nat, m: nat)
    requires 0 < t < c && m * t < c < (m + 1) * t
    ensures 1 <= m && 2 <= t && m < c
    ensures t * c / t == c && (c - m) * t / c == t - 1 && 1 * c / t == m
  {
    CoarseProducts(c, t, m);
    CoarseCapacity(c, t, m);
    DivideMultiple(c, t);
  }

  lemma {:induction false} DustBooksNothing(t: nat, c: nat, m: nat, x: nat)
    requires m * t < c && x <= m
    ensures x * t / c == 0
  {
    MulMono(x, t, m, t);
    FloorBelow(1, x * t, c);
  }

  /** Sellers of A (c - m, t - 1) and (n * c, n * t) against one seller of B (t, c), where m is
      c / t rounded down. */
  predicate FineBook(bk: Book, t: nat, c: nat, m: nat, n: nat) {
    && |bk.aToB| == 2 && |bk.bToA| == 1
    && bk.aToB[0].sellAmount + m == c && bk.aToB[0].buyAmount + 1 == t
    && bk.aToB[1].sellAmount == n * c && bk.aToB[1].buyAmount == n * t
    && bk.bToA[0].sellAmount == t && bk.bToA[0].buyAmount == c
    && bk.aToB[0].partialFill && bk.aToB[1].partialFill && bk.bToA[0].partialFill
  }

  lemma {:induction false} FineHeadsCross(bk: Book, t: nat, c: nat, m: nat, n: nat)
    requires FineBook(bk, t, c, m, n) && 0 < n && 0 < t && m < c && m * t <= c
    ensures n * c > 0 && n * t > 0
    ensures Crosses(Exact, bk.aToB[0], bk.bToA[0]) && Crosses(Exact, bk.aToB[1], bk.bToA[0])
    ensures Le(bk.aToB[0].LimitPrice(), bk.aToB[1].LimitPrice())
    ensures (n * t) * c == (n * c) * t
  {
    MulPositive(n, c);
    MulPositive(n, t);
    assert (t - 1) * c == t * c - c && (c - m) * t == c * t - m * t;
    assert (n * t) * c == (n * c) * t;
    MulMono((t - 1) * c, n, (c - m) * t, n);
    assert ((t - 1) * c) * n == (t - 1) * (n * c) && ((c - m) * t) * n == (n * t) * (c - m);
  }

  /** The decisions the loop takes on that book. */
  ghost predicate FineMoves(bk: Book, t: nat, c: nat, m: nat)
    requires |bk.aToB| == 2 && |bk.bToA| == 1 && m <= c && 1 <= t
  {
    && Crosses(Exact, bk.aToB[0], bk.bToA[0]) && Crosses(Exact, bk.aToB[1], bk.bToA[0])
    && Decide(Exact, bk.aToB[0], c - m, bk.bToA[0], t) == Fill(c - m, t - 1)
    && forall x: nat {:trigger Min(x, m)} :: 0 < x ==> Decide(Exact, bk.aToB[1], x, bk.bToA[0], 1) == Fill(Min(x, m), 0)
  }

  lemma {:induction false} FineDecisions(bk: Book, t: nat, c: nat, m: nat, n: nat)
    requires FineBook(bk, t, c, m, n) && 0 < n && 0 < t < c && m * t < c < (m + 1) * t
    ensures 1 <= m < c && 2 <= t && FineMoves(bk, t, c, m)
  {
    FineArithmetic(t, c, m);
    FineHeadsCross(bk, t, c, m, n);
    PartialMove(bk.aToB[0], c - m, bk.bToA[0], t, c, t - 1);
    forall x: nat | 0 < x ensures Decide(Exact, bk.aToB[1], x, bk.bToA[0], 1) == Fill(Min(x, m), 0) {
      DustBooksNothing(t, c, m, Min(x, m));
      PartialMove(bk.aToB[1], x, bk.bToA[0], 1, m, 0);
    }
  }

  /** The one unit of B that is left takes up to m of A at a time and never pays for it. */
  lemma {:induction false} DustDrains(bk: Book, t: nat, c: nat, m: nat, s: State, x: nat)
    requires |bk.aToB| == 2 && |bk.bToA| == 1 && 1 <= m <= c && 1 <= t && FineMoves(bk, t, c, m)
    requires Fits(bk, s) && s.i == 1 && s.j == 0 && s.aRem == [0, x] && s.bRem == [1] && 0 < x
    ensures var r := Run(Exact, bk, s); r.aRem == [0, 0] && r.bRem == [1] && r.lastCross == Some(Crossing(1, 0))
    decreases x
  {
    var tradeA := Min(x, m);
    OneStep(Exact, bk, s, Fill(tradeA, 0));
    var r := Perform(s, Fill(tradeA, 0));
    assert r.aRem == [0, x - tradeA] && r.bRem == [1];
    if x > m {
      DustDrains(bk, t, c, m, r, x - m);
    }
  }

  lemma {:induction false} FineFirstFill(bk: Book, t: nat, c: nat, m: nat, x: nat) returns (r: State)
    requires |bk.aToB| == 2 && |bk.bToA| == 1 && 1 <= m < c && 1 <= t && 0 < x
    requires bk.aToB[0].sellAmount == c - m && bk.aToB[1].sellAmount == x && bk.bToA[0].sellAmount == t
    requires Crosses(Exact, bk.aToB[0], bk.bToA[0])
    requires Decide(Exact, bk.aToB[0], c - m, bk.bToA[0], t) == Fill(c - m, t - 1)
    ensures Fits(bk, r) && Run(Exact, bk, Start(bk)) == Run(Exact, bk, r)
    ensures r.i == 1 && r.j == 0 && r.aRem == [0, x] && r.bRem == [1]
  {
    var s := Start(bk);
    assert s.aRem == [c - m, x] && s.bRem == [t];
    OneStep(Exact, bk, s, Fill(c - m, t - 1));
    r := Perform(s, Fill(c - m, t - 1));
    assert r.aRem == [0, x] && r.bRem == [1];
  }

  lemma {:induction false} FineSweep(bk: Book, t: nat, c: nat, m: nat, x: nat)
    requires |bk.aToB| == 2 && |bk.bToA| == 1 && 1 <= m < c && 1 <= t && FineMoves(bk, t, c, m) && 0 < x
    requires bk.aToB[0].sellAmount == c - m && bk.aToB[1].sellAmount == x && bk.bToA[0].sellAmount == t
    ensures Swept(bk).aRem == [0, 0] && Swept(bk).bRem == [1] && Swept(bk).lastCross == Some(Crossing(1, 0))
  {
    SweptHasInv(bk);
    var s := FineFirstFill(bk, t, c, m, x);
    DustDrains(bk, t, c, m, s, x);
  }

  lemma {:induction false} FineBookSweeps(bk: Book, t: nat, c: nat, m: nat, n: nat)
    requires FineBook(bk, t, c, m, n) && 0 < n && 0 < t < c && m * t < c < (m + 1) * t
    ensures SortedBook(bk) && bk.aToB[0].sellAmount > 0 && bk.aToB[1].sellAmount > 0
    ensures Swept(bk).aRem == [0, 0] && Swept(bk).bRem == [1] && Swept(bk).lastCross == Some(Crossing(1, 0))
  {
    FineDecisions(bk, t, c, m, n);
    FineHeadsCross(bk, t, c, m, n);
    FineSweep(bk, t, c, m, bk.aToB[1].sellAmount);
  }

  lemma {:induction false} FineBookSettles(bk: Book, t: nat, c: nat, m: nat, n: nat)
    requires FineBook(bk, t, c, m, n) && 0 < n && 0 < t < c && m * t < c < (m + 1) * t
    ensures SortedBook(bk) && HasFills(bk, Swept(bk))
    ensures Swept(bk).aRem == [0, 0] && Swept(bk).bRem == [1]
    ensures bk.aToB[0].sellAmount > 0 && bk.aToB[1].sellAmount > 0
    ensures Same(PriceOfA(Exact, bk, Swept(bk)), Price(t, c))
  {
    FineBookSweeps(bk, t, c, m, n);
    SoldOutMeansFills(bk);
    MultipleLimit(bk.aToB[1], t, c, n);
    ClearsAtTouch(bk, Swept(bk), Price(t, c));
  }

  lemma {:induction false} MultipleLimit(o: Order, t: nat, c: nat, n: nat)
    requires o.sellAmount == n * c && o.buyAmount == n * t && o.sellAmount > 0
    ensures o.LimitPrice().num * c == t * o.LimitPrice().den
  {
    assert (n * t) * c == t * (n * c);
  }

  /** However much B the second seller asks for, it is handed out although none is sold for it:
      t - 1 of B is sold and t - 1 + n * t handed out. */
  lemma {:induction false} FineBookOverDelivers(bk: Book, t: nat, c: nat, m: nat, n: nat)
    requires FineBook(bk, t, c, m, n) && 0 < n && 0 < t < c && m * t < c < (m + 1) * t
    ensures SortedBook(bk) && HasFills(bk, Swept(bk))
    ensures Buys(TradesOfA(Exact, bk, Swept(bk))) == t - 1 + n * t
    ensures Sells(TradesOfB(Exact, bk, Swept(bk))) == t - 1
  {
    FineBookSettles(bk, t, c, m, n);
    SalesOfB(bk, Swept(bk));
    FineAmounts(t, c, m, n);
    TwoSellersPaid(bk, Swept(bk), Price(t, c));
  }

  lemma {:induction false} FineAmounts(t: nat, c: nat, m: nat, n: nat)
    requires 0 < t < c && m * t < c < (m + 1) * t && t <= U64_MAX && n * t <= U64_MAX
    ensures m <= c && ClampU64(Apply(Exact, Price(t, c), c - m)) == t - 1
    ensures ClampU64(Apply(Exact, Price(t, c), n * c)) == n * t
  {
    FineArithmetic(t, c, m);
    DivideMultiple(n * t, c);
    assert (n * c) * t == (n * t) * c;
  }

  // ---------------------------------------------------------------- the exact condition

  predicate AllOffer(orders: seq<Order>, sell: nat, buy: nat) {
    forall o :: o in orders ==> o.sellAmount == sell && o.buyAmount == buy
  }

  function CoarseListing(tokenA: Address, tokenB: Address, t: U64, c: U64, k: U64): (bk: Book)
    ensures CoarseBook(bk, t, c, k) && AllOffer(bk.bToA, t, c)
  {
    Book([Offer(1, tokenA, tokenB, 1, k), Offer(2, tokenA, tokenB, c, t)],
         [Offer(3, tokenB, tokenA, t, c), Offer(4, tokenB, tokenA, t, c)])
  }

  function FineListing(tokenA: Address, tokenB: Address, t: U64, c: U64, m: U64): (bk: Book)
    requires m <= c && 0 < t
    ensures FineBook(bk, t, c, m, 1) && AllOffer(bk.bToA, t, c)
  {
    Book([Offer(1, tokenA, tokenB, c - m, t - 1), Offer(2, tokenA, tokenB, c, t)],
         [Offer(3, tokenB, tokenA, t, c)])
  }

  lemma {:induction false} QuotientFits(t: nat, c: nat)
    requires c > 0
    ensures t / c <= t
  {
    MulMono(t + 1, 1, t + 1, c);
    FloorBelow(t + 1, t, c);
  }

  /** A book over-delivering token B whose sellers of B offer `t` for `c`, an unclean ratio. */
  function UncleanBook(tokenA: Address, tokenB: Address, t: U64, c: U64): Book
    requires 0 < t && 0 < c
  {
    if c < t then
      QuotientFits(t, c);
      CoarseListing(tokenA, tokenB, t, c, t / c)
    else
      QuotientFits(c, t);
      FineListing(tokenA, tokenB, t, c, c / t)
  }

  lemma {:induction false} UncleanBookOverDelivers(tokenA: Address, tokenB: Address, t: U64, c: U64)
    requires 0 < t && 0 < c && !CleanRatio(t, c)
    ensures var bk := UncleanBook(tokenA, tokenB, t, c);
            && SortedBook(bk) && AllOffer(bk.bToA, t, c) && HasFills(bk, Swept(bk))
            && Sells(TradesOfB(Exact, bk, Swept(bk))) < Buys(TradesOfA(Exact, bk, Swept(bk)))
  {
    var bk := UncleanBook(tokenA, tokenB, t, c);
    if c < t {
      StrictQuotient(t, c);
      CoarseBookOverDelivers(bk, t, c, t / c);
    } else {
      EqualIsClean(t, c);
      StrictQuotient(c, t);
      FineBookOverDelivers(bk, t, c, c / t, 1);
    }
  }

  lemma {:induction false} StrictQuotient(t: nat, c: nat)
    requires c > 0 && t % c != 0
    ensures t / c * c < t < (t / c + 1) * c && t / c <= t
  {
    FloorBounds(t, c);
    QuotientFits(t, c);
  }

  lemma {:induction false} EqualIsClean(t: nat, c: nat)
    requires 0 < t && !CleanRatio(t, c)
    ensures t != c
  {
  }

  /** Sellers of B that offer `t` for `c` conserve token B on every sorted book if and only if
      one amount is a multiple of the other. */
  lemma {:induction false} CleanRatioIff(t: U64, c: U64)
    requires 0 < t && 0 < c
    ensures CleanRatio(t, c) <==>
            forall bk {:trigger ConservesB(bk)} :: SortedBook(bk) && AllOffer(bk.bToA, t, c) ==> ConservesB(bk)
  {
    if CleanRatio(t, c) {
      forall bk | SortedBook(bk) && AllOffer(bk.bToA, t, c) ensures ConservesB(bk) {
        CleanRatiosConserveB(bk);
      }
    } else {
      UncleanBookOverDelivers(10, 20, t, c);
      assert !ConservesB(UncleanBook(10, 20, t, c));
    }
  }
}
