/** A fill-or-kill order is passed over only when a crossing order could not serve it in full. */
module FillOrKillService {
  import opened Numbers
  import opened Orders
  import opened Sweep
  import opened BookCrossing

  // ---------------------------------------------------------------- sellers of A

  /** Seller of B `b` sold to a seller of A behind `k`. */
  ghost predicate SoldPast(s: State, b: nat, k: nat) {
    exists n :: 0 <= n < |s.fillsAb| && n < |s.fillsBa| && s.fillsBa[n].idx == b && s.fillsAb[n].idx > k
  }

  /** Seller of B `b` crosses `k` but takes less than `k` has; it took some when they met, so if it
      takes nothing now it has sold to somebody behind `k` since. */
  ghost predicate CannotTake(bk: Book, s: State, k: nat, b: nat)
    requires Fits(bk, s) && k < |bk.aToB| && b < |bk.bToA|
  {
    && Crosses(Exact, bk.aToB[k], bk.bToA[b])
    && Capacity(Exact, s.bRem[b], bk.bToA[b]) < s.aRem[k]
    && (Capacity(Exact, s.bRem[b], bk.bToA[b]) > 0 || SoldPast(s, b, k))
  }

  ghost predicate PassedForCause(bk: Book, s: State, k: nat)
    requires Fits(bk, s) && k < |bk.aToB|
  {
    exists b: nat :: b < |bk.bToA| && CannotTake(bk, s, k, b)
  }

  /** Every unserved fill-or-kill seller of A behind the pointer was passed for cause. */
  ghost predicate KillsOfA(bk: Book, s: State)
    requires Fits(bk, s)
  {
    forall k: nat {:trigger PassedForCause(bk, s, k)} ::
      k < s.i && !bk.aToB[k].partialFill && s.aRem[k] > 0 ==> PassedForCause(bk, s, k)
  }

  lemma {:induction false} CapacityShrinks(ob: Order, less: nat, more: nat)
    requires less <= more
    ensures Capacity(Exact, less, ob) <= Capacity(Exact, more, ob)
  {
    MulMono(less, ob.buyAmount, more, ob.buyAmount);
    FloorMono(less * ob.buyAmount, AtLeastOne(ob.sellAmount), more * ob.buyAmount, AtLeastOne(ob.sellAmount)) by {
      MulMono(less * ob.buyAmount, AtLeastOne(ob.sellAmount), more * ob.buyAmount, AtLeastOne(ob.sellAmount));
    }
  }

  lemma {:induction false} StaysPassedForCause(bk: Book, s: State, t: State, k: nat)
    requires Fits(bk, s) && Fits(bk, t) && k < |bk.aToB| && PassedForCause(bk, s, k)
    requires t.aRem[k] == s.aRem[k]
    requires forall b: nat :: b < |bk.bToA| ==> t.bRem[b] == s.bRem[b] || (t.bRem[b] <= s.bRem[b] && SoldPast(t, b, k))
    requires forall b: nat :: SoldPast(s, b, k) ==> SoldPast(t, b, k)
    ensures PassedForCause(bk, t, k)
  {
    var b: nat :| b < |bk.bToA| && CannotTake(bk, s, k, b);
    CapacityShrinks(bk.bToA[b], t.bRem[b], s.bRem[b]);
    assert CannotTake(bk, t, k, b);
  }

  lemma {:induction false} FillsStay(s: State, move: Move, b: nat, k: nat)
    requires s.i < |s.aRem| && s.j < |s.bRem| && |s.fillsAb| == |s.fillsBa| && SoldPast(s, b, k)
    ensures SoldPast(Perform(s, move), b, k)
  {
    var n :| 0 <= n < |s.fillsAb| && n < |s.fillsBa| && s.fillsBa[n].idx == b && s.fillsAb[n].idx > k;
    var t := Perform(s, move);
    assert t.fillsBa[n].idx == b && t.fillsAb[n].idx > k;
  }

  lemma {:induction false} FillSellsPast(s: State, tradeA: nat, tradeB: nat, k: nat)
    requires s.i < |s.aRem| && s.j < |s.bRem| && |s.fillsAb| == |s.fillsBa| && k < s.i
    ensures SoldPast(Perform(s, Fill(tradeA, tradeB)), s.j, k)
  {
    var t := Perform(s, Fill(tradeA, tradeB));
    assert t.fillsBa[|s.fillsBa|].idx == s.j && t.fillsAb[|s.fillsAb|].idx == s.i;
  }

  /** A pass of a seller of A that has something left is for too little capacity. */
  lemma {:induction false} PassedOver(oa: Order, aLeft: nat, ob: Order, bLeft: nat)
    requires Decide(Exact, oa, aLeft, ob, bLeft) == PassA && aLeft > 0
    ensures 0 < Capacity(Exact, bLeft, ob) < aLeft
  {
  }

  lemma {:induction false} StepKeepsKillsOfA(bk: Book, s: State)
    requires Ledger(bk, s) && !Done(Exact, bk, s) && KillsOfA(bk, s)
    ensures KillsOfA(bk, Step(Exact, bk, s))
  {
    var move, t := MoveAt(Exact, bk, s), Step(Exact, bk, s);
    forall k: nat | k < t.i && !bk.aToB[k].partialFill && t.aRem[k] > 0 ensures PassedForCause(bk, t, k) {
      if k == s.i {
        PassedOver(bk.aToB[s.i], s.aRem[s.i], bk.bToA[s.j], s.bRem[s.j]);
        assert CannotTake(bk, t, k, s.j);
      } else {
        assert PassedForCause(bk, s, k);
        forall b: nat | SoldPast(s, b, k) ensures SoldPast(t, b, k) {
          FillsStay(s, move, b, k);
        }
        if move.Fill? {
          FillSellsPast(s, move.tradeA, move.tradeB, k);
        }
        StaysPassedForCause(bk, s, t, k);
      }
    }
  }

  // ---------------------------------------------------------------- sellers of B

  /** Seller of A `a` bought from a seller of B behind `k`. */
  ghost predicate BoughtPast(s: State, a: nat, k: nat) {
    exists n :: 0 <= n < |s.fillsAb| && n < |s.fillsBa| && s.fillsAb[n].idx == a && s.fillsBa[n].idx > k
  }

  /** What a seller of B sells when `aLeft` of A is offered to it. */
  function SellsAgainst(aLeft: nat, ob: Order, bLeft: nat): nat {
    BookedB(Exact, Min(aLeft, Capacity(Exact, bLeft, ob)), ob)
  }

  /** Seller of A `a` crosses `k` but offers too little A for all that `k` has; it offered some when
      they met. */
  ghost predicate CannotPay(bk: Book, s: State, k: nat, a: nat)
    requires Fits(bk, s) && k < |bk.bToA| && a < |bk.aToB|
  {
    && Crosses(Exact, bk.aToB[a], bk.bToA[k])
    && SellsAgainst(s.aRem[a], bk.bToA[k], s.bRem[k]) < s.bRem[k]
    && (s.aRem[a] > 0 || BoughtPast(s, a, k))
  }

  ghost predicate LeftForCause(bk: Book, s: State, k: nat)
    requires Fits(bk, s) && k < |bk.bToA|
  {
    exists a: nat :: a < |bk.aToB| && CannotPay(bk, s, k, a)
  }

  ghost predicate KillsOfB(bk: Book, s: State)
    requires Fits(bk, s)
  {
    forall k: nat {:trigger LeftForCause(bk, s, k)} ::
      k < s.j && !bk.bToA[k].partialFill && s.bRem[k] > 0 ==> LeftForCause(bk, s, k)
  }

  lemma {:induction false} SellsLessAgainstLess(ob: Order, bLeft: nat, less: nat, more: nat)
    requires less <= more
    ensures SellsAgainst(less, ob, bLeft) <= SellsAgainst(more, ob, bLeft)
  {
    var cap, t, d := Capacity(Exact, bLeft, ob), ob.sellAmount, AtLeastOne(ob.buyAmount);
    BookedLess(Min(less, cap), Min(more, cap), t, d);
  }

  lemma {:induction false} BookedLess(x: nat, y: nat, t: nat, d: nat)
    requires x <= y && d > 0
    ensures x * t / d <= y * t / d
  {
    MulMono(x, t, y, t);
    MulMono(x * t, d, y * t, d);
    FloorMono(x * t, d, y * t, d);
  }

  lemma {:induction false} StaysLeftForCause(bk: Book, s: State, t: State, k: nat)
    requires Fits(bk, s) && Fits(bk, t) && k < |bk.bToA| && LeftForCause(bk, s, k)
    requires t.bRem[k] == s.bRem[k]
    requires forall a: nat :: a < |bk.aToB| ==>
               t.aRem[a] == s.aRem[a] || (t.aRem[a] <= s.aRem[a] && BoughtPast(t, a, k))
    requires forall a: nat :: BoughtPast(s, a, k) ==> BoughtPast(t, a, k)
    ensures LeftForCause(bk, t, k)
  {
    var a: nat :| a < |bk.aToB| && CannotPay(bk, s, k, a);
    SellsLessAgainstLess(bk.bToA[k], s.bRem[k], t.aRem[a], s.aRem[a]);
    assert CannotPay(bk, t, k, a);
  }

  lemma {:induction false} PurchasesStay(s: State, move: Move, a: nat, k: nat)
    requires s.i < |s.aRem| && s.j < |s.bRem| && |s.fillsAb| == |s.fillsBa| && BoughtPast(s, a, k)
    ensures BoughtPast(Perform(s, move), a, k)
  {
    var n :| 0 <= n < |s.fillsAb| && n < |s.fillsBa| && s.fillsAb[n].idx == a && s.fillsBa[n].idx > k;
    var t := Perform(s, move);
    assert t.fillsAb[n].idx == a && t.fillsBa[n].idx > k;
  }

  lemma {:induction false} FillBuysPast(s: State, tradeA: nat, tradeB: nat, k: nat)
    requires s.i < |s.aRem| && s.j < |s.bRem| && |s.fillsAb| == |s.fillsBa| && k < s.j
    ensures BoughtPast(Perform(s, Fill(tradeA, tradeB)), s.i, k)
  {
    var t := Perform(s, Fill(tradeA, tradeB));
    assert t.fillsAb[|s.fillsAb|].idx == s.i && t.fillsBa[|s.fillsBa|].idx == s.j;
  }

  /** A pass of a fill-or-kill seller of B that has something left is for too little A. */
  lemma {:induction false} LeftOver(oa: Order, aLeft: nat, ob: Order, bLeft: nat)
    requires Decide(Exact, oa, aLeft, ob, bLeft) == PassB && bLeft > 0 && !ob.partialFill
    ensures aLeft > 0 && SellsAgainst(aLeft, ob, bLeft) < bLeft
  {
    if Min(aLeft, Capacity(Exact, bLeft, ob)) == 0 {
      NothingBooked(ob.sellAmount, AtLeastOne(ob.buyAmount));
    }
  }

  lemma {:induction false} NothingBooked(t: nat, d: nat)
    requires d > 0
    ensures 0 * t / d == 0
  {
    assert 0 * t == 0;
    FloorBelow(1, 0 * t, d);
  }

  lemma {:induction false} StepKeepsKillsOfB(bk: Book, s: State)
    requires Ledger(bk, s) && !Done(Exact, bk, s) && KillsOfB(bk, s)
    ensures KillsOfB(bk, Step(Exact, bk, s))
  {
    var move, t := MoveAt(Exact, bk, s), Step(Exact, bk, s);
    forall k: nat | k < t.j && !bk.bToA[k].partialFill && t.bRem[k] > 0 ensures LeftForCause(bk, t, k) {
      if k == s.j {
        LeftOver(bk.aToB[s.i], s.aRem[s.i], bk.bToA[s.j], s.bRem[s.j]);
        assert CannotPay(bk, t, k, s.i);
      } else {
        assert LeftForCause(bk, s, k);
        forall a: nat | BoughtPast(s, a, k) ensures BoughtPast(t, a, k) {
          PurchasesStay(s, move, a, k);
        }
        if move.Fill? {
          FillBuysPast(s, move.tradeA, move.tradeB, k);
        }
        StaysLeftForCause(bk, s, t, k);
      }
    }
  }

  // ---------------------------------------------------------------- the whole loop

  lemma {:induction false} RunKeepsKills(bk: Book, s: State)
    requires Inv(bk, s) && KillsOfA(bk, s) && KillsOfB(bk, s)
    ensures KillsOfA(bk, Run(Exact, bk, s)) && KillsOfB(bk, Run(Exact, bk, s))
    decreases Measure(bk, s)
  {
    if !Done(Exact, bk, s) {
      StepKeepsInv(bk, s);
      StepKeepsKillsOfA(bk, s);
      StepKeepsKillsOfB(bk, s);
      StepDecreases(Exact, bk, s);
      RunKeepsKills(bk, Step(Exact, bk, s));
    }
  }

  lemma {:induction false} SweptKills(bk: Book)
    ensures Inv(bk, Swept(bk)) && KillsOfA(bk, Swept(bk)) && KillsOfB(bk, Swept(bk))
  {
    StartHasInv(bk);
    SweptHasInv(bk);
    RunKeepsKills(bk, Start(bk));
  }

  /** The loop does not stop short of two crossing orders that could both still trade. */
  lemma {:induction false} StoppedShortOf(bk: Book, a: nat, b: nat)
    requires SortedBook(bk) && Swept(bk).i <= a < |bk.aToB| && Swept(bk).j <= b < |bk.bToA|
    ensures !Crosses(Exact, bk.aToB[a], bk.bToA[b])
  {
    SweptHasInv(bk);
    var s := Swept(bk);
    LeReflexive(bk.aToB[s.i]);
    LeReflexive(bk.bToA[s.j]);
    DearerOrdersDoNotCross(bk.aToB[s.i], bk.bToA[s.j], bk.aToB[a], bk.bToA[b]);
  }

  /** Seller of B `b` can still take all that the fill-or-kill seller of A at `k` offers, or takes
      nothing and has not sold to anybody behind `k`. */
  ghost predicate NotInTheWay(bk: Book, k: nat, b: nat)
    requires k < |bk.aToB| && b < |bk.bToA|
  {
    var cap := Capacity(Exact, Swept(bk).bRem[b], bk.bToA[b]);
    bk.aToB[k].sellAmount <= cap || (cap == 0 && !SoldPast(Swept(bk), b, k))
  }

  lemma {:induction false} WhoIsInTheWay(bk: Book, k: nat, b: nat)
    requires k < |bk.aToB| && b < |bk.bToA| && Swept(bk).aRem[k] == bk.aToB[k].sellAmount
    requires CannotTake(bk, Swept(bk), k, b)
    ensures !NotInTheWay(bk, k, b)
  {
  }

  /** A fill-or-kill seller of A trades if a crossing, partially fillable seller of B can still take
      its whole offer at the end, and no crossing seller of B that it met took too little. */
  lemma {:induction false} FillOrKillSellerOfAIsServed(bk: Book, k: nat, taker: nat)
    requires SortedBook(bk) && k < |bk.aToB| && !bk.aToB[k].partialFill && bk.aToB[k].sellAmount > 0
    requires taker < |bk.bToA| && bk.bToA[taker].partialFill && Crosses(Exact, bk.aToB[k], bk.bToA[taker])
    requires Capacity(Exact, Swept(bk).bRem[taker], bk.bToA[taker]) > 0
    requires forall b: nat {:trigger NotInTheWay(bk, k, b)} ::
               b < |bk.bToA| && Crosses(Exact, bk.aToB[k], bk.bToA[b]) ==> NotInTheWay(bk, k, b)
    ensures SoldBy(Swept(bk).fillsAb, k) == bk.aToB[k].sellAmount
  {
    SweptKills(bk);
    var s := Swept(bk);
    FillOrKill(bk, k);
    if FillsOf(s.fillsAb, k) == 0 {
      assert s.aRem[k] == bk.aToB[k].sellAmount;
      if k < s.i {
        assert PassedForCause(bk, s, k);
        var b: nat :| b < |bk.bToA| && CannotTake(bk, s, k, b);
        WhoIsInTheWay(bk, k, b);
      } else if taker >= s.j {
        StoppedShortOf(bk, k, taker);
      }
      assert false;
    }
  }

  /** Seller of A `a` can still pay for all that the fill-or-kill seller of B at `k` offers, or has
      nothing and has not bought from anybody behind `k`. */
  ghost predicate CanPay(bk: Book, k: nat, a: nat)
    requires k < |bk.bToA| && a < |bk.aToB|
  {
    bk.bToA[k].buyAmount <= Swept(bk).aRem[a] || (Swept(bk).aRem[a] == 0 && !BoughtPast(Swept(bk), a, k))
  }

  lemma {:induction false} FullPayBuysAll(ob: Order, aLeft: nat)
    requires ob.sellAmount > 0 && ob.buyAmount > 0 && ob.buyAmount <= aLeft
    ensures SellsAgainst(aLeft, ob, ob.sellAmount) == ob.sellAmount
  {
    ExactQuotient(ob.buyAmount, ob.sellAmount);
    ExactQuotient(ob.sellAmount, ob.buyAmount);
  }

  lemma {:induction false} ExactQuotient(x: nat, d: nat)
    requires d > 0
    ensures d * x / d == x && x * d / d == x
  {
    assert x * d == d * x;
    FloorAtLeast(x, x * d, d);
    FloorBelow(x + 1, x * d, d);
    assert (x + 1) * d == x * d + d;
  }

  lemma {:induction false} WhoCannotPay(bk: Book, k: nat, a: nat)
    requires k < |bk.bToA| && a < |bk.aToB| && Swept(bk).bRem[k] == bk.bToA[k].sellAmount
    requires bk.bToA[k].sellAmount > 0 && bk.bToA[k].buyAmount > 0 && CannotPay(bk, Swept(bk), k, a)
    ensures !CanPay(bk, k, a)
  {
    if bk.bToA[k].buyAmount <= Swept(bk).aRem[a] {
      FullPayBuysAll(bk.bToA[k], Swept(bk).aRem[a]);
    }
  }

  /** A fill-or-kill seller of B trades if a crossing, partially fillable seller of A still offers
      something at the end, and every crossing seller of A that it met could pay for all of it. */
  lemma {:induction false} FillOrKillSellerOfBIsServed(bk: Book, k: nat, payer: nat)
    requires SortedBook(bk) && k < |bk.bToA| && !bk.bToA[k].partialFill
    requires bk.bToA[k].sellAmount > 0 && bk.bToA[k].buyAmount > 0
    requires payer < |bk.aToB| && bk.aToB[payer].partialFill && Crosses(Exact, bk.aToB[payer], bk.bToA[k])
    requires Swept(bk).aRem[payer] > 0
    requires forall a: nat {:trigger CanPay(bk, k, a)} ::
               a < |bk.aToB| && Crosses(Exact, bk.aToB[a], bk.bToA[k]) ==> CanPay(bk, k, a)
    ensures SoldBy(Swept(bk).fillsBa, k) == bk.bToA[k].sellAmount
  {
    SweptKills(bk);
    var s := Swept(bk);
    FillOrKill(bk, k);
    if FillsOf(s.fillsBa, k) == 0 {
      assert s.bRem[k] == bk.bToA[k].sellAmount;
      if k < s.j {
        assert LeftForCause(bk, s, k);
        var a: nat :| a < |bk.aToB| && CannotPay(bk, s, k, a);
        WhoCannotPay(bk, k, a);
      } else if payer >= s.i {
        StoppedShortOf(bk, payer, k);
      }
      assert false;
    }
  }
}
