/** What the crossing loop achieves on a sorted book. */
module BookCrossing {
  import opened Numbers
  import opened Prices
  import opened Orders
  import opened Sorting
  import opened Sweep

  predicate SortedBook(bk: Book) {
    Sorted(bk.aToB) && Sorted(bk.bToA)
  }

  /** The state in which the program's loop leaves the book. */
  function Swept(bk: Book): State {
    Run(Machine, bk, Start(bk))
  }

  lemma {:induction false} SweptHasInv(bk: Book)
    ensures Inv(bk, Swept(bk)) && Done(Exact, bk, Swept(bk))
    ensures Swept(bk) == Run(Exact, bk, Start(bk))
  {
    StartHasInv(bk);
    RunKeepsInv(bk, Start(bk));
  }

  /** Once two heads do not cross, nothing dearer on either side does. */
  lemma {:induction false} DearerOrdersDoNotCross(oa: Order, ob: Order, oa': Order, ob': Order)
    requires !Crosses(Exact, oa, ob)
    requires Le(oa.LimitPrice(), oa'.LimitPrice()) && Le(ob.LimitPrice(), ob'.LimitPrice())
    ensures !Crosses(Exact, oa', ob')
  {
    var p, q, p', q' := oa.LimitPrice(), ob.LimitPrice(), oa'.LimitPrice(), ob'.LimitPrice();
    ProductsGrow(p.num, p.den, q.num, q.den, p'.num, p'.den, q'.num, q'.den);
  }

  lemma {:induction false} ProductsGrow(n: nat, d: nat, k: nat, l: nat, n': nat, d': nat, k': nat, l': nat)
    requires d > 0 && l > 0 && d' > 0 && l' > 0
    requires d * l < n * k && n * d' <= n' * d && k * l' <= k' * l
    ensures d' * l' < n' * k'
  {
    MulMono(n * d', k * l', n' * d, k' * l);
    Rearrange(n, d', k, l');
    Rearrange(n', d, k', l);
    MulPositive(d', l');
    StrictlyMore(d * l, n * k, d' * l');
    CancelLt(d' * l', n' * k', d * l);
  }

  lemma {:induction false} MulPositive(x: nat, y: nat)
    requires x > 0 && y > 0
    ensures x * y > 0
  {
    MulMono(1, 1, x, y);
  }

  lemma {:induction false} Rearrange(w: nat, x: nat, y: nat, z: nat)
    ensures (w * x) * (y * z) == (w * y) * (x * z)
  {
    assert (w * x) * (y * z) == w * (x * (y * z)) == w * (y * (x * z)) == (w * y) * (x * z);
  }

  lemma {:induction false} StrictlyMore(x: nat, y: nat, z: nat)
    requires x < y && z > 0
    ensures z * x < y * z
  {
    MulMono(x + 1, z, y, z);
    assert (x + 1) * z == x * z + z;
  }

  /** Exhaustiveness. When the loop ends, no two partially fillable orders that could still
      trade have crossing limit prices, whichever pair of the book is taken. */
  lemma {:induction false} NoCrossingLeftBehind(bk: Book, a: nat, b: nat)
    requires SortedBook(bk) && a < |bk.aToB| && b < |bk.bToA|
    requires bk.aToB[a].partialFill && bk.bToA[b].partialFill
    requires Swept(bk).aRem[a] > 0 && Capacity(Exact, Swept(bk).bRem[b], bk.bToA[b]) > 0
    ensures !Crosses(Exact, bk.aToB[a], bk.bToA[b])
  {
    SweptHasInv(bk);
    var s := Swept(bk);
    assert s.i <= a && s.j <= b;
    LeReflexive(bk.aToB[s.i]);
    LeReflexive(bk.bToA[s.j]);
    DearerOrdersDoNotCross(bk.aToB[s.i], bk.bToA[s.j], bk.aToB[a], bk.bToA[b]);
  }

  lemma {:induction false} LeReflexive(o: Order)
    ensures Le(o.LimitPrice(), o.LimitPrice())
  {
  }

  /** Price priority, A→B: an order trades only after every strictly better priced,
      partially fillable order is fully sold. */
  lemma {:induction false} BetterSellersOfAGoFirst(bk: Book, traded: nat, better: nat)
    requires SortedBook(bk) && traded < |bk.aToB| && better < |bk.aToB|
    requires FillsOf(Swept(bk).fillsAb, traded) > 0
    requires Lt(bk.aToB[better].LimitPrice(), bk.aToB[traded].LimitPrice())
    requires bk.aToB[better].partialFill
    ensures SoldBy(Swept(bk).fillsAb, better) == bk.aToB[better].sellAmount
  {
    SweptHasInv(bk);
    var s := Swept(bk);
    FillsOfPositive(s.fillsAb, traded);
    if traded <= better {
      CheaperInFront(bk.aToB, traded, better);
    }
    assert s.aRem[better] == 0;
  }

  /** Price priority, B→A: every strictly better priced, partially fillable order keeps at
      most a remainder too small to buy one unit of A at its limit. */
  lemma {:induction false} BetterSellersOfBGoFirst(bk: Book, traded: nat, better: nat)
    requires SortedBook(bk) && traded < |bk.bToA| && better < |bk.bToA|
    requires FillsOf(Swept(bk).fillsBa, traded) > 0
    requires Lt(bk.bToA[better].LimitPrice(), bk.bToA[traded].LimitPrice())
    requires bk.bToA[better].partialFill
    ensures SoldBy(Swept(bk).fillsBa, better) <= bk.bToA[better].sellAmount
    ensures (bk.bToA[better].sellAmount - SoldBy(Swept(bk).fillsBa, better)) * bk.bToA[better].buyAmount
            < AtLeastOne(bk.bToA[better].sellAmount)
  {
    BetterSellerOfBIsSpent(bk, traded, better);
    NoCapacityMeansDust(Swept(bk).bRem[better], bk.bToA[better]);
  }

  lemma {:induction false} BetterSellerOfBIsSpent(bk: Book, traded: nat, better: nat)
    requires SortedBook(bk) && traded < |bk.bToA| && better < |bk.bToA|
    requires FillsOf(Swept(bk).fillsBa, traded) > 0
    requires Lt(bk.bToA[better].LimitPrice(), bk.bToA[traded].LimitPrice())
    requires bk.bToA[better].partialFill
    ensures Swept(bk).bRem[better] == bk.bToA[better].sellAmount - SoldBy(Swept(bk).fillsBa, better)
    ensures Capacity(Exact, Swept(bk).bRem[better], bk.bToA[better]) == 0
  {
    SweptHasInv(bk);
    var s := Swept(bk);
    FillsOfPositive(s.fillsBa, traded);
    if traded <= better {
      CheaperInFront(bk.bToA, traded, better);
    }
  }

  lemma {:induction false} NoCapacityMeansDust(bLeft: nat, ob: Order)
    ensures Capacity(Exact, bLeft, ob) == 0 <==> bLeft * ob.buyAmount < AtLeastOne(ob.sellAmount)
  {
    FloorBelow(1, bLeft * ob.buyAmount, AtLeastOne(ob.sellAmount));
  }

  /** Fill-or-kill: an order that forbids partial fills is untouched or sold completely. */
  lemma {:induction false} FillOrKill(bk: Book, k: nat)
    ensures k < |bk.aToB| && !bk.aToB[k].partialFill ==>
              SoldBy(Swept(bk).fillsAb, k) ==
              if FillsOf(Swept(bk).fillsAb, k) > 0 then bk.aToB[k].sellAmount else 0
    ensures k < |bk.bToA| && !bk.bToA[k].partialFill ==>
              SoldBy(Swept(bk).fillsBa, k) ==
              if FillsOf(Swept(bk).fillsBa, k) > 0 then bk.bToA[k].sellAmount else 0
  {
    SweptHasInv(bk);
    var s := Swept(bk);
    FillsOfPositive(s.fillsAb, k);
    FillsOfPositive(s.fillsBa, k);
    NoFillsNothingSold(s.fillsAb, k);
    NoFillsNothingSold(s.fillsBa, k);
  }

  lemma {:induction false} NoFillsNothingSold(legs: seq<Leg>, k: nat)
    ensures FillsOf(legs, k) == 0 ==> SoldBy(legs, k) == 0 && BoughtBy(legs, k) == 0
  {
    if legs != [] {
      NoFillsNothingSold(Init(legs), k);
    }
  }
}
