/** What the history of a run says about an order: who stored it, and what became of it. */
module Histories {
  import opened Orders
  import opened Auction

  /** The state before step `k` of a run. */
  ghost function StateBefore(w: World, steps: seq<Step>, k: nat): World
    requires ValidRun(w, steps) && k <= |steps|
    decreases k
  {
    if k == 0 then w else StateBefore(Next(w, steps[0]), steps[1..], k - 1)
  }

  lemma {:induction false} EndIsTheLastState(w: World, steps: seq<Step>)
    requires ValidRun(w, steps)
    ensures StateBefore(w, steps, |steps|) == End(w, steps)
    decreases |steps|
  {
    if steps != [] {
      EndIsTheLastState(Next(w, steps[0]), steps[1..]);
    }
  }

  // ---------------------------------------------------------------- what a step does to an order

  /** Step `k` submits the signed order, which is well-formed and not expired at that time. */
  ghost predicate SubmittedAt(steps: seq<Step>, k: int, signed: SignedOrder) {
    && 0 <= k < |steps| && steps[k].Submit? && steps[k].signed == signed
    && signed.order.sellMint != signed.order.buyMint
    && signed.order.sellAmount > 0 && signed.order.buyAmount > 0
    && steps[k].clock < signed.order.validTo
  }

  /** At step `k` the owner withdraws order `id`. */
  ghost predicate WithdrawnAt(w: World, steps: seq<Step>, k: int, id: OrderId)
    requires ValidRun(w, steps)
  {
    && 0 <= k < |steps| && steps[k].CancelOrder? && steps[k].id == id
    && id in StateBefore(w, steps, k).store
    && steps[k].owner == StateBefore(w, steps, k).store[id].signed.order.owner
  }

  /** At step `k` a sweep reaches order `id`, whose time has come. */
  ghost predicate LapsedAt(w: World, steps: seq<Step>, k: int, id: OrderId)
    requires ValidRun(w, steps)
  {
    && 0 <= k < |steps| && steps[k].ExpireOne? && steps[k].id == id
    && id in StateBefore(w, steps, k).store && StateBefore(w, steps, k).phase.Expiring?
    && StateBefore(w, steps, k).store[id].signed.order.validTo <= StateBefore(w, steps, k).phase.now
  }

  /** Step `k` marks a trade of order `id`. */
  ghost predicate MarkedAt(w: World, steps: seq<Step>, k: int, id: OrderId)
    requires ValidRun(w, steps)
  {
    && 0 <= k < |steps| && steps[k].MarkOne? && StateBefore(w, steps, k).phase.Marking?
    && var p := StateBefore(w, steps, k).phase;
       p.next < |p.winner.trades| && p.winner.trades[p.next].orderId == id
  }

  ghost predicate TouchedAt(w: World, steps: seq<Step>, k: int, id: OrderId)
    requires ValidRun(w, steps)
  {
    WithdrawnAt(w, steps, k, id) || LapsedAt(w, steps, k, id) || MarkedAt(w, steps, k, id)
  }

  lemma {:induction false} OneStepLater(w: World, steps: seq<Step>, k: nat, id: OrderId)
    requires ValidRun(w, steps) && steps != []
    ensures var w', rest := Next(w, steps[0]), steps[1..];
            && (WithdrawnAt(w, steps, k + 1, id) <==> WithdrawnAt(w', rest, k, id))
            && (LapsedAt(w, steps, k + 1, id) <==> LapsedAt(w', rest, k, id))
            && (MarkedAt(w, steps, k + 1, id) <==> MarkedAt(w', rest, k, id))
  {
    var rest := steps[1..];
    if k < |rest| {
      assert rest[k] == steps[k + 1];
      assert StateBefore(w, steps, k + 1) == StateBefore(Next(w, steps[0]), rest, k);
    }
  }

  /** The first step changes a stored order only if it withdraws, expires or marks it; only a
      mark changes an order that is no longer open. */
  lemma {:induction false} FirstStepChanges(w: World, steps: seq<Step>, id: OrderId)
    requires ValidRun(w, steps) && steps != [] && id in w.store
    ensures id in Next(w, steps[0]).store
    ensures var r, r' := w.store[id], Next(w, steps[0]).store[id];
            && r'.signed == r.signed
            && (MarkedAt(w, steps, 0, id) ==> r'.status == Auctioned)
            && (WithdrawnAt(w, steps, 0, id) && r.status == Open ==> r'.status == Cancelled)
            && (LapsedAt(w, steps, 0, id) && r.status == Open ==> r'.status == Expired)
            && (!TouchedAt(w, steps, 0, id) ==> r' == r)
            && (!MarkedAt(w, steps, 0, id) && r.status != Open ==> r' == r)
    ensures LapsedAt(w, steps, 0, id) ==> w.store[id].status == Open
  {
  }

  lemma {:induction false} AbsentOrders(w: World, steps: seq<Step>, id: OrderId)
    requires Inv(w) && ValidRun(w, steps) && steps != [] && id !in w.store
    ensures !TouchedAt(w, steps, 0, id)
    ensures id in Next(w, steps[0]).store ==>
              && Next(w, steps[0]).store[id].status == Open
              && SubmittedAt(steps, 0, Next(w, steps[0]).store[id].signed)
  {
  }

  // ---------------------------------------------------------------- what a run does to an order

  /** Every stored order was submitted, well-formed and before its time was up. */
  lemma {:induction false} StoredOrdersWereSubmitted(w: World, steps: seq<Step>, id: OrderId)
    requires Inv(w) && ValidRun(w, steps) && id !in w.store && id in End(w, steps).store
    ensures exists k :: SubmittedAt(steps, k, End(w, steps).store[id].signed)
    decreases |steps|
  {
    var w', rest := Next(w, steps[0]), steps[1..];
    StepKeepsInv(w, steps[0]);
    AbsentOrders(w, steps, id);
    if id in w'.store {
      RunKeepsInv(w', rest);
      assert SubmittedAt(steps, 0, End(w, steps).store[id].signed);
    } else {
      StoredOrdersWereSubmitted(w', rest, id);
      var k :| SubmittedAt(rest, k, End(w, steps).store[id].signed);
      assert steps[k + 1] == rest[k];
      assert SubmittedAt(steps, k + 1, End(w, steps).store[id].signed);
    }
  }

  ghost predicate EverMarked(w: World, steps: seq<Step>, id: OrderId)
    requires ValidRun(w, steps)
  {
    exists k :: MarkedAt(w, steps, k, id)
  }

  ghost predicate EverTouched(w: World, steps: seq<Step>, id: OrderId)
    requires ValidRun(w, steps)
  {
    exists k :: TouchedAt(w, steps, k, id)
  }

  /** No step before step `k` touches the order. */
  ghost predicate UntouchedBefore(w: World, steps: seq<Step>, k: int, id: OrderId)
    requires ValidRun(w, steps)
  {
    forall j :: 0 <= j < k ==> !TouchedAt(w, steps, j, id)
  }

  /** The first step that touches the order withdraws it. */
  ghost predicate WithdrawnFirst(w: World, steps: seq<Step>, id: OrderId)
    requires ValidRun(w, steps)
  {
    exists k :: WithdrawnAt(w, steps, k, id) && UntouchedBefore(w, steps, k, id)
  }

  /** The first step that touches the order is a sweep that finds its time has come. */
  ghost predicate LapsedFirst(w: World, steps: seq<Step>, id: OrderId)
    requires ValidRun(w, steps)
  {
    exists k :: LapsedAt(w, steps, k, id) && UntouchedBefore(w, steps, k, id)
  }

  lemma {:induction false} MarkedNowOrLater(w: World, steps: seq<Step>, id: OrderId)
    requires ValidRun(w, steps) && steps != []
    ensures EverMarked(w, steps, id) <==>
            MarkedAt(w, steps, 0, id) || EverMarked(Next(w, steps[0]), steps[1..], id)
  {
    var w', rest := Next(w, steps[0]), steps[1..];
    if k :| MarkedAt(w, steps, k, id) {
      if k > 0 {
        OneStepLater(w, steps, k - 1, id);
      }
    }
    if k :| MarkedAt(w', rest, k, id) {
      OneStepLater(w, steps, k, id);
    }
  }

  lemma {:induction false} TouchedNowOrLater(w: World, steps: seq<Step>, id: OrderId)
    requires ValidRun(w, steps) && steps != []
    ensures EverTouched(w, steps, id) <==>
            TouchedAt(w, steps, 0, id) || EverTouched(Next(w, steps[0]), steps[1..], id)
  {
    var w', rest := Next(w, steps[0]), steps[1..];
    if k :| TouchedAt(w, steps, k, id) {
      if k > 0 {
        OneStepLater(w, steps, k - 1, id);
        assert TouchedAt(w', rest, k - 1, id);
      }
    }
    if k :| TouchedAt(w', rest, k, id) {
      OneStepLater(w, steps, k, id);
      assert TouchedAt(w, steps, k + 1, id);
    }
  }

  lemma {:induction false} UntouchedOneLater(w: World, steps: seq<Step>, k: nat, id: OrderId)
    requires ValidRun(w, steps) && steps != [] && !TouchedAt(w, steps, 0, id)
    ensures UntouchedBefore(w, steps, k + 1, id) <==> UntouchedBefore(Next(w, steps[0]), steps[1..], k, id)
  {
    var w', rest := Next(w, steps[0]), steps[1..];
    forall j: nat ensures TouchedAt(w, steps, j + 1, id) <==> TouchedAt(w', rest, j, id) {
      OneStepLater(w, steps, j, id);
    }
    if UntouchedBefore(w', rest, k, id) {
      forall j | 0 <= j < k + 1 ensures !TouchedAt(w, steps, j, id) {
        assert j > 0 ==> !TouchedAt(w', rest, j - 1, id);
      }
    }
    if UntouchedBefore(w, steps, k + 1, id) {
      forall j | 0 <= j < k ensures !TouchedAt(w', rest, j, id) {
        assert !TouchedAt(w, steps, j + 1, id);
      }
    }
  }

  lemma {:induction false} WithdrawnFirstLater(w: World, steps: seq<Step>, id: OrderId)
    requires ValidRun(w, steps) && steps != [] && !TouchedAt(w, steps, 0, id)
    ensures WithdrawnFirst(w, steps, id) <==> WithdrawnFirst(Next(w, steps[0]), steps[1..], id)
  {
    var w', rest := Next(w, steps[0]), steps[1..];
    if k :| WithdrawnAt(w, steps, k, id) && UntouchedBefore(w, steps, k, id) {
      assert k != 0;
      OneStepLater(w, steps, k - 1, id);
      UntouchedOneLater(w, steps, k - 1, id);
    }
    if k :| WithdrawnAt(w', rest, k, id) && UntouchedBefore(w', rest, k, id) {
      OneStepLater(w, steps, k, id);
      UntouchedOneLater(w, steps, k, id);
    }
  }

  lemma {:induction false} LapsedFirstLater(w: World, steps: seq<Step>, id: OrderId)
    requires ValidRun(w, steps) && steps != [] && !TouchedAt(w, steps, 0, id)
    ensures LapsedFirst(w, steps, id) <==> LapsedFirst(Next(w, steps[0]), steps[1..], id)
  {
    var w', rest := Next(w, steps[0]), steps[1..];
    if k :| LapsedAt(w, steps, k, id) && UntouchedBefore(w, steps, k, id) {
      assert k != 0;
      OneStepLater(w, steps, k - 1, id);
      UntouchedOneLater(w, steps, k - 1, id);
    }
    if k :| LapsedAt(w', rest, k, id) && UntouchedBefore(w', rest, k, id) {
      OneStepLater(w, steps, k, id);
      UntouchedOneLater(w, steps, k, id);
    }
  }

  lemma {:induction false} FirstTouchIsNow(w: World, steps: seq<Step>, id: OrderId)
    requires ValidRun(w, steps) && steps != [] && TouchedAt(w, steps, 0, id)
    ensures WithdrawnFirst(w, steps, id) <==> WithdrawnAt(w, steps, 0, id)
    ensures LapsedFirst(w, steps, id) <==> LapsedAt(w, steps, 0, id)
    ensures EverTouched(w, steps, id)
  {
  }

  /** An order that is no longer open keeps its record until it is marked. */
  lemma {:induction false} ClosedOrdersOnlyGetMarked(w: World, steps: seq<Step>, id: OrderId)
    requires ValidRun(w, steps) && id in w.store && w.store[id].status != Open
    ensures id in End(w, steps).store
    ensures EverMarked(w, steps, id) ==> End(w, steps).store[id].status == Auctioned
    ensures !EverMarked(w, steps, id) ==> End(w, steps).store[id] == w.store[id]
    decreases |steps|
  {
    if steps != [] {
      FirstStepChanges(w, steps, id);
      MarkedNowOrLater(w, steps, id);
      ClosedOrdersOnlyGetMarked(Next(w, steps[0]), steps[1..], id);
    }
  }

  /** The status of an order tells its history, and the history decides the status: it is
      auctioned if and only if some step marked it; otherwise it is cancelled if and only if its
      owner was the first to touch it, expired if and only if a sweep at or past its time was,
      and open if and only if nothing was. */
  lemma {:induction false} StatusTellsTheHistory(w: World, steps: seq<Step>, id: OrderId)
    requires Inv(w) && ValidRun(w, steps) && id in End(w, steps).store
    requires id in w.store ==> w.store[id].status == Open
    ensures var status, marked := End(w, steps).store[id].status, EverMarked(w, steps, id);
            && (status == Auctioned <==> marked)
            && (status == Cancelled <==> !marked && WithdrawnFirst(w, steps, id))
            && (status == Expired <==> !marked && LapsedFirst(w, steps, id))
            && (status == Open <==> !EverTouched(w, steps, id))
    decreases |steps|
  {
    if steps != [] {
      var w', rest := Next(w, steps[0]), steps[1..];
      StepKeepsInv(w, steps[0]);
      MarkedNowOrLater(w, steps, id);
      if id in w.store {
        FirstStepChanges(w, steps, id);
      } else {
        AbsentOrders(w, steps, id);
      }
      if TouchedAt(w, steps, 0, id) {
        FirstTouchIsNow(w, steps, id);
        ClosedOrdersOnlyGetMarked(w', rest, id);
      } else {
        WithdrawnFirstLater(w, steps, id);
        LapsedFirstLater(w, steps, id);
        TouchedNowOrLater(w, steps, id);
        StatusTellsTheHistory(w', rest, id);
      }
    }
  }
}
