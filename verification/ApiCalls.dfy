/** The calls of the API server that reach the repository
    (`crates/oxdex-intent-pool/src/handlers.rs`). */
module ApiCalls {
  import opened Orders
  import opened Repository
  import opened Auction
  import opened Runs

  /** A request of the API server; whether a signature verifies is an opaque fact. */
  datatype ApiCall =
    | PlaceOrder(signed: SignedOrder, verifies: bool, clock: int)
    | WithdrawOrder(id: OrderId, owner: Address, clock: int)

  /** The repository after one call: an order is inserted only if it validates and its signature
      verifies. */
  function ServedOne(st: Store, call: ApiCall): Store {
    match call
    case PlaceOrder(signed, verifies, clock) =>
      if signed.order.Validate(clock).Valid? && verifies then Inserted(st, signed, clock) else st
    case WithdrawOrder(id, owner, clock) => CancelledIn(st, id, owner, clock)
  }

  /** The repository after the first `n` calls. */
  function Served(st: Store, calls: seq<ApiCall>, n: nat): Store
    requires n <= |calls|
  {
    if n == 0 then st else ServedOne(Served(st, calls, n - 1), calls[n - 1])
  }

  // ---------------------------------------------------------------- what the calls do to an order

  /** The call places order `id`: it is well-formed, not expired, and its signature verifies. */
  predicate Places(call: ApiCall, id: OrderId) {
    && call.PlaceOrder? && call.verifies && call.signed.order.Id() == id
    && call.signed.order.sellMint != call.signed.order.buyMint
    && call.signed.order.sellAmount > 0 && call.signed.order.buyAmount > 0
    && call.clock < call.signed.order.validTo
  }

  /** The call withdraws order `id` in the name of `owner`. */
  predicate Withdraws(call: ApiCall, id: OrderId, owner: Address) {
    call.WithdrawOrder? && call.id == id && call.owner == owner
  }

  /** Call `k` is the first to place order `id`. */
  predicate PlacesFirst(calls: seq<ApiCall>, k: int, id: OrderId) {
    && 0 <= k < |calls| && Places(calls[k], id)
    && forall j :: 0 <= j < k ==> !Places(calls[j], id)
  }

  /** An order is stored after the calls if and only if it was before or one of them placed it. */
  lemma {:induction false} StoredIffPlaced(st: Store, calls: seq<ApiCall>, n: nat, id: OrderId)
    requires n <= |calls|
    ensures id in Served(st, calls, n) <==> id in st || exists k :: 0 <= k < n && Places(calls[k], id)
  {
    if n > 0 {
      StoredIffPlaced(st, calls, n - 1, id);
    }
  }

  lemma {:induction false} FirstPlacing(calls: seq<ApiCall>, n: nat, id: OrderId) returns (k: nat)
    requires n <= |calls| && exists j :: 0 <= j < n && Places(calls[j], id)
    ensures k < n && PlacesFirst(calls, k, id)
  {
    k := 0;
    while !Places(calls[k], id)
      invariant k < n && forall j :: 0 <= j < k ==> !Places(calls[j], id)
      decreases n - k
    {
      k := k + 1;
    }
  }

  /** Of an order that was stored before, the calls change nothing unless it was open and its
      owner withdrew it; then it is cancelled. */
  lemma {:induction false} CancelledIffWithdrawn(st: Store, calls: seq<ApiCall>, n: nat, id: OrderId)
    requires n <= |calls| && id in st
    ensures id in Served(st, calls, n)
    ensures var r, r' := st[id], Served(st, calls, n)[id];
            if r.status == Open && exists k :: 0 <= k < n && Withdraws(calls[k], id, r.signed.order.owner)
            then r' == r.(status := Cancelled, updatedAt := r'.updatedAt)
            else r' == r
  {
    if n > 0 {
      CancelledIffWithdrawn(st, calls, n - 1, id);
    }
  }

  /** An order that was not stored before is stored as its first placing call signed it,
      unfilled, and open unless its owner withdrew it afterwards. */
  lemma {:induction false} PlacedThenWithdrawn(st: Store, calls: seq<ApiCall>, n: nat, id: OrderId, k: nat)
    requires n <= |calls| && id !in st && k < n && PlacesFirst(calls, k, id)
    ensures id in Served(st, calls, n)
    ensures var signed, r' := calls[k].signed, Served(st, calls, n)[id];
            && r'.id == id && r'.signed == signed && r'.filledSell == 0 == r'.filledBuy
            && r'.createdAt == calls[k].clock
            && r'.status == (if exists j :: k < j < n && Withdraws(calls[j], id, signed.order.owner) then Cancelled
                             else Open)
  {
    StoredIffPlaced(st, calls, n - 1, id);
    if k < n - 1 {
      PlacedThenWithdrawn(st, calls, n - 1, id, k);
    }
  }

  /** API calls are steps in whatever phase they land. */
  lemma {:induction false} ServingIsARun(w: World, calls: seq<ApiCall>, n: nat)
    requires n <= |calls|
    ensures Reaches(w, w.(store := Served(w.store, calls, n)))
  {
    if n == 0 {
      ReachesItself(w);
    } else {
      ServingIsARun(w, calls, n - 1);
      var w' := w.(store := Served(w.store, calls, n - 1));
      match calls[n - 1]
      case PlaceOrder(signed, verifies, clock) =>
        if signed.order.Validate(clock).Valid? && verifies {
          ReachesNext(w, w', Submit(signed, clock));
        }
      case WithdrawOrder(id, owner, clock) => ReachesNext(w, w', CancelOrder(id, owner, clock));
    }
  }
}
