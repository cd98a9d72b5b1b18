/** The in-memory order repository (`crates/oxdex-storage/src/memory.rs`). */
module Repository {
  import opened Numbers
  import opened Orders

  datatype OrderRecord = OrderRecord(
    id: OrderId,
    signed: SignedOrder,
    status: OrderStatus,
    filledSell: U64,
    filledBuy: U64,
    createdAt: int,
    updatedAt: int)

  datatype RepoError = Duplicate(id: OrderId) | NotFound(id: OrderId)

  datatype RepoResult<+T> = Ok(value: T) | Err(error: RepoError)

  type Store = map<OrderId, OrderRecord>

  function NewRecord(signed: SignedOrder, clock: int): OrderRecord {
    OrderRecord(signed.order.Id(), signed, Open, 0, 0, clock, clock)
  }

  function Inserted(st: Store, signed: SignedOrder, clock: int): Store {
    var id := signed.order.Id();
    if id in st then st else st[id := NewRecord(signed, clock)]
  }

  function Updated(st: Store, id: OrderId, status: OrderStatus, filledSell: Option<U64>, filledBuy: Option<U64>,
                   clock: int): Store
  {
    if id !in st then st
    else
      var r := st[id];
      st[id := r.(status := status,
                  filledSell := if filledSell.Some? then filledSell.value else r.filledSell,
                  filledBuy := if filledBuy.Some? then filledBuy.value else r.filledBuy,
                  updatedAt := clock)]
  }

  predicate Cancellable(st: Store, id: OrderId, owner: Address) {
    id in st && st[id].signed.order.owner == owner && st[id].status == Open
  }

  function CancelledIn(st: Store, id: OrderId, owner: Address, clock: int): Store {
    if Cancellable(st, id, owner) then st[id := st[id].(status := Cancelled, updatedAt := clock)] else st
  }

  predicate Due(r: OrderRecord, now: int) {
    r.status == Open && r.signed.order.validTo <= now
  }

  function DueIds(st: Store, now: int): set<OrderId> {
    set id | id in st && Due(st[id], now)
  }

  /** The entries `ids` marked expired. */
  function ExpiredIn(st: Store, ids: set<OrderId>, clock: int): Store {
    map id | id in st :: if id in ids then st[id].(status := Expired, updatedAt := clock) else st[id]
  }

  /** A sweep expires the open orders whose time has come and changes no other record. */
  lemma {:induction false} SweepExpiresTheDue(st: Store, now: int, clock: int)
    ensures var st' := ExpiredIn(st, DueIds(st, now), clock);
            && st'.Keys == st.Keys
            && DueIds(st, now) == (set id | id in st && st[id].status == Open && st'[id].status == Expired)
            && forall id :: id in st ==>
                 && (st[id].status == Open && st[id].signed.order.validTo <= now ==>
                       st'[id] == st[id].(status := Expired, updatedAt := clock))
                 && (st[id].status != Open || now < st[id].signed.order.validTo ==> st'[id] == st[id])
  {
    assert ExpiredIn(st, DueIds(st, now), clock).Keys == st.Keys;
  }

  predicate Matches(r: OrderRecord, pair: Option<(Address, Address)>) {
    pair.Some? ==> r.signed.order.sellMint == pair.value.0 && r.signed.order.buyMint == pair.value.1
  }

  class InMemoryOrderRepository {
    var inner: Store

    constructor ()
      ensures inner == map[]
    {
      inner := map[];
    }

    /** Inserting the same signed order again returns the stored record untouched; another
        signature over the same order is a duplicate. */
    method Insert(signed: SignedOrder, clock: int) returns (r: RepoResult<OrderRecord>)
      modifies this
      ensures inner == Inserted(old(inner), signed, clock)
      ensures var id := signed.order.Id();
              r == if id !in old(inner) then Ok(NewRecord(signed, clock))
                   else if old(inner)[id].signed == signed then Ok(old(inner)[id])
                   else Err(Duplicate(id))
      ensures inner.Keys == old(inner).Keys + {signed.order.Id()}
      ensures forall id :: id in old(inner) ==> inner[id] == old(inner)[id]
      ensures signed.order.Id() !in old(inner) ==>
                inner[signed.order.Id()] == OrderRecord(signed.order.Id(), signed, Open, 0, 0, clock, clock)
    {
      var id := signed.order.Id();
      var record := OrderRecord(id, signed, Open, 0, 0, clock, clock);
      if id !in inner {
        inner := inner[id := record];
        return Ok(record);
      }
      if inner[id].signed == record.signed {
        return Ok(inner[id]);
      }
      return Err(Duplicate(id));
    }

    method Get(id: OrderId) returns (r: RepoResult<OrderRecord>)
      ensures r == if id in inner then Ok(inner[id]) else Err(NotFound(id))
    {
      if id in inner {
        return Ok(inner[id]);
      }
      return Err(NotFound(id));
    }

    /** The open records of a pair (or of all pairs), each once, in whatever order the map is
        iterated; `ids` are the keys they are stored under. */
    method ListOpen(pair: Option<(Address, Address)>) returns (v: seq<OrderRecord>, ghost ids: seq<OrderId>)
      ensures |v| == |ids| && forall i, j :: 0 <= i < j < |ids| ==> ids[i] != ids[j]
      ensures forall id :: id in ids <==> id in inner && inner[id].status == Open && Matches(inner[id], pair)
      ensures forall k :: 0 <= k < |ids| ==> v[k] == inner[ids[k]]
      ensures forall r :: r in v <==> exists id :: id in inner && inner[id] == r && r.status == Open && Matches(r, pair)
      ensures forall r :: r in v && pair.Some? ==>
                r.signed.order.sellMint == pair.value.0 && r.signed.order.buyMint == pair.value.1
      ensures forall id :: id in inner && inner[id].status == Open ==>
                var o := inner[id].signed.order;
                inner[id] in v <==> pair == None || pair == Some((o.sellMint, o.buyMint))
    {
      v, ids := [], [];
      var pending := inner.Keys;
      while pending != {}
        invariant pending <= inner.Keys
        invariant |v| == |ids| && forall i, j :: 0 <= i < j < |ids| ==> ids[i] != ids[j]
        invariant forall id :: id in ids <==>
                    id in inner && id !in pending && inner[id].status == Open && Matches(inner[id], pair)
        invariant forall k :: 0 <= k < |ids| ==> v[k] == inner[ids[k]]
        decreases pending
      {
        var id :| id in pending;
        pending := pending - {id};
        var r := inner[id];
        if r.status == Open && Matches(r, pair) {
          assert id !in ids;
          v, ids := v + [r], ids + [id];
        }
      }
      forall r ensures r in v <==> exists id :: id in inner && inner[id] == r && r.status == Open && Matches(r, pair) {
        if r in v {
          var k :| 0 <= k < |v| && v[k] == r;
          assert ids[k] in ids;
        }
        if id :| id in inner && inner[id] == r && r.status == Open && Matches(r, pair) {
          var k :| 0 <= k < |ids| && ids[k] == id;
          assert v[k] == r;
        }
      }
    }

    /** Unconditional: whatever the current status is, it is overwritten. The fills change only
        if they are given, and nothing else in the repository changes. */
    method UpdateStatus(id: OrderId, status: OrderStatus, filledSell: Option<U64>, filledBuy: Option<U64>, clock: int)
      returns (r: RepoResult<()>)
      modifies this
      ensures inner == Updated(old(inner), id, status, filledSell, filledBuy, clock)
      ensures r == if id in old(inner) then Ok(()) else Err(NotFound(id))
      ensures id !in old(inner) ==> inner == old(inner)
      ensures id in old(inner) ==>
                && inner == old(inner)[id := inner[id]]
                && inner[id].status == status && inner[id].updatedAt == clock
                && inner[id].filledSell == (if filledSell == None then old(inner)[id].filledSell else filledSell.value)
                && inner[id].filledBuy == (if filledBuy == None then old(inner)[id].filledBuy else filledBuy.value)
                && inner[id].id == old(inner)[id].id && inner[id].signed == old(inner)[id].signed
                && inner[id].createdAt == old(inner)[id].createdAt
    {
      if id !in inner {
        return Err(NotFound(id));
      }
      var entry := inner[id].(status := status);
      if filledSell.Some? {
        entry := entry.(filledSell := filledSell.value);
      }
      if filledBuy.Some? {
        entry := entry.(filledBuy := filledBuy.value);
      }
      entry := entry.(updatedAt := clock);
      inner := inner[id := entry];
      return Ok(());
    }

    /** Only the owner cancels, and only an open order. */
    method Cancel(id: OrderId, owner: Address, clock: int) returns (r: RepoResult<bool>)
      modifies this
      ensures inner == CancelledIn(old(inner), id, owner, clock)
      ensures r == if id !in old(inner) then Err(NotFound(id)) else Ok(Cancellable(old(inner), id, owner))
      ensures id in old(inner) && old(inner)[id].signed.order.owner != owner ==>
                inner == old(inner) && r == Ok(false)
      ensures id in old(inner) && old(inner)[id].status != Open ==> inner == old(inner) && r == Ok(false)
      ensures id in old(inner) && old(inner)[id].signed.order.owner == owner && old(inner)[id].status == Open ==>
                && inner == old(inner)[id := old(inner)[id].(status := Cancelled, updatedAt := clock)]
                && r == Ok(true)
      ensures id !in old(inner) ==> inner == old(inner)
    {
      if id !in inner {
        return Err(NotFound(id));
      }
      var entry := inner[id];
      if entry.signed.order.owner != owner {
        return Ok(false);
      }
      if entry.status != Open {
        return Ok(false);
      }
      inner := inner[id := entry.(status := Cancelled, updatedAt := clock)];
      return Ok(true);
    }

    /** Sweep the map in whatever order it is iterated; the count is the number of orders that
        expired. */
    method ExpireDue(now: int, clock: int) returns (count: nat)
      modifies this
      ensures inner == ExpiredIn(old(inner), DueIds(old(inner), now), clock)
      ensures count == |DueIds(old(inner), now)|
      ensures inner.Keys == old(inner).Keys
      ensures forall id :: id in inner ==>
                var was := old(inner)[id];
                && (was.status == Open && was.signed.order.validTo <= now ==>
                      inner[id] == was.(status := Expired, updatedAt := clock))
                && (was.status != Open || now < was.signed.order.validTo ==> inner[id] == was)
      ensures count == |set id | id in inner && old(inner)[id].status == Open && inner[id].status == Expired|
    {
      count := 0;
      var pending := inner.Keys;
      ghost var swept: set<OrderId> := {};
      while pending != {}
        invariant pending <= inner.Keys == old(inner).Keys
        invariant swept == set id | id in old(inner) && id !in pending && Due(old(inner)[id], now)
        invariant inner == ExpiredIn(old(inner), swept, clock)
        invariant count == |swept|
        decreases pending
      {
        var id :| id in pending;
        pending := pending - {id};
        var e := inner[id];
        assert e == old(inner)[id];
        if e.status == Open && e.signed.order.validTo <= now {
          inner := inner[id := e.(status := Expired, updatedAt := clock)];
          count := count + 1;
          assert id !in swept;
          swept := swept + {id};
        }
      }
      assert swept == DueIds(old(inner), now);
      SweepExpiresTheDue(old(inner), now, clock);
    }
  }
}
