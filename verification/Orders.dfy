/** Orders, solutions and their parts (`crates/oxdex-types`). */
module Orders {
  import opened Numbers
  import opened Prices

  /** A 32-byte key, read as a big-endian number so that `<=` is the byte order. */
  type Address = nat

  datatype Option<+T> = None | Some(value: T)

  datatype OrderKind = Sell | Buy

  datatype OrderStatus = Open | Auctioned | Filled | PartiallyFilled | Cancelled | Expired

  datatype Validation = Valid | EqualMints | ZeroSell | ZeroBuy | AlreadyExpired

  datatype Order = Order(
    owner: Address,
    sellMint: Address,
    buyMint: Address,
    sellAmount: U64,
    buyAmount: U64,
    validTo: int,
    nonce: U64,
    kind: OrderKind,
    partialFill: bool,
    receiver: Address)
  {
    /** The content address. The hash is idealised as injective: an id is represented by
        the order it was computed from. */
    function Id(): OrderId {
      OrderId(this)
    }

    function Validate(now: int): Validation {
      if sellMint == buyMint then EqualMints
      else if sellAmount == 0 then ZeroSell
      else if buyAmount == 0 then ZeroBuy
      else if validTo <= now then AlreadyExpired
      else Valid
    }

    /** `buy_amount / max(sell_amount, 1)` */
    function LimitPrice(): (p: Price)
      ensures IsU64Price(p)
    {
      Price(buyAmount, AtLeastOne(sellAmount))
    }
  }

  datatype OrderId = OrderId(preimage: Order)

  datatype SignedOrder = SignedOrder(order: Order, signature: seq<bv8>)

  datatype ClearingPrice = ClearingPrice(mint: Address, price: Price)

  datatype Trade = Trade(orderId: OrderId, executedSell: U64, executedBuy: U64)

  datatype Solution = Solution(
    batchId: nat,
    solver: Address,
    clearingPrices: seq<ClearingPrice>,
    trades: seq<Trade>,
    score: nat)

  datatype Batch = Batch(id: nat, sealedAt: int, orders: seq<SignedOrder>)
}
