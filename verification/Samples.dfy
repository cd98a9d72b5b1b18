/** Sample orders, and the book of a list of orders that is already sorted. */
module Samples {
  import opened Numbers
  import opened Orders
  import opened Sorting
  import opened Sweep
  import opened BookCrossing
  import opened Settlement

  const FOREVER: int := 0x7FFF_FFFF_FFFF_FFFF

  /** An order of `owner` that allows partial fills and never expires. */
  function Offer(owner: Address, sellMint: Address, buyMint: Address, sell: U64, buy: U64): Order {
    Order(owner, sellMint, buyMint, sell, buy, FOREVER, 0, Sell, true, owner)
  }

  /** The repository would accept all the orders. */
  ghost predicate AllValid(orders: seq<Order>) {
    forall o, now :: o in orders && now < FOREVER ==> o.Validate(now).Valid?
  }

  lemma {:induction false} FilterAll(s: seq<Order>, f: Order -> bool)
    ensures (forall o :: o in s ==> f(o)) ==> Filter(s, f) == s
    ensures (forall o :: o in s ==> !f(o)) ==> Filter(s, f) == []
  {
    if s != [] {
      FilterAll(Init(s), f);
      assert Last(s) in s && s == Init(s) + [Last(s)];
    }
  }

  lemma {:induction false} FilterConcat(s: seq<Order>, t: seq<Order>, f: Order -> bool)
    ensures Filter(s + t, f) == Filter(s, f) + Filter(t, f)
  {
    if t == [] {
      assert s + t == s;
    } else {
      FilterConcat(s, Init(t), f);
      assert Init(s + t) == s + Init(t) && Last(s + t) == Last(t);
    }
  }

  /** The book trades the two tokens, each side in its own direction. */
  predicate TradesPair(tokenA: Address, tokenB: Address, bk: Book) {
    && (forall o :: o in bk.aToB ==> IsAToB(tokenA, tokenB, o))
    && (forall o :: o in bk.bToA ==> IsBToA(tokenA, tokenB, o))
  }

  lemma {:induction false} FilterSides(a: seq<Order>, b: seq<Order>, f: Order -> bool)
    requires (forall o :: o in a ==> f(o)) && (forall o :: o in b ==> !f(o))
    ensures Filter(a + b, f) == a && Filter(b + a, f) == a
  {
    FilterConcat(a, b, f);
    FilterConcat(b, a, f);
    FilterAll(a, f);
    FilterAll(b, f);
  }

  lemma {:induction false} SplitListing(tokenA: Address, tokenB: Address, a: seq<Order>, b: seq<Order>)
    requires TradesPair(tokenA, tokenB, Book(a, b))
    ensures SellersOfA(tokenA, tokenB, a + b) == a && SellersOfB(tokenA, tokenB, a + b) == b
  {
    FilterSides(a, b, o => IsAToB(tokenA, tokenB, o));
    FilterSides(b, a, o => IsBToA(tokenA, tokenB, o));
  }

  /** Listing a sorted book side by side gives the book back. */
  lemma {:induction false} BookOfListing(tokenA: Address, tokenB: Address, bk: Book)
    requires SortedBook(bk) && TradesPair(tokenA, tokenB, bk)
    ensures BookOf(tokenA, tokenB, bk.aToB + bk.bToA) == bk
  {
    SplitListing(tokenA, tokenB, bk.aToB, bk.bToA);
    SortOfSorted(bk.aToB);
    SortOfSorted(bk.bToA);
  }

  /** The loop ends once a side is exhausted. */
  lemma {:induction false} RunEnds(m: Arith, bk: Book, s: State)
    requires Fits(bk, s) && (s.i == |bk.aToB| || s.j == |bk.bToA|)
    ensures Run(m, bk, s) == s
  {
  }

  /** One iteration, when its move is known. */
  lemma {:induction false} OneStep(m: Arith, bk: Book, s: State, move: Move)
    requires Fits(bk, s) && !Done(m, bk, s) && MoveAt(m, bk, s) == move
    ensures Fits(bk, Perform(s, move)) && Run(m, bk, s) == Run(m, bk, Perform(s, move))
  {
  }
}
