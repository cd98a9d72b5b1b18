/** Grouping a batch by token pair and merging the markets (`match_batch`). */
module Batches {
  import opened Numbers
  import opened Orders
  import opened Sorting
  import opened Sweep
  import opened Settlement
  import opened Exactness
  import opened MatchPair

  /** An unordered token pair, smaller mint first. */
  datatype Pair = Pair(a: Address, b: Address)

  function CanonicalPair(x: Address, y: Address): Pair {
    if x <= y then Pair(x, y) else Pair(y, x)
  }

  function PairOf(o: Order): Pair {
    CanonicalPair(o.sellMint, o.buyMint)
  }

  function Group(orders: seq<Order>, key: Pair): seq<Order> {
    Filter(orders, o => PairOf(o) == key)
  }

  /** The pairs of a batch, in order of first appearance. */
  function Pairs(orders: seq<Order>): seq<Pair> {
    if orders == [] then []
    else
      var rest := Pairs(Init(orders));
      if PairOf(Last(orders)) in rest then rest else rest + [PairOf(Last(orders))]
  }

  /** Both directions of a market meet in one group; the branch that skips an order belonging
      to neither direction is never taken. */
  lemma {:induction false} GroupsMeet(orders: seq<Order>, key: Pair, o: Order)
    ensures o in Group(orders, key) <==> o in orders && PairOf(o) == key
    ensures o in Group(orders, key) ==> IsAToB(key.a, key.b, o) || IsBToA(key.a, key.b, o)
    ensures IsAToB(key.a, key.b, o) && o in orders && key.a <= key.b ==> o in Group(orders, key)
    ensures IsBToA(key.a, key.b, o) && o in orders && key.a <= key.b ==> o in Group(orders, key)
  {
    FilterMembers(orders, x => PairOf(x) == key, o);
  }

  predicate Distinct<T(==)>(s: seq<T>) {
    forall i, j :: 0 <= i < j < |s| ==> s[i] != s[j]
  }

  lemma {:induction false} PairsAreTheKeys(orders: seq<Order>)
    ensures Distinct(Pairs(orders))
    ensures forall key :: key in Pairs(orders) <==> exists o :: o in orders && PairOf(o) == key
  {
    if orders != [] {
      var rest, o := Init(orders), Last(orders);
      PairsAreTheKeys(rest);
      assert orders == rest + [o];
      forall key ensures key in Pairs(orders) <==> exists x :: x in orders && PairOf(x) == key {
        if key in Pairs(orders) {
          if key in Pairs(rest) {
            var x :| x in rest && PairOf(x) == key;
            assert x in orders;
          } else {
            assert o in orders && PairOf(o) == key;
          }
        }
        if x :| x in orders && PairOf(x) == key {
          assert x in rest || x == o;
        }
      }
    }
  }

  // ---------------------------------------------------------------- merging

  /** What a batch reports, up to listing order and before the score saturates. */
  datatype Totals = Totals(trades: multiset<Trade>, clearing: multiset<ClearingPrice>, surplus: nat)

  const NOTHING := Totals(multiset{}, multiset{}, 0)

  function Plus(x: Totals, y: Totals): Totals {
    Totals(x.trades + y.trades, x.clearing + y.clearing, x.surplus + y.surplus)
  }

  /** The sum of all per-order gains of a market. */
  ghost function RawSurplus(m: Arith, key: Pair, orders: seq<Order>): nat {
    var bk := BookOf(key.a, key.b, orders);
    FinalStateFacts(m, bk);
    var s := Run(m, bk, Start(bk));
    if s.fillsAb == [] then 0 else TotalSurplus(m, bk, s)
  }

  ghost function MarketTotals(m: Arith, orders: seq<Order>, key: Pair): Totals {
    var out := PairOutcome(m, key.a, key.b, Group(orders, key));
    Totals(multiset(out.trades), multiset(out.clearing), RawSurplus(m, key, Group(orders, key)))
  }

  /** Each pair's share of a batch. */
  ghost function Share(m: Arith, orders: seq<Order>): Pair -> Totals {
    key => MarketTotals(m, orders, key)
  }

  ghost function SumOver(f: Pair -> Totals, keys: seq<Pair>): Totals {
    if keys == [] then NOTHING else Plus(SumOver(f, Init(keys)), f(Last(keys)))
  }

  /** The outcome of a batch: the sum over its markets. */
  ghost function BatchTotals(m: Arith, orders: seq<Order>): Totals {
    SumOver(Share(m, orders), Pairs(orders))
  }

  function Without<T>(s: seq<T>, k: nat): seq<T>
    requires k < |s|
  {
    s[..k] + s[k + 1..]
  }

  lemma {:induction false} WithoutBeforeLast<T>(s: seq<T>, k: nat)
    requires k < |s| - 1
    ensures Without(s, k) != [] && Init(Without(s, k)) == Without(Init(s), k)
    ensures Last(Without(s, k)) == Last(s)
  {
  }

  lemma {:induction false} WithoutLast<T>(s: seq<T>)
    requires s != []
    ensures Without(s, |s| - 1) == Init(s)
  {
  }

  lemma {:induction false} SumWithout(f: Pair -> Totals, keys: seq<Pair>, k: nat)
    requires k < |keys|
    ensures SumOver(f, keys) == Plus(SumOver(f, Without(keys, k)), f(keys[k]))
  {
    if k == |keys| - 1 {
      WithoutLast(keys);
    } else {
      SumWithout(f, Init(keys), k);
      WithoutBeforeLast(keys, k);
      PlusSwap(SumOver(f, Without(Init(keys), k)), f(keys[k]), f(Last(keys)));
    }
  }

  lemma {:induction false} PlusSwap(x: Totals, y: Totals, z: Totals)
    ensures Plus(Plus(x, y), z) == Plus(Plus(x, z), y)
  {
  }

  /** Permutations stay permutations when one copy of an element is removed from both. */
  lemma {:induction false} RemoveFromBoth<T>(s: seq<T>, t: seq<T>) returns (k: nat)
    requires s != [] && multiset(s) == multiset(t)
    ensures k < |t| && t[k] == Last(s) && multiset(Init(s)) == multiset(Without(t, k))
  {
    MultisetWithout(s, |s| - 1);
    assert Last(s) in multiset(t);
    k :| k < |t| && t[k] == Last(s);
    MultisetWithout(t, k);
  }

  lemma {:induction false} MultisetWithout<T>(s: seq<T>, k: nat)
    requires k < |s|
    ensures multiset(Without(s, k)) == multiset(s) - multiset{s[k]}
  {
    assert s == s[..k] + [s[k]] + s[k + 1..];
  }

  /** The processing order of the markets does not matter. */
  lemma {:induction false} ScheduleDoesNotMatter(f: Pair -> Totals, keys: seq<Pair>, keys': seq<Pair>)
    requires multiset(keys) == multiset(keys')
    ensures SumOver(f, keys) == SumOver(f, keys')
  {
    if keys == [] {
      assert |multiset(keys')| == 0;
    } else {
      var k := RemoveFromBoth(keys, keys');
      SumWithout(f, keys', k);
      ScheduleDoesNotMatter(f, Init(keys), Without(keys', k));
    }
  }

  lemma {:induction false} DistinctWithSameElements<T>(s: seq<T>, t: seq<T>)
    requires Distinct(s) && Distinct(t) && forall x :: x in s <==> x in t
    ensures multiset(s) == multiset(t)
  {
    DistinctCounts(s);
    DistinctCounts(t);
  }

  lemma {:induction false} DistinctCounts<T>(s: seq<T>)
    requires Distinct(s)
    ensures forall x :: multiset(s)[x] == if x in s then 1 else 0
  {
    if s != [] {
      DistinctCounts(Init(s));
      assert s == Init(s) + [Last(s)];
    }
  }

  // ---------------------------------------------------------------- the method

  function OrdersOf(signed: seq<SignedOrder>): seq<Order> {
    seq(|signed|, k requires 0 <= k < |signed| => signed[k].order)
  }

  /** Group the orders by canonical pair. */
  method GroupByPair(signed: seq<SignedOrder>) returns (groups: map<Pair, seq<Order>>)
    ensures forall key :: key in groups <==> key in Pairs(OrdersOf(signed))
    ensures forall key :: key in groups ==> groups[key] == Group(OrdersOf(signed), key)
  {
    var orders := OrdersOf(signed);
    groups := map[];
    for n := 0 to |signed|
      invariant forall key :: key in groups <==> key in Pairs(orders[..n])
      invariant forall key :: key in groups ==> groups[key] == Group(orders[..n], key)
      invariant forall key :: key !in groups ==> Group(orders[..n], key) == []
    {
      var o := signed[n].order;
      var key := CanonicalPair(o.sellMint, o.buyMint);
      assert Init(orders[..n + 1]) == orders[..n] && Last(orders[..n + 1]) == o;
      var entry := if key in groups then groups[key] else [];
      groups := groups[key := entry + [o]];
    }
    assert orders[..|signed|] == orders;
  }

  ghost predicate Merged(orders: seq<Order>, visited: seq<Pair>, clearing: seq<ClearingPrice>,
                         trades: seq<Trade>, score: nat)
  {
    var t := SumOver(Share(Machine, orders), visited);
    multiset(trades) == t.trades && multiset(clearing) == t.clearing && score == Saturate(Machine, t.surplus)
  }

  lemma {:induction false} SumOneMore(f: Pair -> Totals, visited: seq<Pair>, key: Pair)
    ensures SumOver(f, visited + [key]) == Plus(SumOver(f, visited), f(key))
  {
  }

  lemma {:induction false} MarketIsMerged(orders: seq<Order>, key: Pair, p: Outcome)
    requires SameOutcome(p, PairOutcome(Machine, key.a, key.b, Group(orders, key)))
    ensures var y := Share(Machine, orders)(key);
            && multiset(p.trades) == y.trades && multiset(p.clearing) == y.clearing
            && p.surplus == Saturate(Machine, y.surplus)
  {
  }

  lemma {:induction false} MergeOneMore(orders: seq<Order>, visited: seq<Pair>, key: Pair, clearing: seq<ClearingPrice>,
                                        trades: seq<Trade>, score: nat, p: Outcome)
    requires Merged(orders, visited, clearing, trades, score)
    requires SameOutcome(p, PairOutcome(Machine, key.a, key.b, Group(orders, key)))
    ensures Merged(orders, visited + [key], clearing + p.clearing, trades + p.trades, Add(Machine, score, p.surplus))
  {
    var f := Share(Machine, orders);
    MarketIsMerged(orders, key, p);
    SumOneMore(f, visited, key);
  }

  /** Once every pair is merged, in whatever order, the totals are those of the batch. */
  lemma {:induction false} AllMerged(orders: seq<Order>, visited: seq<Pair>, clearing: seq<ClearingPrice>,
                                     trades: seq<Trade>, score: nat)
    requires Merged(orders, visited, clearing, trades, score) && Distinct(visited)
    requires forall key :: key in visited <==> key in Pairs(orders)
    ensures multiset(trades) == BatchTotals(Machine, orders).trades
    ensures multiset(clearing) == BatchTotals(Machine, orders).clearing
    ensures score == Saturate(Machine, BatchTotals(Machine, orders).surplus)
  {
    PairsAreTheKeys(orders);
    DistinctWithSameElements(visited, Pairs(orders));
    ScheduleDoesNotMatter(Share(Machine, orders), visited, Pairs(orders));
  }

  /** Match a batch, taking the markets in whatever order the hash map (or the thread pool)
      yields them. The reported trades, prices and score are those of `BatchTotals`. */
  method MatchBatch(batchId: nat, solver: Address, signed: seq<SignedOrder>) returns (solution: Solution)
    ensures solution.batchId == batchId && solution.solver == solver
    ensures multiset(solution.trades) == BatchTotals(Machine, OrdersOf(signed)).trades
    ensures multiset(solution.clearingPrices) == BatchTotals(Machine, OrdersOf(signed)).clearing
    ensures solution.score == Saturate(Machine, BatchTotals(Machine, OrdersOf(signed)).surplus)
  {
    ghost var orders := OrdersOf(signed);
    var groups := GroupByPair(signed);
    var clearing, trades, score := [], [], 0;
    var pending := groups.Keys;
    ghost var visited: seq<Pair> := [];
    while pending != {}
      invariant Distinct(visited)
      invariant forall key :: key in visited <==> key in groups && key !in pending
      invariant pending <= groups.Keys
      invariant Merged(orders, visited, clearing, trades, score)
      decreases pending
    {
      var key :| key in pending;
      pending := pending - {key};
      var p := MatchPair.MatchPair(key.a, key.b, groups[key]);
      MergeOneMore(orders, visited, key, clearing, trades, score, p);
      visited := visited + [key];
      clearing := clearing + p.clearing;
      trades := trades + p.trades;
      score := Add(Machine, score, p.surplus);
    }
    AllMerged(orders, visited, clearing, trades, score);
    solution := Solution(batchId, solver, clearing, trades, score);
  }
}
