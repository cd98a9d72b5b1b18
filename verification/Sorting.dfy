/** The stable `sort_by_key(limit_price)` that orders each side of a market. */
module Sorting {
  import opened Prices
  import opened Orders

  predicate Precedes(x: Order, y: Order) {
    Cmp(x.LimitPrice(), y.LimitPrice()) != Greater
  }

  predicate Sorted(s: seq<Order>) {
    forall i, j {:trigger Le(s[i].LimitPrice(), s[j].LimitPrice())} ::
      0 <= i < j < |s| ==> Le(s[i].LimitPrice(), s[j].LimitPrice())
  }

  lemma {:induction false} CheaperInFront(s: seq<Order>, i: nat, j: nat)
    requires Sorted(s) && i <= j < |s|
    ensures Le(s[i].LimitPrice(), s[j].LimitPrice())
  {
  }

  function Last<T>(s: seq<T>): T
    requires s != []
  {
    s[|s| - 1]
  }

  function Init<T>(s: seq<T>): seq<T>
    requires s != []
  {
    s[..|s| - 1]
  }

  /** Place an order behind everything that does not cost more. */
  function InsertAfterTies(s: seq<Order>, o: Order): seq<Order> {
    if s == [] || Precedes(Last(s), o) then s + [o]
    else InsertAfterTies(Init(s), o) + [Last(s)]
  }

  function SortByLimitPrice(s: seq<Order>): seq<Order> {
    if s == [] then [] else InsertAfterTies(SortByLimitPrice(Init(s)), Last(s))
  }

  predicate Ties(o: Order, p: Price) {
    Same(o.LimitPrice(), p)
  }

  /** The orders limited at price `p`, in sequence order. */
  function TiesOf(s: seq<Order>, p: Price): seq<Order> {
    if s == [] then []
    else TiesOf(Init(s), p) + if Ties(Last(s), p) then [Last(s)] else []
  }

  lemma {:induction false} PrecedesIsLe(x: Order, y: Order)
    ensures Precedes(x, y) <==> Le(x.LimitPrice(), y.LimitPrice())
  {
    LimitOrderIsExact(x.LimitPrice(), y.LimitPrice(), x.LimitPrice());
  }

  lemma {:induction false} SameTransitive(p: Price, q: Price, r: Price)
    requires p.den > 0 && q.den > 0 && r.den > 0
    requires Same(p, q) && Same(q, r)
    ensures Same(p, r)
  {
    LeTransitive(p, q, r);
    LeTransitive(r, q, p);
  }

  lemma {:induction false} InsertSorts(s: seq<Order>, o: Order)
    requires Sorted(s)
    ensures Sorted(InsertAfterTies(s, o))
    ensures multiset(InsertAfterTies(s, o)) == multiset(s) + multiset{o}
  {
    if s != [] {
      PrecedesIsLe(Last(s), o);
      assert s == Init(s) + [Last(s)];
      if Precedes(Last(s), o) {
        forall i | 0 <= i < |s| ensures Le(s[i].LimitPrice(), o.LimitPrice()) {
          if i < |s| - 1 {
            LeTransitive(s[i].LimitPrice(), Last(s).LimitPrice(), o.LimitPrice());
          }
        }
      } else {
        var t := InsertAfterTies(Init(s), o);
        InsertSorts(Init(s), o);
        forall i | 0 <= i < |t| ensures Le(t[i].LimitPrice(), Last(s).LimitPrice()) {
          assert t[i] in multiset(t);
          assert t[i] == o || t[i] in Init(s);
        }
      }
    }
  }

  /** Sorting orders a side by price and only rearranges it. */
  lemma {:induction false} SortSorts(s: seq<Order>)
    ensures Sorted(SortByLimitPrice(s))
    ensures multiset(SortByLimitPrice(s)) == multiset(s)
    ensures |SortByLimitPrice(s)| == |s|
  {
    if s != [] {
      SortSorts(Init(s));
      InsertSorts(SortByLimitPrice(Init(s)), Last(s));
      assert s == Init(s) + [Last(s)];
    }
    assert |multiset(SortByLimitPrice(s))| == |multiset(s)|;
  }

  lemma {:induction false} InsertKeepsTies(s: seq<Order>, o: Order, p: Price)
    requires p.den > 0
    ensures TiesOf(InsertAfterTies(s, o), p) == TiesOf(s, p) + if Ties(o, p) then [o] else []
  {
    if s == [] || Precedes(Last(s), o) {
      assert Init(s + [o]) == s;
    } else {
      InsertKeepsTies(Init(s), o, p);
      assert Init(InsertAfterTies(Init(s), o) + [Last(s)]) == InsertAfterTies(Init(s), o);
      PrecedesIsLe(Last(s), o);
      if Ties(o, p) && Ties(Last(s), p) {
        SameTransitive(Last(s).LimitPrice(), p, o.LimitPrice());
      }
    }
  }

  /** Stability: orders limited at the same price keep their arrival order. */
  lemma {:induction false} SortIsStable(s: seq<Order>, p: Price)
    requires p.den > 0
    ensures TiesOf(SortByLimitPrice(s), p) == TiesOf(s, p)
  {
    if s != [] {
      SortIsStable(Init(s), p);
      InsertKeepsTies(SortByLimitPrice(Init(s)), Last(s), p);
    }
  }

  /** The same arrival order inside every price level. */
  ghost predicate SameTieOrder(s: seq<Order>, t: seq<Order>) {
    forall p: Price :: p.den > 0 ==> TiesOf(s, p) == TiesOf(t, p)
  }

  lemma {:induction false} TiesMember(s: seq<Order>, p: Price)
    requires TiesOf(s, p) != []
    ensures exists k :: 0 <= k < |s| && Ties(s[k], p)
  {
    if Ties(Last(s), p) {
      assert Ties(s[|s| - 1], p);
    } else {
      TiesMember(Init(s), p);
      var k :| 0 <= k < |Init(s)| && Ties(Init(s)[k], p);
      assert Ties(s[k], p);
    }
  }

  lemma {:induction false} LastIsDearest(s: seq<Order>, p: Price)
    requires p.den > 0 && Sorted(s) && TiesOf(s, p) != []
    ensures s != [] && Le(p, Last(s).LimitPrice())
  {
    TiesMember(s, p);
    var k :| 0 <= k < |s| && Ties(s[k], p);
    CheaperInFront(s, k, |s| - 1);
    DearerThanATie(s[k], p, Last(s).LimitPrice());
  }

  lemma {:induction false} DearerThanATie(o: Order, p: Price, q: Price)
    requires p.den > 0 && q.den > 0 && Ties(o, p) && Le(o.LimitPrice(), q)
    ensures Le(p, q)
  {
    LeTransitive(p, o.LimitPrice(), q);
  }

  lemma {:induction false} SameLevel(p: Price, q: Price)
    requires Le(p, q) && Le(q, p)
    ensures Same(p, q)
  {
  }

  lemma {:induction false} TiesWithoutLast(s: seq<Order>, p: Price)
    requires s != []
    ensures Ties(Last(s), p) ==> TiesOf(s, p) != [] && TiesOf(Init(s), p) == Init(TiesOf(s, p))
    ensures !Ties(Last(s), p) ==> TiesOf(Init(s), p) == TiesOf(s, p)
  {
  }

  /** The dearest orders of two sides with the same ties are the same order. */
  lemma {:induction false} SameLast(u: seq<Order>, v: seq<Order>)
    requires Sorted(u) && Sorted(v) && SameTieOrder(u, v) && u != [] && v != []
    ensures Last(u) == Last(v)
  {
    var p, q := Last(u).LimitPrice(), Last(v).LimitPrice();
    LastTiesWithItself(u);
    LastTiesWithItself(v);
    assert TiesOf(u, p) == TiesOf(v, p) && TiesOf(u, q) == TiesOf(v, q);
    LastIsDearest(v, p);
    LastIsDearest(u, q);
    SameLevel(p, q);
    assert Ties(Last(v), p) && Ties(Last(u), p);
    assert Last(TiesOf(u, p)) == Last(u) && Last(TiesOf(v, p)) == Last(v);
  }

  lemma {:induction false} LastTiesWithItself(s: seq<Order>)
    ensures s != [] ==> TiesOf(s, Last(s).LimitPrice()) != []
    ensures forall p: Price :: TiesOf([], p) == []
  {
  }

  /** A sorted side is determined by the arrival order inside each price level. */
  lemma {:induction false} SortedIsDeterminedByTies(u: seq<Order>, v: seq<Order>)
    requires Sorted(u) && Sorted(v) && SameTieOrder(u, v)
    ensures u == v
  {
    LastTiesWithItself(u);
    LastTiesWithItself(v);
    if u != [] && v != [] {
      SameLast(u, v);
      forall r: Price | r.den > 0 ensures TiesOf(Init(u), r) == TiesOf(Init(v), r) {
        assert TiesOf(u, r) == TiesOf(v, r);
        TiesWithoutLast(u, r);
        TiesWithoutLast(v, r);
      }
      SortedIsDeterminedByTies(Init(u), Init(v));
      assert u == Init(u) + [Last(u)] && v == Init(v) + [Last(v)];
    }
  }

  /** The result of a stable sort is unique: two lists are sorted alike if and only if they
      agree on the arrival order inside every price level. */
  lemma {:induction false} SortForgetsArrivalOrder(s: seq<Order>, t: seq<Order>)
    ensures SortByLimitPrice(s) == SortByLimitPrice(t) <==> SameTieOrder(s, t)
  {
    SortSorts(s);
    SortSorts(t);
    forall p: Price | p.den > 0
      ensures TiesOf(SortByLimitPrice(s), p) == TiesOf(s, p)
      ensures TiesOf(SortByLimitPrice(t), p) == TiesOf(t, p)
    {
      SortIsStable(s, p);
      SortIsStable(t, p);
    }
    if SameTieOrder(s, t) {
      SortedIsDeterminedByTies(SortByLimitPrice(s), SortByLimitPrice(t));
    }
  }

  lemma {:induction false} SortOfSorted(s: seq<Order>)
    requires Sorted(s)
    ensures SortByLimitPrice(s) == s
  {
    SortSorts(s);
    forall p: Price | p.den > 0 ensures TiesOf(SortByLimitPrice(s), p) == TiesOf(s, p) {
      SortIsStable(s, p);
    }
    SortedIsDeterminedByTies(SortByLimitPrice(s), s);
  }

  predicate DistinctPrices(s: seq<Order>) {
    forall i, j :: 0 <= i < j < |s| ==> !Same(s[i].LimitPrice(), s[j].LimitPrice())
  }

  lemma {:induction false} TiesCount(s: seq<Order>, p: Price, o: Order)
    ensures multiset(TiesOf(s, p))[o] == if Ties(o, p) then multiset(s)[o] else 0
  {
    if s != [] {
      TiesCount(Init(s), p, o);
      assert s == Init(s) + [Last(s)];
    }
  }

  lemma {:induction false} DistinctPricesTieAtMostOnce(s: seq<Order>, p: Price)
    requires p.den > 0 && DistinctPrices(s)
    ensures |TiesOf(s, p)| <= 1
  {
    if s != [] {
      DistinctPricesTieAtMostOnce(Init(s), p);
      if Ties(Last(s), p) && TiesOf(Init(s), p) != [] {
        TiesMember(Init(s), p);
        var k :| 0 <= k < |Init(s)| && Ties(Init(s)[k], p);
        SameTransitive(s[k].LimitPrice(), p, Last(s).LimitPrice());
        assert false;
      }
    }
  }

  lemma {:induction false} TiesOfPermutation(s: seq<Order>, t: seq<Order>, p: Price)
    requires multiset(s) == multiset(t)
    ensures multiset(TiesOf(s, p)) == multiset(TiesOf(t, p))
  {
    forall o: Order ensures multiset(TiesOf(s, p))[o] == multiset(TiesOf(t, p))[o] {
      TiesCount(s, p, o);
      TiesCount(t, p, o);
    }
  }

  lemma {:induction false} ShortSequencesMatch<T>(u: seq<T>, v: seq<T>)
    requires multiset(u) == multiset(v) && |u| <= 1
    ensures u == v
  {
    assert |u| == |multiset(u)| == |multiset(v)| == |v|;
    if |u| == 1 {
      assert u[0] in multiset(v);
    }
  }

  /** Pairwise different prices leave no ties, so any two arrival orders agree. */
  lemma {:induction false} DistinctPricesHaveNoTies(s: seq<Order>, t: seq<Order>)
    requires multiset(s) == multiset(t) && DistinctPrices(s)
    ensures SameTieOrder(s, t)
  {
    forall p: Price | p.den > 0 ensures TiesOf(s, p) == TiesOf(t, p) {
      TiesOfPermutation(s, t, p);
      DistinctPricesTieAtMostOnce(s, p);
      ShortSequencesMatch(TiesOf(s, p), TiesOf(t, p));
    }
  }
}
