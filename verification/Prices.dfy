/** Rational prices (`crates/oxdex-types/src/price.rs`). */
module Prices {
  import opened Numbers

  datatype Ordering = Less | Equal | Greater

  /** A price `num / den`; only `New` guards the denominator, as in the program. */
  datatype Price = Price(num: nat, den: nat)

  datatype NewPrice = Made(price: Price) | ZeroDenominator

  function New(num: nat, den: nat): NewPrice {
    if den == 0 then ZeroDenominator else Made(Price(num, den))
  }

  /** Floor of `sell * num / den`; the checked product falls back to the u128 maximum. */
  function Apply(m: Arith, p: Price, sell: nat): nat
    requires p.den > 0
  {
    if m.Machine? && sell * p.num > U128_MAX then U128_MAX else sell * p.num / p.den
  }

  function Compare(x: nat, y: nat): Ordering {
    if x < y then Less else if x == y then Equal else Greater
  }

  /** `Ord::cmp`, on saturated cross products. */
  function Cmp(p: Price, q: Price): Ordering {
    Compare(Mul(Machine, p.num, q.den), Mul(Machine, q.num, p.den))
  }

  predicate GeRational(p: Price, q: Price) {
    Mul(Machine, p.num, q.den) >= Mul(Machine, q.num, p.den)
  }

  /** `p <= q` as rational numbers. */
  predicate Le(p: Price, q: Price) {
    p.num * q.den <= q.num * p.den
  }

  predicate Lt(p: Price, q: Price) {
    p.num * q.den < q.num * p.den
  }

  /** Equality as rational numbers. */
  predicate Same(p: Price, q: Price) {
    p.num * q.den == q.num * p.den
  }

  /** Prices made of two u64 amounts, as every limit price is. */
  predicate IsU64Price(p: Price) {
    p.num <= U64_MAX && 0 < p.den <= U64_MAX
  }

  /** The saturating comparison is the rational one exactly when the cross products are
      equal or one of them stays below the u128 maximum. */
  lemma {:induction false} CmpExactIff(p: Price, q: Price)
    ensures Cmp(p, q) == Compare(p.num * q.den, q.num * p.den)
            <==> (p.num * q.den == q.num * p.den || p.num * q.den < U128_MAX || q.num * p.den < U128_MAX)
  {
  }

  /** Two different u128 prices that the program's order calls equal. */
  lemma {:induction false} CmpNotAlwaysExact()
    ensures exists p: Price, q: Price ::
              && p.num <= U128_MAX && 0 < p.den <= U128_MAX
              && q.num <= U128_MAX && 0 < q.den <= U128_MAX
              && Lt(p, q) && Cmp(p, q) == Equal
  {
    var p, q := Price(U128_MAX, 2), Price(U128_MAX, 1);
    assert p.num * q.den == U128_MAX && q.num * p.den == 2 * U128_MAX;
  }

  lemma {:induction false} LeTransitive(p: Price, q: Price, r: Price)
    requires p.den > 0 && q.den > 0 && r.den > 0
    requires Le(p, q) && Le(q, r)
    ensures Le(p, r)
  {
    calc {
      (p.num * r.den) * q.den;
    ==
      (p.num * q.den) * r.den;
    <= { MulMono(p.num * q.den, r.den, q.num * p.den, r.den); }
      (q.num * p.den) * r.den;
    ==
      (q.num * r.den) * p.den;
    <= { MulMono(q.num * r.den, p.den, r.num * q.den, p.den); }
      (r.num * q.den) * p.den;
    ==
      (r.num * p.den) * q.den;
    }
    CancelLe(p.num * r.den, r.num * p.den, q.den);
  }

  /** On prices made of u64 amounts the program's comparison is the exact rational order,
      a total preorder, and agrees with `ge_rational`. */
  lemma {:induction false} LimitOrderIsExact(p: Price, q: Price, r: Price)
    requires IsU64Price(p) && IsU64Price(q) && IsU64Price(r)
    ensures Cmp(p, q) != Greater <==> Le(p, q)
    ensures Cmp(p, q) == Equal <==> Same(p, q)
    ensures GeRational(q, p) <==> Le(p, q)
    ensures Cmp(p, q) != Greater || Cmp(q, p) != Greater
    ensures Cmp(p, q) != Greater && Cmp(q, r) != Greater ==> Cmp(p, r) != Greater
  {
    U64ProductFits(p.num, q.den);
    U64ProductFits(q.num, p.den);
    U64ProductFits(q.num, r.den);
    U64ProductFits(r.num, q.den);
    U64ProductFits(p.num, r.den);
    U64ProductFits(r.num, p.den);
    if Le(p, q) && Le(q, r) {
      LeTransitive(p, q, r);
    }
  }

  /** `apply` is monotone in the price and in the amount; the larger application may even
      overflow, because it then reports the u128 maximum. */
  lemma {:induction false} ApplyMono(m: Arith, p: Price, x: nat, q: Price, y: nat)
    requires p.den > 0 && q.den > 0 && Le(p, q) && x <= y
    requires m.Machine? ==> x * p.num <= U128_MAX
    ensures Apply(m, p, x) <= Apply(m, q, y)
  {
    if !(m.Machine? && y * q.num > U128_MAX) {
      assert (x * p.num) * q.den <= (y * q.num) * p.den by {
        MulMono(x, p.num * q.den, y, q.num * p.den);
        assert x * (p.num * q.den) == (x * p.num) * q.den;
        assert y * (q.num * p.den) == (y * q.num) * p.den;
      }
      FloorMono(x * p.num, p.den, y * q.num, q.den);
    } else {
      FloorAtLeast(U128_MAX + 1, x * p.num, p.den);
      MulMono(U128_MAX + 1, 1, U128_MAX + 1, p.den);
    }
  }

  /** `apply` is the largest amount the price covers, unless the product overflows. */
  lemma {:induction false} ApplyIsTheFloor(p: Price, sell: nat, k: nat)
    requires p.den > 0
    ensures sell * p.num <= U128_MAX ==> (k <= Apply(Machine, p, sell) <==> k * p.den <= sell * p.num)
    ensures sell * p.num > U128_MAX ==> Apply(Machine, p, sell) == U128_MAX
  {
    FloorAtLeast(k, sell * p.num, p.den);
  }

  /** Applying a price depends only on its value. */
  lemma {:induction false} ApplySame(p: Price, q: Price, x: nat)
    requires p.den > 0 && q.den > 0 && Same(p, q)
    ensures Apply(Exact, p, x) == Apply(Exact, q, x)
  {
    ApplyMono(Exact, p, x, q, x);
    ApplyMono(Exact, q, x, p, x);
  }

  function PricedOneByOne(p: Price, xs: seq<nat>): nat
    requires p.den > 0
  {
    if xs == [] then 0
    else PricedOneByOne(p, xs[..|xs| - 1]) + Apply(Exact, p, xs[|xs| - 1])
  }

  /** Pricing a sum beats the sum of the priced parts, by fewer units than there are parts. */
  lemma {:induction false} PricingTheSumBeatsTheParts(p: Price, xs: seq<nat>)
    requires p.den > 0
    ensures PricedOneByOne(p, xs) <= Apply(Exact, p, Sum(xs))
    ensures xs != [] ==> Apply(Exact, p, Sum(xs)) < PricedOneByOne(p, xs) + |xs|
  {
    if xs != [] {
      var rest, x := xs[..|xs| - 1], xs[|xs| - 1];
      var s := Sum(rest);
      PricingTheSumBeatsTheParts(p, rest);
      assert (s + x) * p.num == s * p.num + x * p.num;
      FloorOfSum(s * p.num, x * p.num, p.den);
      if rest == [] {
        assert s == 0 && s * p.num == 0;
      }
    }
  }

  lemma {:induction false} FloorOfSum(n: nat, k: nat, d: nat)
    requires d > 0
    ensures n / d + k / d <= (n + k) / d <= n / d + k / d + 1
  {
    var a, b := n / d, k / d;
    FloorBounds(n, d);
    FloorBounds(k, d);
    FloorsAddUp(a, b, n, k, d);
    FloorAtLeast(a + b, n + k, d);
    FloorBelow(a + b + 2, n + k, d);
  }

  lemma {:induction false} FloorsAddUp(a: nat, b: nat, n: nat, k: nat, d: nat)
    requires a * d <= n < (a + 1) * d && b * d <= k < (b + 1) * d
    ensures (a + b) * d <= n + k < (a + b + 2) * d
  {
    assert (a + b) * d == a * d + b * d;
    assert (a + b + 2) * d == (a + 1) * d + (b + 1) * d;
  }
}
