/** The uniform clearing price of a market and its reciprocal. */
module ClearingPrices {
  import opened Numbers
  import opened Prices

  /** Midpoint of the last crossing pair: `p` is B per A, `q` is A per B. */
  function Midpoint(m: Arith, p: Price, q: Price): Price {
    var num := Add(m, Mul(m, p.num, q.num), Mul(m, p.den, q.den));
    var den := Mul(m, Mul(m, p.den, q.num), 2);
    PriceOfParts(num, den)
  }

  function PriceOfParts(num: nat, den: nat): Price {
    match New(AtLeastOne(num), AtLeastOne(den))
    case Made(price) => price
    case ZeroDenominator => Price(1, 1)
  }

  function Reciprocal(p: Price): Price {
    Price(p.den, AtLeastOne(p.num))
  }

  /** Limit prices `p` (B per A) and `q` (A per B) that cross, `q` not free. */
  predicate CrossingLimits(p: Price, q: Price) {
    IsU64Price(p) && IsU64Price(q) && q.num > 0 && p.num * q.num <= p.den * q.den
  }

  lemma {:induction false} MidpointParts(p: Price, q: Price)
    requires CrossingLimits(p, q)
    ensures 0 < p.den * q.num && p.num * q.num <= p.den * q.den && 0 < p.den * q.den
    ensures Midpoint(Exact, p, q) == Price(p.num * q.num + p.den * q.den, 2 * (p.den * q.num))
    ensures Midpoint(Machine, p, q) ==
            Price(Saturate(Machine, p.num * q.num + p.den * q.den), Saturate(Machine, 2 * (p.den * q.num)))
  {
    MulMono(1, 1, p.den, q.num);
    MulMono(1, 1, p.den, q.den);
    U64ProductFits(p.num, q.num);
    U64ProductFits(p.den, q.den);
    U64ProductFits(p.den, q.num);
  }

  /** The unrounded midpoint lies between the A→B limit and the inverse B→A limit. */
  lemma {:induction false} MidpointIsBetweenLimits(p: Price, q: Price)
    requires CrossingLimits(p, q)
    ensures Le(p, Midpoint(Exact, p, q))
    ensures Le(q, Reciprocal(Midpoint(Exact, p, q)))
  {
    MidpointParts(p, q);
    BetweenArithmetic(p.num, p.den, q.num, q.den);
  }

  /** A price as a real number. */
  function Value(p: Price): real
    requires p.den > 0
  {
    p.num as real / p.den as real
  }

  /** The unrounded clearing price is the mean of the A→B limit and the inverse B→A limit. */
  lemma {:induction false} MidpointIsTheMean(p: Price, q: Price)
    requires CrossingLimits(p, q)
    ensures Value(Midpoint(Exact, p, q)) == (Value(p) + Value(Price(q.den, q.num))) / 2.0
  {
    MidpointParts(p, q);
    MeanAsReal(p.num, p.den, q.num, q.den, p.num * q.num + p.den * q.den, 2 * (p.den * q.num));
  }

  lemma {:induction false} MeanAsReal(b: nat, s: nat, c: nat, t: nat, n: nat, d: nat)
    requires s > 0 && c > 0 && n == b * c + s * t && d == 2 * (s * c) && d > 0
    ensures n as real / d as real == (b as real / s as real + t as real / c as real) / 2.0
  {
    CastProduct(b, c);
    CastProduct(s, t);
    CastProduct(s, c);
    MeanOfFractions(b as real, s as real, c as real, t as real);
  }

  lemma {:induction false} CastProduct(x: nat, y: nat)
    ensures (x * y) as real == x as real * y as real
  {
  }

  lemma {:induction false} MeanOfFractions(b: real, s: real, c: real, t: real)
    requires s > 0.0 && c > 0.0
    ensures s * c > 0.0 && (b * c + s * t) / (2.0 * (s * c)) == (b / s + t / c) / 2.0
  {
    var x, y := b / s, t / c;
    assert b == x * s && t == y * c;
    assert b * c + s * t == (x + y) * (s * c);
  }

  /** The clearing price pays a seller of B nothing beyond the limit of the crossing pair, for
      every amount, if and only if the pair crosses without a spread. */
  lemma {:induction false} SpreadIsTheGainIff(p: Price, q: Price)
    requires CrossingLimits(p, q)
    ensures (forall x: nat :: Apply(Exact, Reciprocal(Midpoint(Exact, p, q)), x) == Apply(Exact, q, x))
            <==> p.num * q.num == p.den * q.den
  {
    MidpointParts(p, q);
    MidpointIsBetweenLimits(p, q);
    var r := Reciprocal(Midpoint(Exact, p, q));
    SpreadArithmetic(p.num, p.den, q.num, q.den);
    if p.num * q.num == p.den * q.den {
      forall x: nat ensures Apply(Exact, r, x) == Apply(Exact, q, x) {
        ApplyMono(Exact, q, x, r, x);
        ApplyMono(Exact, r, x, q, x);
      }
    } else {
      var x: nat := q.den * r.den;
      ApplyToMultiple(q, r.den);
      ApplyToMultiple(r, q.den);
      assert Apply(Exact, q, x) == r.den * q.num && Apply(Exact, r, x) == q.den * r.num;
    }
  }

  lemma {:induction false} SpreadArithmetic(b: nat, s: nat, c: nat, t: nat)
    requires s > 0 && c > 0 && t > 0 && b * c <= s * t
    ensures b * c == s * t ==> 2 * (s * c) * t <= c * (b * c + s * t)
    ensures b * c < s * t ==> c * (b * c + s * t) < 2 * (s * c) * t
  {
    assert 2 * (s * c) * t == c * (s * t + s * t);
    if b * c < s * t {
      MulMono(c, b * c + s * t + 1, c, s * t + s * t);
      assert c * (b * c + s * t + 1) == c * (b * c + s * t) + c;
    }
  }

  lemma {:induction false} ApplyToMultiple(p: Price, k: nat)
    requires p.den > 0
    ensures Apply(Exact, p, p.den * k) == k * p.num
    ensures Apply(Exact, p, k * p.den) == k * p.num
  {
    assert p.den * k == k * p.den && (p.den * k) * p.num == (k * p.num) * p.den;
    FloorAtLeast(k * p.num, (p.den * k) * p.num, p.den);
    FloorBelow(k * p.num + 1, (p.den * k) * p.num, p.den);
    assert (k * p.num + 1) * p.den == (k * p.num) * p.den + p.den;
  }

  lemma {:induction false} BetweenArithmetic(b: nat, s: nat, c: nat, t: nat)
    requires b * c <= s * t
    ensures b * (2 * (s * c)) <= (b * c + s * t) * s
    ensures c * (b * c + s * t) <= 2 * (s * c) * t
  {
    var u, v := b * c, s * t;
    assert b * (2 * (s * c)) == 2 * u * s;
    MulMono(2 * u, s, u + v, s);
    assert 2 * (s * c) * t == c * (2 * v);
    MulMono(c, u + v, c, 2 * v);
  }

  /** Seller of A: at the machine's clearing price every amount brings at least what the
      seller's limit asks, for all u64 amounts, even where the price itself saturates. */
  lemma {:induction false} ClearingCoversTheAsk(p: Price, q: Price, x: nat)
    requires CrossingLimits(p, q) && x <= U64_MAX
    ensures Apply(Exact, p, x) <= Apply(Machine, Midpoint(Machine, p, q), x)
  {
    MidpointParts(p, q);
    U64ProductFits(x, p.num);
    var c := Midpoint(Machine, p, q);
    var n := p.num * q.num + p.den * q.den;
    if n <= U128_MAX {
      MidpointIsBetweenLimits(p, q);
      MulMono(p.num, c.den, p.num, 2 * (p.den * q.num));
      ApplyMono(Machine, p, x, c, x);
    } else if x == 0 {
      assert x * p.num == 0;
    } else if x == 1 {
      SaturatedUnitCoversTheAsk(p, q);
    } else {
      MulMono(2, U128_MAX, x, c.num);
      ApplyAtMostProduct(p, x);
    }
  }

  lemma {:induction false} ApplyAtMostProduct(p: Price, x: nat)
    requires p.den > 0
    ensures Apply(Exact, p, x) <= x * p.num
  {
    FloorBounds(x * p.num, p.den);
    MulMono(Apply(Exact, p, x), 1, Apply(Exact, p, x), p.den);
  }

  lemma {:induction false} SaturatedUnitCoversTheAsk(p: Price, q: Price)
    requires CrossingLimits(p, q)
    requires p.num * q.num + p.den * q.den > U128_MAX
    ensures Apply(Exact, p, 1) <= Apply(Machine, Midpoint(Machine, p, q), 1)
  {
    MidpointParts(p, q);
    var c := Midpoint(Machine, p, q);
    var k := p.num / p.den;
    FloorBounds(p.num, p.den);
    if k <= 1 {
      FloorAtLeast(1, U128_MAX, c.den);
    } else {
      TwiceTheAskFits(p.num, p.den, q.num, q.den, k);
      MulMono(k, c.den, k, 2 * (p.den * q.num));
      FloorAtLeast(k, U128_MAX, c.den);
    }
  }

  lemma {:induction false} ScaledAskFits(b: nat, s: nat, c: nat, t: nat, k: nat)
    requires k * s <= b && 0 < s && b * c <= s * t
    ensures k * c <= t
  {
    MulMono(k * s, c, b, c);
    assert (k * s) * c == (k * c) * s;
    assert s * t == t * s;
    CancelLe(k * c, t, s);
  }

  lemma {:induction false} DoubledProduct(k: nat, s: nat, c: nat)
    ensures k * (2 * (s * c)) == 2 * ((k * s) * c)
  {
    assert k * (s * c) == (k * s) * c;
  }

  /** A limit of at least two units of B for one of A leaves room in the u128 range. */
  lemma {:induction false} TwiceTheAskFits(b: nat, s: nat, c: nat, t: nat, k: nat)
    requires 2 <= k && k * s <= b <= U64_MAX && 0 < s && c > 0 && t <= U64_MAX
    requires b * c <= s * t
    ensures k * (2 * (s * c)) <= U128_MAX
  {
    ScaledAskFits(b, s, c, t, k);
    TwiceWithinRange(b, c, t, k, k * s);
    DoubledProduct(k, s, c);
  }

  lemma {:induction false} TwiceWithinRange(b: nat, c: nat, t: nat, k: nat, ks: nat)
    requires 2 <= k && k * c <= t <= U64_MAX && ks <= b <= U64_MAX
    ensures 2 * (ks * c) <= U128_MAX
  {
    MulMono(2, c, k, c);
    MulMono(ks, 2 * c, b, t);
    U64ProductFits(b, t);
    assert ks * (2 * c) == 2 * (ks * c);
  }

  /** Guard for a seller of B limited at `limit` that sells `x`: only a single unit, sold at a
      price whose denominator saturated, can bring less than the limit asks for one unit. */
  predicate AmountSafe(p: Price, q: Price, limit: Price, x: nat)
    requires limit.den > 0
  {
    || x != 1
    || 2 * (p.den * q.num) <= U128_MAX
    || limit.num / limit.den <= U128_MAX / AtLeastOne(Saturate(Machine, p.num * q.num + p.den * q.den))
  }

  /** The guard on the crossing pair alone. */
  predicate ReciprocalSafe(p: Price, q: Price)
    requires q.den > 0
  {
    AmountSafe(p, q, q, 1)
  }

  /** Seller of B: the reciprocal clearing price covers a limit no dearer than `q` for the
      amount `x` exactly when the guard holds. */
  lemma {:induction false} ReciprocalCoversIff(p: Price, q: Price, limit: Price, x: nat)
    requires CrossingLimits(p, q) && IsU64Price(limit) && Le(limit, q) && x <= U64_MAX
    ensures Apply(Exact, limit, x) <= Apply(Machine, Reciprocal(Midpoint(Machine, p, q)), x)
            <==> AmountSafe(p, q, limit, x)
  {
    MidpointParts(p, q);
    U64ProductFits(x, limit.num);
    var r := Reciprocal(Midpoint(Machine, p, q));
    if 2 * (p.den * q.num) <= U128_MAX {
      UnsaturatedReciprocal(p, q);
      LeTransitive(limit, q, r);
      ApplyMono(Machine, limit, x, r, x);
    } else if x == 0 {
      assert x * limit.num == 0;
    } else if x == 1 {
      assert Apply(Exact, limit, 1) == limit.num / limit.den;
      assert Apply(Machine, r, 1) == U128_MAX / r.den;
    } else {
      MulMono(2, U128_MAX, x, r.num);
      ApplyAtMostProduct(limit, x);
    }
  }

  /** Seller of B: the reciprocal clearing price covers the limit of the crossing pair for every
      amount exactly when the guard on the pair holds. */
  lemma {:induction false} ReciprocalCoversTheBidIff(p: Price, q: Price)
    requires CrossingLimits(p, q)
    ensures (forall x: nat :: x <= U64_MAX ==>
               Apply(Exact, q, x) <= Apply(Machine, Reciprocal(Midpoint(Machine, p, q)), x))
            <==> ReciprocalSafe(p, q)
  {
    forall x: nat | x <= U64_MAX
      ensures Apply(Exact, q, x) <= Apply(Machine, Reciprocal(Midpoint(Machine, p, q)), x) <==> AmountSafe(p, q, q, x)
    {
      ReciprocalCoversIff(p, q, q, x);
    }
    assert AmountSafe(p, q, q, 1) <==>
           Apply(Exact, q, 1) <= Apply(Machine, Reciprocal(Midpoint(Machine, p, q)), 1);
  }

  /** The guard on the pair covers every limit that is no dearer. */
  lemma {:induction false} SafePairIsSafe(p: Price, q: Price, limit: Price, x: nat)
    requires q.den > 0 && limit.den > 0 && ReciprocalSafe(p, q) && Le(limit, q)
    ensures AmountSafe(p, q, limit, x)
  {
    FloorMono(limit.num, limit.den, q.num, q.den);
  }

  lemma {:induction false} UnsaturatedReciprocal(p: Price, q: Price)
    requires CrossingLimits(p, q) && 2 * (p.den * q.num) <= U128_MAX
    ensures Le(q, Reciprocal(Midpoint(Machine, p, q)))
  {
    MidpointParts(p, q);
    MidpointIsBetweenLimits(p, q);
    var r, e := Reciprocal(Midpoint(Machine, p, q)), Reciprocal(Midpoint(Exact, p, q));
    assert r.num == e.num && r.den <= e.den;
    MulMono(q.num, r.den, q.num, e.den);
  }

  /** Amounts below 2^63 always meet the guard. */
  lemma {:induction false} HalfRangeIsSafe(p: Price, q: Price)
    requires q.den > 0
    requires p.den < 0x8000_0000_0000_0000 && q.num < 0x8000_0000_0000_0000
    ensures ReciprocalSafe(p, q)
  {
    MulMono(p.den, q.num, 0x7FFF_FFFF_FFFF_FFFF, 0x7FFF_FFFF_FFFF_FFFF);
  }
}
