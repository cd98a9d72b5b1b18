/** Machine integers and the floor-division facts the engine rests on. */
module Numbers {
  const U64_MAX: nat := 0xFFFF_FFFF_FFFF_FFFF
  const U128_MAX: nat := 0xFFFF_FFFF_FFFF_FFFF_FFFF_FFFF_FFFF_FFFF

  type U64 = n: nat | n <= U64_MAX

  /** Which arithmetic a specification uses: the saturating 128-bit one of the program,
      or the unbounded one it is meant to agree with. */
  datatype Arith = Machine | Exact

  function Saturate(m: Arith, n: nat): nat {
    if m.Machine? && n > U128_MAX then U128_MAX else n
  }

  /** `saturating_mul` */
  function Mul(m: Arith, x: nat, y: nat): nat {
    Saturate(m, x * y)
  }

  /** `saturating_add` */
  function Add(m: Arith, x: nat, y: nat): nat {
    Saturate(m, x + y)
  }

  /** `saturating_sub` */
  function Monus(x: nat, y: nat): nat {
    if x <= y then 0 else x - y
  }

  function Min(x: nat, y: nat): nat {
    if x <= y then x else y
  }

  /** `max(1)` */
  function AtLeastOne(x: nat): nat {
    if x == 0 then 1 else x
  }

  function ClampU64(n: nat): U64 {
    if n > U64_MAX then U64_MAX else n
  }

  lemma {:induction false} MulMono(x: nat, y: nat, x': nat, y': nat)
    requires x <= x' && y <= y'
    ensures x * y <= x' * y'
  {
    assert x * y <= x' * y;
    assert x' * y <= x' * y';
  }

  /** The product of two u64 values always fits a u128. */
  lemma {:induction false} U64ProductFits(x: nat, y: nat)
    requires x <= U64_MAX && y <= U64_MAX
    ensures x * y <= U64_MAX * U64_MAX < U128_MAX
    ensures Mul(Machine, x, y) == x * y
  {
    MulMono(x, y, U64_MAX, U64_MAX);
  }

  lemma {:induction false} CancelLe(x: nat, y: nat, d: nat)
    requires d > 0 && x * d <= y * d
    ensures x <= y
  {
    if x > y {
      MulMono(y + 1, d, x, d);
    }
  }

  lemma {:induction false} CancelLt(x: nat, y: nat, d: nat)
    requires x * d < y * d
    ensures x < y
  {
    if x >= y {
      MulMono(y, d, x, d);
    }
  }

  /** The defining bounds of floor division. */
  lemma {:induction false} FloorBounds(n: nat, d: nat)
    requires d > 0
    ensures n / d * d <= n < (n / d + 1) * d
  {
    assert n == n / d * d + n % d;
    assert (n / d + 1) * d == n / d * d + d;
  }

  /** Galois connection of floor division. */
  lemma {:induction false} FloorAtLeast(k: nat, n: nat, d: nat)
    requires d > 0
    ensures k <= n / d <==> k * d <= n
  {
    FloorBounds(n, d);
    if k <= n / d {
      MulMono(k, d, n / d, d);
    }
    if k * d <= n {
      CancelLt(k, n / d + 1, d);
    }
  }

  lemma {:induction false} FloorBelow(k: nat, n: nat, d: nat)
    requires d > 0
    ensures n / d < k <==> n < k * d
  {
    FloorAtLeast(k, n, d);
  }

  /** Floors of ordered fractions are ordered. */
  lemma {:induction false} FloorMono(n: nat, d: nat, n': nat, d': nat)
    requires d > 0 && d' > 0 && n * d' <= n' * d
    ensures n / d <= n' / d'
  {
    var k := n / d;
    FloorBounds(n, d);
    assert k * d * d' <= n * d' by {
      MulMono(k * d, d', n, d');
    }
    assert k * d * d' == (k * d') * d;
    CancelLe(k * d', n', d);
    FloorAtLeast(k, n', d');
  }

  /** What a floor loses, scaled back up, is less than one divisor. */
  lemma {:induction false} FloorLoss(n: nat, d: nat)
    requires d > 0
    ensures 0 <= n - d * (n / d) < d
  {
    FloorBounds(n, d);
  }

  function Sum(xs: seq<nat>): nat {
    if xs == [] then 0 else Sum(xs[..|xs| - 1]) + xs[|xs| - 1]
  }

  lemma {:induction false} SumUpdate(xs: seq<nat>, i: nat, v: nat)
    requires i < |xs|
    ensures Sum(xs[i := v]) + xs[i] == Sum(xs) + v
  {
    var n := |xs| - 1;
    if i < n {
      SumUpdate(xs[..n], i, v);
      assert xs[i := v][..n] == xs[..n][i := v];
    } else {
      assert xs[i := v][..n] == xs[..n];
    }
  }
}
