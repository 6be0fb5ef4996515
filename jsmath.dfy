/** The pieces of JavaScript's numeric built-ins that the gesture mapper and the
    globe use, over Dafny's exact `real`s: `Math.PI`, `Math.max`, `Math.min`,
    `Math.sqrt` (as a contract on a caller-supplied function), the `%` operator
    on numbers, and three.js's `MathUtils.lerp`. */
module JsMath {

  /** Only the bounds of `Math.PI` matter to the properties proved here. */
  type PiBounds = r: real | 3.14 < r < 3.15 witness 3.1416

  /** `Math.PI`, kept abstract: every result holds for any value in (3.14, 3.15). */
  const PI: PiBounds

  /** `Math.PI * 2`, one full turn in radians. */
  function TwoPi(): (t: real)
    ensures 6.28 < t < 6.3
  {
    PI * 2.0
  }

  /** Whether `x` is a whole number. */
  predicate IsWhole(x: real) {
    x.Floor as real == x
  }

  /** `Math.max(a, b)` on non-NaN numbers. */
  function Max(a: real, b: real): (r: real)
    ensures a <= r && b <= r
    ensures r == a || r == b
  {
    if a < b then b else a
  }

  /** `Math.min(a, b)` on non-NaN numbers. */
  function Min(a: real, b: real): (r: real)
    ensures r <= a && r <= b
    ensures r == a || r == b
  {
    if b < a then b else a
  }

  /** The integer quotient JavaScript's `%` uses: `x` rounded toward zero. */
  function Trunc(x: real): (q: int)
    ensures 0.0 <= x ==> q as real <= x < q as real + 1.0
    ensures x < 0.0 ==> q as real - 1.0 < x <= q as real
  {
    if 0.0 <= x then x.Floor else -((-x).Floor)
  }

  /* Small steps of non-linear arithmetic. The solver does not combine
     products on its own reliably, so each step is stated separately. */

  lemma PositiveProduct(a: real, b: real)
    requires 0.0 < a && 0.0 < b
    ensures 0.0 < a * b
  {
  }

  lemma NonNegativeProduct(a: real, b: real)
    requires 0.0 <= a && 0.0 <= b
    ensures 0.0 <= a * b
  {
  }

  lemma MulMonotone(a: real, b: real, c: real)
    requires a <= b && 0.0 <= c
    ensures a * c <= b * c
  {
    NonNegativeProduct(b - a, c);
    assert (b - a) * c == b * c - a * c;
  }

  lemma ProductBelow(n: real, d: real, t: real, q: real)
    requires 0.0 < d && t * d == n && t < q + 1.0
    ensures n - d * q < d
  {
    PositiveProduct(d, q + 1.0 - t);
    assert d * (q + 1.0 - t) == d * q + d - n;
  }

  lemma ProductAbove(n: real, d: real, t: real, q: real)
    requires 0.0 < d && t * d == n && q - 1.0 < t
    ensures -d < n - d * q
  {
    PositiveProduct(d, 1.0 - q + t);
    assert d * (1.0 - q + t) == d - d * q + n;
  }

  lemma ProductAtLeast(n: real, d: real, t: real, q: real)
    requires 0.0 < d && t * d == n && q <= t
    ensures 0.0 <= n - d * q
  {
    NonNegativeProduct(d, t - q);
    assert d * (t - q) == n - d * q;
  }

  lemma ProductAtMost(n: real, d: real, t: real, q: real)
    requires 0.0 < d && t * d == n && t <= q
    ensures n - d * q <= 0.0
  {
    NonNegativeProduct(d, q - t);
    assert d * (q - t) == d * q - n;
  }

  /** JavaScript's `n % d` for a positive divisor: the remainder after
      truncating division, so it takes the sign of `n`, stays below `d` in
      magnitude, and differs from `n` by a whole multiple of `d`. */
  function Rem(n: real, d: real): (r: real)
    requires 0.0 < d
    ensures 0.0 <= n ==> 0.0 <= r < d
    ensures n < 0.0 ==> -d < r <= 0.0
    ensures IsWhole((n - r) / d)
  {
    TruncatedRemainder(n, d, Trunc(n / d));
    n - d * (Trunc(n / d) as real)
  }

  lemma TruncatedRemainder(n: real, d: real, k: int)
    requires 0.0 < d && k == Trunc(n / d)
    ensures 0.0 <= n ==> 0.0 <= n - d * (k as real) < d
    ensures n < 0.0 ==> -d < n - d * (k as real) <= 0.0
    ensures IsWhole((n - (n - d * (k as real))) / d)
  {
    var t := n / d;
    assert t * d == n;
    if 0.0 <= t {
      RemainderOfNonNegative(n, d, t, k as real);
    } else {
      RemainderOfNegative(n, d, t, k as real);
    }
    WholeQuotient(n, d, k);
  }

  lemma RemainderOfNonNegative(n: real, d: real, t: real, q: real)
    requires 0.0 < d && t * d == n && 0.0 <= t && q <= t < q + 1.0
    ensures 0.0 <= n && 0.0 <= n - d * q < d
  {
    NonNegativeProduct(t, d);
    ProductAtLeast(n, d, t, q);
    ProductBelow(n, d, t, q);
  }

  lemma RemainderOfNegative(n: real, d: real, t: real, q: real)
    requires 0.0 < d && t * d == n && t < 0.0 && q - 1.0 < t <= q
    ensures n < 0.0 && -d < n - d * q <= 0.0
  {
    PositiveProduct(-t, d);
    assert n == -((-t) * d);
    ProductAbove(n, d, t, q);
    ProductAtMost(n, d, t, q);
  }

  lemma WholeQuotient(n: real, d: real, k: int)
    requires 0.0 < d
    ensures IsWhole((n - (n - d * (k as real))) / d)
  {
    assert n - (n - d * (k as real)) == d * (k as real);
    assert (d * (k as real)) / d == k as real;
  }

  /** `THREE.MathUtils.lerp(x, y, t)`: the point a fraction `t` of the way
      from `x` to `y`. */
  function Lerp(x: real, y: real, t: real): (r: real)
    ensures t == 0.0 ==> r == x
    ensures t == 1.0 ==> r == y
    ensures 0.0 <= t <= 1.0 ==> Min(x, y) <= r <= Max(x, y)
  {
    LerpBetween(x, y, t);
    (1.0 - t) * x + t * y
  }

  lemma LerpBetween(x: real, y: real, t: real)
    ensures 0.0 <= t <= 1.0 ==> Min(x, y) <= (1.0 - t) * x + t * y <= Max(x, y)
  {
    if 0.0 <= t <= 1.0 {
      if x <= y {
        NonNegativeProduct(t, y - x);
        NonNegativeProduct(1.0 - t, y - x);
        assert (1.0 - t) * x + t * y == x + t * (y - x);
        assert y - ((1.0 - t) * x + t * y) == (1.0 - t) * (y - x);
      } else {
        NonNegativeProduct(t, x - y);
        NonNegativeProduct(1.0 - t, x - y);
        assert x - ((1.0 - t) * x + t * y) == t * (x - y);
        assert (1.0 - t) * x + t * y - y == (1.0 - t) * (x - y);
      }
    }
  }

  /** What `Math.sqrt` promises for a non-negative argument: its non-negative
      square root. */
  ghost predicate IsSqrt(sqrt: real -> real) {
    forall a :: 0.0 <= a ==> 0.0 <= sqrt(a) && sqrt(a) * sqrt(a) == a
  }

  lemma SquareNonNegative(x: real)
    ensures 0.0 <= x * x
  {
    if 0.0 <= x {
      NonNegativeProduct(x, x);
    } else {
      NonNegativeProduct(-x, -x);
      assert (-x) * (-x) == x * x;
    }
  }

  lemma SquareZero(x: real)
    requires x * x == 0.0
    ensures x == 0.0
  {
    var r := if x < 0.0 then -x else x;
    assert r * r == x * x;
    RootUnique(r, 0.0);
  }

  /** A non-negative square root is unique. */
  lemma RootUnique(r: real, s: real)
    requires 0.0 <= r && 0.0 <= s && r * r == s * s
    ensures r == s
  {
    if r < s {
      SquareBelow(r, s);
    } else if s < r {
      SquareBelow(s, r);
    }
  }

  lemma SquareBelow(r: real, b: real)
    requires 0.0 <= r < b
    ensures r * r < b * b
  {
    PositiveProduct(b - r, b + r);
    assert b * b - r * r == (b - r) * (b + r);
  }

  lemma SquareAtLeast(b: real, r: real)
    requires 0.0 <= b <= r
    ensures b * b <= r * r
  {
    NonNegativeProduct(r - b, r + b);
    assert r * r - b * b == (r - b) * (r + b);
  }

  /** Comparing a non-negative number with a positive bound is the same as
      comparing their squares. */
  lemma BelowIffSquareBelow(r: real, b: real)
    requires 0.0 <= r && 0.0 < b
    ensures r < b <==> r * r < b * b
  {
    if r < b {
      SquareBelow(r, b);
    } else {
      SquareAtLeast(b, r);
    }
  }
}
