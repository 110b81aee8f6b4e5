/**
 * The few JavaScript number operations the storefront relies on, stated on
 * exact reals: `Math.floor`, `Math.round`, the remainder operator `%`, and
 * `Number.prototype.toFixed(0)`. IEEE-754 rounding is not modelled.
 */
module JsMath {

  /** `Math.floor(x)`: the greatest integer not above `x`. */
  function Floor(x: real): (r: int)
    ensures r as real <= x < r as real + 1.0
  {
    x.Floor
  }

  /** `Math.round(x)`: the nearest integer, a half rounded up (towards +infinity). */
  function Round(x: real): (r: int)
    ensures r as real - 0.5 <= x < r as real + 0.5
  {
    Floor(x + 0.5)
  }

  /** Truncation towards zero, as JavaScript's `%` uses for its quotient. */
  function Trunc(x: real): (r: int)
    ensures x >= 0.0 ==> r == Floor(x)
    ensures x < 0.0 ==> r == -Floor(-x)
  {
    if x >= 0.0 then Floor(x) else -Floor(-x)
  }

  /** `x % m` for a positive modulus: the remainder keeps the sign of `x`. */
  function Rem(x: real, m: real): (r: real)
    requires m > 0.0
    ensures x >= 0.0 ==> 0.0 <= r < m
    ensures x < 0.0 ==> -m < r <= 0.0
  {
    RemBounds(x, m);
    x - m * Trunc(x / m) as real
  }

  /** The multiple of `m` that `%` subtracts lies within one `m` of `x`, on `x`'s side of zero. */
  lemma RemBounds(x: real, m: real)
    requires m > 0.0
    ensures var t := Trunc(x / m) as real;
      (x >= 0.0 ==> m * t <= x < m * (t + 1.0)) && (x < 0.0 ==> m * (t - 1.0) < x <= m * t)
  {
    var t := Trunc(x / m) as real;
    if x >= 0.0 {
      ScaleBetween(x, m, t, t + 1.0);
    } else {
      ScaleBetweenNegative(x, m, t - 1.0, t);
    }
  }

  /** `lo <= x / m < hi` scales to `m * lo <= x < m * hi`. */
  lemma ScaleBetween(x: real, m: real, lo: real, hi: real)
    requires m > 0.0 && lo <= x / m < hi
    ensures m * lo <= x < m * hi
  {
    var y := x / m;
    assert m * y == x;
    LessByPositive(lo, y, m);
    MulBelow(y, hi, m);
  }

  /** `lo < x / m <= hi` scales to `m * lo < x <= m * hi`. */
  lemma ScaleBetweenNegative(x: real, m: real, lo: real, hi: real)
    requires m > 0.0 && lo < x / m <= hi
    ensures m * lo < x <= m * hi
  {
    var y := x / m;
    assert m * y == x;
    LessByPositive(y, hi, m);
    MulBelow(lo, y, m);
  }

  /**
   * `x.toFixed(0)` read back as a number: the nearest integer, a half rounded
   * away from zero (the sign of a negative zero, "-0", is not kept).
   */
  function ToFixed0(x: real): (r: int)
    ensures x >= 0.0 ==> r as real - 0.5 <= x < r as real + 0.5
    ensures x < 0.0 ==> r as real - 0.5 < x <= r as real + 0.5
  {
    if x >= 0.0 then Floor(x + 0.5) else -Floor(-x + 0.5)
  }

  /**
   * The exact remainder of a non-negative integer quotient: flooring
   * `(n / k) % m` computed on reals gives the integer `(n / k) % m`.
   * This is the step that turns the countdown's floating-point formula into
   * integer arithmetic.
   */
  lemma FloorOfRem(n: int, k: int, m: int)
    requires n >= 0 && k > 0 && m > 0
    ensures Floor(Rem(n as real / k as real, m as real)) == (n / k) % m
  {
    var x := n as real / k as real;
    var q := n / k;
    FloorOfQuotient(n, k);
    var t := q / m;
    TruncOfQuotient(x, m, q);
    RemByMultiple(x, m, t);
    FloorShift(x, m * t);
    ModIsDifference(q, m);
  }

  /** The remainder is what is left after the whole multiples. */
  lemma ModIsDifference(q: int, m: int)
    requires m > 0
    ensures q % m == q - m * (q / m)
  {
  }

  /** For `x >= 0` with floor `q`, `%` by `m` subtracts `q / m` whole multiples of `m`. */
  lemma TruncOfQuotient(x: real, m: int, q: int)
    requires x >= 0.0 && m > 0 && q == Floor(x)
    ensures Trunc(x / m as real) == q / m
  {
    var y := x / m as real;
    assert y * m as real == x;
    if y < 0.0 {
      MulBelow(y, 0.0, m as real);
    }
    FloorOfQuotientOfReal(x, m, q);
  }

  /** `x % m` once the truncated quotient `t` is known. */
  lemma RemByMultiple(x: real, m: int, t: int)
    requires m > 0 && Trunc(x / m as real) == t
    ensures Rem(x, m as real) == x - (m * t) as real
  {
    CastMul(m, t);
  }

  /** Flooring an exact quotient of integers is integer division. */
  lemma FloorOfQuotient(n: int, k: int)
    requires n >= 0 && k > 0
    ensures Floor(n as real / k as real) == n / k
  {
    var q := n / k;
    DivBounds(n, k);
    CastMul(q, k);
    CastMul(q + 1, k);
    DivideBetween(n as real, k as real, q as real, q as real + 1.0);
    FloorUnique(n as real / k as real, q);
  }

  /** `lo * k <= x < hi * k` divides to `lo <= x / k < hi`. */
  lemma DivideBetween(x: real, k: real, lo: real, hi: real)
    requires k > 0.0 && lo * k <= x < hi * k
    ensures lo <= x / k < hi
  {
    var y := x / k;
    assert y * k == x;
    MulBelowConverse(lo, y, k);
    MulBelowConverse(y, hi, k);
  }

  /** The floor is the one integer `q` with `q <= x < q + 1`. */
  lemma FloorUnique(x: real, q: int)
    requires q as real <= x < q as real + 1.0
    ensures Floor(x) == q
  {
  }

  /** Multiplying an ordering by a positive factor keeps it. */
  lemma LessByPositive(a: real, b: real, c: real)
    requires c > 0.0 && a <= b
    ensures a * c <= b * c && c * a <= c * b
  {
  }

  /** Multiplying a strict ordering by a positive factor keeps it. */
  lemma MulBelow(a: real, b: real, c: real)
    requires c > 0.0 && a < b
    ensures a * c < b * c && c * a < c * b
  {
  }

  /** Dividing an ordering by a positive factor: from `a * c <= b * c` (and `<`) back to `a <= b`. */
  lemma MulBelowConverse(a: real, b: real, c: real)
    requires c > 0.0
    ensures a * c <= b * c ==> a <= b
    ensures a * c < b * c ==> a < b
  {
    if a * c <= b * c && a > b { MulBelow(b, a, c); }
    if a * c < b * c && a >= b { LessByPositive(b, a, c); }
  }

  /** `Floor(x / m) == Floor(x) / m` for non-negative `x` and a positive integer `m`. */
  lemma FloorOfQuotientOfReal(x: real, m: int, q: int)
    requires x >= 0.0 && m > 0 && q == Floor(x)
    ensures Floor(x / m as real) == q / m
  {
    var t := q / m;
    DivBounds(q, m);
    CastMul(t, m);
    CastMul(t + 1, m);
    assert (t as real) * (m as real) <= x < (t as real + 1.0) * (m as real);
    DivideBetween(x, m as real, t as real, t as real + 1.0);
    FloorUnique(x / m as real, t);
  }

  /** Integer division brackets its dividend between consecutive multiples of the divisor. */
  lemma DivBounds(q: int, m: int)
    requires q >= 0 && m > 0
    ensures (q / m) * m <= q < (q / m + 1) * m
  {
  }

  /** Converting a product to a real is the product of the conversions. */
  lemma CastMul(a: int, b: int)
    ensures (a * b) as real == (a as real) * (b as real)
  {
  }

  /** Subtracting an integer commutes with flooring. */
  lemma FloorShift(x: real, j: int)
    ensures Floor(x - j as real) == Floor(x) - j
  {
  }

  /** On non-negative integers `%` is exact: the real remainder is the integer one. */
  lemma RemOfInts(n: int, m: int)
    requires n >= 0 && m > 0
    ensures Rem(n as real, m as real) == (n % m) as real
  {
    FloorOfQuotient(n, m);
    assert Trunc(n as real / m as real) == n / m;
    assert n == m * (n / m) + n % m;
    CastMul(m, n / m);
  }
}
