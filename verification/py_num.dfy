/** The two pieces of Python numeric semantics the card layout depends on. */
module PyNum {

  /** `x` is a whole number. */
  predicate IsWhole(x: real) {
    x.Floor as real == x
  }

  /** Python's `int(x)` on a float: truncation toward zero. */
  function Trunc(x: real): (r: int)
    ensures 0.0 <= x ==> 0 <= r && r as real <= x < r as real + 1.0
    ensures x < 0.0 ==> r <= 0 && r as real - 1.0 < x <= r as real
    ensures -1.0 < x < 1.0 <==> r == 0
  {
    if x >= 0.0 then x.Floor else -((-x).Floor)
  }

  /** Python's `a % b` for a float `a` and a non-zero int `b`: the remainder
      takes the sign of the divisor (floored division), unlike Dafny's `%`. */
  function FloatMod(a: real, b: int): (r: real)
    requires b != 0
    ensures 0 < b ==> 0.0 <= r < b as real
    ensures b < 0 ==> b as real < r <= 0.0
    ensures IsWhole((a - r) / b as real)
  {
    var d := b as real;
    var q := (a / d).Floor;
    FloorQuotientBounds(a, d);
    var r := a - d * q as real;
    assert (a - r) / d == q as real by {
      assert a - r == d * q as real;
    }
    r
  }

  /** Bounds of `d * floor(a / d)` relative to `a`. */
  lemma FloorQuotientBounds(a: real, d: real)
    requires d != 0.0
    ensures 0.0 < d ==> d * (a / d).Floor as real <= a < d * ((a / d).Floor as real + 1.0)
    ensures d < 0.0 ==> d * ((a / d).Floor as real + 1.0) < a <= d * (a / d).Floor as real
  {
    var q := (a / d).Floor as real;
    if 0.0 < d {
      QuotientAtLeast(a, d, q);
      QuotientBelow(a, d, q + 1.0);
    } else {
      QuotientAtLeastNeg(a, d, q);
      QuotientBelowNeg(a, d, q + 1.0);
    }
  }

  /** A lower bound on `a / d` bounds `a` (positive `d`). */
  lemma QuotientAtLeast(a: real, d: real, q: real)
    requires 0.0 < d && q <= a / d
    ensures d * q <= a
  {
  }

  /** A strict upper bound on `a / d` bounds `a` (positive `d`). */
  lemma QuotientBelow(a: real, d: real, p: real)
    requires 0.0 < d && a / d < p
    ensures a < d * p
  {
  }

  /** A lower bound on `a / d` bounds `a` from above (negative `d`). */
  lemma QuotientAtLeastNeg(a: real, d: real, q: real)
    requires d < 0.0 && q <= a / d
    ensures a <= d * q
  {
  }

  /** A strict upper bound on `a / d` bounds `a` from below (negative `d`). */
  lemma QuotientBelowNeg(a: real, d: real, p: real)
    requires d < 0.0 && a / d < p
    ensures d * p < a
  {
  }

  lemma MulStrict(x: real, y: real, d: real)
    requires x < y && 0.0 < d
    ensures d * x < d * y
  {
  }

  /** The remainder is unique: any value in the divisor's range that differs
      from `a` by a whole multiple of `b` is `FloatMod(a, b)`. */
  lemma FloatModUnique(a: real, b: int, r: real)
    requires 0 < b
    requires 0.0 <= r < b as real
    requires IsWhole((a - r) / b as real)
    ensures r == FloatMod(a, b)
  {
    RemainderUnique(a, b as real, r, FloatMod(a, b));
  }

  /** Two values in `[0, d)` that both differ from `a` by whole multiples of
      `d` are equal. */
  lemma RemainderUnique(a: real, d: real, r: real, r': real)
    requires 0.0 < d && 0.0 <= r < d && 0.0 <= r' < d
    requires IsWhole((a - r) / d) && IsWhole((a - r') / d)
    ensures r == r'
  {
    var k := WholeQuotient(a - r, d);
    var k' := WholeQuotient(a - r', d);
    assert r' - r == (k - k') as real * d by {
      assert r' - r == k as real * d - k' as real * d;
    }
    MultipleInRange(k - k', d, r' - r);
  }

  /** The only whole multiple of `d` strictly between `-d` and `d` is 0. */
  lemma MultipleInRange(n: int, d: real, x: real)
    requires 0.0 < d && x == n as real * d && -d < x < d
    ensures n == 0 && x == 0.0
  {
    if n != 0 {
      WholeMultiple(n, d);
      assert false;
    }
  }

  /** A whole quotient `x / d` makes `x` a whole multiple of `d`. */
  lemma WholeQuotient(x: real, d: real) returns (k: int)
    requires d != 0.0 && IsWhole(x / d)
    ensures x == k as real * d
  {
    k := (x / d).Floor;
    assert k as real == x / d;
  }

  /** A non-zero whole multiple of a positive `s` is at least `s` in size. */
  lemma WholeMultiple(n: int, s: real)
    requires n != 0 && 0.0 < s
    ensures n as real * s <= -s || s <= n as real * s
  {
    if n > 0 {
      assert n as real * s == s + (n - 1) as real * s;
    } else {
      assert n as real * s == -s + (n + 1) as real * s;
    }
  }
}
