/** src/calculus/helpers.rs: the error measures between an approximation a
    and a reference value b. */
module CalculusHelpers {
  import opened Sums

  /** absolute_error: |b - a|, non-negative and zero exactly when a == b. */
  function AbsoluteError(a: real, b: real): (e: real)
    ensures e >= 0.0 && (e == 0.0 <==> a == b)
  {
    Abs(b - a)
  }

  /** relative_error: |b - a| / |b|, the absolute error measured in units of
      the reference.  A zero reference divides by zero. */
  function RelativeError(a: real, b: real): (e: real)
    requires b != 0.0
    ensures e >= 0.0 && (e == 0.0 <==> a == b)
    ensures e * Abs(b) == AbsoluteError(a, b)
  {
    Abs(b - a) / Abs(b)
  }

  /** precision_error: |b - a| / max(1, |b|), the absolute error near zero and
      the relative error away from it.  It never exceeds the absolute error
      and vanishes exactly when a == b. */
  function PrecisionError(a: real, b: real): (e: real)
    ensures 0.0 <= e <= AbsoluteError(a, b)
    ensures e == 0.0 <==> a == b
  {
    QuotientBounds(Abs(b - a), Max(1.0, Abs(b)));
    Abs(b - a) / Max(1.0, Abs(b))
  }

  /** The absolute error is a distance: symmetric, and it obeys the triangle
      inequality. */
  lemma {:induction false} AbsoluteErrorIsDistance(a: real, b: real, c: real)
    ensures AbsoluteError(a, b) == AbsoluteError(b, a)
    ensures AbsoluteError(a, c) <= AbsoluteError(a, b) + AbsoluteError(b, c)
  {
    assert b - a == -(a - b);
    assert c - a == (b - a) + (c - b);
  }

  /** For references of magnitude at most 1 the precision error is the absolute one. */
  lemma {:induction false} PrecisionErrorNearZero(a: real, b: real)
    requires Abs(b) <= 1.0
    ensures PrecisionError(a, b) == AbsoluteError(a, b)
  {
    assert Max(1.0, Abs(b)) == 1.0;
  }

  /** For references of magnitude at least 1 it is the relative one. */
  lemma {:induction false} PrecisionErrorAwayFromZero(a: real, b: real)
    requires Abs(b) >= 1.0
    ensures b != 0.0
    ensures PrecisionError(a, b) == RelativeError(a, b)
  {
    assert Max(1.0, Abs(b)) == Abs(b);
  }

  /** Dividing a non-negative e by m >= 1 gives a value between 0 and e that
      is 0 exactly when e is. */
  lemma {:induction false} QuotientBounds(e: real, m: real)
    requires e >= 0.0 && m >= 1.0
    ensures 0.0 <= e / m <= e
    ensures e / m == 0.0 <==> e == 0.0
  {
    var q := e / m;
    assert q * m == e;
    assert q >= 0.0;
    ProductNonNegative(m - 1.0, q);
    assert q <= e;
    if q == 0.0 {
      assert e == 0.0 * m;
    }
  }

  lemma {:induction false} ProductNonNegative(x: real, y: real)
    requires x >= 0.0 && y >= 0.0
    ensures x * y >= 0.0
  {
  }
}
