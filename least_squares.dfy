/** src/linear_algebra/least_squares.rs: the least-squares line y = a x + b
    through the points (x[i], y[i]), in closed form. */
module LeastSquares {
  import opened Sums
  import opened Wrappers
  import opened LinearAlgebraHelpers

  /** sum of x[i] * (y[i] - m) for i < hi, the form the loop accumulates */
  function CrossSum(x: seq<real>, y: seq<real>, m: real, hi: nat): real
    requires hi <= |x| && hi <= |y|
  {
    if hi == 0 then 0.0 else CrossSum(x, y, m, hi - 1) + x[hi - 1] * (y[hi - 1] - m)
  }

  /** sum of (x[i] - c) * (y[i] - m) for i < hi */
  function CenteredCross(x: seq<real>, y: seq<real>, c: real, m: real, hi: nat): real
    requires hi <= |x| && hi <= |y|
  {
    if hi == 0 then 0.0 else CenteredCross(x, y, c, m, hi - 1) + (x[hi - 1] - c) * (y[hi - 1] - m)
  }

  /** linear_regression over the reals: the slope is the numerator over the
      denominator and the intercept puts the line through the means.  A zero
      denominator (every x equal, or no points) is a division by zero. */
  function Regression(x: seq<real>, y: seq<real>): (r: Option<(real, real)>)
    requires |x| == |y|
  {
    if |x| == 0 || CrossSum(x, x, Mean(x), |x|) == 0.0 then None
    else Some(Line(CrossSum(x, y, Mean(y), |x|), CrossSum(x, x, Mean(x), |x|), Mean(x), Mean(y)))
  }

  /** slope num / den, and the intercept that puts (mx, my) on the line */
  function Line(num: real, den: real, mx: real, my: real): (ab: (real, real))
    requires den != 0.0
  {
    (num / den, my - (num / den) * mx)
  }

  /** The line's slope times den is num, and the line passes through (mx, my). */
  lemma {:induction false} LineSolves(num: real, den: real, mx: real, my: real)
    requires den != 0.0
    ensures Line(num, den, mx, my).0 * den == num
    ensures Line(num, den, mx, my).0 * mx + Line(num, den, mx, my).1 == my
  {
  }

  /** Moving the centre of x changes the sum by c times the deviations of y. */
  lemma {:induction false} CrossSumShift(x: seq<real>, y: seq<real>, c: real, m: real, hi: nat)
    requires hi <= |x| && hi <= |y|
    ensures CrossSum(x, y, m, hi) == CenteredCross(x, y, c, m, hi) + c * (Sum(y, 0, hi) - (hi as real) * m)
  {
    if hi > 0 {
      CrossSumShift(x, y, c, m, hi - 1);
      var xi, yi := x[hi - 1], y[hi - 1];
      assert xi * (yi - m) == (xi - c) * (yi - m) + c * (yi - m);
      ShiftCombine(CrossSum(x, y, m, hi - 1), CenteredCross(x, y, c, m, hi - 1), Sum(y, 0, hi - 1), yi, m, c,
                   (hi - 1) as real, xi * (yi - m), (xi - c) * (yi - m));
    }
  }

  lemma {:induction false} ShiftCombine(p: real, q: real, s: real, yi: real, m: real, c: real, k: real, t: real, tc: real)
    requires p == q + c * (s - k * m) && t == tc + c * (yi - m)
    ensures p + t == (q + tc) + c * ((s + yi) - (k + 1.0) * m)
  {
  }

  /** Around the means the loop's sums are the centred ones. */
  lemma {:induction false} CrossSumIsCentered(x: seq<real>, y: seq<real>)
    requires |x| == |y| >= 1
    ensures CrossSum(x, y, Mean(y), |x|) == CenteredCross(x, y, Mean(x), Mean(y), |x|)
  {
    CrossSumShift(x, y, Mean(x), Mean(y), |x|);
  }

  /** When every x[i] is the same the denominator vanishes, so the library
      divides by zero. */
  lemma {:induction false} ConstantDenominator(x: seq<real>)
    requires |x| >= 1
    requires forall i :: 0 <= i < |x| ==> x[i] == x[0]
    ensures CrossSum(x, x, Mean(x), |x|) == 0.0
    ensures Regression(x, x) == None
  {
    MeanBetweenExtremes(x, x[0], x[0]);
    ZeroTerms(x, Mean(x), |x|);
  }

  lemma {:induction false} ZeroTerms(x: seq<real>, m: real, hi: nat)
    requires hi <= |x|
    requires forall i :: 0 <= i < hi ==> x[i] == m
    ensures CrossSum(x, x, m, hi) == 0.0
  {
    if hi > 0 {
      ZeroTerms(x, m, hi - 1);
      assert x[hi - 1] - m == 0.0;
    }
  }

  lemma {:induction false} RegressionValue(x: seq<real>, y: seq<real>)
    requires |x| == |y| >= 1 && CrossSum(x, x, Mean(x), |x|) != 0.0
    ensures Regression(x, y) == Some(Line(CrossSum(x, y, Mean(y), |x|), CrossSum(x, x, Mean(x), |x|), Mean(x), Mean(y)))
  {
  }

  /** The fitted line passes through the point of means. */
  lemma {:induction false} RegressionThroughMeans(x: seq<real>, y: seq<real>)
    requires |x| == |y|
    requires Regression(x, y).Some?
    ensures |x| >= 1
    ensures Regression(x, y).value.0 * Mean(x) + Regression(x, y).value.1 == Mean(y)
  {
    LineSolves(CrossSum(x, y, Mean(y), |x|), CrossSum(x, x, Mean(x), |x|), Mean(x), Mean(y));
  }

  /** Points on a line y = alpha x + beta give that line back whenever the
      denominator does not vanish. */
  lemma {:induction false} RegressionRecoversLine(x: seq<real>, y: seq<real>, alpha: real, beta: real)
    requires |x| == |y| >= 1
    requires forall i :: 0 <= i < |x| ==> y[i] == alpha * x[i] + beta
    requires CrossSum(x, x, Mean(x), |x|) != 0.0
    ensures Regression(x, y) == Some((alpha, beta))
  {
    LineParts(x, y, alpha, beta);
    RegressionFromParts(x, y, alpha, beta);
  }

  /** The regression is (alpha, beta) once the means and the two sums are
      related as on the line y = alpha x + beta. */
  lemma {:induction false} RegressionFromParts(x: seq<real>, y: seq<real>, alpha: real, beta: real)
    requires |x| == |y| >= 1
    requires CrossSum(x, x, Mean(x), |x|) != 0.0
    requires Mean(y) == alpha * Mean(x) + beta
    requires CrossSum(x, y, Mean(y), |x|) == alpha * CrossSum(x, x, Mean(x), |x|)
    ensures Regression(x, y) == Some((alpha, beta))
  {
    var num, den := CrossSum(x, y, Mean(y), |x|), CrossSum(x, x, Mean(x), |x|);
    RegressionValue(x, y);
    LineOfMultiple(num, den, Mean(x), Mean(y), alpha, beta);
  }

  lemma {:induction false} LineParts(x: seq<real>, y: seq<real>, alpha: real, beta: real)
    requires |x| == |y| >= 1
    requires forall i :: 0 <= i < |x| ==> y[i] == alpha * x[i] + beta
    ensures Mean(y) == alpha * Mean(x) + beta
    ensures CrossSum(x, y, Mean(y), |x|) == alpha * CrossSum(x, x, Mean(x), |x|)
  {
    var mx, my := Mean(x), Mean(y);
    MeanAffine(x, y, alpha, beta);
    NumeratorOfLine(x, y, alpha, beta, mx, my, |x|);
  }

  /** The slope and intercept of a numerator alpha den and a mean point on
      y = alpha x + beta. */
  lemma {:induction false} LineOfMultiple(num: real, den: real, mx: real, my: real, alpha: real, beta: real)
    requires den != 0.0 && num == alpha * den && my == alpha * mx + beta
    ensures Line(num, den, mx, my) == (alpha, beta)
  {
    var ab := Line(num, den, mx, my);
    LineSolves(num, den, mx, my);
    CancelFactor(ab.0, alpha, den);
    assert ab.0 * mx == alpha * mx;
    assert ab.1 == beta;
  }

  lemma {:induction false} CancelFactor(u: real, v: real, d: real)
    requires d != 0.0 && u * d == v * d
    ensures u == v
  {
    assert (u - v) * d == 0.0;
  }

  /** On a line the numerator is alpha times the denominator. */
  lemma {:induction false} NumeratorOfLine(x: seq<real>, y: seq<real>, alpha: real, beta: real, m: real, my: real, hi: nat)
    requires |x| == |y| && hi <= |x| && my == alpha * m + beta
    requires forall i :: 0 <= i < |x| ==> y[i] == alpha * x[i] + beta
    ensures CrossSum(x, y, my, hi) == alpha * CrossSum(x, x, m, hi)
  {
    if hi == 0 {
      assert alpha * 0.0 == 0.0;
    } else {
      NumeratorOfLine(x, y, alpha, beta, m, my, hi - 1);
      LineTerm(x[hi - 1], y[hi - 1], alpha, beta, m, my);
      NumeratorStep(x, y, alpha, m, my, hi);
    }
  }

  /** One term of the numerator on the line y = alpha x + beta. */
  lemma {:induction false} LineTerm(xi: real, yi: real, alpha: real, beta: real, m: real, my: real)
    requires yi == alpha * xi + beta && my == alpha * m + beta
    ensures xi * (yi - my) == alpha * (xi * (xi - m))
  {
    assert yi - my == alpha * (xi - m);
  }

  /** The inductive step of NumeratorOfLine, kept apart from the line's
      equations so that only the sums and the new term are in view. */
  lemma {:induction false} NumeratorStep(x: seq<real>, y: seq<real>, alpha: real, m: real, my: real, hi: nat)
    requires |x| == |y| && 1 <= hi <= |x|
    requires CrossSum(x, y, my, hi - 1) == alpha * CrossSum(x, x, m, hi - 1)
    requires x[hi - 1] * (y[hi - 1] - my) == alpha * (x[hi - 1] * (x[hi - 1] - m))
    ensures CrossSum(x, y, my, hi) == alpha * CrossSum(x, x, m, hi)
  {
    CrossSumStep(x, y, my, hi);
    CrossSumStep(x, x, m, hi);
    ScaledSum(CrossSum(x, y, my, hi - 1), CrossSum(x, x, m, hi - 1), x[hi - 1] * (y[hi - 1] - my), x[hi - 1] * (x[hi - 1] - m), alpha);
  }

  lemma {:induction false} CrossSumStep(x: seq<real>, y: seq<real>, m: real, hi: nat)
    requires 1 <= hi <= |x| && hi <= |y|
    ensures CrossSum(x, y, m, hi) == CrossSum(x, y, m, hi - 1) + x[hi - 1] * (y[hi - 1] - m)
  {
  }

  lemma {:induction false} ScaledSum(cy: real, cx: real, ty: real, tx: real, alpha: real)
    requires cy == alpha * cx && ty == alpha * tx
    ensures cy + ty == alpha * (cx + tx)
  {
  }

  /** linear_regression: the means, then one loop accumulating the numerator
      and the denominator, then the slope and the intercept. */
  method LinearRegression(x: seq<real>, y: seq<real>) returns (r: Option<(real, real)>)
    requires |x| == |y|
    ensures r == Regression(x, y)
    ensures r.Some? ==> |x| >= 1 && r.value.0 * Mean(x) + r.value.1 == Mean(y)
  {
    var n := |x|;
    if n == 0 {
      assert Regression(x, y) == None;
      return None;
    }
    var meanX := Mean(x);
    var meanY := Mean(y);
    var numerator := 0.0;
    var denominator := 0.0;
    for i := 0 to n
      invariant numerator == CrossSum(x, y, meanY, i)
      invariant denominator == CrossSum(x, x, meanX, i)
    {
      numerator := numerator + x[i] * (y[i] - meanY);
      denominator := denominator + x[i] * (x[i] - meanX);
    }
    if denominator == 0.0 {
      assert Regression(x, y) == None;
      return None;
    }
    var a := numerator / denominator;
    var b := meanY - a * meanX;
    RegressionOfSums(x, y, numerator, denominator, a, b);
    r := Some((a, b));
  }

  /** The slope and intercept the method computes from the loop's sums are
      the regression line, which passes through the means. */
  lemma {:induction false} RegressionOfSums(x: seq<real>, y: seq<real>, num: real, den: real, a: real, b: real)
    requires |x| == |y| >= 1
    requires num == CrossSum(x, y, Mean(y), |x|) && den == CrossSum(x, x, Mean(x), |x|) && den != 0.0
    requires a == num / den && b == Mean(y) - a * Mean(x)
    ensures Regression(x, y) == Some((a, b))
    ensures a * Mean(x) + b == Mean(y)
  {
    LineOfQuotient(num, den, Mean(x), Mean(y), a, b);
    RegressionValue(x, y);
  }

  /** a = num / den and b = my - a mx are the components of Line. */
  lemma {:induction false} LineOfQuotient(num: real, den: real, mx: real, my: real, a: real, b: real)
    requires den != 0.0 && a == num / den && b == my - a * mx
    ensures Line(num, den, mx, my) == (a, b)
    ensures a * mx + b == my
  {
    assert Line(num, den, mx, my).0 == a;
    assert Line(num, den, mx, my).1 == b;
  }
}
