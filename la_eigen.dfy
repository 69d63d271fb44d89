/** src/linear_algebra/eigen.rs: Leverrier's method for the characteristic
    polynomial, the LR (Rutishauser) iteration and the power method.

    Leverrier's recurrence is defined here once; the copies in
    src/linear_systems/eigen.rs and src/eigen/eigen_values.rs are stated
    against the same definitions. */
module LinearAlgebraEigen {
  import opened Sums
  import opened Matrices
  import opened Wrappers
  import opened LinearAlgebraHelpers

  // ---------------------------------------------------------------------
  // Leverrier

  /** s[i] = tr(a^(i+1)) for i < n: the power sums of the eigenvalues. */
  function PowerTraces(a: Matrix): (s: Vector)
    requires IsSquare(a, |a|)
    ensures |s| == |a|
  {
    seq(|a|, i requires 0 <= i < |a| => Trace(Power(a, i + 1)))
  }

  /** sum of p[i-1] * s[k-i-1] for i in 1 .. j-1, added in increasing i */
  function NewtonSum(p: Vector, s: Vector, k: nat, j: nat): real
    requires 1 <= j <= k <= |s| && k <= |p| + 1
    decreases j
  {
    if j == 1 then 0.0 else NewtonSum(p, s, k, j - 1) + p[j - 2] * s[k - j]
  }

  /** The first m coefficients, each from the ones before it:
      p[k-1] = (s[k-1] - sum of p[i-1] * s[k-i-1] over 1 <= i < k) / k. */
  function Coefficients(s: Vector, m: nat): (p: Vector)
    requires m <= |s|
    ensures |p| == m
    decreases m
  {
    if m == 0 then []
    else Coefficients(s, m - 1) + [(s[m - 1] - NewtonSum(Coefficients(s, m - 1), s, m, m)) / (m as real)]
  }

  /** A Newton sum reads p only below index j - 1. */
  lemma {:induction false} NewtonSumFrame(p: Vector, q: Vector, s: Vector, k: nat, j: nat)
    requires 1 <= j <= k <= |s| && k <= |p| + 1 && k <= |q| + 1
    requires forall i :: 0 <= i < j - 1 ==> p[i] == q[i]
    ensures NewtonSum(p, s, k, j) == NewtonSum(q, s, k, j)
    decreases j
  {
    if j > 1 {
      NewtonSumFrame(p, q, s, k, j - 1);
    }
  }

  /** Newton's identities: k p[k-1] == s[k-1] - sum_{i=1}^{k-1} p[i-1] s[k-i-1]. */
  predicate SatisfiesNewton(p: Vector, s: Vector)
    requires |p| <= |s|
  {
    forall k :: 1 <= k <= |p| ==> (k as real) * p[k - 1] == s[k - 1] - NewtonSum(p, s, k, k)
  }

  /** The coefficients satisfy Newton's identities ... */
  lemma {:induction false} CoefficientsSatisfyNewton(s: Vector, m: nat)
    requires m <= |s|
    ensures SatisfiesNewton(Coefficients(s, m), s)
    decreases m
  {
    if m > 0 {
      var q := Coefficients(s, m - 1);
      var p := Coefficients(s, m);
      CoefficientsSatisfyNewton(s, m - 1);
      assert p == q + [p[m - 1]];
      NewtonAtLast(s, m);
      forall k | 1 <= k <= m
        ensures (k as real) * p[k - 1] == s[k - 1] - NewtonSum(p, s, k, k)
      {
        if k < m {
          NewtonBelowLast(s, q, p, k);
        }
      }
    }
  }

  /** Appending a coefficient keeps the identities of those before it. */
  lemma {:induction false} NewtonBelowLast(s: Vector, q: Vector, p: Vector, k: nat)
    requires 1 <= k <= |q| && |p| == |q| + 1 <= |s|
    requires forall i :: 0 <= i < |q| ==> p[i] == q[i]
    requires SatisfiesNewton(q, s)
    ensures (k as real) * p[k - 1] == s[k - 1] - NewtonSum(p, s, k, k)
  {
    NewtonSumFrame(p, q, s, k, k);
    assert (k as real) * q[k - 1] == s[k - 1] - NewtonSum(q, s, k, k);
  }

  /** The identity for k == m holds by the definition of the last coefficient. */
  lemma {:induction false} NewtonAtLast(s: Vector, m: nat)
    requires 1 <= m <= |s|
    ensures (m as real) * Coefficients(s, m)[m - 1] == s[m - 1] - NewtonSum(Coefficients(s, m), s, m, m)
  {
    var q := Coefficients(s, m - 1);
    var p := Coefficients(s, m);
    NewtonSumFrame(p, q, s, m, m);
    var t := s[m - 1] - NewtonSum(q, s, m, m);
    assert p[m - 1] == t / (m as real);
  }

  /** Dropping the last coefficient keeps Newton's identities. */
  lemma {:induction false} NewtonPrefix(s: Vector, p: Vector)
    requires 1 <= |p| <= |s| && SatisfiesNewton(p, s)
    ensures SatisfiesNewton(p[..|p| - 1], s)
  {
    var q := p[..|p| - 1];
    forall k | 1 <= k <= |q|
      ensures (k as real) * q[k - 1] == s[k - 1] - NewtonSum(q, s, k, k)
    {
      NewtonSumFrame(p, q, s, k, k);
      assert (k as real) * p[k - 1] == s[k - 1] - NewtonSum(p, s, k, k);
    }
  }

  /** The last identity fixes the last coefficient. */
  lemma {:induction false} NewtonLast(s: Vector, p: Vector)
    requires 1 <= |p| <= |s| && SatisfiesNewton(p, s)
    ensures p[|p| - 1] == (s[|p| - 1] - NewtonSum(p[..|p| - 1], s, |p|, |p|)) / (|p| as real)
  {
    var m := |p|;
    NewtonSumFrame(p, p[..m - 1], s, m, m);
    assert (m as real) * p[m - 1] == s[m - 1] - NewtonSum(p, s, m, m);
  }

  /** ... and are the only sequence of their length that does. */
  lemma {:induction false} NewtonDeterminesCoefficients(s: Vector, p: Vector)
    requires |p| <= |s| && SatisfiesNewton(p, s)
    ensures p == Coefficients(s, |p|)
    decreases |p|
  {
    var m := |p|;
    if m > 0 {
      var q := p[..m - 1];
      NewtonPrefix(s, p);
      NewtonDeterminesCoefficients(s, q);
      NewtonLast(s, p);
      assert p == q + [p[m - 1]];
    }
  }

  /** p[0] == tr(a) */
  lemma {:induction false} LeverrierFirstCoefficient(a: Matrix)
    requires IsSquare(a, |a|) && |a| >= 1
    ensures Coefficients(PowerTraces(a), |a|)[0] == Trace(a)
  {
    var s := PowerTraces(a);
    var n := |a|;
    CoefficientsSatisfyNewton(s, n);
    assert 1.0 * Coefficients(s, n)[0] == s[0] - NewtonSum(Coefficients(s, n), s, 1, 1);
  }

  /** For a 1 x 1 matrix the polynomial is lambda - a00. */
  lemma {:induction false} LeverrierOneByOne(a: Matrix)
    requires IsSquare(a, 1)
    ensures Coefficients(PowerTraces(a), 1) == [a[0][0]]
  {
    assert Power(a, 1) == a;
    assert Trace(a) == TraceUpTo(a, 0) + a[0][0];
  }

  /** lambda^m - p[0] lambda^(m-1) - ... - p[m-1], by Horner's rule. */
  function Horner(p: Vector, lambda: real, m: nat): real
    requires m <= |p|
  {
    if m == 0 then 1.0 else Horner(p, lambda, m - 1) * lambda - p[m - 1]
  }

  /** The characteristic polynomial the coefficients p stand for, at lambda. */
  function CharacteristicValue(p: Vector, lambda: real): real
  {
    Horner(p, lambda, |p|)
  }

  /** For a 2 x 2 matrix p = [a00 + a11, a01 a10 - a00 a11], so that
      lambda^2 - p[0] lambda - p[1] is det(lambda I - a). */
  lemma {:induction false} LeverrierTwoByTwo(a: Matrix)
    requires IsSquare(a, 2)
    ensures Coefficients(PowerTraces(a), 2) == [a[0][0] + a[1][1], a[0][1] * a[1][0] - a[0][0] * a[1][1]]
    ensures forall lambda: real :: CharacteristicValue(Coefficients(PowerTraces(a), 2), lambda) ==
              (lambda - a[0][0]) * (lambda - a[1][1]) - a[0][1] * a[1][0]
  {
    var s := PowerTraces(a);
    var a2 := Mul(a, a);
    assert Power(a, 2) == a2;
    assert a2[0][0] == a[0][0] * a[0][0] + a[0][1] * a[1][0] by {
      assert Column(a, 0) == [a[0][0], a[1][0]];
    }
    assert a2[1][1] == a[1][0] * a[0][1] + a[1][1] * a[1][1] by {
      assert Column(a, 1) == [a[0][1], a[1][1]];
    }
    assert Power(a, 1) == a;
    assert Trace(a) == TraceUpTo(a, 1) + a[1][1] == a[0][0] + a[1][1];
    assert Trace(a2) == TraceUpTo(a2, 1) + a2[1][1] == a2[0][0] + a2[1][1];
    assert s[0] == a[0][0] + a[1][1];
    assert s[1] == a2[0][0] + a2[1][1];
    var p1 := Coefficients(s, 1);
    assert p1 == [s[0]];
    var t := s[1] - NewtonSum(p1, s, 2, 2);
    assert NewtonSum(p1, s, 2, 2) == s[0] * s[0];
    assert t == 2.0 * (a[0][1] * a[1][0] - a[0][0] * a[1][1]);
    assert Coefficients(s, 2) == p1 + [t / 2.0];
    var p := Coefficients(s, 2);
    forall lambda: real
      ensures CharacteristicValue(p, lambda) == (lambda - a[0][0]) * (lambda - a[1][1]) - a[0][1] * a[1][0]
    {
      assert Horner(p, lambda, 1) == 1.0 * lambda - p[0];
      assert CharacteristicValue(p, lambda) == Horner(p, lambda, 1) * lambda - p[1];
    }
  }

  /** leverrier's first loop: s[i] = tr(a_cp) with a_cp = a^(i+1), then
      a_cp = a_cp a. */
  method TracesOfPowers(a: Matrix) returns (s: Vector)
    requires IsSquare(a, |a|)
    ensures s == PowerTraces(a)
  {
    var n := |a|;
    ghost var goal := PowerTraces(a);
    s := Zeros(n);
    var aCp := a;
    for i := 0 to n
      invariant |s| == n && aCp == Power(a, i + 1)
      invariant s[..i] == goal[..i]
    {
      var t := Tr(aCp);
      assert goal[i] == t;
      s := s[i := t];
      aCp := MatMat(aCp, a);
    }
    assert s == s[..n];
  }

  /** leverrier's innermost loop: sum of p[i-1] * s[k-i-1] for 1 <= i < k. */
  method NewtonSumLoop(p: Vector, s: Vector, k: nat) returns (sum: real)
    requires 1 <= k <= |s| && |p| == |s|
    ensures sum == NewtonSum(p, s, k, k)
  {
    sum := 0.0;
    for i := 1 to k
      invariant sum == NewtonSum(p, s, k, i)
    {
      sum := sum + p[i - 1] * s[k - i - 1];
    }
  }

  /** Writing the k-th coefficient after the first k - 1 gives the first k. */
  lemma {:induction false} CoefficientsExtend(s: Vector, p: Vector, k: nat, c: real)
    requires 1 <= k <= |s| && |p| == |s|
    requires p[..k - 1] == Coefficients(s, k - 1)
    requires c == (s[k - 1] - NewtonSum(p, s, k, k)) / (k as real)
    ensures p[k - 1 := c][..k] == Coefficients(s, k)
  {
    var q := Coefficients(s, k - 1);
    NewtonSumFrame(p, q, s, k, k);
    assert p[k - 1 := c][..k] == q + [c];
  }

  /** leverrier's second loop: p[k-1] from s and p[0 .. k-2]. */
  method CoefficientsFromTraces(s: Vector) returns (p: Vector)
    ensures p == Coefficients(s, |s|)
  {
    var n := |s|;
    p := Zeros(n);
    for k := 1 to n + 1
      invariant |p| == n
      invariant p[..k - 1] == Coefficients(s, k - 1)
    {
      var sum := NewtonSumLoop(p, s, k);
      var c := (s[k - 1] - sum) / (k as real);
      CoefficientsExtend(s, p, k, c);
      p := p[k - 1 := c];
    }
    assert p == p[..n];
  }

  /** leverrier: the coefficients of lambda^n - p[0] lambda^(n-1) - ... - p[n-1]. */
  method Leverrier(a: Matrix) returns (p: Vector)
    requires IsSquare(a, |a|)
    ensures |p| == |a|
    ensures SatisfiesNewton(p, PowerTraces(a))
    ensures |a| >= 1 ==> p[0] == Trace(a)
    ensures p == Coefficients(PowerTraces(a), |a|)
  {
    var s := TracesOfPowers(a);
    p := CoefficientsFromTraces(s);
    CoefficientsSatisfyNewton(s, |a|);
    if |a| >= 1 {
      LeverrierFirstCoefficient(a);
    }
  }

  // ---------------------------------------------------------------------
  // LR (Rutishauser) iteration

  const LowerTolerance: real := 1.0e-6

  /** rutishauser's exit test: every entry below the diagonal under 1e-6 in
      absolute value (for n < 2 there is none and the test passes). */
  predicate LowerIsSmall(a: Matrix)
    requires IsSquare(a, |a|)
  {
    forall i, j :: 0 <= j < i < |a| ==> Abs(a[i][j]) < LowerTolerance
  }

  /** u l is similar to a == l u: it has the same trace and l (u l) == a l. */
  lemma {:induction false} LrStepIsSimilarity(a: Matrix, l: Matrix, u: Matrix)
    requires IsLuFactorisation(a, l, u)
    ensures Trace(Mul(u, l)) == Trace(a)
    ensures Mul(l, Mul(u, l)) == Mul(a, l)
  {
    TraceMulCommutes(u, l);
    MulAssociative(l, u, l);
  }

  /** One step of rutishauser: factor a == l u and multiply back as u l.
      A zero divisor of the factorisation gives None, and that happens
      exactly when a has no LU factorisation. */
  method LrStep(a: Matrix) returns (r: Option<Matrix>, ghost l: Matrix, ghost u: Matrix)
    requires IsSquare(a, |a|)
    ensures r.None? <==> !HasLuFactorisation(a)
    ensures r.Some? ==> IsLuFactorisation(a, l, u) && r.value == Mul(u, l)
  {
    l, u := a, a;
    var lu := LuDecomp(a);
    if lu.None? {
      return None, l, u;
    }
    var lo, up := lu.value.0, lu.value.1;
    l, u := lo, up;
    var c := MatMat(up, lo);
    r := Some(c);
  }

  /** The next LR iterate: u l for the factors a == l u. */
  ghost function LrNext(a: Matrix): (b: Matrix)
    requires HasLuFactorisation(a)
    ensures IsSquare(b, |a|) && Trace(b) == Trace(a)
  {
    LrStepIsSimilarity(a, LuFactors(a).0, LuFactors(a).1);
    Mul(LuFactors(a).1, LuFactors(a).0)
  }

  /** The loop of rutishauser from a with at most fuel LR steps: the outcome
      and the last iterate. */
  ghost function LrRun(a: Matrix, fuel: nat): (Outcome<Vector>, Matrix)
    requires IsSquare(a, |a|)
    decreases fuel
  {
    if fuel == 0 then (OutOfFuel(Diagonal(a)), a)
    else if !HasLuFactorisation(a) then (ZeroDivisor, a)
    else if LowerIsSmall(LrNext(a)) then (Converged(Diagonal(LrNext(a))), LrNext(a))
    else LrRun(LrNext(a), fuel - 1)
  }

  /** Every iterate of a run is square and has the trace of a; a converged run
      returns the diagonal of an iterate whose lower part is small, and its
      entries add up to the trace of a. */
  lemma {:induction false} LrRunKeepsTrace(a: Matrix, fuel: nat)
    requires IsSquare(a, |a|)
    ensures var (r, last) := LrRun(a, fuel);
      IsSquare(last, |a|) && Trace(last) == Trace(a) &&
      (r.Converged? ==> r.value == Diagonal(last) && LowerIsSmall(last) && Sum(r.value, 0, |a|) == Trace(a)) &&
      (r.OutOfFuel? ==> r.last == Diagonal(last))
    decreases fuel
  {
    if fuel == 0 || !HasLuFactorisation(a) {
    } else if LowerIsSmall(LrNext(a)) {
      DiagonalSumIsTrace(LrNext(a), |a|);
    } else {
      LrRunKeepsTrace(LrNext(a), fuel - 1);
    }
  }

  /** The test on max_abs_value_in_inferior_triangle is the test on every
      entry below the diagonal. */
  lemma {:induction false} LowerMaximumTest(a: Matrix, m: real)
    requires IsSquare(a, |a|) && |a| >= 2
    requires forall i, j :: 0 <= j < i < |a| ==> Abs(a[i][j]) <= m
    requires exists i, j :: 0 <= j < i < |a| && m == Abs(a[i][j])
    ensures LowerIsSmall(a) <==> m < LowerTolerance
  {
  }

  /** A round from a factorisation a == l u: the run stops at u l when its
      lower part is small and goes on from u l otherwise. */
  lemma {:induction false} LrRunSteps(a: Matrix, fuel: nat, l: Matrix, u: Matrix)
    requires IsLuFactorisation(a, l, u) && fuel >= 1
    ensures LrRun(a, fuel) ==
              if LowerIsSmall(Mul(u, l)) then (Converged(Diagonal(Mul(u, l))), Mul(u, l))
              else LrRun(Mul(u, l), fuel - 1)
  {
    LuFactorsAre(a, l, u);
  }

  /** One pass of rutishauser's loop from a: factor, multiply back, test the
      part below the diagonal.  Either the run's result, or the iterate the
      run goes on from. */
  method LrRound(a: Matrix, fuel: nat) returns (stop: Option<(Outcome<Vector>, Matrix)>, next: Matrix)
    requires IsSquare(a, |a|) && fuel >= 1
    ensures IsSquare(next, |a|)
    ensures stop.Some? ==> stop.value == LrRun(a, fuel)
    ensures stop.None? ==> LrRun(next, fuel - 1) == LrRun(a, fuel)
  {
    var n := |a|;
    var step;
    ghost var l, u;
    step, l, u := LrStep(a);
    if step.None? {
      return Some((ZeroDivisor, a)), a;
    }
    LrRunSteps(a, fuel, l, u);
    next := step.value;
    var small := true;
    if n >= 2 {
      var m := MaxAbsValueInInferiorTriangle(next);
      small := m < LowerTolerance;
      LowerMaximumTest(next, m);
    }
    if small {
      return Some((Converged(Diagonal(next)), next)), next;
    }
    stop := None;
  }

  /** rutishauser: LR steps until the part below the diagonal is small, then
      the diagonal.  `last` is the final iterate. */
  method Rutishauser(a: Matrix, fuel: nat) returns (r: Outcome<Vector>, ghost last: Matrix)
    requires IsSquare(a, |a|)
    ensures (r, last) == LrRun(a, fuel)
    ensures IsSquare(last, |a|) && Trace(last) == Trace(a)
    ensures r.Converged? ==> r.value == Diagonal(last) && LowerIsSmall(last)
    ensures r.Converged? ==> Sum(r.value, 0, |a|) == Trace(a)
    ensures r.OutOfFuel? ==> r.last == Diagonal(last)
  {
    LrRunKeepsTrace(a, fuel);
    var cur := a;
    var left := fuel;
    while left > 0
      invariant IsSquare(cur, |a|) && LrRun(cur, left) == LrRun(a, fuel)
    {
      var stop;
      stop, cur := LrRound(cur, left);
      if stop.Some? {
        return stop.value.0, stop.value.1;
      }
      left := left - 1;
    }
    return OutOfFuel(Diagonal(cur)), cur;
  }

  // ---------------------------------------------------------------------
  // Power method

  const PowerEpsilon: real := 1.0e-100

  /** y = z / ||z||_inf */
  function Normalize(z: Vector): (y: Vector)
    requires |z| >= 1 && InfinityVecNorm(z) != 0.0
    ensures |y| == |z|
  {
    ScalarMul(z, 1.0 / InfinityVecNorm(z))
  }

  /** |l1 - laux| / |laux| < epsilon; a zero laux gives an infinite or NaN quotient. */
  predicate EstimateSettled(l1: real, laux: real)
  {
    laux != 0.0 && Abs(l1 - laux) < PowerEpsilon * Abs(laux)
  }

  /** One normalisation step from z: y = z / ||z||_inf, z' = a y and the
      estimate l1 = z'[0] / y[0]; None where the library would divide by zero. */
  function NormalizationStep(a: Matrix, z: Vector): (r: Option<(Vector, real)>)
    requires IsSquare(a, |a|) && |z| == |a| >= 1
  {
    if InfinityVecNorm(z) == 0.0 || Normalize(z)[0] == 0.0 then None
    else Some((Apply(a, Normalize(z)), Apply(a, Normalize(z))[0] / Normalize(z)[0]))
  }

  /** The loop of power_method from z with previous estimate laux. */
  function PowerRun(a: Matrix, z: Vector, laux: real, fuel: nat): (r: Outcome<real>)
    requires IsSquare(a, |a|) && |z| == |a| >= 1
    decreases fuel
  {
    if fuel == 0 then OutOfFuel(laux)
    else match NormalizationStep(a, z)
      case None => ZeroDivisor
      case Some((z', l1)) =>
        if EstimateSettled(l1, laux) then Converged(l1) else PowerRun(a, z', l1, fuel - 1)
  }

  /** A step that would divide by zero ends the run with ZeroDivisor. */
  lemma {:induction false} PowerRunDivides(a: Matrix, z: Vector, laux: real, fuel: nat)
    requires IsSquare(a, |a|) && |z| == |a| >= 1 && fuel >= 1
    requires NormalizationStep(a, z).None?
    ensures PowerRun(a, z, laux, fuel) == ZeroDivisor
  {
  }

  /** Otherwise the run stops at a settled estimate or goes on from the new z. */
  lemma {:induction false} PowerRunSteps(a: Matrix, z: Vector, laux: real, fuel: nat, z': Vector, l1: real)
    requires IsSquare(a, |a|) && |z| == |a| >= 1 && fuel >= 1
    requires NormalizationStep(a, z).Some?
    requires NormalizationStep(a, z).value.0 == z' && NormalizationStep(a, z).value.1 == l1
    ensures |z'| == |a|
    ensures PowerRun(a, z, laux, fuel) ==
              if EstimateSettled(l1, laux) then Converged(l1) else PowerRun(a, z', l1, fuel - 1)
  {
  }

  /** a (c v) == c (a v) */
  lemma {:induction false} ApplyScalarMul(a: Matrix, v: Vector, c: real)
    requires IsSquare(a, |v|)
    ensures Apply(a, ScalarMul(v, c)) == ScalarMul(Apply(a, v), c)
  {
    var n := |v|;
    var w := ScalarMul(v, c);
    forall i | 0 <= i < n
      ensures Apply(a, w)[i] == ScalarMul(Apply(a, v), c)[i]
    {
      DotLinearRight(a[i], w, v, v, c, 0.0, 0, n);
    }
  }

  /** A multiple of an eigenvector is an eigenvector for the same eigenvalue. */
  lemma {:induction false} ScaledEigenvector(a: Matrix, z: Vector, lambda: real, c: real)
    requires IsSquare(a, |z|) && Apply(a, z) == ScalarMul(z, lambda)
    ensures Apply(a, ScalarMul(z, c)) == ScalarMul(ScalarMul(z, c), lambda)
  {
    ApplyScalarMul(a, z, c);
    var y := ScalarMul(z, c);
    forall i | 0 <= i < |z|
      ensures Apply(a, y)[i] == ScalarMul(y, lambda)[i]
    {
      assert Apply(a, y)[i] == (z[i] * lambda) * c;
    }
  }

  /** At an eigenvector with a nonzero first entry the estimate z'[0] / y[0] is the eigenvalue. */
  lemma {:induction false} EigenQuotient(a: Matrix, y: Vector, lambda: real)
    requires IsSquare(a, |y|) && |y| >= 1 && y[0] != 0.0
    requires Apply(a, y) == ScalarMul(y, lambda)
    ensures Apply(a, y)[0] / y[0] == lambda
  {
    assert Apply(a, y)[0] == y[0] * lambda;
  }

  lemma {:induction false} QuotientOfProduct(x: real, y: real, z: real)
    requires y != 0.0 && x * y == z
    ensures x == z / y
  {
  }

  lemma {:induction false} ProductNonzero(x: real, c: real)
    requires x != 0.0 && c != 0.0
    ensures x * c != 0.0
  {
  }

  /** The normalisation step: y has infinity norm 1, z' = a y, and l1 = z'[0] / y[0]
      is the eigenvalue whenever z is an eigenvector for it. */
  lemma {:induction false} PowerStepAtEigenvector(a: Matrix, z: Vector, lambda: real)
    requires IsSquare(a, |a|) && |z| == |a| >= 1
    requires InfinityVecNorm(z) != 0.0 && z[0] != 0.0
    requires Apply(a, z) == ScalarMul(z, lambda)
    ensures InfinityVecNorm(Normalize(z)) == 1.0
    ensures Normalize(z)[0] != 0.0
    ensures Apply(a, Normalize(z)) == ScalarMul(Normalize(z), lambda)
    ensures Apply(a, Normalize(z))[0] / Normalize(z)[0] == lambda
  {
    var c := 1.0 / InfinityVecNorm(z);
    NormalizedHasUnitNorm(z);
    ScaledEigenvector(a, z, lambda, c);
    ProductNonzero(z[0], c);
    EigenQuotient(a, Normalize(z), lambda);
  }

  /** Started from an eigenvector with the eigenvalue as its previous estimate,
      the power method stops at once with that eigenvalue. */
  lemma {:induction false} PowerRunAtEigenvector(a: Matrix, z: Vector, lambda: real, fuel: nat)
    requires IsSquare(a, |a|) && |z| == |a| >= 1
    requires InfinityVecNorm(z) != 0.0 && z[0] != 0.0 && lambda != 0.0 && fuel >= 1
    requires Apply(a, z) == ScalarMul(z, lambda)
    ensures PowerRun(a, z, lambda, fuel) == Converged(lambda)
  {
    PowerStepAtEigenvector(a, z, lambda);
  }

  function Ones(n: nat): (v: Vector)
    ensures |v| == n && forall i :: 0 <= i < n ==> v[i] == 1.0
  {
    seq(n, _ => 1.0)
  }

  /** The loop body of power_method. */
  method PowerStep(a: Matrix, z: Vector) returns (r: Option<(Vector, real)>)
    requires IsSquare(a, |a|) && |z| == |a| >= 1
    ensures r == NormalizationStep(a, z)
  {
    var norm := InfinityVecNorm(z);
    if norm == 0.0 {
      return None;
    }
    var y := ScalarMul(z, 1.0 / norm);
    if y[0] == 0.0 {
      return None;
    }
    var zNext := MatVec(a, y);
    var l1 := zNext[0] / y[0];
    return Some((zNext, l1));
  }

  /** One round of power_method's loop: either the run ends here with r, or
      it goes on from zNext with the estimate l1. */
  method PowerRound(a: Matrix, z: Vector, laux: real, ghost fuel: nat)
    returns (done: bool, r: Outcome<real>, zNext: Vector, l1: real)
    requires IsSquare(a, |a|) && |z| == |a| >= 1 && fuel >= 1
    ensures done ==> r == PowerRun(a, z, laux, fuel)
    ensures !done ==> |zNext| == |a| && PowerRun(a, zNext, l1, fuel - 1) == PowerRun(a, z, laux, fuel)
  {
    var step := PowerStep(a, z);
    if step.None? {
      PowerRunDivides(a, z, laux, fuel);
      return true, ZeroDivisor, z, laux;
    }
    zNext, l1 := step.value.0, step.value.1;
    PowerRunSteps(a, z, laux, fuel, zNext, l1);
    if EstimateSettled(l1, laux) {
      return true, Converged(l1), zNext, l1;
    }
    done, r := false, OutOfFuel(l1);
  }

  /** power_method's loop from z0 and the previous estimate laux0. */
  method PowerLoop(a: Matrix, z0: Vector, laux0: real, fuel: nat) returns (r: Outcome<real>)
    requires IsSquare(a, |a|) && |z0| == |a| >= 1
    ensures r == PowerRun(a, z0, laux0, fuel)
  {
    var z, laux := z0, laux0;
    var left := fuel;
    ghost var goal := PowerRun(a, z0, laux0, fuel);
    while left > 0
      invariant |z| == |a|
      invariant PowerRun(a, z, laux, left) == goal
    {
      var done;
      done, r, z, laux := PowerRound(a, z, laux, left);
      if done {
        return;
      }
      left := left - 1;
    }
    return OutOfFuel(laux);
  }

  /** power_method: y = (1, ..., 1), z = a y, l1 = z[0] / y[0], then
      normalisation steps until the estimate settles. */
  method PowerMethod(a: Matrix, fuel: nat) returns (r: Outcome<real>)
    requires IsSquare(a, |a|) && |a| >= 1
    ensures r == PowerRun(a, Apply(a, Ones(|a|)), Apply(a, Ones(|a|))[0], fuel)
  {
    var y := Ones(|a|);
    var z := MatVec(a, y);
    var l1 := z[0] / y[0];
    assert l1 == Apply(a, Ones(|a|))[0];
    r := PowerLoop(a, z, l1, fuel);
  }
}
