/** src/linear_systems/eigen.rs: a second copy of Leverrier's method and a
    power method that estimates the eigenvalue from the componentwise ratios
    z[i] / y[i] (divdot) and stops when those ratios settle in the infinity
    norm.  Leverrier is the shared model of module LinearAlgebraEigen. */
module LinearSystemsEigen {
  import opened Sums
  import opened Matrices
  import opened Wrappers
  import opened LinearAlgebraHelpers
  import LinearAlgebraEigen

  /** leverrier */
  method Leverrier(a: Matrix) returns (p: Vector)
    requires IsSquare(a, |a|)
    ensures |p| == |a|
    ensures LinearAlgebraEigen.SatisfiesNewton(p, LinearAlgebraEigen.PowerTraces(a))
    ensures |a| >= 1 ==> p[0] == Trace(a)
    ensures |a| == 2 ==> p[1] == a[0][1] * a[1][0] - a[0][0] * a[1][1]
  {
    p := LinearAlgebraEigen.Leverrier(a);
    if |a| == 2 {
      LinearAlgebraEigen.LeverrierTwoByTwo(a);
    }
  }

  const RatioEpsilon: real := 1.0e-6

  predicate AllNonzero(y: Vector)
  {
    forall i :: 0 <= i < |y| ==> y[i] != 0.0
  }

  /** z[i] / y[i] componentwise */
  function Ratios(z: Vector, y: Vector): (lp: Vector)
    requires |z| == |y| && AllNonzero(y)
    ensures |lp| == |z|
  {
    seq(|z|, i requires 0 <= i < |z| => z[i] / y[i])
  }

  /** ||lp - la||_inf / ||lp||_inf < 1e-6; a zero lp gives an infinite or NaN quotient. */
  predicate RatiosSettled(lp: Vector, la: Vector)
    requires |lp| == |la| >= 1
  {
    InfinityVecNorm(lp) != 0.0 && InfinityVecNorm(VSub(lp, la)) < RatioEpsilon * InfinityVecNorm(lp)
  }

  /** One round from y: z = a y, lp = z / y componentwise, y' = z / ||z||_inf.
      None where the library would divide by zero. */
  function RatioStep(a: Matrix, y: Vector): (r: Option<(Vector, Vector)>)
    requires IsSquare(a, |a|) && |y| == |a| >= 1
    ensures r.Some? ==> |r.value.0| == |y| && |r.value.1| == |y|
  {
    if !AllNonzero(y) || InfinityVecNorm(Apply(a, y)) == 0.0 then None
    else Some((Ratios(Apply(a, y), y), LinearAlgebraEigen.Normalize(Apply(a, y))))
  }

  /** What a round that divides by no zero returns. */
  lemma {:induction false} RatioStepValue(a: Matrix, y: Vector)
    requires IsSquare(a, |a|) && |y| == |a| >= 1
    requires RatioStep(a, y).Some?
    ensures AllNonzero(y) && InfinityVecNorm(Apply(a, y)) != 0.0
    ensures RatioStep(a, y).value.0 == Ratios(Apply(a, y), y)
    ensures RatioStep(a, y).value.1 == LinearAlgebraEigen.Normalize(Apply(a, y))
  {
  }

  /** The next y of a round has infinity norm 1. */
  lemma {:induction false} RatioStepNormalizes(a: Matrix, y: Vector)
    requires IsSquare(a, |a|) && |y| == |a| >= 1
    requires RatioStep(a, y).Some?
    ensures InfinityVecNorm(RatioStep(a, y).value.1) == 1.0
  {
    RatioStepValue(a, y);
    NormalizedHasUnitNorm(Apply(a, y));
  }

  lemma {:induction false} RatiosTimes(z: Vector, y: Vector)
    requires |z| == |y| && AllNonzero(y)
    ensures forall i :: 0 <= i < |y| ==> Ratios(z, y)[i] * y[i] == z[i]
  {
    forall i | 0 <= i < |y|
      ensures Ratios(z, y)[i] * y[i] == z[i]
    {
      QuotientTimes(z[i], y[i]);
    }
  }

  /** The ratios of lambda y to y are all lambda. */
  lemma {:induction false} RatiosOfMultiple(z: Vector, y: Vector, lambda: real)
    requires |z| == |y| && AllNonzero(y) && z == ScalarMul(y, lambda)
    ensures Ratios(z, y) == Constant(|y|, lambda)
  {
    forall i | 0 <= i < |y|
      ensures Ratios(z, y)[i] == lambda
    {
      ProductQuotient(y[i], lambda);
    }
  }

  /** A nonzero multiple of a vector without zero entries has none either. */
  lemma {:induction false} MultipleNonzero(y: Vector, c: real)
    requires AllNonzero(y) && c != 0.0
    ensures AllNonzero(ScalarMul(y, c))
  {
    forall i | 0 <= i < |y|
      ensures ScalarMul(y, c)[i] != 0.0
    {
      LinearAlgebraEigen.ProductNonzero(y[i], c);
    }
  }

  lemma {:induction false} QuotientTimes(z: real, y: real)
    requires y != 0.0
    ensures (z / y) * y == z
  {
  }

  lemma {:induction false} ProductQuotient(y: real, lambda: real)
    requires y != 0.0
    ensures (y * lambda) / y == lambda
  {
  }

  /** The loop of power_method from y with previous ratios la: the result is lp[0]. */
  function RatioRun(a: Matrix, y: Vector, la: Vector, fuel: nat): (r: Outcome<real>)
    requires IsSquare(a, |a|) && |y| == |a| >= 1 && |la| == |a|
    decreases fuel
  {
    if fuel == 0 then OutOfFuel(la[0])
    else match RatioStep(a, y)
      case None => ZeroDivisor
      case Some((lp, y')) =>
        if RatiosSettled(lp, la) then Converged(lp[0]) else RatioRun(a, y', lp, fuel - 1)
  }

  /** A round that divides by zero ends the run. */
  lemma {:induction false} RatioRunStops(a: Matrix, y: Vector, la: Vector, fuel: nat)
    requires IsSquare(a, |a|) && |y| == |a| >= 1 && |la| == |a| && fuel >= 1
    requires RatioStep(a, y).None?
    ensures RatioRun(a, y, la, fuel) == ZeroDivisor
  {
  }

  /** Otherwise the round's ratios and next y decide how the run goes on. */
  lemma {:induction false} RatioRunSteps(a: Matrix, y: Vector, la: Vector, fuel: nat, step: Option<(Vector, Vector)>)
    requires IsSquare(a, |a|) && |y| == |a| >= 1 && |la| == |a| && fuel >= 1
    requires step == RatioStep(a, y) && step.Some?
    ensures |step.value.0| == |a| && |step.value.1| == |a|
    ensures RatioRun(a, y, la, fuel) ==
              if RatiosSettled(step.value.0, la) then Converged(step.value.0[0])
              else RatioRun(a, step.value.1, step.value.0, fuel - 1)
  {
  }

  /** A round whose ratios settle ends the run with their first entry. */
  lemma {:induction false} RatioRunSettles(a: Matrix, y: Vector, la: Vector, fuel: nat, lp: Vector, y': Vector)
    requires IsSquare(a, |a|) && |y| == |a| >= 1 && |la| == |a| && fuel >= 1
    requires RatioStep(a, y).Some? && RatioStep(a, y).value.0 == lp && RatioStep(a, y).value.1 == y'
    requires RatiosSettled(lp, la)
    ensures RatioRun(a, y, la, fuel) == Converged(lp[0])
  {
    RatioRunSteps(a, y, la, fuel, RatioStep(a, y));
  }

  function Constant(n: nat, c: real): (v: Vector)
    ensures |v| == n && forall i :: 0 <= i < n ==> v[i] == c
  {
    seq(n, _ => c)
  }

  lemma {:induction false} ZeroNorm(v: Vector)
    requires |v| >= 1 && forall i :: 0 <= i < |v| ==> v[i] == 0.0
    ensures InfinityVecNorm(v) == 0.0
  {
    var j :| 0 <= j < |v| && InfinityVecNorm(v) == Abs(v[j]);
  }

  lemma {:induction false} ConstantNorm(n: nat, c: real)
    requires n >= 1
    ensures InfinityVecNorm(Constant(n, c)) == Abs(c)
  {
    var v := Constant(n, c);
    var j :| 0 <= j < n && InfinityVecNorm(v) == Abs(v[j]);
  }

  /** At an eigenvector without zero entries every ratio is the eigenvalue, and
      the normalised next y is again such an eigenvector. */
  lemma {:induction false} RatioStepAtEigenvector(a: Matrix, y: Vector, lambda: real)
    requires IsSquare(a, |a|) && |y| == |a| >= 1
    requires AllNonzero(y) && lambda != 0.0
    requires Apply(a, y) == ScalarMul(y, lambda)
    ensures RatioStep(a, y).Some?
    ensures RatioStep(a, y).value.0 == Constant(|a|, lambda)
    ensures AllNonzero(RatioStep(a, y).value.1)
    ensures Apply(a, RatioStep(a, y).value.1) == ScalarMul(RatioStep(a, y).value.1, lambda)
  {
    var z := Apply(a, y);
    assert z[0] == y[0] * lambda;
    LinearAlgebraEigen.ProductNonzero(y[0], lambda);
    assert Abs(z[0]) <= InfinityVecNorm(z);
    var c := 1.0 / InfinityVecNorm(z);
    assert Apply(a, z) == ScalarMul(z, lambda) by {
      LinearAlgebraEigen.ScaledEigenvector(a, y, lambda, lambda);
      assert ScalarMul(y, lambda) == z;
    }
    LinearAlgebraEigen.ScaledEigenvector(a, z, lambda, c);
    RatiosOfMultiple(z, y, lambda);
    MultipleNonzero(y, lambda);
    MultipleNonzero(z, c);
  }

  /** Started from an eigenvector without zero entries, with the eigenvalue's
      ratios as the previous ones, the method stops at once with the eigenvalue. */
  lemma {:induction false} RatioRunAtEigenvector(a: Matrix, y: Vector, lambda: real, fuel: nat)
    requires IsSquare(a, |a|) && |y| == |a| >= 1
    requires AllNonzero(y) && lambda != 0.0 && fuel >= 1
    requires Apply(a, y) == ScalarMul(y, lambda)
    ensures RatioRun(a, y, Constant(|a|, lambda), fuel) == Converged(lambda)
  {
    var n := |a|;
    RatioStepAtEigenvector(a, y, lambda);
    var lp := Constant(n, lambda);
    ConstantNorm(n, lambda);
    ZeroNorm(VSub(lp, lp));
  }

  /** The loop body of power_method. */
  method RatioPowerStep(a: Matrix, y: Vector) returns (r: Option<(Vector, Vector)>)
    requires IsSquare(a, |a|) && |y| == |a| >= 1
    ensures r == RatioStep(a, y)
  {
    var z := MatVec(a, y);
    if !AllNonzero(y) {
      return None;
    }
    var lp := DivDot(z, y);
    forall i | 0 <= i < |y|
      ensures lp[i] == Ratios(z, y)[i]
    {
      LinearAlgebraEigen.QuotientOfProduct(lp[i], y[i], z[i]);
    }
    assert lp == Ratios(z, y);
    var norm := InfinityVecNorm(z);
    if norm == 0.0 {
      return None;
    }
    var yNext := ScalarMul(z, 1.0 / norm);
    assert yNext == LinearAlgebraEigen.Normalize(z);
    return Some((lp, yNext));
  }

  /** One round of the loop of power_method: either the run's result, or the
      state the run goes on from. */
  method RatioRound(a: Matrix, y: Vector, la: Vector, fuel: nat)
    returns (stop: Option<Outcome<real>>, yNext: Vector, lp: Vector, fuelNext: nat)
    requires IsSquare(a, |a|) && |y| == |a| >= 1 && |la| == |a| && fuel >= 1
    ensures |yNext| == |a| && |lp| == |a| && fuelNext < fuel
    ensures stop.Some? ==> stop.value == RatioRun(a, y, la, fuel)
    ensures stop.None? ==> RatioRun(a, yNext, lp, fuelNext) == RatioRun(a, y, la, fuel)
  {
    fuelNext := fuel - 1;
    var step := RatioPowerStep(a, y);
    if step.None? {
      RatioRunStops(a, y, la, fuel);
      return Some(ZeroDivisor), y, la, fuelNext;
    }
    lp, yNext := step.value.0, step.value.1;
    if RatiosSettled(lp, la) {
      RatioRunSettles(a, y, la, fuel, lp, yNext);
      return Some(Converged(lp[0])), yNext, lp, fuelNext;
    }
    RatioRunSteps(a, y, la, fuel, step);
    stop := None;
  }

  /** power_method: y = (1, ..., 1) and la = lp = 0, then rounds until the
      ratios settle; the estimate is lp[0]. */
  method PowerMethod(a: Matrix, fuel: nat) returns (r: Outcome<real>)
    requires IsSquare(a, |a|) && |a| >= 1
    ensures r == RatioRun(a, LinearAlgebraEigen.Ones(|a|), Zeros(|a|), fuel)
  {
    var y, la := LinearAlgebraEigen.Ones(|a|), Zeros(|a|);
    var left := fuel;
    while left > 0
      invariant |y| == |a| && |la| == |a|
      invariant RatioRun(a, y, la, left) == RatioRun(a, LinearAlgebraEigen.Ones(|a|), Zeros(|a|), fuel)
      decreases left
    {
      var stop;
      stop, y, la, left := RatioRound(a, y, la, left);
      if stop.Some? {
        return stop.value;
      }
    }
    return OutOfFuel(la[0]);
  }
}
