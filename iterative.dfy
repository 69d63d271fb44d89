/** src/linear_algebra/iterative_methods.rs: the Jacobi-Richardson and the
    Gauss-Seidel solvers.  Both split the system as x = b* - L* x - R* x
    (module LinearAlgebraHelpers) and iterate from the zero vector until the
    relative change of the iterate drops below 1e-17.

    The library loops until the test holds; the model runs at most `fuel`
    rounds.  The test compares Euclidean norms; the model compares their
    squares, which is the same test (lemma StopTestMatchesNorms). */
module IterativeMethods {
  import opened Sums
  import opened Matrices
  import opened Wrappers
  import opened LinearAlgebraHelpers

  /** The relative tolerance both solvers use. */
  const Epsilon: real := 0.00000000000000001

  /** ||x1 - x0|| / ||x1|| < epsilon, written on squared norms.
      A zero x1 never passes: the quotient is then infinite or NaN. */
  predicate StepIsSmall(x1: Vector, x0: Vector)
    requires |x1| == |x0|
  {
    var d := VSub(x1, x0);
    Dot(x1, x1, 0, |x1|) > 0.0 && Dot(d, d, 0, |d|) < Epsilon * Epsilon * Dot(x1, x1, 0, |x1|)
  }

  lemma {:induction false} SquareMonotone(p: real, q: real)
    requires p >= 0.0 && q >= 0.0
    ensures p < q <==> p * p < q * q
  {
    if p < q {
      assert (q - p) * p >= 0.0;
      assert (q - p) * q > 0.0;
      assert q * q - p * p == (q - p) * q + (q - p) * p;
    } else {
      assert (p - q) * p >= 0.0;
      assert (p - q) * q >= 0.0;
      assert p * p - q * q == (p - q) * p + (p - q) * q;
    }
  }

  /** With nd and nx the Euclidean norms of x1 - x0 and of x1 (the values
      vecnorm computes), the squared test is the library's test. */
  lemma {:induction false} StopTestMatchesNorms(x1: Vector, x0: Vector, nd: real, nx: real)
    requires |x1| == |x0|
    requires nd >= 0.0 && nx >= 0.0
    requires nd * nd == Dot(VSub(x1, x0), VSub(x1, x0), 0, |x1|)
    requires nx * nx == Dot(x1, x1, 0, |x1|)
    ensures StepIsSmall(x1, x0) <==> nx > 0.0 && nd / nx < Epsilon
  {
    if nx > 0.0 {
      assert nx * nx > 0.0;
      var e := Epsilon * nx;
      SquareMonotone(nd, e);
      assert e * e == Epsilon * Epsilon * (nx * nx);
      assert nd / nx < Epsilon <==> nd < e;
    } else {
      assert nx * nx == 0.0;
    }
  }

  // ---------------------------------------------------------------------
  // Jacobi-Richardson

  /** One Jacobi round: x1 = b* - (L* + R*) x0. */
  function JacobiStep(a: Matrix, b: Vector, x0: Vector): (x1: Vector)
    requires IsSquare(a, |a|) && NonzeroDiagonal(a) && |b| == |a| && |x0| == |a|
    ensures |x1| == |a|
  {
    VSub(BStar(a, b), Apply(Add(LStar(a), RStar(a)), x0))
  }

  /** Entry i of a Jacobi round uses only the previous iterate. */
  lemma {:induction false} JacobiStepEntries(a: Matrix, b: Vector, x0: Vector)
    requires IsSquare(a, |a|) && NonzeroDiagonal(a) && |b| == |a| && |x0| == |a|
    ensures forall i :: 0 <= i < |a| ==>
              JacobiStep(a, b, x0)[i] == BStar(a, b)[i] - Dot(LStar(a)[i], x0, 0, |a|) - Dot(RStar(a)[i], x0, 0, |a|)
  {
    ApplyAdd(LStar(a), RStar(a), x0);
  }

  /** The solutions of a x == b are exactly the fixed points of a Jacobi round. */
  lemma {:induction false} JacobiFixedPoint(a: Matrix, b: Vector, x: Vector)
    requires IsSquare(a, |a|) && NonzeroDiagonal(a) && |b| == |a| && |x| == |a|
    ensures Apply(a, x) == b <==> JacobiStep(a, b, x) == x
  {
    JacobiStepEntries(a, b, x);
    StarSystemEquivalence(a, b, x);
  }

  /** The solver's loop from iterate x0 with `fuel` rounds left.  After a round
      that fails the test x0 becomes a copy of x1, so x0 is also the last x1. */
  function JacobiRun(a: Matrix, b: Vector, x0: Vector, fuel: nat): (r: Outcome<Vector>)
    requires IsSquare(a, |a|) && NonzeroDiagonal(a) && |b| == |a| && |x0| == |a|
    decreases fuel
  {
    if fuel == 0 then OutOfFuel(x0)
    else if StepIsSmall(JacobiStep(a, b, x0), x0) then Converged(JacobiStep(a, b, x0))
    else JacobiRun(a, b, JacobiStep(a, b, x0), fuel - 1)
  }

  /** More fuel does not change a run that has stopped. */
  lemma {:induction false} JacobiRunMoreFuel(a: Matrix, b: Vector, x0: Vector, fuel: nat, extra: nat)
    requires IsSquare(a, |a|) && NonzeroDiagonal(a) && |b| == |a| && |x0| == |a|
    requires JacobiRun(a, b, x0, fuel).Converged?
    ensures JacobiRun(a, b, x0, fuel + extra) == JacobiRun(a, b, x0, fuel)
    decreases fuel
  {
    if !StepIsSmall(JacobiStep(a, b, x0), x0) {
      JacobiRunMoreFuel(a, b, JacobiStep(a, b, x0), fuel - 1, extra);
    }
  }

  /** A run that reaches a nonzero solution stops there in the next round. */
  lemma {:induction false} JacobiRunAtSolution(a: Matrix, b: Vector, x: Vector, fuel: nat)
    requires IsSquare(a, |a|) && NonzeroDiagonal(a) && |b| == |a| && |x| == |a|
    requires Apply(a, x) == b && Dot(x, x, 0, |x|) > 0.0 && fuel >= 1
    ensures JacobiRun(a, b, x, fuel) == Converged(x)
  {
    JacobiFixedPoint(a, b, x);
    var d := VSub(x, x);
    DotZero(d, d, 0, |d|);
  }

  /** jacobi_richardson_solver */
  method JacobiRichardsonSolver(a: Matrix, b: Vector, fuel: nat) returns (r: Outcome<Vector>)
    requires IsSquare(a, |a|) && |b| == |a|
    ensures !NonzeroDiagonal(a) ==> r == ZeroDivisor
    ensures NonzeroDiagonal(a) ==> r == JacobiRun(a, b, Zeros(|a|), fuel)
  {
    var n := |a|;
    if !NonzeroDiagonal(a) {
      return ZeroDivisor;
    }
    var lStar, rStar, bStar := LrbStarDecomp(a, b);
    var lr := MatSum(lStar, rStar);
    var x0 := Zeros(n);
    var x1 := Zeros(n);
    var round := 0;
    while round < fuel
      invariant round <= fuel && |x0| == n && x1 == x0
      invariant JacobiRun(a, b, x0, fuel - round) == JacobiRun(a, b, Zeros(n), fuel)
    {
      var lrx := MatVec(lr, x0);
      x1 := SubVec(bStar, lrx);
      if StepIsSmall(x1, x0) {
        return Converged(x1);
      }
      x0 := x1;
      round := round + 1;
    }
    return OutOfFuel(x1);
  }

  // ---------------------------------------------------------------------
  // Gauss-Seidel

  /** The arguments of a sweep: a split of size |x1| and the previous iterate. */
  predicate SweepShape(ls: Matrix, rs: Matrix, bs: Vector, x0: Vector, x1: Vector)
  {
    IsSquare(ls, |x1|) && IsSquare(rs, |x1|) && |bs| == |x1| && |x0| == |x1|
  }

  /** The value a sweep gives entry i: b*[i] minus L* row i on the entries of
      x1 left of i, minus R* row i on the entries of x0 right of i. */
  function RowValue(ls: Matrix, rs: Matrix, bs: Vector, x0: Vector, x1: Vector, i: nat): real
    requires SweepShape(ls, rs, bs, x0, x1) && i < |x1|
  {
    bs[i] - Dot(ls[i], x1, 0, i) - Dot(rs[i], x0, i + 1, |x1|)
  }

  /** x1 after the sweep has rewritten entries 0 .. i-1, each from the entries
      already rewritten. */
  function SweepPrefix(ls: Matrix, rs: Matrix, bs: Vector, x0: Vector, x1: Vector, i: nat): (y: Vector)
    requires SweepShape(ls, rs, bs, x0, x1) && i <= |x1|
    ensures |y| == |x1|
    ensures forall r :: i <= r < |x1| ==> y[r] == x1[r]
    decreases i
  {
    if i == 0 then x1
    else SweepPrefix(ls, rs, bs, x0, x1, i - 1)[i - 1 :=
           RowValue(ls, rs, bs, x0, SweepPrefix(ls, rs, bs, x0, x1, i - 1), i - 1)]
  }

  /** One Gauss-Seidel sweep over all rows. */
  function GaussSeidelSweep(ls: Matrix, rs: Matrix, bs: Vector, x0: Vector, x1: Vector): (y: Vector)
    requires SweepShape(ls, rs, bs, x0, x1)
    ensures |y| == |x1|
  {
    SweepPrefix(ls, rs, bs, x0, x1, |x1|)
  }

  /** The rewritten entries satisfy their own row equations. */
  lemma {:induction false} SweepPrefixSolvesRows(ls: Matrix, rs: Matrix, bs: Vector, x0: Vector, x1: Vector, i: nat)
    requires SweepShape(ls, rs, bs, x0, x1) && i <= |x1|
    ensures forall r :: 0 <= r < i ==>
              SweepPrefix(ls, rs, bs, x0, x1, i)[r] ==
              RowValue(ls, rs, bs, x0, SweepPrefix(ls, rs, bs, x0, x1, i), r)
    decreases i
  {
    if i > 0 {
      var p := SweepPrefix(ls, rs, bs, x0, x1, i - 1);
      var y := SweepPrefix(ls, rs, bs, x0, x1, i);
      assert y == p[i - 1 := RowValue(ls, rs, bs, x0, p, i - 1)];
      SweepPrefixSolvesRows(ls, rs, bs, x0, x1, i - 1);
      forall r | 0 <= r < i
        ensures y[r] == RowValue(ls, rs, bs, x0, y, r)
      {
        DotFrame(ls[r], p, ls[r], y, 0, r);
        assert RowValue(ls, rs, bs, x0, y, r) == RowValue(ls, rs, bs, x0, p, r);
        if r < i - 1 {
          assert y[r] == p[r];
        }
      }
    }
  }

  /** Two vectors satisfying every row equation of a sweep agree on a prefix of any length. */
  lemma {:induction false} SweepRowsAgree(ls: Matrix, rs: Matrix, bs: Vector, x0: Vector, y: Vector, z: Vector, k: nat)
    requires SweepShape(ls, rs, bs, x0, y) && |z| == |y| && k <= |y|
    requires forall r :: 0 <= r < |y| ==> y[r] == RowValue(ls, rs, bs, x0, y, r)
    requires forall r :: 0 <= r < |z| ==> z[r] == RowValue(ls, rs, bs, x0, z, r)
    ensures forall r :: 0 <= r < k ==> y[r] == z[r]
    decreases k
  {
    if k > 0 {
      SweepRowsAgree(ls, rs, bs, x0, y, z, k - 1);
      DotFrame(ls[k - 1], y, ls[k - 1], z, 0, k - 1);
      assert y[k - 1] == RowValue(ls, rs, bs, x0, y, k - 1);
      assert z[k - 1] == RowValue(ls, rs, bs, x0, z, k - 1);
    }
  }

  /** A sweep's result is the one vector y with y[i] == b*[i] - L*[i] (y left of i)
      - R*[i] (x0 right of i) for every i, whatever x1 held before. */
  lemma {:induction false} GaussSeidelSweepCharacterised(ls: Matrix, rs: Matrix, bs: Vector, x0: Vector, x1: Vector, y: Vector)
    requires SweepShape(ls, rs, bs, x0, x1) && |y| == |x1|
    ensures y == GaussSeidelSweep(ls, rs, bs, x0, x1) <==>
            forall r :: 0 <= r < |y| ==> y[r] == RowValue(ls, rs, bs, x0, y, r)
  {
    var s := GaussSeidelSweep(ls, rs, bs, x0, x1);
    SweepPrefixSolvesRows(ls, rs, bs, x0, x1, |x1|);
    assert forall r :: 0 <= r < |s| ==> s[r] == RowValue(ls, rs, bs, x0, s, r);
    if forall r :: 0 <= r < |y| ==> y[r] == RowValue(ls, rs, bs, x0, y, r) {
      SweepRowsAgree(ls, rs, bs, x0, y, s, |y|);
    }
  }

  /** For the split of a, the sweep's row value is the full Jacobi-form row:
      L* vanishes from column i on and R* up to column i. */
  lemma {:induction false} StarRowValue(a: Matrix, b: Vector, x0: Vector, x1: Vector, i: nat)
    requires IsSquare(a, |a|) && NonzeroDiagonal(a) && |b| == |a| && |x0| == |a| && |x1| == |a| && i < |a|
    ensures RowValue(LStar(a), RStar(a), BStar(a, b), x0, x1, i) ==
            BStar(a, b)[i] - Dot(LStar(a)[i], x1, 0, |a|) - Dot(RStar(a)[i], x0, 0, |a|)
  {
    var n := |a|;
    var ls, rs := LStar(a)[i], RStar(a)[i];
    DotSplit(ls, x1, 0, i, n);
    DotZero(ls, x1, i, n);
    DotSplit(rs, x0, 0, i + 1, n);
    DotZero(rs, x0, 0, i + 1);
  }

  /** The solutions of a x == b are exactly the fixed points of a sweep. */
  lemma {:induction false} GaussSeidelFixedPoint(a: Matrix, b: Vector, x: Vector, x1: Vector)
    requires IsSquare(a, |a|) && NonzeroDiagonal(a) && |b| == |a| && |x| == |a| && |x1| == |a|
    ensures Apply(a, x) == b <==> GaussSeidelSweep(LStar(a), RStar(a), BStar(a, b), x, x1) == x
  {
    var n := |a|;
    var ls, rs, bs := LStar(a), RStar(a), BStar(a, b);
    StarSystemEquivalence(a, b, x);
    GaussSeidelSweepCharacterised(ls, rs, bs, x, x1, x);
    forall i | 0 <= i < n
      ensures RowValue(ls, rs, bs, x, x, i) == bs[i] - Dot(ls[i], x, 0, n) - Dot(rs[i], x, 0, n)
    {
      StarRowValue(a, b, x, x, i);
    }
  }

  /** The solver's loop on a split: sweep x1 against x0, test, copy. */
  function GaussSeidelRun(ls: Matrix, rs: Matrix, bs: Vector, x0: Vector, x1: Vector, fuel: nat): (r: Outcome<Vector>)
    requires SweepShape(ls, rs, bs, x0, x1)
    decreases fuel
  {
    if fuel == 0 then OutOfFuel(x1)
    else if StepIsSmall(GaussSeidelSweep(ls, rs, bs, x0, x1), x0) then Converged(GaussSeidelSweep(ls, rs, bs, x0, x1))
    else GaussSeidelRun(ls, rs, bs, GaussSeidelSweep(ls, rs, bs, x0, x1), GaussSeidelSweep(ls, rs, bs, x0, x1), fuel - 1)
  }

  /** More fuel does not change a run that has stopped. */
  lemma {:induction false} GaussSeidelRunMoreFuel(ls: Matrix, rs: Matrix, bs: Vector, x0: Vector, x1: Vector, fuel: nat, extra: nat)
    requires SweepShape(ls, rs, bs, x0, x1)
    requires GaussSeidelRun(ls, rs, bs, x0, x1, fuel).Converged?
    ensures GaussSeidelRun(ls, rs, bs, x0, x1, fuel + extra) == GaussSeidelRun(ls, rs, bs, x0, x1, fuel)
    decreases fuel
  {
    var y := GaussSeidelSweep(ls, rs, bs, x0, x1);
    if !StepIsSmall(y, x0) {
      GaussSeidelRunMoreFuel(ls, rs, bs, y, y, fuel - 1, extra);
    }
  }

  /** A run whose previous iterate is a nonzero solution stops there in the next round. */
  lemma {:induction false} GaussSeidelRunAtSolution(a: Matrix, b: Vector, x: Vector, x1: Vector, fuel: nat)
    requires IsSquare(a, |a|) && NonzeroDiagonal(a) && |b| == |a| && |x| == |a| && |x1| == |a|
    requires Apply(a, x) == b && Dot(x, x, 0, |x|) > 0.0 && fuel >= 1
    ensures GaussSeidelRun(LStar(a), RStar(a), BStar(a, b), x, x1, fuel) == Converged(x)
  {
    GaussSeidelFixedPoint(a, b, x, x1);
    var d := VSub(x, x);
    DotZero(d, d, 0, |d|);
  }

  /** The sweep of gauss_seidel_solver: x1[i] is overwritten in increasing i,
      accumulating r as the library does. */
  method Sweep(lStar: Matrix, rStar: Matrix, bStar: Vector, x0: Vector, x1: Vector) returns (y: Vector)
    requires SweepShape(lStar, rStar, bStar, x0, x1)
    ensures y == GaussSeidelSweep(lStar, rStar, bStar, x0, x1)
  {
    var n := |x1|;
    y := x1;
    for i := 0 to n
      invariant y == SweepPrefix(lStar, rStar, bStar, x0, x1, i)
    {
      var r := 0.0;
      for j := 0 to i
        invariant r == -Dot(lStar[i], y, 0, j)
      {
        r := r - lStar[i][j] * y[j];
      }
      for j := i + 1 to n
        invariant r == -Dot(lStar[i], y, 0, i) - Dot(rStar[i], x0, i + 1, j)
      {
        r := r - rStar[i][j] * x0[j];
      }
      r := r + bStar[i];
      y := y[i := r];
    }
  }

  /** gauss_seidel_solver */
  method GaussSeidelSolver(a: Matrix, b: Vector, fuel: nat) returns (r: Outcome<Vector>)
    requires IsSquare(a, |a|) && |b| == |a|
    ensures !NonzeroDiagonal(a) ==> r == ZeroDivisor
    ensures NonzeroDiagonal(a) ==> r == GaussSeidelRun(LStar(a), RStar(a), BStar(a, b), Zeros(|a|), Zeros(|a|), fuel)
  {
    var n := |a|;
    if !NonzeroDiagonal(a) {
      return ZeroDivisor;
    }
    var lStar, rStar, bStar := LrbStarDecomp(a, b);
    var x0 := Zeros(n);
    var x1 := Zeros(n);
    var round := 0;
    while round < fuel
      invariant round <= fuel && |x0| == n && |x1| == n
      invariant GaussSeidelRun(lStar, rStar, bStar, x0, x1, fuel - round) ==
                GaussSeidelRun(lStar, rStar, bStar, Zeros(n), Zeros(n), fuel)
    {
      x1 := Sweep(lStar, rStar, bStar, x0, x1);
      if StepIsSmall(x1, x0) {
        return Converged(x1);
      }
      x0 := x1;
      round := round + 1;
    }
    return OutOfFuel(x1);
  }
}
