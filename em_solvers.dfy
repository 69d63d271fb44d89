/** src/exact_methods/linear_systems_solvers.rs: an older copy of the
    substitutions, the products, the LU factorisation and the LU solver.  The
    code is the same as in src/linear_systems/exact_methods.rs and
    src/linear_algebra/helpers.rs, so these members call the shared models and
    restate the contracts this file's routines carry. */
module ExactMethodsSolvers {
  import opened Sums
  import opened Matrices
  import opened Wrappers
  import LinearAlgebraHelpers
  import LinearSystemsExactMethods

  /** solve_inf: a x = b for lower triangular a with nonzero diagonal. */
  method SolveInf(a: Matrix, b: Vector) returns (x: Vector)
    requires |b| >= 1 && IsSquare(a, |b|) && NonzeroDiagonal(a)
    ensures |x| == |b|
    ensures IsLower(a) ==> Apply(a, x) == b
  {
    x := LinearSystemsExactMethods.SolveInf(a, b);
  }

  /** solve_sup: a x = b for upper triangular a with nonzero diagonal. */
  method SolveSup(a: Matrix, b: Vector) returns (x: Vector)
    requires |b| >= 1 && IsSquare(a, |b|) && NonzeroDiagonal(a)
    ensures |x| == |b|
    ensures IsUpper(a) ==> Apply(a, x) == b
  {
    x := LinearSystemsExactMethods.SolveSup(a, b);
  }

  /** matvec */
  method MatVec(a: Matrix, v: Vector) returns (x: Vector)
    requires IsSquare(a, |v|)
    ensures |x| == |v|
    ensures forall i :: 0 <= i < |v| ==> x[i] == Dot(a[i], v, 0, |v|)
  {
    x := LinearAlgebraHelpers.MatVec(a, v);
  }

  /** matmat */
  method MatMat(a: Matrix, b: Matrix) returns (c: Matrix)
    requires IsSquare(a, |a|) && IsSquare(b, |a|)
    ensures c == Mul(a, b)
    ensures forall v :: |v| == |a| ==> Apply(c, v) == Apply(a, Apply(b, v))
  {
    c := LinearAlgebraHelpers.MatMat(a, b);
    forall v | |v| == |a|
      ensures Apply(c, v) == Apply(a, Apply(b, v))
    {
      MulApply(a, b, v);
    }
  }

  /** lu_decomp: l unit lower triangular, u upper triangular and l u = a when
      every divisor u[j][j] is nonzero. */
  method LuDecomp(a: Matrix) returns (r: Option<(Matrix, Matrix)>)
    requires IsSquare(a, |a|)
    ensures r.Some? ==> var (l, u) := r.value;
              IsSquare(l, |a|) && IsSquare(u, |a|) &&
              IsLower(l) && (forall i :: 0 <= i < |a| ==> l[i][i] == 1.0) && IsUpper(u) &&
              (forall j :: 0 <= j < |a| - 1 ==> u[j][j] != 0.0) && Mul(l, u) == a
    ensures r.None? <==> !LinearAlgebraHelpers.HasLuFactorisation(a)
  {
    r := LinearAlgebraHelpers.LuDecomp(a);
  }

  /** lu_solver: l y = b forward, u x = y backward; the last pivot u[n-1][n-1]
      is the one divisor lu_decomp does not meet.  It goes through exactly
      when a has an LU factorisation with nonzero pivots. */
  method LuSolver(a: Matrix, b: Vector) returns (x: Option<Vector>)
    requires |b| >= 1 && IsSquare(a, |b|)
    ensures x.Some? ==> |x.value| == |b| && Apply(a, x.value) == b
    ensures x.Some? <==> LinearAlgebraHelpers.HasInvertibleLu(a)
  {
    var n := |b|;
    var lu := LuDecomp(a);
    if lu.None? {
      return None;
    }
    var l, u := lu.value.0, lu.value.1;
    assert LinearAlgebraHelpers.IsLuFactorisation(a, l, u);
    LinearAlgebraHelpers.InvertibleLuIff(a, l, u);
    assert NonzeroDiagonal(l);
    var y := SolveInf(l, b);
    if u[n - 1][n - 1] == 0.0 {
      return None;
    }
    assert NonzeroDiagonal(u);
    var z := SolveSup(u, y);
    MulApply(l, u, z);
    return Some(z);
  }
}
