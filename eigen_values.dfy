/** src/eigen/eigen_values.rs: the trace and a third copy of Leverrier's
    method.  Both are stated against the definitions of modules Matrices and
    LinearAlgebraEigen. */
module EigenValues {
  import opened Sums
  import opened Matrices
  import LinearAlgebraHelpers
  import LinearAlgebraEigen

  /** tr: the sum a[0][0] + ... + a[n-1][n-1] of the diagonal entries. */
  method Tr(a: Matrix) returns (sum: real)
    requires forall i :: 0 <= i < |a| ==> i < |a[i]|
    ensures sum == TraceUpTo(a, |a|)
    ensures IsSquare(a, |a|) ==> sum == Sum(Diagonal(a), 0, |a|)
  {
    sum := LinearAlgebraHelpers.Tr(a);
    if IsSquare(a, |a|) {
      DiagonalSumIsTrace(a, |a|);
    }
  }

  /** leverrier: n coefficients obeying Newton's identities for the traces of
      the powers of a; the first is the trace and a 1 x 1 matrix gives [a00]. */
  method Leverrier(a: Matrix) returns (p: Vector)
    requires IsSquare(a, |a|)
    ensures |p| == |a|
    ensures LinearAlgebraEigen.SatisfiesNewton(p, LinearAlgebraEigen.PowerTraces(a))
    ensures |a| >= 1 ==> p[0] == Trace(a)
    ensures |a| == 1 ==> p == [a[0][0]]
  {
    p := LinearAlgebraEigen.Leverrier(a);
    if |a| == 1 {
      LinearAlgebraEigen.LeverrierOneByOne(a);
    }
  }
}
