/** Dense real matrices and vectors as values: what `Matrix<f64>` (a `Vec` of
    row `Vec`s) and `Vec<f64>` mean, and the algebra the routines rely on.
    Every loop of the library is proved against one of these definitions. */
module Matrices {
  import opened Sums

  type Vector = seq<real>
  type Matrix = seq<seq<real>>

  /** n rows of n entries each */
  predicate IsSquare(a: Matrix, n: nat)
  {
    |a| == n && forall i :: 0 <= i < n ==> |a[i]| == n
  }

  /** `rows` rows of `cols` entries each */
  predicate IsRect(a: Matrix, rows: nat, cols: nat)
  {
    |a| == rows && forall i :: 0 <= i < rows ==> |a[i]| == cols
  }

  /** `vec![0.0; n]` */
  function Zeros(n: nat): (v: Vector)
    ensures |v| == n && forall i :: 0 <= i < n ==> v[i] == 0.0
  {
    seq(n, _ => 0.0)
  }

  /** The j-th unit vector of length n. */
  function Unit(n: nat, j: nat): (e: Vector)
    ensures |e| == n
  {
    seq(n, k => if k == j then 1.0 else 0.0)
  }

  /** Column j of a. */
  function Column(a: Matrix, j: nat): (c: Vector)
    requires forall i :: 0 <= i < |a| ==> j < |a[i]|
    ensures |c| == |a|
  {
    seq(|a|, i requires 0 <= i < |a| => a[i][j])
  }

  /** The matrix-vector product: entry i is the sum of a[i][j] * v[j]. */
  function Apply(a: Matrix, v: Vector): (w: Vector)
    requires IsSquare(a, |v|)
    ensures |w| == |v|
  {
    seq(|v|, i requires 0 <= i < |v| => Dot(a[i], v, 0, |v|))
  }

  /** The matrix product: entry (i, j) is the sum of a[i][k] * b[k][j]. */
  function Mul(a: Matrix, b: Matrix): (c: Matrix)
    requires IsSquare(a, |a|) && IsSquare(b, |a|)
    ensures IsSquare(c, |a|)
  {
    var n := |a|;
    seq(n, i requires 0 <= i < n => seq(n, j requires 0 <= j < n => Dot(a[i], Column(b, j), 0, n)))
  }

  function Add(a: Matrix, b: Matrix): (c: Matrix)
    requires IsSquare(a, |a|) && IsSquare(b, |a|)
    ensures IsSquare(c, |a|)
  {
    var n := |a|;
    seq(n, i requires 0 <= i < n => seq(n, j requires 0 <= j < n => a[i][j] + b[i][j]))
  }

  function VAdd(u: Vector, v: Vector): (w: Vector)
    requires |u| == |v|
    ensures |w| == |u|
  {
    seq(|u|, i requires 0 <= i < |u| => u[i] + v[i])
  }

  function VSub(u: Vector, v: Vector): (w: Vector)
    requires |u| == |v|
    ensures |w| == |u|
  {
    seq(|u|, i requires 0 <= i < |u| => u[i] - v[i])
  }

  function Identity(n: nat): (e: Matrix)
    ensures IsSquare(e, n)
  {
    seq(n, i requires 0 <= i < n => Unit(n, i))
  }

  function Transposed(a: Matrix): (t: Matrix)
    requires |a| >= 1 && IsRect(a, |a|, |a[0]|)
    ensures IsRect(t, |a[0]|, |a|)
  {
    seq(|a[0]|, i requires 0 <= i < |a[0]| => seq(|a|, j requires 0 <= j < |a| => a[j][i]))
  }

  /** a[0][0] + ... + a[q-1][q-1] */
  function TraceUpTo(a: Matrix, q: nat): real
    requires q <= |a| && forall i :: 0 <= i < q ==> i < |a[i]|
  {
    if q == 0 then 0.0 else TraceUpTo(a, q - 1) + a[q - 1][q - 1]
  }

  function Trace(a: Matrix): real
    requires IsSquare(a, |a|)
  {
    TraceUpTo(a, |a|)
  }

  /** a^k for k >= 1, built as the library builds it: one more factor a on the right. */
  function Power(a: Matrix, k: nat): (p: Matrix)
    requires IsSquare(a, |a|) && k >= 1
    ensures IsSquare(p, |a|)
  {
    if k == 1 then a else Mul(Power(a, k - 1), a)
  }

  function Diagonal(a: Matrix): (d: Vector)
    requires IsSquare(a, |a|)
    ensures |d| == |a|
  {
    seq(|a|, i requires 0 <= i < |a| => a[i][i])
  }

  /** a[i][j] == 0 above the diagonal */
  predicate IsLower(a: Matrix)
    requires IsSquare(a, |a|)
  {
    forall i, j :: 0 <= i < j < |a| ==> a[i][j] == 0.0
  }

  /** a[i][j] == 0 below the diagonal */
  predicate IsUpper(a: Matrix)
    requires IsSquare(a, |a|)
  {
    forall i, j :: 0 <= j < i < |a| ==> a[i][j] == 0.0
  }

  predicate NonzeroDiagonal(a: Matrix)
    requires IsSquare(a, |a|)
  {
    forall i :: 0 <= i < |a| ==> a[i][i] != 0.0
  }

  /** The largest row sum of absolute values among rows 0..q-1. */
  function MaxRowAbsSum(a: Matrix, q: nat): (r: real)
    requires 1 <= q <= |a|
    ensures forall i :: 0 <= i < q ==> AbsSum(a[i], |a[i]|) <= r
    ensures exists i :: 0 <= i < q && r == AbsSum(a[i], |a[i]|)
  {
    if q == 1 then AbsSum(a[0], |a[0]|)
    else Max(MaxRowAbsSum(a, q - 1), AbsSum(a[q - 1], |a[q - 1]|))
  }

  /** The infinity norm: the largest row sum of absolute values. */
  function NormInf(a: Matrix): real
    requires |a| >= 1
  {
    MaxRowAbsSum(a, |a|)
  }

  lemma {:induction false} NormInfNonNegative(a: Matrix)
    requires |a| >= 1
    ensures NormInf(a) >= 0.0
  {
    AbsSumNonNegative(a[0], |a[0]|);
  }

  // ---------------------------------------------------------------------
  // Algebra

  lemma {:induction false} ApplyIdentity(v: Vector)
    ensures Apply(Identity(|v|), v) == v
  {
    var n := |v|;
    forall i | 0 <= i < n
      ensures Apply(Identity(n), v)[i] == v[i]
    {
      DotCommutes(Identity(n)[i], v, 0, n);
      DotUnit(v, Identity(n)[i], i, 0, n);
    }
  }

  lemma {:induction false} MulIdentityRight(a: Matrix)
    requires IsSquare(a, |a|)
    ensures Mul(a, Identity(|a|)) == a
  {
    var n := |a|;
    var e := Identity(n);
    forall i | 0 <= i < n
      ensures Mul(a, e)[i] == a[i]
    {
      forall j | 0 <= j < n
        ensures Mul(a, e)[i][j] == a[i][j]
      {
        DotUnit(a[i], Column(e, j), j, 0, n);
      }
    }
  }

  lemma {:induction false} MulIdentityLeft(a: Matrix)
    requires IsSquare(a, |a|)
    ensures Mul(Identity(|a|), a) == a
  {
    var n := |a|;
    var e := Identity(n);
    forall i | 0 <= i < n
      ensures Mul(e, a)[i] == a[i]
    {
      forall j | 0 <= j < n
        ensures Mul(e, a)[i][j] == a[i][j]
      {
        DotCommutes(e[i], Column(a, j), 0, n);
        DotUnit(Column(a, j), e[i], i, 0, n);
      }
    }
  }

  /** b applied to v, with the sums cut off after their first p terms. */
  function PartialApply(b: Matrix, v: Vector, p: nat): (w: Vector)
    requires IsSquare(b, |v|) && p <= |v|
    ensures |w| == |v|
  {
    seq(|v|, m requires 0 <= m < |v| => Dot(b[m], v, 0, p))
  }

  lemma {:induction false} MulApplyPrefix(a: Matrix, b: Matrix, v: Vector, i: nat, p: nat)
    requires IsSquare(a, |v|) && IsSquare(b, |v|) && i < |v| && p <= |v|
    ensures Dot(Mul(a, b)[i], v, 0, p) == Dot(a[i], PartialApply(b, v, p), 0, |v|)
  {
    var n := |v|;
    if p == 0 {
      DotZero(a[i], PartialApply(b, v, 0), 0, n);
    } else {
      MulApplyPrefix(a, b, v, i, p - 1);
      DotLinearRight(a[i], PartialApply(b, v, p), PartialApply(b, v, p - 1), Column(b, p - 1),
                     1.0, v[p - 1], 0, n);
    }
  }

  /** (a b) v == a (b v): what lets a two-stage triangular solve stand for a solve with a = l u. */
  lemma {:induction false} MulApply(a: Matrix, b: Matrix, v: Vector)
    requires IsSquare(a, |v|) && IsSquare(b, |v|)
    ensures Apply(Mul(a, b), v) == Apply(a, Apply(b, v))
  {
    var n := |v|;
    assert PartialApply(b, v, n) == Apply(b, v);
    forall i | 0 <= i < n
      ensures Apply(Mul(a, b), v)[i] == Apply(a, Apply(b, v))[i]
    {
      MulApplyPrefix(a, b, v, i, n);
    }
  }

  /** (a + b) v == a v + b v */
  lemma {:induction false} ApplyAdd(a: Matrix, b: Matrix, v: Vector)
    requires IsSquare(a, |v|) && IsSquare(b, |v|)
    ensures Apply(Add(a, b), v) == VAdd(Apply(a, v), Apply(b, v))
  {
    var n := |v|;
    forall i | 0 <= i < n
      ensures Apply(Add(a, b), v)[i] == VAdd(Apply(a, v), Apply(b, v))[i]
    {
      DotLinear(Add(a, b)[i], a[i], b[i], 1.0, 1.0, v, 0, n);
    }
  }

  /** sum over i < q of the first p terms of (a b)[i][i] */
  function RowDotSum(a: Matrix, b: Matrix, p: nat, q: nat): real
    requires IsSquare(a, |a|) && IsSquare(b, |a|) && p <= |a| && q <= |a|
  {
    if q == 0 then 0.0 else RowDotSum(a, b, p, q - 1) + Dot(a[q - 1], Column(b, q - 1), 0, p)
  }

  lemma {:induction false} RowDotSumEmpty(a: Matrix, b: Matrix, q: nat)
    requires IsSquare(a, |a|) && IsSquare(b, |a|) && q <= |a|
    ensures RowDotSum(a, b, 0, q) == 0.0
  {
    if q > 0 {
      RowDotSumEmpty(a, b, q - 1);
    }
  }

  lemma {:induction false} RowDotSumStep(a: Matrix, b: Matrix, p: nat, q: nat)
    requires IsSquare(a, |a|) && IsSquare(b, |a|) && p < |a| && q <= |a|
    ensures RowDotSum(a, b, p + 1, q) == RowDotSum(a, b, p, q) + Dot(b[p], Column(a, p), 0, q)
  {
    if q > 0 {
      RowDotSumStep(a, b, p, q - 1);
      assert a[q - 1][p] * b[p][q - 1] == b[p][q - 1] * a[q - 1][p];
    }
  }

  lemma {:induction false} RowDotSumSwap(a: Matrix, b: Matrix, p: nat, q: nat)
    requires IsSquare(a, |a|) && IsSquare(b, |a|) && p <= |a| && q <= |a|
    ensures RowDotSum(a, b, p, q) == RowDotSum(b, a, q, p)
  {
    if p == 0 {
      RowDotSumEmpty(a, b, q);
    } else {
      RowDotSumSwap(a, b, p - 1, q);
      RowDotSumStep(a, b, p - 1, q);
    }
  }

  lemma {:induction false} TraceOfMul(a: Matrix, b: Matrix, q: nat)
    requires IsSquare(a, |a|) && IsSquare(b, |a|) && q <= |a|
    ensures TraceUpTo(Mul(a, b), q) == RowDotSum(a, b, |a|, q)
  {
    if q > 0 {
      TraceOfMul(a, b, q - 1);
    }
  }

  /** tr(a b) == tr(b a) */
  lemma {:induction false} TraceMulCommutes(a: Matrix, b: Matrix)
    requires IsSquare(a, |a|) && IsSquare(b, |a|)
    ensures Trace(Mul(a, b)) == Trace(Mul(b, a))
  {
    var n := |a|;
    TraceOfMul(a, b, n);
    TraceOfMul(b, a, n);
    RowDotSumSwap(a, b, n, n);
  }

  /** Transposing a rectangular matrix twice gives it back. */
  lemma {:induction false} TransposeInvolution(a: Matrix)
    requires |a| >= 1 && |a[0]| >= 1 && IsRect(a, |a|, |a[0]|)
    ensures Transposed(Transposed(a)) == a
  {
    var t := Transposed(a);
    assert |t| == |a[0]| && |t[0]| == |a|;
    forall i | 0 <= i < |a|
      ensures Transposed(t)[i] == a[i]
    {
    }
  }

  /** Column j of a product is the left factor applied to column j of the right one. */
  lemma {:induction false} ColumnOfMul(a: Matrix, b: Matrix, j: nat)
    requires IsSquare(a, |a|) && IsSquare(b, |a|) && j < |a|
    ensures Column(Mul(a, b), j) == Apply(a, Column(b, j))
  {
  }

  /** (a b) c == a (b c) */
  lemma {:induction false} MulAssociative(a: Matrix, b: Matrix, c: Matrix)
    requires IsSquare(a, |a|) && IsSquare(b, |a|) && IsSquare(c, |a|)
    ensures Mul(Mul(a, b), c) == Mul(a, Mul(b, c))
  {
    var n := |a|;
    forall j | 0 <= j < n
      ensures Column(Mul(Mul(a, b), c), j) == Column(Mul(a, Mul(b, c)), j)
    {
      ColumnOfMul(Mul(a, b), c, j);
      ColumnOfMul(b, c, j);
      ColumnOfMul(a, Mul(b, c), j);
      MulApply(a, b, Column(c, j));
    }
    forall i | 0 <= i < n
      ensures Mul(Mul(a, b), c)[i] == Mul(a, Mul(b, c))[i]
    {
      forall j | 0 <= j < n
        ensures Mul(Mul(a, b), c)[i][j] == Mul(a, Mul(b, c))[i][j]
      {
        assert Column(Mul(Mul(a, b), c), j)[i] == Column(Mul(a, Mul(b, c)), j)[i];
      }
    }
  }

  /** The diagonal entries add up to the trace. */
  lemma {:induction false} DiagonalSumIsTrace(a: Matrix, q: nat)
    requires IsSquare(a, |a|) && q <= |a|
    ensures Sum(Diagonal(a), 0, q) == TraceUpTo(a, q)
  {
    if q > 0 {
      DiagonalSumIsTrace(a, q - 1);
    }
  }
}
