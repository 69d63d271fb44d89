/** src/exact_methods/helpers.rs: an older copy of three helpers.  Identity and
    pivot search are the same code as in src/linear_algebra/helpers.rs and share
    its definitions; this transpose allocates its result the other way round,
    lines rows of cols entries, and so stays in bounds only for square input. */
module ExactMethodsHelpers {
  import opened Sums
  import opened Matrices
  import LinearAlgebraHelpers

  /** get_identity_matrix: 1 exactly where row == column. */
  function GetIdentityMatrix(n: nat): (e: Matrix)
    ensures IsSquare(e, n)
    ensures forall i, j :: 0 <= i < n && 0 <= j < n ==> (e[i][j] == 1.0 <==> i == j)
    ensures forall i, j :: 0 <= i < n && 0 <= j < n && i != j ==> e[i][j] == 0.0
  {
    LinearAlgebraHelpers.GetIdentityMatrix(n)
  }

  /** choose_best_pivot: the pivot row is the first of largest |a[r][k]|;
      rows k and p of a and entries k and p of b are exchanged, all others
      stay. */
  method ChooseBestPivot(a: array<seq<real>>, b: array<real>, k: nat) returns (ghost p: nat)
    requires k < b.Length <= a.Length
    requires forall r :: k <= r < b.Length ==> k < |a[r]|
    modifies a, b
    ensures k <= p < b.Length
    ensures forall r :: k <= r < p ==> Abs(old(a[r][k])) < Abs(old(a[p][k]))
    ensures a[k] == old(a[p]) && a[p] == old(a[k]) && b[k] == old(b[p]) && b[p] == old(b[k])
    ensures forall r :: 0 <= r < a.Length && r != k && r != p ==> a[r] == old(a[r])
    ensures forall r :: 0 <= r < b.Length && r != k && r != p ==> b[r] == old(b[r])
    ensures forall r :: k <= r < b.Length ==> Abs(a[r][k]) <= Abs(a[k][k])
  {
    p := LinearAlgebraHelpers.PivotRow(a[..], k, b.Length);
    LinearAlgebraHelpers.ChooseBestPivot(a, b, k);
  }

  /** transpose: at[i][j] = a[j][i] in a result of a.len() rows of a[0].len()
      entries.  The writes at[i][j] for i < cols, j < lines are in bounds only
      when lines == cols. */
  method Transpose(a: Matrix) returns (at: Matrix)
    requires |a| >= 1 && |a[0]| == |a|
    requires forall j :: 0 <= j < |a| ==> |a[0]| <= |a[j]|
    ensures IsSquare(at, |a|)
    ensures forall i, j :: 0 <= i < |a| && 0 <= j < |a| ==> at[i][j] == a[j][i]
    ensures IsSquare(a, |a|) ==> at == Transposed(a)
  {
    var lines := |a|;
    var cols := |a[0]|;
    at := seq(lines, _ => Zeros(cols));
    for i := 0 to cols
      invariant IsSquare(at, lines)
      invariant forall r, j :: 0 <= r < i && 0 <= j < lines ==> at[r][j] == a[j][r]
    {
      for j := 0 to lines
        invariant IsSquare(at, lines)
        invariant forall r, q :: 0 <= r < i && 0 <= q < lines ==> at[r][q] == a[q][r]
        invariant forall q :: 0 <= q < j ==> at[i][q] == a[q][i]
      {
        at := at[i := at[i][j := a[j][i]]];
      }
    }
    if IsSquare(a, |a|) {
      assert forall i :: 0 <= i < cols ==> at[i] == Transposed(a)[i];
    }
  }
}
