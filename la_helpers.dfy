/** src/linear_algebra/helpers.rs: the matrix and vector primitives, the pivot
    search, the transpose, the Doolittle LU factorisation and the row-normalised
    split used by the iterative solvers.  The Rust functions that fill a fresh
    `Vec` in index loops are methods here whose local vectors are sequences
    updated entry by entry; `choose_best_pivot`, which rewrites its caller's
    buffers, works on arrays. */
module LinearAlgebraHelpers {
  import opened Sums
  import opened Matrices
  import opened Wrappers

  // ---------------------------------------------------------------------
  // Products and sums

  /** matvec: x[i] = sum of a[i][j] * v[j] over j < n, n = v.len(). */
  method MatVec(a: Matrix, v: Vector) returns (x: Vector)
    requires IsSquare(a, |v|)
    ensures x == Apply(a, v)
  {
    var n := |v|;
    x := Zeros(n);
    for i := 0 to n
      invariant |x| == n
      invariant forall r :: 0 <= r < i ==> x[r] == Dot(a[r], v, 0, n)
    {
      var sum := 0.0;
      for j := 0 to n
        invariant sum == Dot(a[i], v, 0, j)
      {
        sum := sum + a[i][j] * v[j];
      }
      x := x[i := sum];
    }
  }

  /** matmat: c[i][j] = sum of a[i][k] * b[k][j] over k < n, n = a.len(). */
  method MatMat(a: Matrix, b: Matrix) returns (c: Matrix)
    requires IsSquare(a, |a|) && IsSquare(b, |a|)
    ensures c == Mul(a, b)
  {
    var n := |a|;
    ghost var m := Mul(a, b);
    c := seq(n, _ => Zeros(n));
    for i := 0 to n
      invariant IsSquare(c, n)
      invariant forall r :: 0 <= r < i ==> c[r] == m[r]
    {
      for j := 0 to n
        invariant IsSquare(c, n)
        invariant forall r :: 0 <= r < i ==> c[r] == m[r]
        invariant forall q :: 0 <= q < j ==> c[i][q] == m[i][q]
      {
        var sum := 0.0;
        for k := 0 to n
          invariant sum == Dot(a[i], Column(b, j), 0, k)
        {
          sum := sum + a[i][k] * b[k][j];
        }
        c := c[i := c[i][j := sum]];
      }
      assert c[i] == m[i];
    }
  }

  /** matsum: entrywise a + b. */
  method MatSum(a: Matrix, b: Matrix) returns (c: Matrix)
    requires IsSquare(a, |a|) && IsSquare(b, |a|)
    ensures c == Add(a, b)
  {
    var n := |a|;
    ghost var s := Add(a, b);
    c := seq(n, _ => Zeros(n));
    for i := 0 to n
      invariant IsSquare(c, n)
      invariant forall r :: 0 <= r < i ==> c[r] == s[r]
    {
      for j := 0 to n
        invariant IsSquare(c, n)
        invariant forall r :: 0 <= r < i ==> c[r] == s[r]
        invariant forall q :: 0 <= q < j ==> c[i][q] == s[i][q]
      {
        c := c[i := c[i][j := a[i][j] + b[i][j]]];
      }
      assert c[i] == s[i];
    }
  }

  /** addvec */
  method AddVec(u: Vector, v: Vector) returns (x: Vector)
    requires |u| == |v|
    ensures x == VAdd(u, v)
  {
    var n := |u|;
    x := Zeros(n);
    for i := 0 to n
      invariant |x| == n
      invariant forall r :: 0 <= r < i ==> x[r] == u[r] + v[r]
    {
      x := x[i := u[i] + v[i]];
    }
  }

  /** subvec */
  method SubVec(u: Vector, v: Vector) returns (x: Vector)
    requires |u| == |v|
    ensures x == VSub(u, v)
  {
    var n := |u|;
    x := Zeros(n);
    for i := 0 to n
      invariant |x| == n
      invariant forall r :: 0 <= r < i ==> x[r] == u[r] - v[r]
    {
      x := x[i := u[i] - v[i]];
    }
  }

  /** Subtraction undoes addition: the partner of addvec and subvec. */
  lemma {:induction false} SubVecUndoesAddVec(u: Vector, v: Vector)
    requires |u| == |v|
    ensures VSub(VAdd(u, v), v) == u
    ensures VAdd(VSub(u, v), v) == u
  {
    assert forall i :: 0 <= i < |u| ==> VSub(VAdd(u, v), v)[i] == u[i];
    assert forall i :: 0 <= i < |u| ==> VAdd(VSub(u, v), v)[i] == u[i];
  }

  /** divdot: the entrywise quotient; every v[i] must be nonzero. */
  method DivDot(u: Vector, v: Vector) returns (x: Vector)
    requires |u| == |v|
    requires forall i :: 0 <= i < |v| ==> v[i] != 0.0
    ensures |x| == |u|
    ensures forall i :: 0 <= i < |u| ==> x[i] * v[i] == u[i]
  {
    var n := |u|;
    x := Zeros(n);
    for i := 0 to n
      invariant |x| == n
      invariant forall r :: 0 <= r < i ==> x[r] * v[r] == u[r]
    {
      x := x[i := u[i] / v[i]];
    }
  }

  /** scalar_mul: every entry times `scalar`. */
  function ScalarMul(v: Vector, scalar: real): (w: Vector)
    ensures |w| == |v|
    ensures forall i {:trigger w[i]} :: 0 <= i < |v| ==> w[i] == v[i] * scalar
  {
    seq(|v|, i requires 0 <= i < |v| => v[i] * scalar)
  }

  /** Scaling by a nonzero scalar is undone by scaling by its reciprocal. */
  lemma {:induction false} ScalarMulUndo(v: Vector, scalar: real)
    requires scalar != 0.0
    ensures ScalarMul(ScalarMul(v, scalar), 1.0 / scalar) == v
  {
    var w := ScalarMul(ScalarMul(v, scalar), 1.0 / scalar);
    forall i | 0 <= i < |v|
      ensures w[i] == v[i]
    {
      assert w[i] == v[i] * scalar * (1.0 / scalar);
      assert scalar * (1.0 / scalar) == 1.0;
    }
  }

  // ---------------------------------------------------------------------
  // Norms, trace, triangle maximum

  /** The fold of infinity_vecnorm over v[0..q]: the largest |v[i]|.  The
      library seeds the fold with negative infinity, which only an empty
      vector would return; the model asks for q >= 1. */
  function MaxAbs(v: Vector, q: nat): (r: real)
    requires 1 <= q <= |v|
    ensures forall i :: 0 <= i < q ==> Abs(v[i]) <= r
    ensures exists i :: 0 <= i < q && r == Abs(v[i])
  {
    if q == 1 then Abs(v[0]) else Max(MaxAbs(v, q - 1), Abs(v[q - 1]))
  }

  /** infinity_vecnorm */
  function InfinityVecNorm(v: Vector): (r: real)
    requires |v| >= 1
    ensures r >= 0.0
    ensures forall i :: 0 <= i < |v| ==> Abs(v[i]) <= r
    ensures exists i :: 0 <= i < |v| && r == Abs(v[i])
  {
    MaxAbs(v, |v|)
  }

  lemma {:induction false} QuotientAtMostOne(x: real, n: real)
    requires 0.0 <= x <= n && n > 0.0
    ensures x / n <= 1.0
  {
    var inv := 1.0 / n;
    assert (n - x) * inv >= 0.0;
    assert x / n == x * inv;
    assert n * inv == 1.0;
  }

  lemma {:induction false} DivAbs(x: real, n: real)
    requires n > 0.0
    ensures Abs(x * (1.0 / n)) == Abs(x) / n
  {
    if x < 0.0 {
      assert -(x * (1.0 / n)) == (-x) / n;
    } else {
      assert x * (1.0 / n) == x / n;
    }
  }

  lemma {:induction false} ScaledEntry(x: real, n: real)
    requires n > 0.0 && Abs(x) <= n
    ensures Abs(x * (1.0 / n)) <= 1.0
  {
    DivAbs(x, n);
    QuotientAtMostOne(Abs(x), n);
  }

  /** Dividing by the largest magnitude n leaves every entry within 1 and the
      largest one at exactly 1. */
  lemma {:induction false} ScaledBounds(z: Vector, n: real, top: nat) returns (y: Vector)
    requires n > 0.0 && top < |z| && Abs(z[top]) == n
    requires forall i :: 0 <= i < |z| ==> Abs(z[i]) <= n
    ensures y == ScalarMul(z, 1.0 / n)
    ensures forall i :: 0 <= i < |y| ==> Abs(y[i]) <= 1.0
    ensures Abs(y[top]) == 1.0
  {
    y := ScalarMul(z, 1.0 / n);
    forall i | 0 <= i < |z|
      ensures Abs(y[i]) <= 1.0
    {
      assert y[i] == z[i] * (1.0 / n);
      ScaledEntry(z[i], n);
    }
    DivAbs(z[top], n);
    assert y[top] == z[top] * (1.0 / n);
  }

  /** The power methods' normalisation y = z / ||z|| yields a vector of infinity norm 1. */
  lemma {:induction false} NormalizedHasUnitNorm(z: Vector)
    requires |z| >= 1 && InfinityVecNorm(z) != 0.0
    ensures InfinityVecNorm(ScalarMul(z, 1.0 / InfinityVecNorm(z))) == 1.0
  {
    var nz := InfinityVecNorm(z);
    var top :| 0 <= top < |z| && nz == Abs(z[top]);
    var y := ScaledBounds(z, nz, top);
    var r := InfinityVecNorm(y);
    assert Abs(y[top]) <= r;
    var j :| 0 <= j < |y| && r == Abs(y[j]);
    assert r <= 1.0;
  }

  /** infinity_norm: the largest row sum of absolute values.  Row 0 seeds the
      maximum, so the matrix must have a row. */
  method InfinityNorm(a: Matrix) returns (max: real)
    requires |a| >= 1
    ensures max == NormInf(a)
    ensures forall i :: 0 <= i < |a| ==> AbsSum(a[i], |a[i]|) <= max
    ensures exists i :: 0 <= i < |a| && max == AbsSum(a[i], |a[i]|)
  {
    var n := |a|;
    max := AbsSum(a[0], |a[0]|);
    for i := 1 to n
      invariant max == MaxRowAbsSum(a, i)
    {
      var sum := AbsSum(a[i], |a[i]|);
      if sum > max {
        max := sum;
      }
    }
  }

  /** tr: the sum of the diagonal. */
  method Tr(a: Matrix) returns (sum: real)
    requires forall i :: 0 <= i < |a| ==> i < |a[i]|
    ensures sum == TraceUpTo(a, |a|)
  {
    sum := 0.0;
    for i := 0 to |a|
      invariant sum == TraceUpTo(a, i)
    {
      sum := sum + a[i][i];
    }
  }

  /** max_abs_value_in_inferior_triangle: the largest |a[i][j]| with j < i.
      The library seeds the maximum with negative infinity, which a matrix of
      fewer than two rows would return; the model asks for two rows and seeds
      with the first entry the loops visit, |a[1][0]|. */
  method MaxAbsValueInInferiorTriangle(a: Matrix) returns (max: real)
    requires |a| >= 2
    requires forall i :: 0 <= i < |a| ==> i <= |a[i]|
    ensures forall i, j :: 0 <= j < i < |a| ==> Abs(a[i][j]) <= max
    ensures exists i, j :: 0 <= j < i < |a| && max == Abs(a[i][j])
  {
    var n := |a|;
    max := Abs(a[1][0]);
    ghost var wi, wj := 1, 0;
    for i := 1 to n
      invariant 0 <= wj < wi < n && max == Abs(a[wi][wj])
      invariant forall r, q :: 0 <= q < r < i ==> Abs(a[r][q]) <= max
      invariant Abs(a[1][0]) <= max
    {
      for j := 0 to i
        invariant 0 <= wj < wi < n && max == Abs(a[wi][wj])
        invariant forall r, q :: 0 <= q < r < i ==> Abs(a[r][q]) <= max
        invariant forall q :: 0 <= q < j ==> Abs(a[i][q]) <= max
        invariant Abs(a[1][0]) <= max
      {
        if Abs(a[i][j]) > max {
          wi, wj := i, j;
        }
        max := Max(max, Abs(a[i][j]));
      }
    }
  }

  // ---------------------------------------------------------------------
  // Identity and transpose

  /** get_identity_matrix: a zero n x n matrix whose j-th row, visited with a
      running counter j, gets a 1 at position j. */
  function GetIdentityMatrix(n: nat): (e: Matrix)
    ensures IsSquare(e, n)
    ensures forall i, j :: 0 <= i < n && 0 <= j < n ==> e[i][j] == (if i == j then 1.0 else 0.0)
    ensures e == Identity(n)
  {
    var zero := seq(n, _ => Zeros(n));
    var e := seq(n, j requires 0 <= j < n => zero[j][j := 1.0]);
    assert forall i :: 0 <= i < n ==> e[i] == Unit(n, i);
    e
  }

  /** Multiplying by the identity on either side changes nothing. */
  lemma {:induction false} IdentityIsNeutral(a: Matrix)
    requires IsSquare(a, |a|)
    ensures Mul(a, GetIdentityMatrix(|a|)) == a
    ensures Mul(GetIdentityMatrix(|a|), a) == a
    ensures forall v :: |v| == |a| ==> Apply(GetIdentityMatrix(|a|), v) == v
  {
    MulIdentityRight(a);
    MulIdentityLeft(a);
    forall v | |v| == |a|
      ensures Apply(GetIdentityMatrix(|a|), v) == v
    {
      ApplyIdentity(v);
    }
  }

  /** transpose: at has a[0].len() rows of a.len() entries and at[i][j] = a[j][i]. */
  method Transpose(a: Matrix) returns (at: Matrix)
    requires |a| >= 1
    requires forall j :: 0 <= j < |a| ==> |a[0]| <= |a[j]|
    ensures IsRect(at, |a[0]|, |a|)
    ensures forall i, j :: 0 <= i < |a[0]| && 0 <= j < |a| ==> at[i][j] == a[j][i]
    ensures IsRect(a, |a|, |a[0]|) ==> at == Transposed(a)
  {
    var lines := |a|;
    var cols := |a[0]|;
    at := seq(cols, _ => Zeros(lines));
    for i := 0 to cols
      invariant IsRect(at, cols, lines)
      invariant forall r, j :: 0 <= r < i && 0 <= j < lines ==> at[r][j] == a[j][r]
    {
      for j := 0 to lines
        invariant IsRect(at, cols, lines)
        invariant forall r, q :: 0 <= r < i && 0 <= q < lines ==> at[r][q] == a[q][r]
        invariant forall q :: 0 <= q < j ==> at[i][q] == a[q][i]
      {
        at := at[i := at[i][j := a[j][i]]];
      }
    }
    if IsRect(a, |a|, |a[0]|) {
      assert forall i :: 0 <= i < cols ==> at[i] == Transposed(a)[i];
    }
  }

  // ---------------------------------------------------------------------
  // Pivot search and row swap

  /** The row choose_best_pivot settles on after scanning rows k..hi-1 of
      column k: the first row of largest |a[r][k]|, since only a strictly
      larger entry displaces the current choice. */
  function PivotRow(a: Matrix, k: nat, hi: nat): (p: nat)
    requires k < hi <= |a| && forall r :: k <= r < hi ==> k < |a[r]|
    ensures k <= p < hi
    ensures forall r :: k <= r < hi ==> Abs(a[r][k]) <= Abs(a[p][k])
    ensures forall r :: k <= r < p ==> Abs(a[r][k]) < Abs(a[p][k])
  {
    if hi == k + 1 then k
    else
      var m := PivotRow(a, k, hi - 1);
      if Abs(a[hi - 1][k]) > Abs(a[m][k]) then hi - 1 else m
  }

  /** s with entries i and j exchanged */
  function Swap<T>(s: seq<T>, i: nat, j: nat): (t: seq<T>)
    requires i < |s| && j < |s|
    ensures |t| == |s| && t[i] == s[j] && t[j] == s[i]
    ensures forall r :: 0 <= r < |s| && r != i && r != j ==> t[r] == s[r]
  {
    s[i := s[j]][j := s[i]]
  }

  /** A swap rearranges. */
  lemma {:induction false} SwapIsPermutation<T>(s: seq<T>, i: nat, j: nat)
    requires i < |s| && j < |s|
    ensures multiset(Swap(s, i, j)) == multiset(s)
  {
    if i != j {
      var t := s[i := s[j]];
      assert Swap(s, i, j) == t[j := s[i]];
      assert multiset(t) == multiset(s) - multiset{s[i]} + multiset{s[j]};
      assert multiset(t[j := s[i]]) == multiset(t) - multiset{t[j]} + multiset{s[i]};
    }
  }

  /** Exchanging twice restores. */
  lemma {:induction false} SwapIsInvolution<T>(s: seq<T>, i: nat, j: nat)
    requires i < |s| && j < |s|
    ensures Swap(Swap(s, i, j), i, j) == s
  {
  }

  /** After the swap the pivot entry is largest in its column among rows k..n-1. */
  lemma {:induction false} PivotSwapMaximal(a: Matrix, k: nat, n: nat)
    requires k < n <= |a| && forall r :: k <= r < n ==> k < |a[r]|
    ensures var s := Swap(a, k, PivotRow(a, k, n));
            forall r :: k <= r < n ==> Abs(s[r][k]) <= Abs(s[k][k])
  {
  }

  /** When a[k][k] is already largest in its column, the search keeps row k
      and the swap changes nothing. */
  lemma {:induction false} PivotKeepsMaximalRow(a: Matrix, k: nat, n: nat)
    requires k < n <= |a| && forall r :: k <= r < n ==> k < |a[r]|
    requires forall r :: k <= r < n ==> Abs(a[r][k]) <= Abs(a[k][k])
    ensures PivotRow(a, k, n) == k
    ensures Swap(a, k, PivotRow(a, k, n)) == a
  {
  }

  /** choose_best_pivot's scan of column k over rows k..n-1: only a strictly
      larger |a[line][k]| replaces the current choice. */
  method PivotSearch(a: array<seq<real>>, k: nat, n: nat) returns (maxIndex: nat)
    requires k < n <= a.Length
    requires forall r :: k <= r < n ==> k < |a[r]|
    ensures maxIndex == PivotRow(a[..], k, n)
  {
    var maxElement := Abs(a[k][k]);
    maxIndex := k;
    for line := k + 1 to n
      invariant maxIndex == PivotRow(a[..], k, line)
      invariant maxElement == Abs(a[maxIndex][k])
    {
      if Abs(a[line][k]) > maxElement {
        maxElement := Abs(a[line][k]);
        maxIndex := line;
      }
    }
  }

  /** choose_best_pivot: bring the first row of largest |a[r][k]| among rows
      k..n-1 (n = b.len()) to row k, exchanging the same entries of b. */
  method ChooseBestPivot(a: array<seq<real>>, b: array<real>, k: nat)
    requires k < b.Length <= a.Length
    requires forall r :: k <= r < b.Length ==> k < |a[r]|
    modifies a, b
    ensures var p := PivotRow(old(a[..]), k, b.Length);
            a[..] == Swap(old(a[..]), k, p) && b[..] == Swap(old(b[..]), k, p)
    ensures forall r :: k <= r < b.Length ==> Abs(a[r][k]) <= Abs(a[k][k])
  {
    var n := b.Length;
    ghost var a0, b0 := a[..], b[..];
    var maxIndex := PivotSearch(a, k, n);
    if k != maxIndex {
      var tmp := a[k];
      a[k] := a[maxIndex];
      a[maxIndex] := tmp;
      var t := b[k];
      b[k] := b[maxIndex];
      b[maxIndex] := t;
    }
    assert a[..] == Swap(a0, k, maxIndex);
    assert b[..] == Swap(b0, k, maxIndex);
    PivotSwapMaximal(a0, k, n);
  }

  // ---------------------------------------------------------------------
  // Doolittle LU factorisation

  /** l is unit lower triangular, u upper triangular, l * u == a, and every
      divisor u[j][j] of the factorisation (j < n - 1) is nonzero. */
  predicate IsLuFactorisation(a: Matrix, l: Matrix, u: Matrix)
  {
    IsSquare(a, |a|) && IsSquare(l, |a|) && IsSquare(u, |a|) &&
    IsLower(l) && (forall i :: 0 <= i < |a| ==> l[i][i] == 1.0) && IsUpper(u) &&
    (forall j :: 0 <= j < |a| - 1 ==> u[j][j] != 0.0) &&
    Mul(l, u) == a
  }

  /** The Doolittle equation lu_decomp solves for entry (r, q): u[r][q] when
      r <= q, l[r][q] (divided by u[q][q]) when r > q. */
  ghost predicate DoolittleEntry(a: Matrix, l: Matrix, u: Matrix, r: nat, q: nat)
    requires IsSquare(a, |a|) && IsSquare(l, |a|) && IsSquare(u, |a|) && r < |a| && q < |a|
  {
    if r <= q then u[r][q] == a[r][q] - Dot(l[r], Column(u, q), 0, r)
    else u[q][q] != 0.0 && l[r][q] * u[q][q] == a[r][q] - Dot(l[r], Column(u, q), 0, q)
  }

  /** Row r of l is zero right of a unit diagonal; row r of u is zero left of it. */
  ghost predicate LuShapeRow(l: Matrix, u: Matrix, r: nat)
    requires IsSquare(l, |l|) && IsSquare(u, |l|) && r < |l|
  {
    l[r][r] == 1.0 && (forall q :: r < q < |l| ==> l[r][q] == 0.0) &&
    (forall q :: 0 <= q < r ==> u[r][q] == 0.0)
  }

  /** The equation of entry (r, q) reads l[r][k] for k <= q, k < r, rows of u
      above r, and u[r][q] itself. */
  lemma {:induction false} DoolittleEntryFrame(a: Matrix, l: Matrix, u: Matrix, l': Matrix, u': Matrix, r: nat, q: nat)
    requires IsSquare(a, |a|) && IsSquare(l, |a|) && IsSquare(u, |a|)
    requires IsSquare(l', |a|) && IsSquare(u', |a|) && r < |a| && q < |a|
    requires forall k :: 0 <= k < r && k <= q ==> l'[r][k] == l[r][k]
    requires forall k :: 0 <= k < r ==> u'[k] == u[k]
    requires r <= q ==> u'[r][q] == u[r][q]
    requires DoolittleEntry(a, l, u, r, q)
    ensures DoolittleEntry(a, l', u', r, q)
  {
    var hi := if r <= q then r else q;
    DotFrame(l[r], Column(u, q), l'[r], Column(u', q), 0, hi);
  }

  /** With the triangular shapes, the equation of (r, q) is the (r, q) entry of l * u == a. */
  lemma {:induction false} DoolittleEntryProduct(a: Matrix, l: Matrix, u: Matrix, r: nat, q: nat)
    requires IsSquare(a, |a|) && IsSquare(l, |a|) && IsSquare(u, |a|) && r < |a| && q < |a|
    requires LuShapeRow(l, u, r)
    requires forall k :: q < k < |a| ==> u[k][q] == 0.0
    requires DoolittleEntry(a, l, u, r, q)
    ensures Dot(l[r], Column(u, q), 0, |a|) == a[r][q]
  {
    var n := |a|;
    var c := Column(u, q);
    if r <= q {
      DotSplit(l[r], c, 0, r, n);
      DotPick(l[r], c, r, r, n);
      assert c[r] == u[r][q];
      assert l[r][r] * c[r] == c[r];
    } else {
      DotSplit(l[r], c, 0, q, n);
      DotPick(l[r], c, q, q, n);
      assert c[q] == u[q][q];
    }
  }

  lemma {:induction false} DoolittleProduct(a: Matrix, l: Matrix, u: Matrix)
    requires IsSquare(a, |a|) && IsSquare(l, |a|) && IsSquare(u, |a|)
    requires forall r :: 0 <= r < |a| ==> LuShapeRow(l, u, r)
    requires forall r, q :: 0 <= r < |a| && 0 <= q < |a| ==> DoolittleEntry(a, l, u, r, q)
    ensures Mul(l, u) == a
  {
    var n := |a|;
    forall r, q | 0 <= r < n && 0 <= q < n
      ensures Mul(l, u)[r][q] == a[r][q]
    {
      forall k | q < k < n
        ensures u[k][q] == 0.0
      {
        assert LuShapeRow(l, u, k);
      }
      DoolittleEntryProduct(a, l, u, r, q);
    }
    assert forall r :: 0 <= r < n ==> Mul(l, u)[r] == a[r];
  }

  /** The invariant of lu_decomp's inner loop after entry (i, j) was written:
      rows above i are finished, the entries of row i left of j+1 satisfy
      their equations, row i keeps its shape and rows below i are still zero. */
  ghost predicate LuProgress(a: Matrix, l: Matrix, u: Matrix, i: nat, j: nat)
    requires IsSquare(a, |a|) && IsSquare(l, |a|) && IsSquare(u, |a|) && i < |a| && j <= |a|
  {
    (forall r :: 0 <= r <= i ==> LuShapeRow(l, u, r)) &&
    (forall r, q :: 0 <= r < i && 0 <= q < |a| ==> DoolittleEntry(a, l, u, r, q)) &&
    (forall q :: 0 <= q < j ==> DoolittleEntry(a, l, u, i, q)) &&
    (forall r, q :: i < r < |a| && 0 <= q < |a| ==> l[r][q] == 0.0 && u[r][q] == 0.0)
  }

  /** Writing entry (i, j) to satisfy its own equation, and nothing else, carries the progress from j to j + 1. */
  lemma {:induction false} LuEntryStep(a: Matrix, l0: Matrix, u0: Matrix, l: Matrix, u: Matrix, i: nat, j: nat)
    requires IsSquare(a, |a|) && IsSquare(l0, |a|) && IsSquare(u0, |a|) && IsSquare(l, |a|) && IsSquare(u, |a|)
    requires i < |a| && j < |a|
    requires LuProgress(a, l0, u0, i, j)
    requires forall r :: 0 <= r < |a| && r != i ==> l[r] == l0[r] && u[r] == u0[r]
    requires forall q :: 0 <= q < |a| && q != j ==> l[i][q] == l0[i][q] && u[i][q] == u0[i][q]
    requires i <= j ==> l[i][j] == l0[i][j]
    requires j < i ==> u[i][j] == u0[i][j]
    requires DoolittleEntry(a, l, u, i, j)
    ensures LuProgress(a, l, u, i, j + 1)
  {
    var n := |a|;
    forall r, q | (0 <= r < i && 0 <= q < n) || (r == i && 0 <= q < j)
      ensures DoolittleEntry(a, l, u, r, q)
    {
      DoolittleEntryFrame(a, l0, u0, l, u, r, q);
    }
    forall r | 0 <= r <= i
      ensures LuShapeRow(l, u, r)
    {
      assert LuShapeRow(l0, u0, r);
    }
  }

  /** The invariant of lu_decomp's outer loop before row i: rows above i are
      finished and every row from i on is still zero. */
  ghost predicate LuRowsDone(a: Matrix, l: Matrix, u: Matrix, i: nat)
    requires IsSquare(a, |a|) && IsSquare(l, |a|) && IsSquare(u, |a|) && i <= |a|
  {
    (forall r :: 0 <= r < i ==> LuShapeRow(l, u, r)) &&
    (forall r, q :: 0 <= r < i && 0 <= q < |a| ==> DoolittleEntry(a, l, u, r, q)) &&
    (forall r, q :: i <= r < |a| && 0 <= q < |a| ==> l[r][q] == 0.0 && u[r][q] == 0.0)
  }

  /** Setting l[i][i] = 1 starts row i. */
  lemma {:induction false} LuRowStart(a: Matrix, l: Matrix, u: Matrix, i: nat)
    requires IsSquare(a, |a|) && IsSquare(l, |a|) && IsSquare(u, |a|) && i < |a|
    requires LuRowsDone(a, l, u, i)
    ensures IsSquare(l[i := l[i][i := 1.0]], |a|)
    ensures LuProgress(a, l[i := l[i][i := 1.0]], u, i, 0)
  {
    var l' := l[i := l[i][i := 1.0]];
    forall r, q | 0 <= r < i && 0 <= q < |a|
      ensures DoolittleEntry(a, l', u, r, q)
    {
      DoolittleEntryFrame(a, l, u, l', u, r, q);
    }
    forall r | 0 <= r < i
      ensures LuShapeRow(l', u, r)
    {
      assert LuShapeRow(l, u, r);
    }
  }

  /** A finished row i finishes rows 0..i. */
  lemma {:induction false} LuRowEnd(a: Matrix, l: Matrix, u: Matrix, i: nat)
    requires IsSquare(a, |a|) && IsSquare(l, |a|) && IsSquare(u, |a|) && i < |a|
    requires LuProgress(a, l, u, i, |a|)
    ensures LuRowsDone(a, l, u, i + 1)
  {
  }

  /** All rows finished: l and u are a factorisation of a. */
  lemma {:induction false} LuFinish(a: Matrix, l: Matrix, u: Matrix)
    requires IsSquare(a, |a|) && IsSquare(l, |a|) && IsSquare(u, |a|)
    requires LuRowsDone(a, l, u, |a|)
    ensures IsLuFactorisation(a, l, u)
  {
    var n := |a|;
    DoolittleProduct(a, l, u);
    forall r | 0 <= r < n
      ensures l[r][r] == 1.0
      ensures forall q :: r < q < n ==> l[r][q] == 0.0
      ensures forall q :: 0 <= q < r ==> u[r][q] == 0.0
    {
      assert LuShapeRow(l, u, r);
    }
    forall j | 0 <= j < n - 1
      ensures u[j][j] != 0.0
    {
      assert DoolittleEntry(a, l, u, n - 1, j);
    }
  }

  /** The inner loop of lu_decomp: the sum of l[i][k] * u[k][j] for k < hi. */
  method RowColumnDot(l: Matrix, u: Matrix, i: nat, j: nat, hi: nat) returns (sum: real)
    requires IsSquare(l, |l|) && IsSquare(u, |l|) && i < |l| && j < |l| && hi <= |l|
    ensures sum == Dot(l[i], Column(u, j), 0, hi)
  {
    sum := 0.0;
    for k := 0 to hi
      invariant sum == Dot(l[i], Column(u, j), 0, k)
    {
      sum := sum + l[i][k] * u[k][j];
    }
  }

  /** One pass of lu_decomp's j loop: u[i][j] when i <= j, l[i][j] otherwise.
      It fails exactly when l[i][j] would divide by a zero u[j][j]. */
  method LuEntry(a: Matrix, l: Matrix, u: Matrix, i: nat, j: nat) returns (ok: bool, l': Matrix, u': Matrix)
    requires IsSquare(a, |a|) && IsSquare(l, |a|) && IsSquare(u, |a|) && i < |a| && j < |a|
    requires LuProgress(a, l, u, i, j)
    ensures IsSquare(l', |a|) && IsSquare(u', |a|)
    ensures !ok <==> j < i && u[j][j] == 0.0
    ensures ok ==> LuProgress(a, l', u', i, j + 1)
  {
    l', u' := l, u;
    if i <= j {
      var sum := RowColumnDot(l, u, i, j, i);
      u' := u[i := u[i][j := a[i][j] - sum]];
      DotFrame(l[i], Column(u, j), l'[i], Column(u', j), 0, i);
    } else {
      var sum := RowColumnDot(l, u, i, j, j);
      if u[j][j] == 0.0 {
        return false, l', u';
      }
      l' := l[i := l[i][j := (a[i][j] - sum) / u[j][j]]];
      DotFrame(l[i], Column(u, j), l'[i], Column(u', j), 0, j);
    }
    LuEntryStep(a, l, u, l', u', i, j);
    ok := true;
  }

  /** lu_decomp: Doolittle's factorisation, row by row, u[i][j] for j >= i and
      then l[i][j] for j < i.  Where the library would divide by a zero
      u[j][j] the model returns None. */
  method LuDecomp(a: Matrix) returns (r: Option<(Matrix, Matrix)>)
    requires IsSquare(a, |a|)
    ensures r.Some? ==> IsLuFactorisation(a, r.value.0, r.value.1)
    ensures r.None? <==> !HasLuFactorisation(a)
  {
    var n := |a|;
    var l := seq(n, _ => Zeros(n));
    var u := seq(n, _ => Zeros(n));
    for i := 0 to n
      invariant IsSquare(l, n) && IsSquare(u, n)
      invariant LuRowsDone(a, l, u, i)
    {
      LuRowStart(a, l, u, i);
      l := l[i := l[i][i := 1.0]];
      for j := 0 to n
        invariant IsSquare(l, n) && IsSquare(u, n)
        invariant LuProgress(a, l, u, i, j)
      {
        var ok, l', u' := LuEntry(a, l, u, i, j);
        if !ok {
          ZeroDivisorLeavesNoFactorisation(a, l, u, i, j);
          return None;
        }
        l, u := l', u';
      }
      LuRowEnd(a, l, u, i);
    }
    LuFinish(a, l, u);
    return Some((l, u));
  }

  /** Every factorisation satisfies the equations lu_decomp solves. */
  lemma {:induction false} FactorisationSolvesDoolittle(a: Matrix, l: Matrix, u: Matrix, r: nat, q: nat)
    requires IsLuFactorisation(a, l, u) && r < |a| && q < |a|
    ensures LuShapeRow(l, u, r)
    ensures DoolittleEntry(a, l, u, r, q)
  {
    var n := |a|;
    var c := Column(u, q);
    assert Mul(l, u)[r][q] == Dot(l[r], c, 0, n);
    if r <= q {
      DotSplit(l[r], c, 0, r, n);
      DotPick(l[r], c, r, r, n);
      assert c[r] == u[r][q];
      assert l[r][r] * c[r] == c[r];
    } else {
      DotSplit(l[r], c, 0, q, n);
      DotPick(l[r], c, q, q, n);
      assert c[q] == u[q][q];
    }
  }

  /** Rows 0 .. i-1 of l and u keep their shape and satisfy every equation lu_decomp solves. */
  ghost predicate LuRowsSolved(a: Matrix, l: Matrix, u: Matrix, i: nat)
    requires IsSquare(a, |a|) && IsSquare(l, |a|) && IsSquare(u, |a|) && i <= |a|
  {
    (forall r :: 0 <= r < i ==> LuShapeRow(l, u, r)) &&
    (forall r, q :: 0 <= r < i && 0 <= q < |a| ==> DoolittleEntry(a, l, u, r, q))
  }

  lemma {:induction false} FactorisationSolvesRows(a: Matrix, l: Matrix, u: Matrix)
    requires IsLuFactorisation(a, l, u)
    ensures LuRowsSolved(a, l, u, |a|)
  {
    forall r, q | 0 <= r < |a| && 0 <= q < |a|
      ensures LuShapeRow(l, u, r) && DoolittleEntry(a, l, u, r, q)
    {
      FactorisationSolvesDoolittle(a, l, u, r, q);
    }
  }

  /** Entry (r, q) is forced once the rows above r and the entries of row r left of q agree. */
  lemma {:induction false} LuEntryForced(a: Matrix, l: Matrix, u: Matrix, l': Matrix, u': Matrix, r: nat, q: nat)
    requires IsSquare(a, |a|) && IsSquare(l, |a|) && IsSquare(u, |a|) && IsSquare(l', |a|) && IsSquare(u', |a|)
    requires r < |a| && q < |a|
    requires LuShapeRow(l, u, r) && DoolittleEntry(a, l, u, r, q)
    requires LuShapeRow(l', u', r) && DoolittleEntry(a, l', u', r, q)
    requires forall k :: 0 <= k < r ==> l[k] == l'[k] && u[k] == u'[k]
    requires forall k :: 0 <= k < q ==> l[r][k] == l'[r][k] && u[r][k] == u'[r][k]
    ensures l[r][q] == l'[r][q] && u[r][q] == u'[r][q]
  {
    var hi := if r <= q then r else q;
    DotFrame(l[r], Column(u, q), l'[r], Column(u', q), 0, hi);
    if q < r {
      assert u[q] == u'[q];
      StarScaleEquivalence(u[q][q], l[r][q], a[r][q] - Dot(l[r], Column(u, q), 0, q));
      StarScaleEquivalence(u'[q][q], l'[r][q], a[r][q] - Dot(l'[r], Column(u', q), 0, q));
    }
  }

  /** Two pairs whose first i rows solve the equations agree on those rows. */
  lemma {:induction false} LuAgreeFrom(a: Matrix, l: Matrix, u: Matrix, l': Matrix, u': Matrix, i: nat, r: nat, q: nat)
    requires IsSquare(a, |a|) && IsSquare(l, |a|) && IsSquare(u, |a|) && IsSquare(l', |a|) && IsSquare(u', |a|)
    requires i <= |a| && LuRowsSolved(a, l, u, i) && LuRowsSolved(a, l', u', i)
    requires r <= i && q <= |a|
    requires forall k :: 0 <= k < r ==> l[k] == l'[k] && u[k] == u'[k]
    requires r < i ==> forall k :: 0 <= k < q ==> l[r][k] == l'[r][k] && u[r][k] == u'[r][k]
    ensures forall k :: 0 <= k < i ==> l[k] == l'[k] && u[k] == u'[k]
    decreases i - r, |a| - q
  {
    if r == i {
    } else if q == |a| {
      assert l[r] == l'[r] && u[r] == u'[r];
      LuAgreeFrom(a, l, u, l', u', i, r + 1, 0);
    } else {
      LuEntryForced(a, l, u, l', u', r, q);
      LuAgreeFrom(a, l, u, l', u', i, r, q + 1);
    }
  }

  /** The factorisation lu_decomp computes is the only one: a unit lower and
      an upper triangular factor with nonzero divisors are determined by a. */
  lemma {:induction false} LuFactorisationUnique(a: Matrix, l: Matrix, u: Matrix, l': Matrix, u': Matrix)
    requires IsLuFactorisation(a, l, u) && IsLuFactorisation(a, l', u')
    ensures l == l' && u == u'
  {
    FactorisationSolvesRows(a, l, u);
    FactorisationSolvesRows(a, l', u');
    LuAgreeFrom(a, l, u, l', u', |a|, 0, 0);
  }

  /** a == l u for some unit lower l and upper u with nonzero divisors. */
  ghost predicate HasLuFactorisation(a: Matrix)
  {
    exists l, u :: IsLuFactorisation(a, l, u)
  }

  /** When lu_decomp meets a zero divisor u[j][j], a has no LU factorisation
      at all: the rows already written are those of any factorisation, whose
      u[j][j] would be zero as well. */
  lemma {:induction false} ZeroDivisorLeavesNoFactorisation(a: Matrix, l: Matrix, u: Matrix, i: nat, j: nat)
    requires IsSquare(a, |a|) && IsSquare(l, |a|) && IsSquare(u, |a|) && i < |a| && j < i
    requires LuProgress(a, l, u, i, j) && u[j][j] == 0.0
    ensures !HasLuFactorisation(a)
  {
    if HasLuFactorisation(a) {
      var l', u' :| IsLuFactorisation(a, l', u');
      FactorisationSolvesRows(a, l', u');
      LuAgreeFrom(a, l, u, l', u', i, 0, 0);
      assert false;
    }
  }

  /** The factors of a, when it has some (they are unique). */
  ghost function LuFactors(a: Matrix): (f: (Matrix, Matrix))
    requires HasLuFactorisation(a)
    ensures IsLuFactorisation(a, f.0, f.1)
  {
    var l, u :| IsLuFactorisation(a, l, u); (l, u)
  }

  lemma {:induction false} LuFactorsAre(a: Matrix, l: Matrix, u: Matrix)
    requires IsLuFactorisation(a, l, u)
    ensures HasLuFactorisation(a) && LuFactors(a) == (l, u)
  {
    LuFactorisationUnique(a, l, u, LuFactors(a).0, LuFactors(a).1);
  }

  /** a has an LU factorisation whose last pivot is nonzero too: the
      condition under which lu_solver and inverse go through. */
  ghost predicate HasInvertibleLu(a: Matrix)
  {
    exists l, u :: IsLuFactorisation(a, l, u) && NonzeroDiagonal(u)
  }

  lemma {:induction false} InvertibleLuIff(a: Matrix, l: Matrix, u: Matrix)
    requires IsLuFactorisation(a, l, u)
    ensures HasInvertibleLu(a) <==> NonzeroDiagonal(u)
  {
    forall l', u' | IsLuFactorisation(a, l', u')
      ensures u' == u
    {
      LuFactorisationUnique(a, l, u, l', u');
    }
  }

  // ---------------------------------------------------------------------
  // Row-normalised split A* = L* + I + R*

  /** L*: the part of a below the diagonal, each row divided by its diagonal entry */
  function LStar(a: Matrix): (l: Matrix)
    requires IsSquare(a, |a|) && NonzeroDiagonal(a)
    ensures IsSquare(l, |a|)
  {
    var n := |a|;
    seq(n, i requires 0 <= i < n => seq(n, j requires 0 <= j < n => if i > j then a[i][j] / a[i][i] else 0.0))
  }

  /** R*: the part of a above the diagonal, each row divided by its diagonal entry */
  function RStar(a: Matrix): (r: Matrix)
    requires IsSquare(a, |a|) && NonzeroDiagonal(a)
    ensures IsSquare(r, |a|)
  {
    var n := |a|;
    seq(n, i requires 0 <= i < n => seq(n, j requires 0 <= j < n => if i < j then a[i][j] / a[i][i] else 0.0))
  }

  /** b*: b with each entry divided by the diagonal entry of its row */
  function BStar(a: Matrix, b: Vector): (bs: Vector)
    requires IsSquare(a, |a|) && NonzeroDiagonal(a) && |b| == |a|
    ensures |bs| == |a|
  {
    seq(|a|, i requires 0 <= i < |a| => b[i] / a[i][i])
  }

  /** lrb_star_decomp */
  method LrbStarDecomp(a: Matrix, b: Vector) returns (lStar: Matrix, rStar: Matrix, bStar: Vector)
    requires IsSquare(a, |a|) && NonzeroDiagonal(a) && |b| == |a|
    ensures lStar == LStar(a) && rStar == RStar(a) && bStar == BStar(a, b)
  {
    var n := |a|;
    lStar := seq(n, _ => Zeros(n));
    rStar := seq(n, _ => Zeros(n));
    bStar := Zeros(n);
    for i := 0 to n
      invariant IsSquare(lStar, n) && IsSquare(rStar, n) && |bStar| == n
      invariant forall r :: 0 <= r < i ==> lStar[r] == LStar(a)[r] && rStar[r] == RStar(a)[r] && bStar[r] == b[r] / a[r][r]
    {
      for j := 0 to n
        invariant IsSquare(lStar, n) && IsSquare(rStar, n) && |bStar| == n
        invariant forall r :: 0 <= r < i ==> lStar[r] == LStar(a)[r] && rStar[r] == RStar(a)[r] && bStar[r] == b[r] / a[r][r]
        invariant forall q :: 0 <= q < j ==> lStar[i][q] == LStar(a)[i][q] && rStar[i][q] == RStar(a)[i][q]
      {
        lStar := lStar[i := lStar[i][j := if i > j then a[i][j] / a[i][i] else 0.0]];
        rStar := rStar[i := rStar[i][j := if i < j then a[i][j] / a[i][i] else 0.0]];
      }
      bStar := bStar[i := b[i] / a[i][i]];
      assert lStar[i] == LStar(a)[i] && rStar[i] == RStar(a)[i];
    }
  }

  /** lr_star_decomp: the same split without the right-hand side. */
  method LrStarDecomp(a: Matrix) returns (lStar: Matrix, rStar: Matrix)
    requires IsSquare(a, |a|) && NonzeroDiagonal(a)
    ensures lStar == LStar(a) && rStar == RStar(a)
  {
    var n := |a|;
    lStar := seq(n, _ => Zeros(n));
    rStar := seq(n, _ => Zeros(n));
    for i := 0 to n
      invariant IsSquare(lStar, n) && IsSquare(rStar, n)
      invariant forall r :: 0 <= r < i ==> lStar[r] == LStar(a)[r] && rStar[r] == RStar(a)[r]
    {
      for j := 0 to n
        invariant IsSquare(lStar, n) && IsSquare(rStar, n)
        invariant forall r :: 0 <= r < i ==> lStar[r] == LStar(a)[r] && rStar[r] == RStar(a)[r]
        invariant forall q :: 0 <= q < j ==> lStar[i][q] == LStar(a)[i][q] && rStar[i][q] == RStar(a)[i][q]
      {
        lStar := lStar[i := lStar[i][j := if i > j then a[i][j] / a[i][i] else 0.0]];
        rStar := rStar[i := rStar[i][j := if i < j then a[i][j] / a[i][i] else 0.0]];
      }
      assert lStar[i] == LStar(a)[i] && rStar[i] == RStar(a)[i];
    }
  }

  /** L* is strictly lower and R* strictly upper triangular, and together with
      the identity they rebuild a divided row by row by its diagonal. */
  lemma {:induction false} StarSplitRebuildsRows(a: Matrix, b: Vector)
    requires IsSquare(a, |a|) && NonzeroDiagonal(a) && |b| == |a|
    ensures forall i, j :: 0 <= i < |a| && 0 <= j < |a| && i <= j ==> LStar(a)[i][j] == 0.0
    ensures forall i, j :: 0 <= i < |a| && 0 <= j < |a| && j <= i ==> RStar(a)[i][j] == 0.0
    ensures forall i, j :: 0 <= i < |a| && 0 <= j < |a| ==>
              (LStar(a)[i][j] + (if i == j then 1.0 else 0.0) + RStar(a)[i][j]) * a[i][i] == a[i][j]
    ensures forall i :: 0 <= i < |a| ==> BStar(a, b)[i] * a[i][i] == b[i]
  {
  }

  lemma {:induction false} StarEntry(a: Matrix, i: nat, k: nat)
    requires IsSquare(a, |a|) && NonzeroDiagonal(a) && i < |a| && k < |a|
    ensures a[i][k] == a[i][i] * ((if k == i then 1.0 else 0.0) + (LStar(a)[i][k] + RStar(a)[i][k]))
  {
    var d := a[i][i];
    if i > k {
      assert LStar(a)[i][k] == a[i][k] / d;
      assert d * (a[i][k] / d) == a[i][k];
    } else if i < k {
      assert RStar(a)[i][k] == a[i][k] / d;
      assert d * (a[i][k] / d) == a[i][k];
    }
  }

  /** A row that is e_i + ls + rs pairs with x to x[i] + ls . x + rs . x. */
  lemma {:induction false} SplitRowDot(star: Vector, ls: Vector, rs: Vector, i: nat, x: Vector)
    requires |star| == |ls| == |rs| == |x| && i < |x|
    requires forall k :: 0 <= k < |x| ==> star[k] == (if k == i then 1.0 else 0.0) + (ls[k] + rs[k])
    ensures Dot(star, x, 0, |x|) == x[i] + Dot(ls, x, 0, |x|) + Dot(rs, x, 0, |x|)
  {
    var n := |x|;
    var e := Unit(n, i);
    var lr := seq(n, k requires 0 <= k < n => ls[k] + rs[k]);
    DotLinear(star, e, lr, 1.0, 1.0, x, 0, n);
    DotLinear(lr, ls, rs, 1.0, 1.0, x, 0, n);
    DotCommutes(e, x, 0, n);
    DotUnit(x, e, i, 0, n);
  }

  /** Row i of a x in terms of the split: a[i] . x == a[i][i] * (x[i] + L*[i] . x + R*[i] . x). */
  lemma {:induction false} StarRow(a: Matrix, x: Vector, i: nat)
    requires IsSquare(a, |a|) && NonzeroDiagonal(a) && |x| == |a| && i < |a|
    ensures Dot(a[i], x, 0, |a|) ==
            a[i][i] * (x[i] + Dot(LStar(a)[i], x, 0, |a|) + Dot(RStar(a)[i], x, 0, |a|))
  {
    var n := |a|;
    var ls, rs := LStar(a)[i], RStar(a)[i];
    var star := seq(n, k requires 0 <= k < n => (if k == i then 1.0 else 0.0) + (ls[k] + rs[k]));
    forall k | 0 <= k < n
      ensures a[i][k] == a[i][i] * star[k]
    {
      StarEntry(a, i, k);
    }
    DotScale(a[i], star, a[i][i], x, 0, n);
    SplitRowDot(star, ls, rs, i, x);
  }

  /** Equation i of a x == b holds exactly when x[i] is its own Jacobi update. */
  lemma {:induction false} StarRowEquivalence(a: Matrix, b: Vector, x: Vector, i: nat)
    requires IsSquare(a, |a|) && NonzeroDiagonal(a) && |b| == |a| && |x| == |a| && i < |a|
    ensures Dot(a[i], x, 0, |a|) == b[i] <==>
            x[i] == BStar(a, b)[i] - Dot(LStar(a)[i], x, 0, |a|) - Dot(RStar(a)[i], x, 0, |a|)
  {
    var n := |a|;
    StarRow(a, x, i);
    var s := x[i] + Dot(LStar(a)[i], x, 0, n) + Dot(RStar(a)[i], x, 0, n);
    StarScaleEquivalence(a[i][i], s, b[i]);
    assert BStar(a, b)[i] == b[i] / a[i][i];
  }

  /** x solves a x == b exactly when it is a fixed point of x -> b* - (L* + R*) x,
      the map the iterative solvers apply. */
  lemma {:induction false} StarSystemEquivalence(a: Matrix, b: Vector, x: Vector)
    requires IsSquare(a, |a|) && NonzeroDiagonal(a) && |b| == |a| && |x| == |a|
    ensures Apply(a, x) == b <==>
            forall i :: 0 <= i < |a| ==>
              x[i] == BStar(a, b)[i] - Dot(LStar(a)[i], x, 0, |a|) - Dot(RStar(a)[i], x, 0, |a|)
  {
    var n := |a|;
    forall i | 0 <= i < n
      ensures Apply(a, x)[i] == b[i] <==>
              x[i] == BStar(a, b)[i] - Dot(LStar(a)[i], x, 0, n) - Dot(RStar(a)[i], x, 0, n)
    {
      StarRowEquivalence(a, b, x, i);
    }
    if forall i :: 0 <= i < n ==> Apply(a, x)[i] == b[i] {
      assert Apply(a, x) == b;
    }
  }

  /** d * s == c exactly when s == c / d, for d nonzero. */
  lemma {:induction false} StarScaleEquivalence(d: real, s: real, c: real)
    requires d != 0.0
    ensures d * s == c <==> s == c / d
  {
  }

  // ---------------------------------------------------------------------
  // Mean

  /** mean: the sum over the length.  An empty vector would divide zero by zero. */
  function Mean(x: Vector): (m: real)
    requires |x| >= 1
    ensures m * (|x| as real) == Sum(x, 0, |x|)
  {
    Sum(x, 0, |x|) / (|x| as real)
  }

  lemma {:induction false} SumAffine(x: Vector, y: Vector, alpha: real, beta: real, hi: nat)
    requires |x| == |y| && hi <= |x|
    requires forall i :: 0 <= i < |x| ==> y[i] == alpha * x[i] + beta
    ensures Sum(y, 0, hi) == alpha * Sum(x, 0, hi) + beta * (hi as real)
  {
    if hi > 0 {
      SumAffine(x, y, alpha, beta, hi - 1);
    }
  }

  /** The mean commutes with an affine map of the data. */
  lemma {:induction false} MeanAffine(x: Vector, y: Vector, alpha: real, beta: real)
    requires |x| == |y| >= 1
    requires forall i :: 0 <= i < |x| ==> y[i] == alpha * x[i] + beta
    ensures Mean(y) == alpha * Mean(x) + beta
  {
    var n := |x| as real;
    var sx := Sum(x, 0, |x|);
    SumAffine(x, y, alpha, beta, |x|);
    var m := sx / n;
    assert sx == m * n;
    assert alpha * sx + beta * n == (alpha * m + beta) * n;
  }

  lemma {:induction false} SumBounds(x: Vector, lo: real, hi': real, hi: nat)
    requires hi <= |x|
    requires forall i :: 0 <= i < |x| ==> lo <= x[i] <= hi'
    ensures lo * (hi as real) <= Sum(x, 0, hi) <= hi' * (hi as real)
  {
    if hi > 0 {
      SumBounds(x, lo, hi', hi - 1);
    }
  }

  /** The mean lies between the smallest and the largest entry. */
  lemma {:induction false} MeanBetweenExtremes(x: Vector, lo: real, hi: real)
    requires |x| >= 1
    requires forall i :: 0 <= i < |x| ==> lo <= x[i] <= hi
    ensures lo <= Mean(x) <= hi
  {
    var n := |x| as real;
    SumBounds(x, lo, hi, |x|);
    var sx := Sum(x, 0, |x|);
    var inv := 1.0 / n;
    assert (sx - lo * n) * inv >= 0.0;
    assert (hi * n - sx) * inv >= 0.0;
    assert Mean(x) == sx * inv;
    assert n * inv == 1.0;
  }
}
