/** src/linear_systems/exact_methods.rs: triangular substitution, the LU
    solver, the three Gaussian eliminations, the solver that chooses between
    them, the inverse and the condition number.

    The eliminations clone their arguments into buffers and rewrite them in
    place; the model copies into fresh arrays and proves each loop against the
    specification functions of module Elimination. */
module LinearSystemsExactMethods {
  import opened Sums
  import opened Matrices
  import opened Wrappers
  import opened LinearAlgebraHelpers
  import opened Elimination

  lemma {:induction false} DivisionSolves(c: real, d: real)
    requires d != 0.0
    ensures d * (c / d) == c
  {
  }

  lemma {:induction false} Cancel(d: real, u: real, v: real)
    requires d != 0.0 && d * u == d * v
    ensures u == v
  {
    assert d * (u - v) == 0.0;
  }

  // ---------------------------------------------------------------------
  // Forward substitution

  /** Equation i of a lower triangular system: the entries left of the diagonal
      and the diagonal entry, the only ones solve_inf reads. */
  predicate ForwardRow(a: Matrix, b: Vector, x: Vector, i: nat)
    requires i < |a| && i < |a[i]| && |x| == |a[i]| && i < |b|
  {
    Dot(a[i], x, 0, i) + a[i][i] * x[i] == b[i]
  }

  /** Changing x at or right of index i leaves the equations 0 .. i-1 and the
      partial sum of row i alone. */
  lemma {:induction false} ForwardFrame(a: Matrix, b: Vector, x: Vector, x': Vector, i: nat)
    requires |b| == |a| && IsSquare(a, |a|) && i < |a| && |x| == |a| && |x'| == |a|
    requires forall r :: 0 <= r < i ==> x[r] == x'[r]
    requires forall r :: 0 <= r < i ==> ForwardRow(a, b, x, r)
    ensures forall r :: 0 <= r < i ==> ForwardRow(a, b, x', r)
    ensures Dot(a[i], x, 0, i) == Dot(a[i], x', 0, i)
  {
    forall r | 0 <= r < i
      ensures ForwardRow(a, b, x', r)
    {
      assert ForwardRow(a, b, x, r);
      DotFrame(a[r], x, a[r], x', 0, r);
    }
    DotFrame(a[i], x, a[i], x', 0, i);
  }

  /** For a lower triangular a, row i of a x is what ForwardRow adds up. */
  lemma {:induction false} LowerRowDot(a: Matrix, x: Vector, i: nat)
    requires IsSquare(a, |a|) && IsLower(a) && i < |a| && |x| == |a|
    ensures Dot(a[i], x, 0, |a|) == Dot(a[i], x, 0, i) + a[i][i] * x[i]
  {
    DotSplit(a[i], x, 0, i + 1, |a|);
    DotZero(a[i], x, i + 1, |a|);
  }

  /** solve_inf: x[0] = b[0] / a[0][0], then x[i] = (b[i] - sum of a[i][j] x[j]
      over j < i) / a[i][i].  Every equation holds on the entries the routine
      reads, so a x = b when a is lower triangular. */
  method SolveInf(a: Matrix, b: Vector) returns (x: Vector)
    requires |b| >= 1 && IsSquare(a, |b|) && NonzeroDiagonal(a)
    ensures |x| == |b|
    ensures forall i :: 0 <= i < |b| ==> ForwardRow(a, b, x, i)
    ensures IsLower(a) ==> Apply(a, x) == b
  {
    var n := |b|;
    x := Zeros(n);
    DivisionSolves(b[0], a[0][0]);
    x := x[0 := b[0] / a[0][0]];
    for i := 1 to n
      invariant |x| == n
      invariant forall r :: 0 <= r < i ==> ForwardRow(a, b, x, r)
    {
      var sum := 0.0;
      for j := 0 to i
        invariant sum == Dot(a[i], x, 0, j)
      {
        sum := sum + a[i][j] * x[j];
      }
      ghost var x0 := x;
      DivisionSolves(b[i] - sum, a[i][i]);
      x := x[i := (b[i] - sum) / a[i][i]];
      ForwardFrame(a, b, x0, x, i);
    }
    if IsLower(a) {
      forall i | 0 <= i < n
        ensures Apply(a, x)[i] == b[i]
      {
        assert ForwardRow(a, b, x, i);
        LowerRowDot(a, x, i);
      }
    }
  }

  /** Forward substitution has only one outcome: two vectors satisfying every
      ForwardRow equation are equal. */
  lemma {:induction false} ForwardUnique(a: Matrix, b: Vector, x: Vector, y: Vector, i: nat)
    requires |b| == |a| && IsSquare(a, |a|) && NonzeroDiagonal(a) && |x| == |a| && |y| == |a| && i <= |a|
    requires forall r :: 0 <= r < |a| ==> ForwardRow(a, b, x, r) && ForwardRow(a, b, y, r)
    ensures forall r :: 0 <= r < i ==> x[r] == y[r]
  {
    if i > 0 {
      ForwardUnique(a, b, x, y, i - 1);
      var r := i - 1;
      DotFrame(a[r], x, a[r], y, 0, r);
      assert ForwardRow(a, b, x, r) && ForwardRow(a, b, y, r);
      Cancel(a[r][r], x[r], y[r]);
    }
  }

  /** A lower triangular system with nonzero diagonal has at most one solution. */
  lemma {:induction false} LowerSystemUnique(a: Matrix, b: Vector, x: Vector, y: Vector)
    requires |b| == |a| && IsSquare(a, |a|) && IsLower(a) && NonzeroDiagonal(a) && |x| == |a| && |y| == |a|
    requires Apply(a, x) == b && Apply(a, y) == b
    ensures x == y
  {
    forall r | 0 <= r < |a|
      ensures ForwardRow(a, b, x, r) && ForwardRow(a, b, y, r)
    {
      LowerRowDot(a, x, r);
      LowerRowDot(a, y, r);
      assert Apply(a, x)[r] == b[r] && Apply(a, y)[r] == b[r];
    }
    ForwardUnique(a, b, x, y, |a|);
  }

  // ---------------------------------------------------------------------
  // Back substitution

  /** Equation i of an upper triangular system: the diagonal entry and the
      entries right of it, the only ones solve_sup reads. */
  predicate BackRow(a: Matrix, b: Vector, x: Vector, i: nat)
    requires i < |a| && i < |a[i]| && |x| == |a[i]| && i < |b|
  {
    a[i][i] * x[i] + Dot(a[i], x, i + 1, |x|) == b[i]
  }

  /** Changing x at or left of index i leaves the equations i+1 .. n-1 and the
      partial sum of row i alone. */
  lemma {:induction false} BackFrame(a: Matrix, b: Vector, x: Vector, x': Vector, i: nat)
    requires |b| == |a| && IsSquare(a, |a|) && i < |a| && |x| == |a| && |x'| == |a|
    requires forall r :: i < r < |a| ==> x[r] == x'[r]
    requires forall r :: i < r < |a| ==> BackRow(a, b, x, r)
    ensures forall r :: i < r < |a| ==> BackRow(a, b, x', r)
    ensures Dot(a[i], x, i + 1, |a|) == Dot(a[i], x', i + 1, |a|)
  {
    forall r | i < r < |a|
      ensures BackRow(a, b, x', r)
    {
      assert BackRow(a, b, x, r);
      DotFrame(a[r], x, a[r], x', r + 1, |a|);
    }
    DotFrame(a[i], x, a[i], x', i + 1, |a|);
  }

  /** For an upper triangular a, row i of a x is what BackRow adds up. */
  lemma {:induction false} UpperRowDot(a: Matrix, x: Vector, i: nat)
    requires IsSquare(a, |a|) && IsUpper(a) && i < |a| && |x| == |a|
    ensures Dot(a[i], x, 0, |a|) == a[i][i] * x[i] + Dot(a[i], x, i + 1, |a|)
  {
    DotSplit(a[i], x, 0, i, |a|);
    DotZero(a[i], x, 0, i);
    DotSplit(a[i], x, i, i + 1, |a|);
  }

  /** solve_sup: x[n-1] = b[n-1] / a[n-1][n-1], then for i = n-2 down to 0
      x[i] = (b[i] - sum of a[i][j] x[j] over j > i) / a[i][i].  Every equation
      holds on the entries the routine reads, so a x = b when a is upper
      triangular. */
  method SolveSup(a: Matrix, b: Vector) returns (x: Vector)
    requires |b| >= 1 && IsSquare(a, |b|) && NonzeroDiagonal(a)
    ensures |x| == |b|
    ensures forall i :: 0 <= i < |b| ==> BackRow(a, b, x, i)
    ensures IsUpper(a) ==> Apply(a, x) == b
  {
    var n := |b|;
    x := Zeros(n);
    DivisionSolves(b[n - 1], a[n - 1][n - 1]);
    x := x[n - 1 := b[n - 1] / a[n - 1][n - 1]];
    for i := n - 1 downto 0
      invariant |x| == n
      invariant forall r :: i <= r < n ==> BackRow(a, b, x, r)
    {
      var sum := 0.0;
      for j := i + 1 to n
        invariant sum == Dot(a[i], x, i + 1, j)
      {
        sum := sum + a[i][j] * x[j];
      }
      ghost var x0 := x;
      DivisionSolves(b[i] - sum, a[i][i]);
      x := x[i := (b[i] - sum) / a[i][i]];
      BackFrame(a, b, x0, x, i);
    }
    if IsUpper(a) {
      forall i | 0 <= i < n
        ensures Apply(a, x)[i] == b[i]
      {
        assert BackRow(a, b, x, i);
        UpperRowDot(a, x, i);
      }
    }
  }

  lemma {:induction false} BackUnique(a: Matrix, b: Vector, x: Vector, y: Vector, i: nat)
    requires |b| == |a| && IsSquare(a, |a|) && NonzeroDiagonal(a) && |x| == |a| && |y| == |a| && i <= |a|
    requires forall r :: 0 <= r < |a| ==> BackRow(a, b, x, r) && BackRow(a, b, y, r)
    ensures forall r :: i <= r < |a| ==> x[r] == y[r]
    decreases |a| - i
  {
    if i < |a| {
      BackUnique(a, b, x, y, i + 1);
      DotFrame(a[i], x, a[i], y, i + 1, |a|);
      assert BackRow(a, b, x, i) && BackRow(a, b, y, i);
      assert Dot(a[i], x, i + 1, |x|) == Dot(a[i], y, i + 1, |y|);
      assert a[i][i] * x[i] == a[i][i] * y[i];
      Cancel(a[i][i], x[i], y[i]);
    }
  }

  /** An upper triangular system with nonzero diagonal has at most one solution. */
  lemma {:induction false} UpperSystemUnique(a: Matrix, b: Vector, x: Vector, y: Vector)
    requires |b| == |a| && IsSquare(a, |a|) && IsUpper(a) && NonzeroDiagonal(a) && |x| == |a| && |y| == |a|
    requires Apply(a, x) == b && Apply(a, y) == b
    ensures x == y
  {
    forall r | 0 <= r < |a|
      ensures BackRow(a, b, x, r) && BackRow(a, b, y, r)
    {
      UpperRowDot(a, x, r);
      UpperRowDot(a, y, r);
      assert Apply(a, x)[r] == b[r] && Apply(a, y)[r] == b[r];
    }
    BackUnique(a, b, x, y, 0);
  }

  // ---------------------------------------------------------------------
  // LU solver

  /** lu_solver_refine: solve l y = b forward, then u x = y backward.  A zero
      diagonal entry of l or u is a division by zero. */
  method LuSolverRefine(l: Matrix, u: Matrix, b: Vector) returns (x: Option<Vector>)
    requires |b| >= 1 && IsSquare(l, |b|) && IsSquare(u, |b|)
    ensures x.Some? <==> NonzeroDiagonal(l) && NonzeroDiagonal(u)
    ensures x.Some? ==> |x.value| == |b|
    ensures x.Some? && IsLower(l) && IsUpper(u) ==> Apply(Mul(l, u), x.value) == b
  {
    if !NonzeroDiagonal(l) || !NonzeroDiagonal(u) {
      return None;
    }
    var y := SolveInf(l, b);
    var z := SolveSup(u, y);
    if IsLower(l) && IsUpper(u) {
      MulApply(l, u, z);
    }
    return Some(z);
  }

  /** lu_solver: factorise, then substitute.  It goes through exactly when a
      has an LU factorisation with nonzero pivots, and then solves a x = b. */
  method LuSolver(a: Matrix, b: Vector) returns (x: Option<Vector>)
    requires |b| >= 1 && IsSquare(a, |b|)
    ensures x.Some? ==> |x.value| == |b| && Apply(a, x.value) == b
    ensures x.Some? <==> HasInvertibleLu(a)
  {
    var lu := LuDecomp(a);
    if lu.None? {
      return None;
    }
    InvertibleLuIff(a, lu.value.0, lu.value.1);
    x := LuSolverRefine(lu.value.0, lu.value.1, b);
  }

  /** With an LU factorisation whose last pivot is also nonzero, a x = b has at
      most one solution, so lu_solver's answer is the only one. */
  lemma {:induction false} LuSolutionUnique(a: Matrix, l: Matrix, u: Matrix, b: Vector, x: Vector, y: Vector)
    requires IsLuFactorisation(a, l, u) && |a| >= 1 && u[|a| - 1][|a| - 1] != 0.0
    requires |b| == |a| && |x| == |a| && |y| == |a|
    requires Apply(a, x) == b && Apply(a, y) == b
    ensures x == y
  {
    MulApply(l, u, x);
    MulApply(l, u, y);
    assert NonzeroDiagonal(l);
    LowerSystemUnique(l, b, Apply(u, x), Apply(u, y));
    UpperSystemUnique(u, Apply(u, x), x, y);
  }

  // ---------------------------------------------------------------------
  // Gaussian elimination on buffers

  /** Row i of the buffer rewritten from column k on, against pivot row k. */
  method RewriteRow(rule: RowRule, a: array<seq<real>>, i: nat, k: nat, p: real)
    requires k < i < a.Length && |a[i]| == |a[k]| && k < |a[i]|
    modifies a
    ensures a[..] == old(a[..])[i := EliminateRow(rule, old(a[k]), old(a[i]), i, k, p)]
  {
    var n := |a[i]|;
    ghost var a0 := a[..];
    for j := k to n
      invariant |a[i]| == n
      invariant forall q :: 0 <= q < a.Length && q != i ==> a[q] == a0[q]
      invariant forall q :: 0 <= q < n ==>
                  a[i][q] == if q < k || q >= j then a0[i][q] else UpdatedEntry(rule, a0[k], a0[i], i, k, q, p)
    {
      a[i] := a[i][j := UpdatedEntry(rule, a[k], a[i], i, k, j, p)];
    }
    assert a[i] == EliminateRow(rule, a0[k], a0[i], i, k, p);
  }

  /** One pass of the i loop: the multiplier p, then b[i] and row i. */
  method EliminateOneRow(rule: RowRule, a: array<seq<real>>, b: array<real>, k: nat, i: nat)
    requires WellFormed(System(a[..], b[..])) && k < i < a.Length && a[k][k] != 0.0
    modifies a, b
    ensures System(a[..], b[..]) == RowStep(rule, System(old(a[..]), old(b[..])), k, i)
  {
    ghost var s := System(a[..], b[..]);
    var p := a[i][k] / a[k][k];
    assert p == Multiplier(s, k, i);
    b[i] := b[i] - b[k] * p;
    assert b[i] == ReducedRhs(s, k, i);
    assert b[..] == s.b[i := ReducedRhs(s, k, i)];
    RewriteRow(rule, a, i, k, p);
    assert System(a[..], b[..]) == RowStep(rule, s, k, i);
  }

  /** The rows below pivot k of the buffers, rewritten by `rule`. */
  method EliminateBelowPivot(rule: RowRule, a: array<seq<real>>, b: array<real>, k: nat)
    requires WellFormed(System(a[..], b[..])) && k < a.Length && a[k][k] != 0.0
    modifies a, b
    ensures WellFormed(System(a[..], b[..]))
    ensures System(a[..], b[..]) == EliminateRows(rule, System(old(a[..]), old(b[..])), k, k + 1)
  {
    var n := b.Length;
    ghost var goal := EliminateRows(rule, System(a[..], b[..]), k, k + 1);
    for i := k + 1 to n
      invariant WellFormed(System(a[..], b[..])) && a[k][k] != 0.0
      invariant EliminateRows(rule, System(a[..], b[..]), k, i) == goal
    {
      ghost var s := System(a[..], b[..]);
      EliminateRowsStep(rule, s, k, i);
      EliminateOneRow(rule, a, b, k, i);
      assert a[..][k] == RowStep(rule, s, k, i).a[k] == s.a[k];
    }
  }

  /** Steps 0 .. n-2 on the buffers; false where a pivot a[k][k] is zero. */
  method EliminateInPlace(rule: RowRule, a: array<seq<real>>, b: array<real>) returns (ok: bool)
    requires WellFormed(System(a[..], b[..])) && a.Length >= 1
    modifies a, b
    ensures ok <==> Eliminate(rule, System(old(a[..]), old(b[..])), 0).Some?
    ensures ok ==> System(a[..], b[..]) == Eliminate(rule, System(old(a[..]), old(b[..])), 0).value
    ensures a[0] == old(a[0]) && b[0] == old(b[0])
  {
    var n := a.Length;
    ghost var s0 := System(a[..], b[..]);
    for k := 0 to n - 1
      invariant WellFormed(System(a[..], b[..]))
      invariant Eliminate(rule, System(a[..], b[..]), k) == Eliminate(rule, s0, 0)
      invariant a[0] == s0.a[0] && b[0] == s0.b[0]
    {
      if a[k][k] == 0.0 {
        return false;
      }
      EliminateBelowPivot(rule, a, b, k);
    }
    return true;
  }

  /** gaussian_elimination: the arguments are values and stay as they are; the
      result is the eliminated pair (a_, b_), upper triangular with nonzero
      pivots, and it has exactly the solutions of a x = b. */
  method GaussianElimination(a: Matrix, b: Vector) returns (r: Option<System>)
    requires |b| >= 1 && IsSquare(a, |b|)
    ensures r == Eliminate(Subtract, System(a, b), 0)
    ensures r.Some? ==> IsUpper(r.value.a) && forall q :: 0 <= q < |b| - 1 ==> r.value.a[q][q] != 0.0
    ensures r.Some? ==> forall x :: |x| == |b| ==> (Solves(r.value, x) <==> Solves(System(a, b), x))
  {
    var n := |b|;
    var a_ := new seq<real>[n](i requires 0 <= i < n => a[i]);
    var b_ := new real[n](i requires 0 <= i < n => b[i]);
    assert a_[..] == a && b_[..] == b;
    var ok := EliminateInPlace(Subtract, a_, b_);
    if !ok {
      return None;
    }
    r := Some(System(a_[..], b_[..]));
    EliminateUpper(System(a, b), 0);
    EliminatePivotsNonzero(Subtract, System(a, b), 0);
    forall x | |x| == n
      ensures Solves(r.value, x) <==> Solves(System(a, b), x)
    {
      EliminateEquivalent(System(a, b), 0, x);
    }
  }

  /** One pass of partial_pivot_gaussian_elimination's k loop: the row swap
      of choose_best_pivot, then, unless the new pivot is zero, the
      elimination below it. */
  method PivotThenEliminate(a: array<seq<real>>, b: array<real>, k: nat) returns (ok: bool)
    requires WellFormed(System(a[..], b[..])) && k < a.Length
    modifies a, b
    ensures WellFormed(System(a[..], b[..]))
    ensures ok <==> Pivoted(System(old(a[..]), old(b[..])), k).a[k][k] != 0.0
    ensures ok ==> System(a[..], b[..]) == EliminateRows(Subtract, Pivoted(System(old(a[..]), old(b[..])), k), k, k + 1)
  {
    ghost var s := System(a[..], b[..]);
    forall r | k <= r < b.Length
      ensures k < |a[r]|
    {
      assert a[r] == s.a[r];
    }
    ChooseBestPivot(a, b, k);
    assert System(a[..], b[..]) == Pivoted(s, k);
    if a[k][k] == 0.0 {
      return false;
    }
    EliminateBelowPivot(Subtract, a, b, k);
    return true;
  }

  /** partial_pivot_gaussian_elimination: before step k choose_best_pivot
      brings the largest |a_[r][k]| of rows k .. n-1 to row k. */
  method PartialPivotGaussianElimination(a: Matrix, b: Vector) returns (r: Option<System>)
    requires |b| >= 1 && IsSquare(a, |b|)
    ensures r == PivotEliminate(System(a, b), 0)
    ensures r.Some? ==> IsUpper(r.value.a) && forall q :: 0 <= q < |b| - 1 ==> r.value.a[q][q] != 0.0
    ensures r.Some? ==> forall x :: |x| == |b| ==> (Solves(r.value, x) <==> Solves(System(a, b), x))
  {
    var n := |b|;
    var a_ := new seq<real>[n](i requires 0 <= i < n => a[i]);
    var b_ := new real[n](i requires 0 <= i < n => b[i]);
    assert a_[..] == a && b_[..] == b;
    for k := 0 to n - 1
      invariant WellFormed(System(a_[..], b_[..]))
      invariant PivotEliminate(System(a_[..], b_[..]), k) == PivotEliminate(System(a, b), 0)
    {
      ghost var s := System(a_[..], b_[..]);
      PivotEliminateStep(s, k);
      var ok := PivotThenEliminate(a_, b_, k);
      if !ok {
        return None;
      }
    }
    r := Some(System(a_[..], b_[..]));
    PivotEliminateUpper(System(a, b), 0);
    PivotEliminatePivots(System(a, b), 0);
    forall x | |x| == n
      ensures Solves(r.value, x) <==> Solves(System(a, b), x)
    {
      PivotEliminateEquivalent(System(a, b), 0, x);
    }
  }

  /** gaussian_compact as written: the multiplier p overwrites every a[i][j]
      with k <= j < i, not only a[i][k]. */
  method GaussianCompactAsWritten(a: array<seq<real>>, b: array<real>) returns (ok: bool)
    requires WellFormed(System(a[..], b[..])) && a.Length >= 1
    modifies a, b
    ensures ok <==> Eliminate(StoreMultiplierAsWritten, System(old(a[..]), old(b[..])), 0).Some?
    ensures ok ==> System(a[..], b[..]) == Eliminate(StoreMultiplierAsWritten, System(old(a[..]), old(b[..])), 0).value
    ensures a[0] == old(a[0]) && b[0] == old(b[0])
  {
    ok := EliminateInPlace(StoreMultiplierAsWritten, a, b);
  }

  /** gaussian_compact with the multiplier stored at a[i][k] alone: the upper
      triangle and b end as gaussian_elimination leaves them, the strict lower
      triangle holds the multipliers. */
  method GaussianCompact(a: array<seq<real>>, b: array<real>) returns (ok: bool)
    requires WellFormed(System(a[..], b[..])) && a.Length >= 1
    modifies a, b
    ensures ok <==> Eliminate(StoreMultiplier, System(old(a[..]), old(b[..])), 0).Some?
    ensures ok ==> System(a[..], b[..]) == Eliminate(StoreMultiplier, System(old(a[..]), old(b[..])), 0).value
    ensures a[0] == old(a[0]) && b[0] == old(b[0])
    ensures ok <==> Eliminate(Subtract, System(old(a[..]), old(b[..])), 0).Some?
    ensures ok ==> var plain := Eliminate(Subtract, System(old(a[..]), old(b[..])), 0).value;
                   b[..] == plain.b && forall i, j :: 0 <= i <= j < a.Length ==> a[i][j] == plain.a[i][j]
  {
    CompactOfSameSystem(System(a[..], b[..]));
    ok := EliminateInPlace(StoreMultiplier, a, b);
  }

  // ---------------------------------------------------------------------
  // gaussian_solver

  /** Back substitution on an eliminated system; the only pivot the
      eliminations do not check is the last one. */
  method BackSubstitute(s: Option<System>) returns (x: Option<Vector>)
    requires s.Some? ==> WellFormed(s.value) && |s.value.a| >= 1 && IsUpper(s.value.a)
    requires s.Some? ==> forall q :: 0 <= q < |s.value.a| - 1 ==> s.value.a[q][q] != 0.0
    ensures x.Some? <==> s.Some? && s.value.a[|s.value.a| - 1][|s.value.a| - 1] != 0.0
    ensures x.Some? ==> Solves(s.value, x.value)
  {
    if s.None? {
      return None;
    }
    var n := |s.value.a|;
    if s.value.a[n - 1][n - 1] == 0.0 {
      return None;
    }
    var y := SolveSup(s.value.a, s.value.b);
    return Some(y);
  }

  /** The last pivot of an elimination result, when there is one. */
  predicate LastPivotNonzero(r: Option<System>)
    requires r.Some? ==> WellFormed(r.value) && |r.value.a| >= 1
  {
    r.Some? && r.value.a[|r.value.a| - 1][|r.value.a| - 1] != 0.0
  }

  /** gaussian_solver as written: partial_pivot = true runs the elimination
      without pivoting and false the one with pivoting. */
  method GaussianSolverAsWritten(a: Matrix, b: Vector, partialPivot: bool) returns (x: Option<Vector>)
    requires |b| >= 1 && IsSquare(a, |b|)
    ensures partialPivot ==> (x.Some? <==> LastPivotNonzero(Eliminate(Subtract, System(a, b), 0)))
    ensures !partialPivot ==> (x.Some? <==> LastPivotNonzero(PivotEliminate(System(a, b), 0)))
    ensures x.Some? ==> |x.value| == |b| && Apply(a, x.value) == b
  {
    var r;
    if partialPivot {
      r := GaussianElimination(a, b);
    } else {
      r := PartialPivotGaussianElimination(a, b);
    }
    x := BackSubstitute(r);
  }

  /** gaussian_solver with the flag read as its name says. */
  method GaussianSolver(a: Matrix, b: Vector, partialPivot: bool) returns (x: Option<Vector>)
    requires |b| >= 1 && IsSquare(a, |b|)
    ensures partialPivot ==> (x.Some? <==> LastPivotNonzero(PivotEliminate(System(a, b), 0)))
    ensures !partialPivot ==> (x.Some? <==> LastPivotNonzero(Eliminate(Subtract, System(a, b), 0)))
    ensures x.Some? ==> |x.value| == |b| && Apply(a, x.value) == b
  {
    var r;
    if partialPivot {
      r := PartialPivotGaussianElimination(a, b);
    } else {
      r := GaussianElimination(a, b);
    }
    x := BackSubstitute(r);
  }

  /** The system on which the inverted flag matters: a zero in the corner. */
  function SwappedIdentitySystem(): (s: System)
    ensures WellFormed(s) && |s.a| == 2
  {
    System([[0.0, 1.0], [1.0, 0.0]], [1.0, 1.0])
  }

  /** Asked for pivoting, gaussian_solver as written eliminates without it and
      meets the zero pivot; with pivoting the system is solved. */
  lemma {:induction false} InvertedFlagCounterexample()
    ensures Eliminate(Subtract, SwappedIdentitySystem(), 0).None?
    ensures LastPivotNonzero(PivotEliminate(SwappedIdentitySystem(), 0))
  {
    var s := SwappedIdentitySystem();
    var t := Pivoted(s, 0);
    assert PivotRow(s.a, 0, 1) == 0;
    assert PivotRow(s.a, 0, 2) == 1;
    assert t.a == [[1.0, 0.0], [0.0, 1.0]];
    var row := EliminateRow(Subtract, t.a[0], t.a[1], 1, 0, 0.0);
    assert row[0] == 0.0 && row[1] == 1.0;
    var t1 := EliminateRows(Subtract, t, 0, 1);
    assert t1 == RowStep(Subtract, t, 0, 1);
    assert t1.a[1][1] == 1.0;
    assert PivotEliminate(s, 0) == PivotEliminate(t1, 1) == Some(t1);
  }

  // ---------------------------------------------------------------------
  // Inverse and condition number

  /** When the columns of inv solve a col = e_j, a inv is the identity. */
  lemma {:induction false} ColumnsSolveUnits(a: Matrix, inverseT: Matrix, inv: Matrix)
    requires |a| >= 1 && IsSquare(a, |a|) && IsSquare(inverseT, |a|) && IsSquare(inv, |a|)
    requires forall i, j :: 0 <= i < |a| && 0 <= j < |a| ==> inv[i][j] == inverseT[j][i]
    requires forall j :: 0 <= j < |a| ==> Apply(a, inverseT[j]) == Unit(|a|, j)
    ensures Mul(a, inv) == Identity(|a|)
  {
    var n := |a|;
    forall i, j | 0 <= i < n && 0 <= j < n
      ensures Mul(a, inv)[i][j] == Identity(n)[i][j]
    {
      assert Column(inv, j) == inverseT[j];
      assert Apply(a, inverseT[j])[i] == Unit(n, j)[i];
    }
    assert forall i :: 0 <= i < n ==> Mul(a, inv)[i] == Identity(n)[i];
  }

  /** inverse: column i of the inverse solves a col = e_i through the LU factors;
      the columns are collected as rows of inverse_t and transposed.  The
      result is a right inverse: a inv = I.  It goes through exactly when a
      has an LU factorisation with nonzero pivots. */
  method Inverse(a: Matrix) returns (r: Option<Matrix>)
    requires |a| >= 1 && IsSquare(a, |a|)
    ensures r.Some? ==> IsSquare(r.value, |a|) && Mul(a, r.value) == Identity(|a|)
    ensures r.Some? <==> HasInvertibleLu(a)
  {
    var n := |a|;
    var lu := LuDecomp(a);
    if lu.None? {
      return None;
    }
    var l, u := lu.value.0, lu.value.1;
    InvertibleLuIff(a, l, u);
    var inverseT: Matrix := [];
    for i := 0 to n
      invariant |inverseT| == i
      invariant forall q :: 0 <= q < i ==> |inverseT[q]| == n && Apply(a, inverseT[q]) == Unit(n, q)
      invariant i > 0 ==> NonzeroDiagonal(u)
    {
      var e := Zeros(n);
      for j := 0 to n
        invariant |e| == n
        invariant forall q :: 0 <= q < n ==> e[q] == if q < j && i == q then 1.0 else 0.0
      {
        e := e[j := if i == j then 1.0 else 0.0];
      }
      assert e == Unit(n, i);
      var col := LuSolverRefine(l, u, e);
      if col.None? {
        return None;
      }
      inverseT := inverseT + [col.value];
    }
    var inv := Transpose(inverseT);
    ColumnsSolveUnits(a, inverseT, inv);
    return Some(inv);
  }

  /** cond: the infinity norm of a times that of its inverse, defined when
      inverse goes through. */
  method Cond(a: Matrix) returns (c: Option<real>)
    requires |a| >= 1 && IsSquare(a, |a|)
    ensures c.Some? <==> HasInvertibleLu(a)
    ensures c.Some? ==> c.value >= 0.0
    ensures c.Some? ==> exists inv :: IsSquare(inv, |a|) && Mul(a, inv) == Identity(|a|) &&
                                       c.value == NormInf(a) * NormInf(inv)
  {
    var inv := Inverse(a);
    if inv.None? {
      return None;
    }
    var na := InfinityNorm(a);
    var ni := InfinityNorm(inv.value);
    NormInfNonNegative(a);
    NormInfNonNegative(inv.value);
    assert na * ni >= 0.0;
    assert IsSquare(inv.value, |a|) && Mul(a, inv.value) == Identity(|a|) && na * ni == NormInf(a) * NormInf(inv.value);
    return Some(na * ni);
  }
}
