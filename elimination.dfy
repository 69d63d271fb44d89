/** Gaussian elimination as a function on the pair (a, b) of a linear system:
    the specification that the loops of gaussian_elimination,
    partial_pivot_gaussian_elimination and gaussian_compact in
    src/linear_systems/exact_methods.rs are proved against.

    Step k visits the rows i = k+1 .. n-1, computes the multiplier
    p = a[i][k] / a[k][k], subtracts p * b[k] from b[i] and rewrites the
    entries j = k .. n-1 of row i.  The three routines differ only in how they
    rewrite those entries, which the RowRule says. */
module Elimination {
  import opened Sums
  import opened Matrices
  import opened Wrappers
  import opened LinearAlgebraHelpers

  /** A square system a x = b of order n = |b|. */
  datatype System = System(a: Matrix, b: Vector)

  predicate WellFormed(s: System)
  {
    |s.b| == |s.a| && IsSquare(s.a, |s.a|)
  }

  /** x solves the system. */
  predicate Solves(s: System, x: Vector)
    requires WellFormed(s)
  {
    |x| == |s.a| && Apply(s.a, x) == s.b
  }

  /** How a step rewrites entry j >= k of row i, given the multiplier p. */
  datatype RowRule =
    | Subtract                  // a[i][j] - a[k][j] * p, the plain and the pivoting elimination
    | StoreMultiplierAsWritten  // p wherever i > j, a[i][j] - a[k][j] * p elsewhere (gaussian_compact)
    | StoreMultiplier           // p at j == k only: the compact storage of the multipliers

  function UpdatedEntry(rule: RowRule, pivotRow: Vector, row: Vector, i: nat, k: nat, j: nat, p: real): real
    requires j < |row| && j < |pivotRow|
  {
    match rule
    case Subtract => row[j] - pivotRow[j] * p
    case StoreMultiplierAsWritten => if i > j then p else row[j] - pivotRow[j] * p
    case StoreMultiplier => if j == k then p else row[j] - pivotRow[j] * p
  }

  /** Row i after step k: entries left of k are kept, the others rewritten. */
  function EliminateRow(rule: RowRule, pivotRow: Vector, row: Vector, i: nat, k: nat, p: real): (r: Vector)
    requires |row| == |pivotRow|
    ensures |r| == |row|
    ensures forall j :: 0 <= j < |row| && j < k ==> r[j] == row[j]
    ensures forall j :: k <= j < |row| ==> r[j] == UpdatedEntry(rule, pivotRow, row, i, k, j, p)
  {
    seq(|row|, j requires 0 <= j < |row| => if j < k then row[j] else UpdatedEntry(rule, pivotRow, row, i, k, j, p))
  }

  /** p = a[i][k] / a[k][k] */
  function Multiplier(s: System, k: nat, i: nat): real
    requires WellFormed(s) && k < |s.a| && i < |s.a| && s.a[k][k] != 0.0
  {
    s.a[i][k] / s.a[k][k]
  }

  /** b[i] - b[k] * p */
  function ReducedRhs(s: System, k: nat, i: nat): real
    requires WellFormed(s) && k < |s.a| && i < |s.a| && s.a[k][k] != 0.0
  {
    s.b[i] - s.b[k] * Multiplier(s, k, i)
  }

  /** The system after row i alone has been processed at step k. */
  function RowStep(rule: RowRule, s: System, k: nat, i: nat): (r: System)
    requires WellFormed(s) && k < i < |s.a| && s.a[k][k] != 0.0
    ensures WellFormed(r) && |r.a| == |s.a|
  {
    System(s.a[i := EliminateRow(rule, s.a[k], s.a[i], i, k, Multiplier(s, k, i))],
           s.b[i := ReducedRhs(s, k, i)])
  }

  /** Step k applied to the rows i .. n-1; rows above i are left alone. */
  function EliminateRows(rule: RowRule, s: System, k: nat, i: nat): (r: System)
    requires WellFormed(s) && k < i <= |s.a| && s.a[k][k] != 0.0
    ensures WellFormed(r) && |r.a| == |s.a|
    ensures forall q :: 0 <= q < i ==> r.a[q] == s.a[q] && r.b[q] == s.b[q]
    decreases |s.a| - i
  {
    if i == |s.a| then s
    else EliminateRows(rule, RowStep(rule, s, k, i), k, i + 1)
  }

  lemma {:induction false} EliminateRowsStep(rule: RowRule, s: System, k: nat, i: nat)
    requires WellFormed(s) && k < i < |s.a| && s.a[k][k] != 0.0
    ensures EliminateRows(rule, s, k, i) == EliminateRows(rule, RowStep(rule, s, k, i), k, i + 1)
  {
  }

  /** Steps k .. n-2.  A zero pivot a[k][k] is a division by zero: None. */
  function Eliminate(rule: RowRule, s: System, k: nat): (r: Option<System>)
    requires WellFormed(s) && k < |s.a|
    ensures r.Some? ==> WellFormed(r.value) && |r.value.a| == |s.a|
    decreases |s.a| - k
  {
    if k + 1 >= |s.a| then Some(s)
    else if s.a[k][k] == 0.0 then None
    else Eliminate(rule, EliminateRows(rule, s, k, k + 1), k + 1)
  }

  /** The system after choose_best_pivot at step k. */
  function Pivoted(s: System, k: nat): (r: System)
    requires WellFormed(s) && k < |s.a|
    ensures WellFormed(r) && |r.a| == |s.a|
  {
    var p := PivotRow(s.a, k, |s.a|);
    System(Swap(s.a, k, p), Swap(s.b, k, p))
  }

  /** Steps k .. n-2 of partial_pivot_gaussian_elimination. */
  function PivotEliminate(s: System, k: nat): (r: Option<System>)
    requires WellFormed(s) && k < |s.a|
    ensures r.Some? ==> WellFormed(r.value) && |r.value.a| == |s.a|
    decreases |s.a| - k
  {
    if k + 1 >= |s.a| then Some(s)
    else
      var t := Pivoted(s, k);
      if t.a[k][k] == 0.0 then None
      else PivotEliminate(EliminateRows(Subtract, t, k, k + 1), k + 1)
  }

  // ---------------------------------------------------------------------
  // The eliminated system is upper triangular

  /** Columns 0 .. k-1 are zero below the diagonal. */
  ghost predicate ZeroBelow(s: System, k: nat)
    requires WellFormed(s)
  {
    forall i, j :: 0 <= j < k && j < i < |s.a| ==> s.a[i][j] == 0.0
  }

  lemma {:induction false} EliminateRowsZeroes(s: System, k: nat, i: nat)
    requires WellFormed(s) && k < i <= |s.a| && s.a[k][k] != 0.0
    requires ZeroBelow(s, k)
    requires forall r :: k < r < i ==> s.a[r][k] == 0.0
    ensures ZeroBelow(EliminateRows(Subtract, s, k, i), k + 1)
    decreases |s.a| - i
  {
    if i < |s.a| {
      var p := s.a[i][k] / s.a[k][k];
      var t := RowStep(Subtract, s, k, i);
      assert s.a[k][k] * p == s.a[i][k];
      assert t.a[i][k] == 0.0;
      assert forall j :: 0 <= j < k ==> t.a[i][j] == s.a[i][j];
      EliminateRowsZeroes(t, k, i + 1);
    }
  }

  /** The plain elimination leaves zeros below the diagonal and nonzero pivots
      a[k][k] for k < n - 1; the rows it has finished are never touched again. */
  lemma {:induction false} EliminateUpper(s: System, k: nat)
    requires WellFormed(s) && k < |s.a| && ZeroBelow(s, k)
    requires Eliminate(Subtract, s, k).Some?
    ensures IsUpper(Eliminate(Subtract, s, k).value.a)
    decreases |s.a| - k
  {
    if k + 1 < |s.a| {
      EliminateRowsZeroes(s, k, k + 1);
      var e := EliminateRows(Subtract, s, k, k + 1);
      EliminateUpper(e, k + 1);
      assert Eliminate(Subtract, s, k) == Eliminate(Subtract, e, k + 1);
    }
  }

  /** Rows 0 .. k are never modified from step k on. */
  lemma {:induction false} EliminateKeepsRows(rule: RowRule, s: System, k: nat)
    requires WellFormed(s) && k < |s.a|
    requires Eliminate(rule, s, k).Some?
    ensures var r := Eliminate(rule, s, k).value;
            forall q :: 0 <= q <= k ==> r.a[q] == s.a[q] && r.b[q] == s.b[q]
    decreases |s.a| - k
  {
    if k + 1 < |s.a| {
      var e := EliminateRows(rule, s, k, k + 1);
      EliminateKeepsRows(rule, e, k + 1);
      assert Eliminate(rule, s, k) == Eliminate(rule, e, k + 1);
    }
  }

  /** Every pivot the elimination meets from step k on is nonzero. */
  lemma {:induction false} EliminatePivotsNonzero(rule: RowRule, s: System, k: nat)
    requires WellFormed(s) && k < |s.a|
    requires Eliminate(rule, s, k).Some?
    ensures var r := Eliminate(rule, s, k).value;
            forall q :: k <= q < |s.a| - 1 ==> r.a[q][q] != 0.0
    decreases |s.a| - k
  {
    if k + 1 < |s.a| {
      var e := EliminateRows(rule, s, k, k + 1);
      EliminatePivotsNonzero(rule, e, k + 1);
      EliminateKeepsRows(rule, e, k + 1);
      assert Eliminate(rule, s, k) == Eliminate(rule, e, k + 1);
    }
  }

  /** Swapping rows k and p >= k keeps columns 0 .. k-1 zero below the diagonal. */
  lemma {:induction false} PivotedZeroBelow(s: System, k: nat)
    requires WellFormed(s) && k < |s.a| && ZeroBelow(s, k)
    ensures ZeroBelow(Pivoted(s, k), k)
  {
    var t := Pivoted(s, k);
    var p := PivotRow(s.a, k, |s.a|);
    forall i, j | 0 <= j < k && j < i < |s.a|
      ensures t.a[i][j] == 0.0
    {
      if i == k {
        assert t.a[i] == s.a[p];
      } else if i == p {
        assert t.a[i] == s.a[k];
      } else {
        assert t.a[i] == s.a[i];
      }
    }
  }

  lemma {:induction false} PivotEliminateUpper(s: System, k: nat)
    requires WellFormed(s) && k < |s.a| && ZeroBelow(s, k)
    requires PivotEliminate(s, k).Some?
    ensures IsUpper(PivotEliminate(s, k).value.a)
    decreases |s.a| - k
  {
    if k + 1 < |s.a| {
      var t := Pivoted(s, k);
      PivotedZeroBelow(s, k);
      EliminateRowsZeroes(t, k, k + 1);
      PivotEliminateUpper(EliminateRows(Subtract, t, k, k + 1), k + 1);
    }
  }

  /** One step of the pivoting elimination: a nonzero pivot after the swap,
      then the remaining steps on the eliminated system. */
  lemma {:induction false} PivotEliminateStep(s: System, k: nat)
    requires WellFormed(s) && k + 1 < |s.a|
    ensures Pivoted(s, k).a[k][k] == 0.0 ==> PivotEliminate(s, k) == None
    ensures Pivoted(s, k).a[k][k] != 0.0 ==>
              PivotEliminate(EliminateRows(Subtract, Pivoted(s, k), k, k + 1), k + 1) == PivotEliminate(s, k)
  {
  }

  /** The pivoting elimination leaves rows 0 .. k-1 alone from step k on. */
  lemma {:induction false} PivotEliminateKeepsRows(s: System, k: nat)
    requires WellFormed(s) && k < |s.a|
    requires PivotEliminate(s, k).Some?
    ensures var r := PivotEliminate(s, k).value;
            forall q :: 0 <= q < k ==> r.a[q] == s.a[q] && r.b[q] == s.b[q]
    decreases |s.a| - k
  {
    if k + 1 < |s.a| {
      PivotEliminateStep(s, k);
      var t := Pivoted(s, k);
      var e := EliminateRows(Subtract, t, k, k + 1);
      PivotEliminateKeepsRows(e, k + 1);
      var r := PivotEliminate(s, k).value;
      forall q | 0 <= q < k
        ensures r.a[q] == s.a[q] && r.b[q] == s.b[q]
      {
        assert r.a[q] == e.a[q] && r.b[q] == e.b[q];
        assert e.a[q] == t.a[q] && e.b[q] == t.b[q];
        PivotedKeepsRowsAbove(s, k, q);
      }
    }
  }

  /** The pivoting elimination leaves nonzero pivots a[q][q] for q < n - 1. */
  lemma {:induction false} PivotEliminatePivots(s: System, k: nat)
    requires WellFormed(s) && k < |s.a|
    requires PivotEliminate(s, k).Some?
    ensures var r := PivotEliminate(s, k).value;
            forall q :: k <= q < |s.a| - 1 ==> r.a[q][q] != 0.0
    decreases |s.a| - k
  {
    if k + 1 < |s.a| {
      PivotEliminateStep(s, k);
      var t := Pivoted(s, k);
      var e := EliminateRows(Subtract, t, k, k + 1);
      PivotEliminatePivots(e, k + 1);
      PivotEliminateKeepsRows(e, k + 1);
      var r := PivotEliminate(s, k).value;
      forall q | k <= q < |s.a| - 1
        ensures r.a[q][q] != 0.0
      {
        if q == k {
          assert r.a[k] == e.a[k];
          assert e.a[k] == t.a[k];
        } else {
          assert PivotEliminate(e, k + 1).value.a[q][q] != 0.0;
        }
      }
    }
  }

  /** Rows above k are not touched by the swap of step k. */
  lemma {:induction false} PivotedKeepsRowsAbove(s: System, k: nat, q: nat)
    requires WellFormed(s) && q < k < |s.a|
    ensures Pivoted(s, k).a[q] == s.a[q] && Pivoted(s, k).b[q] == s.b[q]
  {
  }

  // ---------------------------------------------------------------------
  // The eliminated system has the same solutions

  /** The rewritten row i is row i minus p times row k, when row k is zero
      left of column k. */
  lemma {:induction false} RowStepDot(s: System, k: nat, i: nat, x: Vector)
    requires WellFormed(s) && k < i < |s.a| && s.a[k][k] != 0.0 && |x| == |s.a|
    requires forall j :: 0 <= j < k ==> s.a[k][j] == 0.0
    ensures Dot(RowStep(Subtract, s, k, i).a[i], x, 0, |s.a|) ==
            Dot(s.a[i], x, 0, |s.a|) - (s.a[i][k] / s.a[k][k]) * Dot(s.a[k], x, 0, |s.a|)
  {
    var n := |s.a|;
    var p := s.a[i][k] / s.a[k][k];
    var row := RowStep(Subtract, s, k, i).a[i];
    forall j | 0 <= j < n
      ensures row[j] == 1.0 * s.a[i][j] + (-p) * s.a[k][j]
    {
    }
    DotLinear(row, s.a[i], s.a[k], 1.0, -p, x, 0, n);
  }

  /** Subtracting p times equation k from equation i keeps the solutions, when
      row k is zero left of column k (so the kept entries lose nothing). */
  lemma {:induction false} RowStepEquivalent(s: System, k: nat, i: nat, x: Vector)
    requires WellFormed(s) && k < i < |s.a| && s.a[k][k] != 0.0 && |x| == |s.a|
    requires forall j :: 0 <= j < k ==> s.a[k][j] == 0.0
    ensures Solves(RowStep(Subtract, s, k, i), x) <==> Solves(s, x)
  {
    var n := |s.a|;
    var p := s.a[i][k] / s.a[k][k];
    var t := RowStep(Subtract, s, k, i);
    RowStepDot(s, k, i, x);
    var ax, tx := Apply(s.a, x), Apply(t.a, x);
    var di, dk, dr := ax[i], ax[k], tx[i];
    assert dr == di - p * dk;
    assert tx[k] == dk;
    assert t.b[i] == s.b[i] - s.b[k] * p;
    assert forall r :: 0 <= r < n && r != i ==> tx[r] == ax[r] && t.b[r] == s.b[r];
    if ax == s.b {
      assert di == s.b[i] && dk == s.b[k];
      assert p * dk == s.b[k] * p;
      assert forall r :: 0 <= r < n ==> tx[r] == t.b[r];
    }
    if tx == t.b {
      assert dk == s.b[k];
      assert p * dk == s.b[k] * p;
      assert forall r :: 0 <= r < n ==> ax[r] == s.b[r];
    }
  }

  lemma {:induction false} EliminateRowsEquivalent(s: System, k: nat, i: nat, x: Vector)
    requires WellFormed(s) && k < i <= |s.a| && s.a[k][k] != 0.0 && |x| == |s.a|
    requires forall j :: 0 <= j < k ==> s.a[k][j] == 0.0
    ensures Solves(EliminateRows(Subtract, s, k, i), x) <==> Solves(s, x)
    decreases |s.a| - i
  {
    if i < |s.a| {
      RowStepEquivalent(s, k, i, x);
      EliminateRowsEquivalent(RowStep(Subtract, s, k, i), k, i + 1, x);
    }
  }

  /** gaussian_elimination keeps the solutions: every x with a x = b satisfies
      a_ x = b_, and conversely. */
  lemma {:induction false} EliminateEquivalent(s: System, k: nat, x: Vector)
    requires WellFormed(s) && k < |s.a| && ZeroBelow(s, k) && |x| == |s.a|
    requires Eliminate(Subtract, s, k).Some?
    ensures Solves(Eliminate(Subtract, s, k).value, x) <==> Solves(s, x)
    decreases |s.a| - k
  {
    if k + 1 < |s.a| {
      EliminateRowsEquivalent(s, k, k + 1, x);
      EliminateRowsZeroes(s, k, k + 1);
      EliminateEquivalent(EliminateRows(Subtract, s, k, k + 1), k + 1, x);
    }
  }

  /** Exchanging two equations keeps the solutions. */
  lemma {:induction false} SwapEquivalent(s: System, k: nat, p: nat, x: Vector)
    requires WellFormed(s) && k < |s.a| && p < |s.a| && |x| == |s.a|
    ensures WellFormed(System(Swap(s.a, k, p), Swap(s.b, k, p)))
    ensures Solves(System(Swap(s.a, k, p), Swap(s.b, k, p)), x) <==> Solves(s, x)
  {
    var t := System(Swap(s.a, k, p), Swap(s.b, k, p));
    var n := |s.a|;
    assert forall r :: 0 <= r < n ==> Apply(t.a, x)[r] == Apply(s.a, x)[if r == k then p else if r == p then k else r];
    assert forall r :: 0 <= r < n ==> t.b[r] == s.b[if r == k then p else if r == p then k else r];
    if Solves(s, x) {
      assert forall r :: 0 <= r < n ==> Apply(t.a, x)[r] == t.b[r];
    }
    if Solves(t, x) {
      forall r | 0 <= r < n
        ensures Apply(s.a, x)[r] == s.b[r]
      {
        var r' := if r == k then p else if r == p then k else r;
        assert Apply(t.a, x)[r'] == t.b[r'];
      }
    }
  }

  /** partial_pivot_gaussian_elimination keeps the solutions. */
  lemma {:induction false} PivotEliminateEquivalent(s: System, k: nat, x: Vector)
    requires WellFormed(s) && k < |s.a| && ZeroBelow(s, k) && |x| == |s.a|
    requires PivotEliminate(s, k).Some?
    ensures Solves(PivotEliminate(s, k).value, x) <==> Solves(s, x)
    decreases |s.a| - k
  {
    if k + 1 < |s.a| {
      var t := Pivoted(s, k);
      SwapEquivalent(s, k, PivotRow(s.a, k, |s.a|), x);
      PivotedZeroBelow(s, k);
      EliminateRowsEquivalent(t, k, k + 1, x);
      EliminateRowsZeroes(t, k, k + 1);
      PivotEliminateEquivalent(EliminateRows(Subtract, t, k, k + 1), k + 1, x);
    }
  }

  lemma {:induction false} AbsQuotientAtMostOne(x: real, y: real)
    requires y != 0.0 && Abs(x) <= Abs(y)
    ensures Abs(x / y) <= 1.0
  {
    var q := x / y;
    assert q * y == x;
    assert Abs(q) * Abs(y) == Abs(x) by {
      if q < 0.0 && y < 0.0 {
        assert (-q) * (-y) == q * y;
      } else if q < 0.0 {
        assert (-q) * y == -(q * y);
      } else if y < 0.0 {
        assert q * (-y) == -(q * y);
      }
    }
    var inv := 1.0 / Abs(y);
    assert Abs(q) == Abs(x) * inv;
    QuotientAtMostOne(Abs(x), Abs(y));
    assert Abs(x) / Abs(y) == Abs(x) * inv;
  }

  /** After the pivot search every multiplier of step k has |p| <= 1. */
  lemma {:induction false} PivotedMultiplierBound(s: System, k: nat, i: nat)
    requires WellFormed(s) && k < i < |s.a|
    requires Pivoted(s, k).a[k][k] != 0.0
    ensures Abs(Pivoted(s, k).a[i][k] / Pivoted(s, k).a[k][k]) <= 1.0
  {
    var t := Pivoted(s, k);
    PivotSwapMaximal(s.a, k, |s.a|);
    AbsQuotientAtMostOne(t.a[i][k], t.a[k][k]);
  }

  // ---------------------------------------------------------------------
  // The compact variant

  /** Compact and plain systems agree on b, on columns from `col` on, on the
      upper triangle, and on column k of the rows from `fromRow` on. */
  ghost predicate AgreeFrom(sc: System, sp: System, k: nat, fromRow: nat)
    requires WellFormed(sc) && WellFormed(sp) && |sc.a| == |sp.a|
  {
    sc.b == sp.b &&
    forall r, j :: 0 <= r < |sc.a| && 0 <= j < |sc.a| && (k < j || r <= j || (j == k && r >= fromRow)) ==>
      sc.a[r][j] == sp.a[r][j]
  }

  lemma {:induction false} CompactRowsAgree(sc: System, sp: System, k: nat, i: nat)
    requires WellFormed(sc) && WellFormed(sp) && |sc.a| == |sp.a| && k < i <= |sc.a|
    requires sc.a[k][k] != 0.0 && sp.a[k][k] == sc.a[k][k]
    requires AgreeFrom(sc, sp, k, i)
    ensures AgreeFrom(EliminateRows(StoreMultiplier, sc, k, i), EliminateRows(Subtract, sp, k, i), k, |sc.a|)
    decreases |sc.a| - i
  {
    if i < |sc.a| {
      var tc, tp := RowStep(StoreMultiplier, sc, k, i), RowStep(Subtract, sp, k, i);
      assert sc.a[i][k] == sp.a[i][k];
      var pc, pp := sc.a[i][k] / sc.a[k][k], sp.a[i][k] / sp.a[k][k];
      assert pc == pp;
      assert sc.b == sp.b;
      assert tc.b[i] == sc.b[i] - sc.b[k] * pc;
      assert tp.b[i] == sp.b[i] - sp.b[k] * pp;
      assert forall r :: 0 <= r < |sc.b| ==> tc.b[r] == tp.b[r];
      assert tc.b == tp.b;
      assert forall j :: k < j < |sc.a| ==> sc.a[k][j] == sp.a[k][j] && sc.a[i][j] == sp.a[i][j];
      assert forall j :: k < j < |sc.a| ==> tc.a[i][j] == tp.a[i][j];
      assert AgreeFrom(tc, tp, k, i + 1);
      CompactRowsAgree(tc, tp, k, i + 1);
    }
  }

  /** With the multiplier stored at a[i][k] only, the compact elimination
      fails exactly when the plain one does, and otherwise produces the same
      b and the same upper triangle; only the strictly lower part differs. */
  lemma {:induction false} CompactMatchesPlain(sc: System, sp: System, k: nat)
    requires WellFormed(sc) && WellFormed(sp) && |sc.a| == |sp.a| && k < |sc.a|
    requires AgreeFrom(sc, sp, k, k)
    ensures Eliminate(StoreMultiplier, sc, k).Some? <==> Eliminate(Subtract, sp, k).Some?
    ensures Eliminate(StoreMultiplier, sc, k).Some? ==>
              var rc, rp := Eliminate(StoreMultiplier, sc, k).value, Eliminate(Subtract, sp, k).value;
              rc.b == rp.b && forall i, j :: 0 <= i <= j < |sc.a| ==> rc.a[i][j] == rp.a[i][j]
    decreases |sc.a| - k
  {
    if k + 1 < |sc.a| && sc.a[k][k] != 0.0 {
      assert sp.a[k][k] == sc.a[k][k];
      CompactRowsAgree(sc, sp, k, k + 1);
      var ec, ep := EliminateRows(StoreMultiplier, sc, k, k + 1), EliminateRows(Subtract, sp, k, k + 1);
      CompactMatchesPlain(ec, ep, k + 1);
      assert Eliminate(StoreMultiplier, sc, k) == Eliminate(StoreMultiplier, ec, k + 1);
      assert Eliminate(Subtract, sp, k) == Eliminate(Subtract, ep, k + 1);
    } else if k + 1 < |sc.a| {
      assert sp.a[k][k] == 0.0;
    }
  }

  /** Started from the same system, the compact storage and the plain elimination agree. */
  lemma {:induction false} CompactOfSameSystem(s: System)
    requires WellFormed(s) && |s.a| >= 1
    ensures Eliminate(StoreMultiplier, s, 0).Some? <==> Eliminate(Subtract, s, 0).Some?
    ensures Eliminate(StoreMultiplier, s, 0).Some? ==>
              var rc, rp := Eliminate(StoreMultiplier, s, 0).value, Eliminate(Subtract, s, 0).value;
              rc.b == rp.b && forall i, j :: 0 <= i <= j < |s.a| ==> rc.a[i][j] == rp.a[i][j]
  {
    CompactMatchesPlain(s, s, 0);
  }

  /** For n = 2 gaussian_compact, as written or corrected, keeps row 0 and b[0]
      and leaves row 1 as (p, a[1][1] - a[0][1] * p) and b[1] - b[0] * p, where
      p = a[1][0] / a[0][0]. */
  lemma {:induction false} CompactOrderTwo(rule: RowRule, s: System)
    requires WellFormed(s) && |s.a| == 2 && s.a[0][0] != 0.0 && !rule.Subtract?
    ensures Eliminate(rule, s, 0).Some?
    ensures var r, p := Eliminate(rule, s, 0).value, s.a[1][0] / s.a[0][0];
            r.a[0] == s.a[0] && r.b[0] == s.b[0] &&
            r.a[1][0] == p && r.a[1][1] == s.a[1][1] - s.a[0][1] * p && r.b[1] == s.b[1] - s.b[0] * p
  {
    var p := s.a[1][0] / s.a[0][0];
    var t := EliminateRows(rule, s, 0, 1);
    assert t == RowStep(rule, s, 0, 1);
    assert t.a[1] == EliminateRow(rule, s.a[0], s.a[1], 1, 0, p);
    assert t.a[1][0] == p && t.a[1][1] == s.a[1][1] - s.a[0][1] * p by {
      match rule
      case StoreMultiplierAsWritten =>
      case StoreMultiplier =>
    }
    assert Eliminate(rule, s, 0) == Eliminate(rule, t, 1) == Some(t);
  }

  /** The system on which gaussian_compact as written goes wrong. */
  function CounterexampleSystem(): (s: System)
    ensures WellFormed(s) && |s.a| == 3
  {
    System([[1.0, 0.0, 0.0], [0.0, 1.0, 0.0], [1.0, 0.0, 1.0]], [0.0, 1.0, 0.0])
  }

  lemma {:induction false} RowOfThree(r: Vector, x0: real, x1: real, x2: real)
    requires |r| == 3 && r[0] == x0 && r[1] == x1 && r[2] == x2
    ensures r == [x0, x1, x2]
  {
  }

  /** gaussian_compact as written: at step 0 it also overwrites a[2][1] with the
      multiplier of row 2, which step 1 then divides as if it were a matrix
      entry, and b[2] ends at -1.  The solution x = (0, 1, 0) of the original
      system no longer satisfies the last equation of the upper triangle. */
  lemma {:induction false} CompactAsWrittenCounterexample()
    ensures Eliminate(StoreMultiplierAsWritten, CounterexampleSystem(), 0) ==
            Some(System([[1.0, 0.0, 0.0], [0.0, 1.0, 0.0], [1.0, 1.0, 1.0]], [0.0, 1.0, -1.0]))
    ensures Solves(CounterexampleSystem(), [0.0, 1.0, 0.0])
    ensures var r := Eliminate(StoreMultiplierAsWritten, CounterexampleSystem(), 0).value;
            r.a[2][2] * 0.0 != r.b[2]
  {
    var s := CounterexampleSystem();
    var rule := StoreMultiplierAsWritten;
    // step 0, row 1: p = 0
    var r1 := EliminateRow(rule, s.a[0], s.a[1], 1, 0, 0.0);
    RowOfThree(r1, 0.0, 1.0, 0.0);
    var s1 := RowStep(rule, s, 0, 1);
    assert s1 == System([s.a[0], r1, s.a[2]], [0.0, 1.0, 0.0]);
    // step 0, row 2: p = 1, and a[2][1] = p since 2 > 1
    var r2 := EliminateRow(rule, s1.a[0], s1.a[2], 2, 0, 1.0);
    RowOfThree(r2, 1.0, 1.0, 1.0);
    var s2 := RowStep(rule, s1, 0, 2);
    assert s2 == System([s.a[0], r1, r2], [0.0, 1.0, 0.0]);
    assert EliminateRows(rule, s, 0, 1) == s2;
    // step 1, row 2: p = a[2][1] / a[1][1] = 1
    var r3 := EliminateRow(rule, s2.a[1], s2.a[2], 2, 1, 1.0);
    RowOfThree(r3, 1.0, 1.0, 1.0);
    var s3 := RowStep(rule, s2, 1, 2);
    assert s3 == System([s.a[0], r1, r3], [0.0, 1.0, -1.0]);
    assert EliminateRows(rule, s2, 1, 2) == s3;
    var x := [0.0, 1.0, 0.0];
    assert Apply(s.a, x)[0] == Dot(s.a[0], x, 0, 3) == 0.0;
    assert Apply(s.a, x)[1] == Dot(s.a[1], x, 0, 3) == 1.0;
    assert Apply(s.a, x)[2] == Dot(s.a[2], x, 0, 3) == 0.0;
    assert Apply(s.a, x) == s.b;
  }

  /** The corrected compact elimination on the same system: the upper triangle
      is the identity and b is unchanged, so x = (0, 1, 0) is recovered. */
  lemma {:induction false} CompactCorrectedOnCounterexample()
    ensures Eliminate(StoreMultiplier, CounterexampleSystem(), 0) ==
            Some(System([[1.0, 0.0, 0.0], [0.0, 1.0, 0.0], [1.0, 0.0, 1.0]], [0.0, 1.0, 0.0]))
  {
    var s := CounterexampleSystem();
    var rule := StoreMultiplier;
    var r1 := EliminateRow(rule, s.a[0], s.a[1], 1, 0, 0.0);
    RowOfThree(r1, 0.0, 1.0, 0.0);
    var s1 := RowStep(rule, s, 0, 1);
    assert s1 == System([s.a[0], r1, s.a[2]], [0.0, 1.0, 0.0]);
    var r2 := EliminateRow(rule, s1.a[0], s1.a[2], 2, 0, 1.0);
    RowOfThree(r2, 1.0, 0.0, 1.0);
    var s2 := RowStep(rule, s1, 0, 2);
    assert s2 == System([s.a[0], r1, r2], [0.0, 1.0, 0.0]);
    assert EliminateRows(rule, s, 0, 1) == s2;
    var r3 := EliminateRow(rule, s2.a[1], s2.a[2], 2, 1, 0.0);
    RowOfThree(r3, 1.0, 0.0, 1.0);
    var s3 := RowStep(rule, s2, 1, 2);
    assert s3 == System([s.a[0], r1, r3], [0.0, 1.0, 0.0]);
    assert EliminateRows(rule, s2, 1, 2) == s3;
  }
}
