/** src/numeric_methods/function_roots.rs: bisection and the secant method
    for a root of f.  The library's f is a fixed function of its own
    (src/functions.rs); here f is a parameter. */
module FunctionRoots {
  import opened Sums
  import opened Wrappers
  import opened CalculusHelpers

  // ---------------------------------------------------------------------
  // Bisection

  /** f(a) <= 0 <= f(b): the sign condition bisection keeps. */
  predicate Brackets(f: real -> real, a: real, b: real)
  {
    !(f(a) > 0.0) && !(f(b) < 0.0)
  }

  /** The opening swap: when f(a) > 0 and f(b) < 0 the two ends trade places. */
  function Oriented(f: real -> real, a: real, b: real): (ab: (real, real))
    ensures f(a) > 0.0 && f(b) < 0.0 ==> ab == (b, a)
    ensures !(f(a) > 0.0 && f(b) < 0.0) ==> ab == (a, b)
  {
    if f(a) > 0.0 && f(b) < 0.0 then (b, a) else (a, b)
  }

  function Pow2(k: nat): (p: real)
    ensures p >= 1.0
  {
    if k == 0 then 1.0 else 2.0 * Pow2(k - 1)
  }

  /** t / 2 rounds down to less than t does, once t >= 2. */
  lemma {:induction false} FloorOfHalf(t: real)
    requires t >= 2.0
    ensures (t / 2.0).Floor < t.Floor
    ensures (t / 2.0).Floor >= 1
  {
  }

  /** The halving step that keeps the bracket. */
  function Halve(f: real -> real, a: real, b: real): (ab: (real, real))
  {
    var c := (b + a) / 2.0;
    if f(c) < 0.0 then (c, b) else (a, c)
  }

  /** A halving step keeps f(a) <= 0 <= f(b), halves b - a, returns the
      midpoint as one end, and stays inside [a, b] when a <= b. */
  lemma {:induction false} HalveKeepsBracket(f: real -> real, a: real, b: real)
    requires Brackets(f, a, b)
    ensures Brackets(f, Halve(f, a, b).0, Halve(f, a, b).1)
    ensures Halve(f, a, b).1 - Halve(f, a, b).0 == (b - a) / 2.0
    ensures Halve(f, a, b).0 == (b + a) / 2.0 || Halve(f, a, b).1 == (b + a) / 2.0
    ensures a <= b ==> a <= Halve(f, a, b).0 <= Halve(f, a, b).1 <= b
  {
  }

  /** bisec_method: None when, after the swap, f(a) > 0 or f(b) < 0;
      otherwise the last midpoint c.  The final bracket [lo, hi] (ghost) has
      f(lo) <= 0 <= f(hi), the returned c as one end, width under 2 epsilon
      and equal to the starting width halved k >= 1 times; it lies inside the
      starting interval when that is ordered.  Over the reals the loop ends
      for every positive epsilon. */
  method BisecMethod(f: real -> real, a0: real, b0: real, epsilon: real)
    returns (r: Option<real>, ghost lo: real, ghost hi: real, ghost k: nat)
    requires epsilon > 0.0
    ensures r.None? <==> !Brackets(f, Oriented(f, a0, b0).0, Oriented(f, a0, b0).1)
    ensures r.Some? ==> Brackets(f, lo, hi) && (r.value == lo || r.value == hi)
    ensures r.Some? ==> (hi - lo) / 2.0 < epsilon && k >= 1
    ensures r.Some? ==> hi - lo == (Oriented(f, a0, b0).1 - Oriented(f, a0, b0).0) / Pow2(k)
    ensures r.Some? && Oriented(f, a0, b0).0 <= Oriented(f, a0, b0).1 ==>
              Oriented(f, a0, b0).0 <= lo <= hi <= Oriented(f, a0, b0).1
    ensures r.Some? && Oriented(f, a0, b0).0 > Oriented(f, a0, b0).1 ==> k == 1
  {
    var a, b := a0, b0;
    if f(a) > 0.0 && f(b) < 0.0 {
      a, b := b, a;
    }
    ghost var start := (a, b);
    if f(a) > 0.0 {
      return None, a, b, 0;
    }
    if f(b) < 0.0 {
      return None, a, b, 0;
    }
    var c: real;
    k := 0;
    while true
      invariant Brackets(f, a, b)
      invariant b - a == (start.1 - start.0) / Pow2(k)
      invariant start.0 <= start.1 ==> start.0 <= a <= b <= start.1
      invariant k >= 1 ==> (b - a) / 2.0 >= epsilon
      decreases if k == 0 then ((b - a) / epsilon).Floor + 1 else ((b - a) / epsilon).Floor
    {
      HalveKeepsBracket(f, a, b);
      ghost var w := b - a;
      c := (b + a) / 2.0;
      if f(c) < 0.0 {
        a := c;
      } else {
        b := c;
      }
      k := k + 1;
      assert b - a == w / 2.0;
      PowStep(start.1 - start.0, w, k);
      if (b - a) / 2.0 < epsilon {
        if start.0 > start.1 {
          SwappedStopsAtOnce(start.1 - start.0, w, k, epsilon);
        }
        return Some(c), a, b, k;
      }
      Progress(w, epsilon);
    }
  }

  lemma {:induction false} PowStep(d: real, w: real, k: nat)
    requires k >= 1 && w == d / Pow2(k - 1)
    ensures w / 2.0 == d / Pow2(k)
  {
    var p := Pow2(k - 1);
    assert Pow2(k) == 2.0 * p;
    assert w * p == d;
    assert (w / 2.0) * (2.0 * p) == d;
  }

  /** From a reversed start the first midpoint already meets the exit test. */
  lemma {:induction false} SwappedStopsAtOnce(d: real, w: real, k: nat, epsilon: real)
    requires d < 0.0 && k >= 1 && w == d / Pow2(k - 1) && epsilon > 0.0
    ensures k == 1 || w / 2.0 < epsilon
  {
  }

  /** The loop goes on only while the width is at least 2 epsilon, and then
      the measure floor(w / epsilon) drops. */
  lemma {:induction false} Progress(w: real, epsilon: real)
    requires epsilon > 0.0 && (w / 2.0) / 2.0 >= epsilon
    ensures ((w / 2.0) / epsilon).Floor < (w / epsilon).Floor
    ensures ((w / 2.0) / epsilon).Floor >= 1
  {
    var t := w / epsilon;
    assert (w / 2.0) / epsilon == t / 2.0;
    assert t >= 4.0;
    FloorOfHalf(t);
  }

  // ---------------------------------------------------------------------
  // Secant method

  /** One secant step: the zero -beta / alpha of the line a x + beta through
      (a, f(a)) and (b, f(b)).  Equal abscissae or a flat line divide by zero. */
  function SecantStep(f: real -> real, a: real, b: real): (c: Option<real>)
  {
    if b == a then None
    else
      var alpha := Slope(f, a, b);
      if alpha == 0.0 then None
      else Some(-(f(a) - alpha * a) / alpha)
  }

  /** alpha: the slope of the chord through (a, f(a)) and (b, f(b)) */
  function Slope(f: real -> real, a: real, b: real): real
    requires b != a
  {
    (f(b) - f(a)) / (b - a)
  }

  /** The secant step returns the point where the chord through (a, f(a)) and
      (b, f(b)) crosses zero, and fails exactly when the chord is vertical or
      flat. */
  lemma {:induction false} SecantStepIsChordZero(f: real -> real, a: real, b: real)
    ensures SecantStep(f, a, b).None? <==> b == a || f(b) == f(a)
    ensures SecantStep(f, a, b).Some? ==>
              var c := SecantStep(f, a, b).value;
              (f(b) - f(a)) * (c - a) == -f(a) * (b - a)
  {
    if b != a {
      var alpha := (f(b) - f(a)) / (b - a);
      assert alpha * (b - a) == f(b) - f(a);
      if f(b) == f(a) {
        assert alpha == 0.0 / (b - a);
      } else {
        assert alpha != 0.0;
        var c := -(f(a) - alpha * a) / alpha;
        assert alpha * c == -(f(a) - alpha * a);
        assert alpha * (c - a) == -f(a);
        assert (f(b) - f(a)) * (c - a) == alpha * (b - a) * (c - a);
      }
    }
  }

  /** On a line f(x) = m x + q with m != 0 one step from distinct points
      lands on the root -q / m. */
  lemma {:induction false} SecantExactOnLines(f: real -> real, m: real, q: real, a: real, b: real)
    requires m != 0.0 && a != b
    requires forall x :: f(x) == m * x + q
    ensures SecantStep(f, a, b) == Some(-q / m)
  {
    var alpha := (f(b) - f(a)) / (b - a);
    assert f(b) - f(a) == m * (b - a);
    assert alpha == m by {
      assert alpha * (b - a) == m * (b - a);
      assert (alpha - m) * (b - a) == 0.0;
    }
    assert f(a) - alpha * a == q;
    assert -(f(a) - alpha * a) / alpha == -q / m;
    assert alpha != 0.0;
    assert SecantStep(f, a, b).Some?;
    assert SecantStep(f, a, b).value == -(f(a) - alpha * a) / alpha;
  }

  /** secant_method's stopping test after b = a, a = c: |b - a| / max(1, |b|) < epsilon. */
  predicate SecantSettled(a: real, b: real, epsilon: real)
  {
    PrecisionError(a, b) < epsilon
  }

  /** The loop of secant_method from (a, b), bounded by fuel. */
  function SecantRun(f: real -> real, a: real, b: real, epsilon: real, fuel: nat): (r: Outcome<real>)
    decreases fuel
  {
    if fuel == 0 then OutOfFuel(a)
    else match SecantStep(f, a, b)
      case None => ZeroDivisor
      case Some(c) =>
        if SecantSettled(c, a, epsilon) then Converged(c) else SecantRun(f, c, a, epsilon, fuel - 1)
  }

  /** On a line with a nonzero slope the method converges in the second step
      at the latest, at the root. */
  lemma {:induction false} SecantRunOnLines(f: real -> real, m: real, q: real, a: real, b: real, epsilon: real, fuel: nat)
    requires m != 0.0 && a != b && epsilon > 0.0 && fuel >= 2
    requires forall x :: f(x) == m * x + q
    ensures SecantRun(f, a, b, epsilon, fuel) == Converged(-q / m)
  {
    var root := -q / m;
    SecantExactOnLines(f, m, q, a, b);
    if !SecantSettled(root, a, epsilon) {
      assert root != a;
      SecantExactOnLines(f, m, q, root, a);
    }
  }

  /** Started at a root a, with a second point b where f is nonzero, the
      method returns a at once. */
  lemma {:induction false} SecantRunAtRoot(f: real -> real, a: real, b: real, epsilon: real, fuel: nat)
    requires f(a) == 0.0 && b != a && f(b) != 0.0 && epsilon > 0.0 && fuel >= 1
    ensures SecantRun(f, a, b, epsilon, fuel) == Converged(a)
  {
    var alpha := Slope(f, a, b);
    assert alpha * (b - a) == f(b);
    assert alpha != 0.0;
    assert -(f(a) - alpha * a) / alpha == a;
    assert SecantStep(f, a, b).Some?;
    assert SecantStep(f, a, b).value == a;
  }

  /** A run whose first step divides by zero ends there. */
  lemma {:induction false} SecantRunDivides(f: real -> real, a: real, b: real, epsilon: real, fuel: nat)
    requires fuel >= 1 && (b == a || Slope(f, a, b) == 0.0)
    ensures SecantRun(f, a, b, epsilon, fuel) == ZeroDivisor
  {
  }

  /** A run whose first step gives c stops at c when c is settled against a
      and goes on from (c, a) otherwise. */
  lemma {:induction false} SecantRunSteps(f: real -> real, a: real, b: real, epsilon: real, fuel: nat, alpha: real, c: real)
    requires fuel >= 1 && b != a && alpha == Slope(f, a, b) && alpha != 0.0
    requires c == -(f(a) - alpha * a) / alpha
    ensures SecantRun(f, a, b, epsilon, fuel) ==
              if SecantSettled(c, a, epsilon) then Converged(c) else SecantRun(f, c, a, epsilon, fuel - 1)
  {
    assert SecantStep(f, a, b).Some? && SecantStep(f, a, b).value == c;
  }

  /** secant_method, bounded by fuel: alpha, beta and c from a and b, then
      b = a, a = c, until the precision error of the new pair is under epsilon. */
  method SecantMethod(f: real -> real, a0: real, b0: real, epsilon: real, fuel: nat) returns (r: Outcome<real>)
    ensures r == SecantRun(f, a0, b0, epsilon, fuel)
  {
    var a, b := a0, b0;
    var left := fuel;
    while left > 0
      invariant SecantRun(f, a, b, epsilon, left) == SecantRun(f, a0, b0, epsilon, fuel)
    {
      if b == a {
        SecantRunDivides(f, a, b, epsilon, left);
        return ZeroDivisor;
      }
      var alpha := (f(b) - f(a)) / (b - a);
      if alpha == 0.0 {
        SecantRunDivides(f, a, b, epsilon, left);
        return ZeroDivisor;
      }
      var beta := f(a) - alpha * a;
      var c := -beta / alpha;
      SecantRunSteps(f, a, b, epsilon, left, alpha, c);
      b := a;
      a := c;
      if Abs(b - a) / Max(1.0, Abs(b)) < epsilon {
        return Converged(c);
      }
      left := left - 1;
    }
    return OutOfFuel(a);
  }
}
