/** src/calculus/integration.rs: Riemann sums (left, right, midpoint), the
    trapezoid rule and Simpson's one-third rule for f over [a, b] with n
    panels.  The library's running abscissa x += delta_x is exact here, so
    the k-th sample point is a + k delta_x.  With n = 0 the library divides
    by zero; the model returns None. */
module Integration {
  import opened Wrappers

  /** f(start) + f(start + d) + ... + f(start + (k-1) d), in increasing order */
  function SampleSum(f: real -> real, start: real, d: real, k: nat): real
  {
    if k == 0 then 0.0 else SampleSum(f, start, d, k - 1) + f(start + ((k - 1) as real) * d)
  }

  /** the trapezoid loop's sum of f(x) + f(x + d) over x = start + i d, i < k */
  function PairSum(f: real -> real, start: real, d: real, k: nat): real
  {
    if k == 0 then 0.0
    else PairSum(f, start, d, k - 1) + (f(start + ((k - 1) as real) * d) + f(start + ((k - 1) as real) * d + d))
  }

  function Width(a: real, b: real, n: nat): real
    requires n >= 1
  {
    (b - a) / (n as real)
  }

  /** delta_x times the samples at a + i delta_x, i < n */
  function LeftRule(f: real -> real, a: real, b: real, n: nat): real
    requires n >= 1
  {
    SampleSum(f, a, Width(a, b, n), n) * Width(a, b, n)
  }

  /** delta_x times the samples at a + (i + 1) delta_x */
  function RightRule(f: real -> real, a: real, b: real, n: nat): real
    requires n >= 1
  {
    SampleSum(f, a + Width(a, b, n), Width(a, b, n), n) * Width(a, b, n)
  }

  /** delta_x times the samples at a + (i + 1/2) delta_x */
  function MiddleRule(f: real -> real, a: real, b: real, n: nat): real
    requires n >= 1
  {
    SampleSum(f, a + Width(a, b, n) / 2.0, Width(a, b, n), n) * Width(a, b, n)
  }

  function TrapezoidRule(f: real -> real, a: real, b: real, n: nat): real
    requires n >= 1
  {
    PairSum(f, a, Width(a, b, n), n) * Width(a, b, n) / 2.0
  }

  /** sum over i in 1..k of f(x0 + (2 i - 1) h) */
  function OddSum(f: real -> real, x0: real, h: real, k: nat): real
  {
    if k == 0 then 0.0 else OddSum(f, x0, h, k - 1) + f(x0 + (2.0 * (k as real) - 1.0) * h)
  }

  /** sum over i in 1..k of f(x0 + 2 i h) */
  function EvenSum(f: real -> real, x0: real, h: real, k: nat): real
  {
    if k == 0 then 0.0 else EvenSum(f, x0, h, k - 1) + f(x0 + 2.0 * (k as real) * h)
  }

  function SimpsonStep(x0: real, x2n: real, n: nat): real
    requires n >= 1
  {
    (x2n - x0) / (2.0 * (n as real))
  }

  /** (h / 3) (f(x0) + f(x2n) + 4 * odd samples + 2 * inner even samples) */
  function SimpsonRule(f: real -> real, x0: real, x2n: real, n: nat): real
    requires n >= 1
  {
    var h := SimpsonStep(x0, x2n, n);
    (f(x0) + f(x2n) + 4.0 * OddSum(f, x0, h, n) + 2.0 * EvenSum(f, x0, h, n - 1)) * h / 3.0
  }

  // ---------------------------------------------------------------------
  // Properties

  lemma {:induction false} SampleSumStep(f: real -> real, start: real, d: real, k: nat, x: real)
    requires x == start + (k as real) * d
    ensures SampleSum(f, start, d, k + 1) == SampleSum(f, start, d, k) + f(x)
  {
    assert ((k + 1 - 1) as real) == k as real;
  }

  lemma {:induction false} PairSumStep(f: real -> real, start: real, d: real, k: nat, x: real)
    requires x == start + (k as real) * d
    ensures PairSum(f, start, d, k + 1) == PairSum(f, start, d, k) + (f(x) + f(x + d))
  {
    assert ((k + 1 - 1) as real) == k as real;
  }

  /** The rules in terms of a step d known to be the panel width. */
  lemma {:induction false} RulesAtWidth(f: real -> real, a: real, b: real, n: nat, d: real)
    requires n >= 1 && d == Width(a, b, n)
    ensures LeftRule(f, a, b, n) == SampleSum(f, a, d, n) * d
    ensures RightRule(f, a, b, n) == SampleSum(f, a + d, d, n) * d
    ensures MiddleRule(f, a, b, n) == SampleSum(f, a + d / 2.0, d, n) * d
    ensures TrapezoidRule(f, a, b, n) == PairSum(f, a, d, n) * d / 2.0
  {
  }

  /** What each method's final product is, given the loop's sum. */
  lemma {:induction false} LeftAt(f: real -> real, a: real, b: real, n: nat, d: real, sum: real)
    requires n >= 1 && d == Width(a, b, n) && sum == SampleSum(f, a, d, n)
    ensures sum * d == LeftRule(f, a, b, n)
  {
  }

  lemma {:induction false} RightAt(f: real -> real, a: real, b: real, n: nat, d: real, sum: real)
    requires n >= 1 && d == Width(a, b, n) && sum == SampleSum(f, a + d, d, n)
    ensures sum * d == RightRule(f, a, b, n)
  {
    RulesAtWidth(f, a, b, n, d);
  }

  lemma {:induction false} MiddleAt(f: real -> real, a: real, b: real, n: nat, d: real, sum: real)
    requires n >= 1 && d == Width(a, b, n) && sum == SampleSum(f, a + d / 2.0, d, n)
    ensures sum * d == MiddleRule(f, a, b, n)
  {
    RulesAtWidth(f, a, b, n, d);
  }

  lemma {:induction false} TrapezoidAt(f: real -> real, a: real, b: real, n: nat, d: real, sum: real)
    requires n >= 1 && d == Width(a, b, n) && sum == PairSum(f, a, d, n)
    ensures sum * d / 2.0 == TrapezoidRule(f, a, b, n)
  {
  }

  lemma {:induction false} SimpsonAtStep(f: real -> real, x0: real, x2n: real, n: nat, h: real)
    requires n >= 1 && h == SimpsonStep(x0, x2n, n)
    ensures SimpsonRule(f, x0, x2n, n) == (f(x0) + f(x2n) + 4.0 * OddSum(f, x0, h, n) + 2.0 * EvenSum(f, x0, h, n - 1)) * h / 3.0
  {
  }

  lemma {:induction false} OddSumStep(f: real -> real, x0: real, h: real, k: nat, x: real)
    requires k >= 1 && x == x0 + (2.0 * (k as real) - 1.0) * h
    ensures OddSum(f, x0, h, k) == OddSum(f, x0, h, k - 1) + f(x)
  {
  }

  lemma {:induction false} EvenSumStep(f: real -> real, x0: real, h: real, k: nat, x: real)
    requires k >= 1 && x == x0 + 2.0 * (k as real) * h
    ensures EvenSum(f, x0, h, k) == EvenSum(f, x0, h, k - 1) + f(x)
  {
  }

  lemma {:induction false} PairSumSplits(f: real -> real, start: real, d: real, k: nat)
    ensures PairSum(f, start, d, k) == SampleSum(f, start, d, k) + SampleSum(f, start + d, d, k)
  {
    if k > 0 {
      PairSumSplits(f, start, d, k - 1);
      var i := (k - 1) as real;
      assert start + i * d + d == (start + d) + i * d;
    }
  }

  /** The trapezoid rule is the mean of the left and the right rule. */
  lemma {:induction false} TrapezoidIsMeanOfLeftAndRight(f: real -> real, a: real, b: real, n: nat)
    requires n >= 1
    ensures TrapezoidRule(f, a, b, n) == (LeftRule(f, a, b, n) + RightRule(f, a, b, n)) / 2.0
  {
    var d := Width(a, b, n);
    RulesAtWidth(f, a, b, n, d);
    PairSumSplits(f, a, d, n);
    var l := SampleSum(f, a, d, n);
    var r := SampleSum(f, a + d, d, n);
    assert (l + r) * d == l * d + r * d;
  }

  lemma {:induction false} SampleSumOfConstant(f: real -> real, c: real, start: real, d: real, k: nat)
    requires forall x :: f(x) == c
    ensures SampleSum(f, start, d, k) == (k as real) * c
  {
    if k > 0 {
      SampleSumOfConstant(f, c, start, d, k - 1);
    }
  }

  lemma {:induction false} OddEvenOfConstant(f: real -> real, c: real, x0: real, h: real, k: nat)
    requires forall x :: f(x) == c
    ensures OddSum(f, x0, h, k) == (k as real) * c
    ensures EvenSum(f, x0, h, k) == (k as real) * c
  {
    if k > 0 {
      OddEvenOfConstant(f, c, x0, h, k - 1);
    }
  }

  lemma {:induction false} WidthTimesCount(a: real, b: real, n: nat)
    requires n >= 1
    ensures (n as real) * Width(a, b, n) == b - a
  {
  }

  /** Every Riemann rule and the trapezoid rule integrate a constant exactly. */
  lemma {:induction false} RulesExactOnConstants(f: real -> real, c: real, a: real, b: real, n: nat)
    requires n >= 1
    requires forall x :: f(x) == c
    ensures LeftRule(f, a, b, n) == c * (b - a)
    ensures RightRule(f, a, b, n) == c * (b - a)
    ensures MiddleRule(f, a, b, n) == c * (b - a)
    ensures TrapezoidRule(f, a, b, n) == c * (b - a)
  {
    var d := Width(a, b, n);
    var k := n as real;
    RulesAtWidth(f, a, b, n, d);
    SampleSumOfConstant(f, c, a, d, n);
    SampleSumOfConstant(f, c, a + d, d, n);
    SampleSumOfConstant(f, c, a + d / 2.0, d, n);
    WidthTimesCount(a, b, n);
    assert (k * c) * d == c * (k * d);
    TrapezoidIsMeanOfLeftAndRight(f, a, b, n);
  }

  /** Simpson's rule integrates a constant exactly. */
  lemma {:induction false} SimpsonExactOnConstants(f: real -> real, c: real, x0: real, x2n: real, n: nat)
    requires n >= 1
    requires forall x :: f(x) == c
    ensures SimpsonRule(f, x0, x2n, n) == c * (x2n - x0)
  {
    var h := SimpsonStep(x0, x2n, n);
    var k := n as real;
    SimpsonAtStep(f, x0, x2n, n, h);
    OddEvenOfConstant(f, c, x0, h, n);
    OddEvenOfConstant(f, c, x0, h, n - 1);
    assert f(x0) + f(x2n) + 4.0 * (k * c) + 2.0 * ((k - 1.0) * c) == 6.0 * k * c;
    assert (2.0 * k) * h == x2n - x0;
    assert (6.0 * k * c) * h / 3.0 == c * ((2.0 * k) * h);
  }

  // ---------------------------------------------------------------------
  // The library's loops

  /** The sampling loop the three Riemann rules share: starting at x = start,
      add f(x) and step x by d, k times. */
  method SampleLoop(f: real -> real, start: real, d: real, k: nat) returns (sum: real)
    ensures sum == SampleSum(f, start, d, k)
  {
    var x := start;
    sum := 0.0;
    for i := 0 to k
      invariant x == start + (i as real) * d
      invariant sum == SampleSum(f, start, d, i)
    {
      SampleSumStep(f, start, d, i, x);
      sum := sum + f(x);
      x := x + d;
    }
  }

  /** integrate_left */
  method IntegrateLeft(f: real -> real, a: real, b: real, n: nat) returns (r: Option<real>)
    ensures n == 0 <==> r.None?
    ensures n >= 1 ==> r == Some(LeftRule(f, a, b, n))
  {
    if n == 0 {
      return None;
    }
    var deltaX := (b - a) / (n as real);
    var sum := SampleLoop(f, a, deltaX, n);
    LeftAt(f, a, b, n, deltaX, sum);
    return Some(sum * deltaX);
  }

  /** integrate_right */
  method IntegrateRight(f: real -> real, a: real, b: real, n: nat) returns (r: Option<real>)
    ensures n == 0 <==> r.None?
    ensures n >= 1 ==> r == Some(RightRule(f, a, b, n))
  {
    if n == 0 {
      return None;
    }
    var deltaX := (b - a) / (n as real);
    var sum := SampleLoop(f, a + deltaX, deltaX, n);
    RightAt(f, a, b, n, deltaX, sum);
    return Some(sum * deltaX);
  }

  /** integrate_middle */
  method IntegrateMiddle(f: real -> real, a: real, b: real, n: nat) returns (r: Option<real>)
    ensures n == 0 <==> r.None?
    ensures n >= 1 ==> r == Some(MiddleRule(f, a, b, n))
  {
    if n == 0 {
      return None;
    }
    var deltaX := (b - a) / (n as real);
    var sum := SampleLoop(f, a + deltaX / 2.0, deltaX, n);
    MiddleAt(f, a, b, n, deltaX, sum);
    return Some(sum * deltaX);
  }

  /** The trapezoid loop: add f(x) + f(x + d) and step x by d, k times. */
  method PairLoop(f: real -> real, start: real, d: real, k: nat) returns (sum: real)
    ensures sum == PairSum(f, start, d, k)
  {
    var x := start;
    sum := 0.0;
    for i := 0 to k
      invariant x == start + (i as real) * d
      invariant sum == PairSum(f, start, d, i)
    {
      PairSumStep(f, start, d, i, x);
      sum := sum + (f(x) + f(x + d));
      x := x + d;
    }
  }

  /** integrate_trapezoid */
  method IntegrateTrapezoid(f: real -> real, a: real, b: real, n: nat) returns (r: Option<real>)
    ensures n == 0 <==> r.None?
    ensures n >= 1 ==> r == Some(TrapezoidRule(f, a, b, n))
  {
    if n == 0 {
      return None;
    }
    var deltaX := (b - a) / (n as real);
    var sum := PairLoop(f, a, deltaX, n);
    TrapezoidAt(f, a, b, n, deltaX, sum);
    return Some(sum * deltaX / 2.0);
  }

  /** Simpson's two loops, after sum = f(x0) + f(x2n): 4 f at the odd points
      x0 + (2 i - 1) h for i in 1..=n, then 2 f at the even points x0 + 2 i h
      for i in 1..n. */
  method SimpsonLoops(f: real -> real, x0: real, h: real, n: nat, sum0: real) returns (sum: real)
    requires n >= 1
    ensures sum == sum0 + 4.0 * OddSum(f, x0, h, n) + 2.0 * EvenSum(f, x0, h, n - 1)
  {
    sum := sum0;
    for i := 1 to n + 1
      invariant sum == sum0 + 4.0 * OddSum(f, x0, h, i - 1)
    {
      var xOdd := x0 + (2.0 * (i as real) - 1.0) * h;
      OddSumStep(f, x0, h, i, xOdd);
      sum := sum + 4.0 * f(xOdd);
    }
    ghost var odd := sum;
    for i := 1 to n
      invariant sum == odd + 2.0 * EvenSum(f, x0, h, i - 1)
    {
      var xEven := x0 + 2.0 * (i as real) * h;
      EvenSumStep(f, x0, h, i, xEven);
      sum := sum + 2.0 * f(xEven);
    }
  }

  /** integreate_simpson */
  method IntegrateSimpson(f: real -> real, x0: real, x2n: real, n: nat) returns (r: Option<real>)
    ensures n == 0 <==> r.None?
    ensures n >= 1 ==> r == Some(SimpsonRule(f, x0, x2n, n))
  {
    if n == 0 {
      return None;
    }
    var h := (x2n - x0) / (2.0 * (n as real));
    var sum := SimpsonLoops(f, x0, h, n, f(x0) + f(x2n));
    SimpsonAtStep(f, x0, x2n, n, h);
    r := Some(sum * h / 3.0);
    assert r.value == SimpsonRule(f, x0, x2n, n);
  }
}
