/** Finite sums over reals, the arithmetic every loop of the library accumulates
    with a running `sum` variable.  Sums run over index ranges `lo..hi` and add
    their terms in increasing index order, as the loops do. */
module Sums {

  /** `f64::abs`. */
  function Abs(x: real): (r: real)
    ensures r >= 0.0
    ensures r == x || r == -x
    ensures r == 0.0 <==> x == 0.0
  {
    if x < 0.0 then -x else x
  }

  /** `f64::max`. */
  function Max(x: real, y: real): (r: real)
    ensures r >= x && r >= y
    ensures r == x || r == y
  {
    if x >= y then x else y
  }

  /** sum of s[lo..hi] */
  function Sum(s: seq<real>, lo: nat, hi: nat): real
    requires hi <= |s|
    decreases hi
  {
    if hi <= lo then 0.0 else Sum(s, lo, hi - 1) + s[hi - 1]
  }

  /** sum of u[k] * v[k] for k in lo..hi */
  function Dot(u: seq<real>, v: seq<real>, lo: nat, hi: nat): real
    requires hi <= |u| && hi <= |v|
    decreases hi
  {
    if hi <= lo then 0.0 else Dot(u, v, lo, hi - 1) + u[hi - 1] * v[hi - 1]
  }

  /** sum of |s[k]| for k in 0..hi */
  function AbsSum(s: seq<real>, hi: nat): real
    requires hi <= |s|
  {
    if hi == 0 then 0.0 else AbsSum(s, hi - 1) + Abs(s[hi - 1])
  }

  lemma {:induction false} AbsSumNonNegative(s: seq<real>, hi: nat)
    requires hi <= |s|
    ensures AbsSum(s, hi) >= 0.0
  {
    if hi > 0 {
      AbsSumNonNegative(s, hi - 1);
    }
  }

  /** A sum splits at any point of its range. */
  lemma {:induction false} DotSplit(u: seq<real>, v: seq<real>, lo: nat, mid: nat, hi: nat)
    requires lo <= mid <= hi <= |u| && hi <= |v|
    ensures Dot(u, v, lo, hi) == Dot(u, v, lo, mid) + Dot(u, v, mid, hi)
    decreases hi
  {
    if hi > mid {
      DotSplit(u, v, lo, mid, hi - 1);
    }
  }

  lemma {:induction false} SumSplit(s: seq<real>, lo: nat, mid: nat, hi: nat)
    requires lo <= mid <= hi <= |s|
    ensures Sum(s, lo, hi) == Sum(s, lo, mid) + Sum(s, mid, hi)
    decreases hi
  {
    if hi > mid {
      SumSplit(s, lo, mid, hi - 1);
    }
  }

  /** A sum reads only its own range. */
  lemma {:induction false} DotFrame(u: seq<real>, v: seq<real>, u': seq<real>, v': seq<real>, lo: nat, hi: nat)
    requires hi <= |u| && hi <= |v| && hi <= |u'| && hi <= |v'|
    requires forall k :: lo <= k < hi ==> u[k] == u'[k] && v[k] == v'[k]
    ensures Dot(u, v, lo, hi) == Dot(u', v', lo, hi)
    decreases hi
  {
    if hi > lo {
      DotFrame(u, v, u', v', lo, hi - 1);
    }
  }

  /** Terms that vanish contribute nothing. */
  lemma {:induction false} DotZero(u: seq<real>, v: seq<real>, lo: nat, hi: nat)
    requires hi <= |u| && hi <= |v|
    requires forall k :: lo <= k < hi ==> u[k] == 0.0 || v[k] == 0.0
    ensures Dot(u, v, lo, hi) == 0.0
    decreases hi
  {
    if hi > lo {
      DotZero(u, v, lo, hi - 1);
    }
  }

  /** A sum whose terms vanish except at i is that one term. */
  lemma {:induction false} DotPick(u: seq<real>, v: seq<real>, i: nat, lo: nat, hi: nat)
    requires lo <= i < hi <= |u| && hi <= |v|
    requires forall k :: lo <= k < hi && k != i ==> u[k] == 0.0 || v[k] == 0.0
    ensures Dot(u, v, lo, hi) == u[i] * v[i]
  {
    DotSplit(u, v, lo, i, hi);
    DotZero(u, v, lo, i);
    DotSplit(u, v, i, i + 1, hi);
    DotZero(u, v, i + 1, hi);
  }

  /** Against a unit vector a sum picks out one term. */
  lemma {:induction false} DotUnit(u: seq<real>, e: seq<real>, i: nat, lo: nat, hi: nat)
    requires hi <= |u| && hi <= |e|
    requires forall k :: lo <= k < hi ==> e[k] == (if k == i then 1.0 else 0.0)
    ensures Dot(u, e, lo, hi) == (if lo <= i < hi then u[i] else 0.0)
    decreases hi
  {
    if hi > lo {
      DotUnit(u, e, i, lo, hi - 1);
    }
  }

  lemma {:induction false} DotCommutes(u: seq<real>, v: seq<real>, lo: nat, hi: nat)
    requires hi <= |u| && hi <= |v|
    ensures Dot(u, v, lo, hi) == Dot(v, u, lo, hi)
    decreases hi
  {
    if hi > lo {
      DotCommutes(u, v, lo, hi - 1);
    }
  }

  /** Linearity in the first argument: w = alpha * u + beta * u'. */
  lemma {:induction false} DotLinear(w: seq<real>, u: seq<real>, u': seq<real>, alpha: real, beta: real,
                                     x: seq<real>, lo: nat, hi: nat)
    requires hi <= |w| && hi <= |u| && hi <= |u'| && hi <= |x|
    requires forall k :: lo <= k < hi ==> w[k] == alpha * u[k] + beta * u'[k]
    ensures Dot(w, x, lo, hi) == alpha * Dot(u, x, lo, hi) + beta * Dot(u', x, lo, hi)
    decreases hi
  {
    if hi > lo {
      DotLinear(w, u, u', alpha, beta, x, lo, hi - 1);
      assert w[hi - 1] * x[hi - 1] == alpha * (u[hi - 1] * x[hi - 1]) + beta * (u'[hi - 1] * x[hi - 1]);
    }
  }

  /** Linearity in the second argument: w = alpha * v + beta * v'. */
  lemma {:induction false} DotLinearRight(x: seq<real>, w: seq<real>, v: seq<real>, v': seq<real>, alpha: real, beta: real,
                       lo: nat, hi: nat)
    requires hi <= |w| && hi <= |v| && hi <= |v'| && hi <= |x|
    requires forall k :: lo <= k < hi ==> w[k] == alpha * v[k] + beta * v'[k]
    ensures Dot(x, w, lo, hi) == alpha * Dot(x, v, lo, hi) + beta * Dot(x, v', lo, hi)
  {
    DotCommutes(x, w, lo, hi);
    DotCommutes(x, v, lo, hi);
    DotCommutes(x, v', lo, hi);
    DotLinear(w, v, v', alpha, beta, x, lo, hi);
  }

  /** Scaling every term of the first argument scales the sum. */
  lemma {:induction false} DotScale(w: seq<real>, u: seq<real>, c: real, x: seq<real>, lo: nat, hi: nat)
    requires hi <= |w| && hi <= |u| && hi <= |x|
    requires forall k :: lo <= k < hi ==> w[k] == c * u[k]
    ensures Dot(w, x, lo, hi) == c * Dot(u, x, lo, hi)
  {
    DotLinear(w, u, u, c, 0.0, x, lo, hi);
  }
}
