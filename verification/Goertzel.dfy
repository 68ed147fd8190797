/** The arithmetic of the integer Goertzel filter: what one sample does to the filter state,
    and why the state grows only quadratically whatever the input. */
module Goertzel {
  import opened Basics

  /** Filter state after some samples; Q15 coefficients are divided by 32768. */
  datatype State = State(s1: int, s2: int)

  /** An arithmetic shift right by 15. */
  function Shift15(x: int): int {
    x / 32768
  }

  function Step(q: int, st: State, x: int): State {
    State(x + Shift15(q * st.s1) - st.s2, st.s1)
  }

  /** The state after the samples xs. */
  function Run(q: int, xs: seq<int>): State {
    if xs == [] then State(0, 0) else Step(q, Run(q, Front(xs)), Last(xs))
  }

  /** Goertzel power, before it is clamped at 0. */
  function Power(q: int, st: State): int {
    st.s1 * st.s1 + st.s2 * st.s2 - Shift15(q * st.s1) * st.s2
  }

  predicate CoeffInRange(q: int) {
    -65536 <= q <= 65536
  }

  /** 32768 times the quadratic form a^2 + b^2 - c*a*b, with c = q / 32768. */
  function Form(q: int, a: int, b: int): int {
    32768 * (a * a + b * b) - q * a * b
  }

  lemma SquareBound(z: int, b: int)
    requires b >= 0 && z * z <= b * b
    ensures -b <= z <= b
  {
    SquareStrict(z, b);
  }

  lemma SquareStrict(z: int, b: int)
    requires b >= 0
    ensures z > b || z < -b ==> z * z > b * b
  {
    if z > b {
      StrictProduct(z, b);
    } else if z < -b {
      StrictProduct(-z, b);
      assert (-z) * (-z) == z * z;
    }
  }

  lemma StrictProduct(z: int, b: int)
    requires z > b >= 0
    ensures z * z > b * b
  {
    assert z * z == z * b + z * (z - b);
    assert z * b == b * b + (z - b) * b;
    NonNegProduct(z - b, b);
    assert z * (z - b) > 0;
  }

  /** A form bounded by 32768*b^2 bounds 2a - c*b' by 2b, scaled. */
  lemma FormBoundsSkew(q: int, a: int, a': int, b: int)
    requires CoeffInRange(q) && b >= 0 && Form(q, a, a') <= 32768 * (b * b)
    ensures -65536 * b <= 65536 * a - q * a' <= 65536 * b
  {
    var z := 65536 * a - q * a';
    FormAsSquare(q, a, a');
    assert q * q <= 65536 * 65536 by { SquareMonotone(q, 65536); }
    var rest := (65536 * 65536 - q * q) * (a' * a');
    assert rest >= 0 by { NonNegProduct(65536 * 65536 - q * q, a' * a'); }
    assert z * z <= (65536 * b) * (65536 * b) by {
      assert (65536 * b) * (65536 * b) == 131072 * (32768 * (b * b));
    }
    SquareBound(z, 65536 * b);
  }

  lemma NonNegProduct(x: int, y: int)
    requires x >= 0 && y >= 0
    ensures x * y >= 0
  {
  }

  lemma SquareMonotone(x: int, b: int)
    requires -b <= x <= b
    ensures x * x <= b * b && x * x >= 0
  {
    if x >= 0 {
      assert x * x <= b * x <= b * b;
    } else {
      assert (-x) * (-x) <= b * (-x) <= b * b;
    }
  }

  /** Completing the square. */
  lemma FormAsSquare(q: int, a: int, a': int)
    ensures 131072 * Form(q, a, a')
         == (65536 * a - q * a') * (65536 * a - q * a') + (65536 * 65536 - q * q) * (a' * a')
  {
    var z := 65536 * a - q * a';
    assert z * z == 65536 * 65536 * (a * a) - 131072 * (q * a * a') + (q * q) * (a' * a') by {
      SquareOfDifference(65536 * a, q * a');
      assert (65536 * a) * (q * a') == 65536 * (q * a * a') by { Regroup(a, q, a'); }
      assert (q * a') * (q * a') == (q * q) * (a' * a') by { SquareOfProduct(q, a'); }
    }
    assert (65536 * 65536 - q * q) * (a' * a') == 65536 * 65536 * (a' * a') - (q * q) * (a' * a') by {
      DistributeMinus(65536 * 65536, q * q, a' * a');
    }
  }

  lemma SquareOfDifference(x: int, y: int)
    ensures (x - y) * (x - y) == x * x - 2 * (x * y) + y * y
  {
  }

  lemma SquareOfProduct(x: int, y: int)
    ensures (x * y) * (x * y) == (x * x) * (y * y)
  {
    assert (x * y) * (x * y) == x * (y * (x * y));
    assert y * (x * y) == x * (y * y);
    assert x * (x * (y * y)) == (x * x) * (y * y);
  }

  lemma Regroup(a: int, q: int, b: int)
    ensures a * (q * b) == q * a * b
  {
    assert a * q == q * a;
  }

  lemma DistributeMinus(x: int, y: int, z: int)
    ensures (x - y) * z == x * z - y * z
  {
  }

  /** Rotation: without input and rounding the form does not change. `u` is 32768 times the
      unrounded next value. */
  lemma FormRotates(q: int, s1: int, s2: int, u: int)
    requires u == q * s1 - 32768 * s2
    ensures u * u + 32768 * 32768 * (s1 * s1) - q * u * s1 == 32768 * Form(q, s1, s2)
  {
    assert u * u - q * u * s1 == u * (u - q * s1) by {
      assert q * u * s1 == u * (q * s1) by { Regroup(u, q, s1); }
      assert u * (u - q * s1) == u * u - u * (q * s1);
    }
    assert u * (u - q * s1) == u * (-32768 * s2);
    assert u * (-32768 * s2) == -32768 * (u * s2);
    assert u * s2 == q * s1 * s2 - 32768 * (s2 * s2) by {
      DistributeMinus(q * s1, 32768 * s2, s2);
    }
  }

  lemma ScaledForm(q: int, s0: int, s1: int, v: int)
    requires v == 32768 * s0
    ensures 32768 * Form(q, s0, s1) == v * v + 32768 * 32768 * (s1 * s1) - q * v * s1
  {
    assert v * v == 32768 * 32768 * (s0 * s0);
    assert q * v == 32768 * (q * s0);
    assert q * v * s1 == 32768 * (q * s0 * s1);
  }

  /** The square and the mixed term of a sum, expanded. */
  lemma ExpandSum(q: int, s1: int, u: int, w: int)
    ensures (u + w) * (u + w) - q * (u + w) * s1 == u * u - q * u * s1 + w * (2 * u - q * s1) + w * w
  {
    assert q * (u + w) * s1 == q * u * s1 + q * w * s1 by {
      assert q * (u + w) == q * u + q * w;
      DistributePlus(q * u, q * w, s1);
    }
    assert w * (2 * u - q * s1) == 2 * (u * w) - q * w * s1 by {
      Regroup(w, q, s1);
      DistributeMinus(2 * u, q * s1, w);
      assert (2 * u) * w == 2 * (u * w);
    }
    assert (u + w) * (u + w) == u * u + 2 * (u * w) + w * w;
  }

  lemma DistributePlus(x: int, y: int, z: int)
    ensures (x + y) * z == x * z + y * z
  {
  }

  /** The form after a step that adds `w` (input and rounding, scaled) to the rotation. */
  lemma FormAfter(q: int, s0: int, s1: int, s2: int, u: int, w: int)
    requires u == q * s1 - 32768 * s2 && 32768 * s0 == u + w
    ensures 32768 * Form(q, s0, s1) == 32768 * Form(q, s1, s2) + w * (2 * u - q * s1) + w * w
  {
    hide Form;
    FormRotates(q, s1, s2, u);
    ScaledForm(q, s0, s1, u + w);
    ExpandSum(q, s1, u, w);
  }

  lemma ProductBound(w: int, z: int, m: int, b: int)
    requires -m <= w <= m && -b <= z <= b
    ensures w * z <= m * b
  {
    if w >= 0 {
      assert w * z <= w * b <= m * b;
    } else {
      assert w * z <= (-w) * b by { assert (-w) * (-z) <= (-w) * b; }
      assert (-w) * b <= m * b;
    }
  }

  /** One sample of magnitude at most `amp` raises the root of the form by at most amp + 1. */
  lemma {:induction false} FormGrows(q: int, st: State, x: int, amp: int, b: int)
    requires CoeffInRange(q) && b >= 0 && amp >= 0 && -amp <= x <= amp
    requires Form(q, st.s1, st.s2) <= 32768 * (b * b)
    ensures Form(q, Step(q, st, x).s1, st.s1) <= 32768 * ((b + amp + 1) * (b + amp + 1))
  {
    var s0, g, m := Step(q, st, x).s1, q * st.s1, 32768 * (amp + 1);
    var u, w := g - 32768 * st.s2, 32768 * x - g % 32768;
    assert g == 32768 * Shift15(g) + g % 32768;
    assert 32768 * s0 == u + w;
    FormAfter(q, s0, st.s1, st.s2, u, w);
    SkewOfRotation(q, st, b, u);
    assert -m <= w <= m;
    ProductBound(w, 2 * u - g, m, 65536 * b);
    SquareMonotone(w, m);
    GrowthAlgebra(b, amp + 1);
  }

  /** The skew of the rotated state is bounded by the same form. */
  lemma SkewOfRotation(q: int, st: State, b: int, u: int)
    requires CoeffInRange(q) && b >= 0 && Form(q, st.s1, st.s2) <= 32768 * (b * b)
    requires u == q * st.s1 - 32768 * st.s2
    ensures -65536 * b <= 2 * u - q * st.s1 <= 65536 * b
  {
    FormSymmetric(q, st.s1, st.s2);
    FormBoundsSkew(q, st.s2, st.s1, b);
  }

  lemma FormSymmetric(q: int, a: int, b: int)
    ensures Form(q, a, b) == Form(q, b, a)
  {
    assert q * a * b == q * b * a by { Regroup(b, q, a); Regroup(a, q, b); assert a * (q * b) == (q * b) * a; }
  }

  lemma GrowthAlgebra(b: int, d: int)
    ensures 32768 * (32768 * (b * b)) + (32768 * d) * (65536 * b) + (32768 * d) * (32768 * d)
         == 32768 * (32768 * ((b + d) * (b + d)))
  {
    assert (32768 * d) * (65536 * b) == 32768 * 65536 * (b * d);
    assert (32768 * d) * (32768 * d) == 32768 * 32768 * (d * d);
    assert (b + d) * (b + d) == b * b + 2 * (b * d) + d * d;
  }

  /** A bounded form bounds the newer value by the older one plus the bound. */
  lemma FormBoundsValue(q: int, a: int, a': int, b: int)
    requires CoeffInRange(q) && b >= 0 && Form(q, a, a') <= 32768 * (b * b)
    ensures Abs(a) <= b + Abs(a')
  {
    FormBoundsSkew(q, a, a', b);
    ProductBound(q, a', 65536, Abs(a'));
    ProductBound(-q, a', 65536, Abs(a'));
    assert (-q) * a' == -(q * a');
  }

  function Abs(x: int): (r: int)
    ensures r >= 0
  {
    if x < 0 then -x else x
  }

  /** Bound on the root of the form after n samples. */
  function RootBound(amp: nat, n: nat): nat {
    n * (amp + 1)
  }

  /** Bound on the state after n samples: the sum of the root bounds. */
  function StateBound(amp: nat, n: nat): nat {
    if n == 0 then 0 else StateBound(amp, n - 1) + RootBound(amp, n)
  }

  lemma {:induction false} StateBoundClosed(amp: nat, n: nat)
    ensures 2 * StateBound(amp, n) == (amp + 1) * (n * (n + 1))
  {
    if n > 0 {
      StateBoundClosed(amp, n - 1);
      ClosedStep(amp + 1, n);
    }
  }

  lemma ClosedStep(d: int, n: int)
    ensures d * ((n - 1) * n) + 2 * (n * d) == d * (n * (n + 1))
  {
    assert n * (n + 1) == (n - 1) * n + 2 * n;
    assert d * ((n - 1) * n + 2 * n) == d * ((n - 1) * n) + d * (2 * n);
    assert d * (2 * n) == 2 * (n * d);
  }

  predicate Amplitude(xs: seq<int>, amp: nat) {
    forall i :: 0 <= i < |xs| ==> 0 <= xs[i] + amp && xs[i] <= amp
  }

  /** For every input of bounded amplitude and every coefficient 2*cos in range, the filter
      state stays within a bound quadratic in the number of samples. */
  lemma {:induction false} RunBounded(q: int, xs: seq<int>, amp: nat)
    requires CoeffInRange(q) && Amplitude(xs, amp)
    ensures var st := Run(q, xs);
            && Form(q, st.s1, st.s2) <= 32768 * (RootBound(amp, |xs|) * RootBound(amp, |xs|))
            && Abs(st.s1) <= StateBound(amp, |xs|) && Abs(st.s2) <= StateBound(amp, |xs|)
    decreases |xs|
  {
    if xs != [] {
      var n, b, prev := |xs|, RootBound(amp, |xs| - 1), Run(q, Front(xs));
      RunBounded(q, Front(xs), amp);
      FormGrows(q, prev, Last(xs), amp, b);
      assert n * (amp + 1) == (n - 1) * (amp + 1) + (amp + 1);
      assert RootBound(amp, n) == b + amp + 1;
      FormBoundsValue(q, Run(q, xs).s1, prev.s1, RootBound(amp, n));
    }
  }

  /** The rounded power never falls below -|s2|. */
  lemma {:induction false} PowerFloor(q: int, st: State)
    requires CoeffInRange(q)
    ensures Power(q, st) >= -Abs(st.s2)
  {
    var g := q * st.s1;
    assert g == 32768 * Shift15(g) + g % 32768;
    FormNonNeg(q, st.s1, st.s2);
    assert 32768 * Power(q, st) == Form(q, st.s1, st.s2) + (g % 32768) * st.s2 by {
      assert 32768 * (Shift15(g) * st.s2) == (g - g % 32768) * st.s2;
      DistributeMinus(g, g % 32768, st.s2);
    }
    ProductBound(g % 32768, -st.s2, 32768, Abs(st.s2));
    assert (g % 32768) * -st.s2 == -((g % 32768) * st.s2);
  }

  lemma FormNonNeg(q: int, a: int, b: int)
    requires CoeffInRange(q)
    ensures Form(q, a, b) >= 0
  {
    FormAsSquare(q, a, b);
    SquareMonotone(q, 65536);
    NonNegProduct(65536 * 65536 - q * q, b * b);
    SquareMonotone(65536 * a - q * b, Abs(65536 * a - q * b));
  }
}
