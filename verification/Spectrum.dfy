/** What the Goertzel filter measures: the power of the frame at the probe's frequency. The exact
    filter's quadratic form is the sum of x_j x_k cos(w (j - k)) over all pairs of samples, and the
    integer filter is the exact one on samples lowered by less than one each. */
module Spectrum {
  import opened Basics
  import opened Goertzel

  // ---- the exact filter ----

  /** A product as a name, so that sums of products stay linear. */
  function Times(x: real, y: real): real {
    x * y
  }

  datatype Exact = Exact(s1: real, s2: real)

  /** The filter after the samples xs, with r = 2 cos w and no rounding. */
  function ExactRun(r: real, xs: seq<real>): Exact {
    if xs == [] then Exact(0.0, 0.0)
    else
      var st := ExactRun(r, Front(xs));
      Exact(Last(xs) + Times(r, st.s1) - st.s2, st.s1)
  }

  function ExactPower(r: real, st: Exact): real {
    st.s1 * st.s1 + st.s2 * st.s2 - r * st.s1 * st.s2
  }

  /** cos(m w) for r = 2 cos w, by the recurrence of the cosines of multiples. */
  function Cos(r: real, m: nat): real {
    if m == 0 then 1.0 else if m == 1 then r / 2.0 else r * Cos(r, m - 1) - Cos(r, m - 2)
  }

  function Gap(j: nat, k: nat): nat {
    if j < k then k - j else j - k
  }

  /** The sum of x_j x_k cos(w (j - k)) over k < n ... */
  function Row(r: real, xs: seq<real>, j: nat, n: nat): real
    requires j < |xs| && n <= |xs|
  {
    if n == 0 then 0.0 else Row(r, xs, j, n - 1) + xs[j] * xs[n - 1] * Cos(r, Gap(j, n - 1))
  }

  /** ... and over j < m as well. */
  function Rows(r: real, xs: seq<real>, m: nat, n: nat): real
    requires m <= |xs| && n <= |xs|
  {
    if m == 0 then 0.0 else Rows(r, xs, m - 1, n) + Row(r, xs, m - 1, n)
  }

  /** The power spectrum of xs at w. */
  function PowerAt(r: real, xs: seq<real>): real {
    Rows(r, xs, |xs|, |xs|)
  }

  // ---- correlation with the cosine ----

  /** The sum of x_k cos(w (top - k)) over k < n. */
  function Corr(r: real, xs: seq<real>, top: nat, n: nat): real
    requires n <= |xs| && n <= top + 1
  {
    if n == 0 then 0.0 else Corr(r, xs, top, n - 1) + xs[n - 1] * Cos(r, top - (n - 1))
  }

  lemma {:induction false} CorrPrefix(r: real, xs: seq<real>, x: real, top: nat, n: nat)
    requires n <= |xs| && n <= top + 1
    ensures Corr(r, xs + [x], top, n) == Corr(r, xs, top, n)
  {
    hide Cos;
    if n > 0 { CorrPrefix(r, xs, x, top, n - 1); }
  }

  lemma CorrStep(r: real, xs: seq<real>, top: nat, n: nat)
    requires n < |xs| && n <= top
    ensures Corr(r, xs, top, n + 1) == Corr(r, xs, top, n) + Times(xs[n], Cos(r, top - n))
  {
    hide Cos;
  }

  lemma CosNext(r: real, m: nat)
    ensures Cos(r, m + 2) == Times(r, Cos(r, m + 1)) - Cos(r, m)
    ensures Cos(r, 0) == 1.0 && Cos(r, 1) == r / 2.0
  {
  }

  lemma {:induction false} CorrNext(r: real, xs: seq<real>, top: nat, n: nat)
    requires n <= |xs| && n <= top && top >= 1
    ensures Corr(r, xs, top + 1, n) == Times(r, Corr(r, xs, top, n)) - Corr(r, xs, top - 1, n)
  {
    if n > 0 {
      CorrNext(r, xs, top, n - 1);
      CosNext(r, top - n);
      hide Corr, Cos, Times;
      CorrStep(r, xs, top + 1, n - 1);
      CorrStep(r, xs, top, n - 1);
      CorrStep(r, xs, top - 1, n - 1);
      CombineNext(r, xs[n - 1], Cos(r, top - n + 2), Cos(r, top - n + 1), Cos(r, top - n),
                  Corr(r, xs, top + 1, n - 1), Corr(r, xs, top, n - 1), Corr(r, xs, top - 1, n - 1));
    } else {
      CorrEmpty(r, xs, top + 1);
      CorrEmpty(r, xs, top);
      CorrEmpty(r, xs, top - 1);
    }
  }

  lemma CombineNext(r: real, x: real, c2: real, c1: real, c0: real, a2: real, a1: real, a0: real)
    requires c2 == Times(r, c1) - c0 && a2 == Times(r, a1) - a0
    ensures a2 + Times(x, c2) == Times(r, a1 + Times(x, c1)) - (a0 + Times(x, c0))
  {
    assert x * (r * c1 - c0) == r * (x * c1) - x * c0;
    assert r * (a1 + x * c1) == r * a1 + r * (x * c1);
  }

  lemma CorrEmpty(r: real, xs: seq<real>, top: nat)
    ensures Corr(r, xs, top, 0) == 0.0
  {
  }

  /** The state s holds the correlations a0 and a1 with the cosine, now and one sample later. */
  ghost predicate Correlates(h: real, st: Exact, a0: real, a1: real) {
    a0 == st.s1 - h * st.s2 && a1 == h * st.s1 - st.s2
  }

  lemma RunSnoc(r: real, ys: seq<real>, x: real)
    ensures ExactRun(r, ys + [x])
         == Exact(x + Times(r, ExactRun(r, ys).s1) - ExactRun(r, ys).s2, ExactRun(r, ys).s1)
  {
    var zs := ys + [x];
    assert Front(zs) == ys && Last(zs) == x;
    hide Times;
  }

  lemma FirstSample(r: real, x: real)
    ensures Correlates(r / 2.0, ExactRun(r, [x]), Corr(r, [x], 0, 1), Corr(r, [x], 1, 1))
  {
    RunSnoc(r, [], x);
    assert [] + [x] == [x];
    CosNext(r, 0);
    CorrStep(r, [x], 0, 0);
    CorrStep(r, [x], 1, 0);
    CorrEmpty(r, [x], 0);
    CorrEmpty(r, [x], 1);
    hide Corr, Cos, ExactRun;
  }

  /** The filter state holds the correlations of the samples with the cosine. */
  lemma {:induction false} StateIsCorrelation(r: real, xs: seq<real>)
    requires xs != []
    ensures Correlates(r / 2.0, ExactRun(r, xs), Corr(r, xs, |xs| - 1, |xs|), Corr(r, xs, |xs|, |xs|))
  {
    var ys, x, n := Front(xs), Last(xs), |xs| - 1;
    assert xs == ys + [x];
    if n == 0 {
      assert xs == [x];
      FirstSample(r, x);
    } else {
      StateIsCorrelation(r, ys);
      CosNext(r, 0);
      hide Corr, Cos, ExactRun, Times, Correlates;
      CorrStep(r, xs, n, n);
      CorrStep(r, xs, n + 1, n);
      CorrPrefix(r, ys, x, n, n);
      CorrPrefix(r, ys, x, n + 1, n);
      CorrNext(r, ys, n, n);
      RunSnoc(r, ys, x);
      StateAlgebra(r, r / 2.0, x, ExactRun(r, ys), Corr(r, ys, n - 1, n), Corr(r, ys, n, n));
    }
  }

  lemma StateAlgebra(r: real, h: real, x: real, st: Exact, a0: real, a1: real)
    requires h == r / 2.0 && Correlates(h, st, a0, a1)
    ensures Correlates(h, Exact(x + Times(r, st.s1) - st.s2, st.s1),
                       a1 + Times(x, 1.0), Times(r, a1) - a0 + Times(x, h))
  {
    var s1, s2 := st.s1, st.s2;
    assert r * s1 == h * s1 + h * s1;
    assert r * a1 == r * (h * s1) - r * s2 && r * s2 == h * s2 + h * s2;
    assert h * (x + r * s1 - s2) == x * h + h * (r * s1) - h * s2;
    assert h * (r * s1) == r * (h * s1);
  }

  // ---- the power spectrum ----

  lemma RowStep(r: real, xs: seq<real>, j: nat, n: nat)
    requires j < |xs| && n < |xs|
    ensures Row(r, xs, j, n + 1) == Row(r, xs, j, n) + Times(xs[j], Times(xs[n], Cos(r, Gap(j, n))))
  {
    hide Cos;
    assert xs[j] * xs[n] * Cos(r, Gap(j, n)) == xs[j] * (xs[n] * Cos(r, Gap(j, n)));
  }

  lemma RowsStep(r: real, xs: seq<real>, m: nat, n: nat)
    requires m < |xs| && n <= |xs|
    ensures Rows(r, xs, m + 1, n) == Rows(r, xs, m, n) + Row(r, xs, m, n)
    ensures Rows(r, xs, 0, n) == 0.0
  {
    hide Row;
  }

  lemma {:induction false} RowPrefix(r: real, xs: seq<real>, x: real, j: nat, n: nat)
    requires j < |xs| && n <= |xs|
    ensures Row(r, xs + [x], j, n) == Row(r, xs, j, n)
  {
    hide Cos;
    if n > 0 { RowPrefix(r, xs, x, j, n - 1); }
  }

  lemma Swap(x: real, y: real, c: real, a: real)
    ensures Times(y, Times(x, c)) == Times(x, Times(y, c))
    ensures Times(x, a) + Times(x, Times(y, c)) == Times(x, a + Times(y, c))
    ensures Times(x, 0.0) == 0.0
  {
    assert y * (x * c) == x * (y * c);
    assert x * (a + y * c) == x * a + x * (y * c);
  }

  /** The rows of the earlier samples each gain a term for the new one. */
  lemma {:induction false} RowsGain(r: real, xs: seq<real>, x: real, m: nat)
    requires m <= |xs|
    ensures Rows(r, xs + [x], m, |xs| + 1) == Rows(r, xs, m, |xs|) + Times(x, Corr(r, xs, |xs|, m))
  {
    var zs, n := xs + [x], |xs|;
    if m == 0 {
      CorrEmpty(r, xs, n);
      Swap(x, 0.0, 0.0, 0.0);
    } else {
      RowsGain(r, xs, x, m - 1);
      hide Rows, Row, Corr, Cos, Times;
      RowsStep(r, zs, m - 1, n + 1);
      RowsStep(r, xs, m - 1, n);
      RowStep(r, zs, m - 1, n);
      RowPrefix(r, xs, x, m - 1, n);
      CorrStep(r, xs, n, m - 1);
      Swap(x, xs[m - 1], Cos(r, n - (m - 1)), Corr(r, xs, n, m - 1));
    }
  }

  /** The row of the new sample. */
  lemma {:induction false} NewRow(r: real, xs: seq<real>, x: real, k: nat)
    requires k <= |xs|
    ensures Row(r, xs + [x], |xs|, k) == Times(x, Corr(r, xs, |xs|, k))
  {
    var zs, n := xs + [x], |xs|;
    if k == 0 {
      CorrEmpty(r, xs, n);
      Swap(x, 0.0, 0.0, 0.0);
    } else {
      NewRow(r, xs, x, k - 1);
      hide Row, Corr, Cos, Times;
      RowStep(r, zs, n, k - 1);
      CorrStep(r, xs, n, k - 1);
      Swap(x, xs[k - 1], Cos(r, n - (k - 1)), Corr(r, xs, n, k - 1));
    }
  }

  lemma PowerAtSnoc(r: real, xs: seq<real>, x: real)
    ensures PowerAt(r, xs + [x])
         == PowerAt(r, xs) + Times(x, Corr(r, xs, |xs|, |xs|)) + Times(x, Corr(r, xs, |xs|, |xs|)) + Times(x, x)
  {
    var zs, n := xs + [x], |xs|;
    hide Rows, Row, Corr, Cos;
    RowsStep(r, zs, n, n + 1);
    RowsGain(r, xs, x, n);
    RowStep(r, zs, n, n);
    NewRow(r, xs, x, n);
    CosNext(r, 0);
    assert Times(x, Times(x, 1.0)) == Times(x, x);
  }

  lemma ExactPowerStep(r: real, x: real, st: Exact, a1: real)
    requires a1 == Times(r / 2.0, st.s1) - st.s2
    ensures ExactPower(r, Exact(x + Times(r, st.s1) - st.s2, st.s1))
         == ExactPower(r, st) + Times(x, a1) + Times(x, a1) + Times(x, x)
  {
    var (s1, s2) := (st.s1, st.s2);
    var t := r * s1 - s2;
    assert Times(x, a1) + Times(x, a1) == x * (r * s1 - 2.0 * s2);
    assert (x + t) * (x + t) == x * x + 2.0 * (x * t) + t * t;
    assert r * (x + t) * s1 == (x + t) * (r * s1) == x * (r * s1) + t * (r * s1);
    assert t * t - t * (r * s1) == -(t * s2);
    assert t * s2 == r * s1 * s2 - s2 * s2;
  }

  /** The quadratic form of the exact filter is the power spectrum: the sum of x_j x_k cos(w (j - k))
      over all pairs of samples. */
  lemma {:induction false} ExactPowerIsSpectrum(r: real, xs: seq<real>)
    ensures ExactPower(r, ExactRun(r, xs)) == PowerAt(r, xs)
  {
    if xs != [] {
      var ys, x := Front(xs), Last(xs);
      assert xs == ys + [x];
      ExactPowerIsSpectrum(r, ys);
      RunSnoc(r, ys, x);
      PowerAtSnoc(r, ys, x);
      CorrOfState(r, ys);
      hide ExactPower, PowerAt, Corr, ExactRun, Times;
      ExactPowerStep(r, x, ExactRun(r, ys), Corr(r, ys, |ys|, |ys|));
    } else {
      hide *;
      NothingMeasured(r);
    }
  }

  lemma NothingMeasured(r: real)
    ensures ExactPower(r, ExactRun(r, [])) == PowerAt(r, []) == 0.0
  {
  }

  lemma CorrOfState(r: real, xs: seq<real>)
    ensures Corr(r, xs, |xs|, |xs|) == Times(r / 2.0, ExactRun(r, xs).s1) - ExactRun(r, xs).s2
  {
    if xs != [] { StateIsCorrelation(r, xs); } else { CorrEmpty(r, xs, 0); }
    hide Corr, Cos;
  }

  // ---- the integer filter ----

  /** Samples lowered by less than one each: what the roundings of the filter amount to. */
  ghost predicate Lowered(ys: seq<real>, xs: seq<int>) {
    |ys| == |xs| && forall i :: 0 <= i < |xs| ==> xs[i] as real - 1.0 < ys[i] <= xs[i] as real
  }

  lemma RoundedStep(q: int, s1: int) returns (rest: real)
    ensures 0.0 <= rest < 1.0
    ensures Shift15(q * s1) as real == Times(q as real / 32768.0, s1 as real) - rest
  {
    var g := q * s1;
    assert g == 32768 * Shift15(g) + g % 32768;
    rest := (g % 32768) as real / 32768.0;
    assert g as real == 32768.0 * Shift15(g) as real + (g % 32768) as real;
    assert (q * s1) as real == q as real * s1 as real;
    assert q as real / 32768.0 * s1 as real == q as real * s1 as real / 32768.0;
  }

  /** The integer filter is the exact one on lowered samples. */
  lemma {:induction false} IntegerRunIsExact(q: int, xs: seq<int>) returns (ys: seq<real>)
    ensures Lowered(ys, xs)
    ensures var (st, ex) := (Run(q, xs), ExactRun(q as real / 32768.0, ys));
            st.s1 as real == ex.s1 && st.s2 as real == ex.s2
  {
    ys := [];
    if xs != [] {
      var front := IntegerRunIsExact(q, Front(xs));
      var st, x, r := Run(q, Front(xs)), Last(xs), q as real / 32768.0;
      var rest := RoundedStep(q, st.s1);
      ys := front + [x as real - rest];
      RunSnoc(r, front, x as real - rest);
      hide Times, ExactRun;
      assert Run(q, xs).s1 == x + Shift15(q * st.s1) - st.s2;
    }
  }

  /** What a probe measures: up to the magnitude of the older state value, its rounded power is the
      power spectrum, at the frequency of its coefficient, of samples lowered by less than one. */
  lemma {:induction false} ProbeMeasuresSpectrum(q: int, xs: seq<int>) returns (ys: seq<real>)
    ensures Lowered(ys, xs)
    ensures var d := Power(q, Run(q, xs)) as real - PowerAt(q as real / 32768.0, ys);
            -(Abs(Run(q, xs).s2) as real) <= d <= Abs(Run(q, xs).s2) as real
  {
    ys := IntegerRunIsExact(q, xs);
    var (st, r) := (Run(q, xs), q as real / 32768.0);
    ExactPowerIsSpectrum(r, ys);
    var rest := RoundedStep(q, st.s1);
    hide Run, ExactRun, PowerAt, Lowered;
    PowerGap(q, st, r, rest);
  }

  lemma PowerGap(q: int, st: State, r: real, rest: real)
    requires 0.0 <= rest < 1.0 && Shift15(q * st.s1) as real == Times(r, st.s1 as real) - rest
    ensures var d := Power(q, st) as real - ExactPower(r, Exact(st.s1 as real, st.s2 as real));
            -(Abs(st.s2) as real) <= d <= Abs(st.s2) as real
  {
    var s1, s2, m := st.s1 as real, st.s2 as real, Shift15(q * st.s1) as real;
    PowerAsReal(q, st);
    Lost(Times(r, s1), rest, s2);
    LostBound(rest, st.s2);
    hide Power, Times, Shift15;
  }

  lemma PowerAsReal(q: int, st: State)
    ensures var (s1, s2) := (st.s1 as real, st.s2 as real);
            && Power(q, st) as real == Times(s1, s1) + Times(s2, s2) - Times(Shift15(q * st.s1) as real, s2)
            && forall r :: ExactPower(r, Exact(s1, s2)) == Times(s1, s1) + Times(s2, s2) - Times(Times(r, s1), s2)
  {
    var m := Shift15(q * st.s1);
    assert (st.s1 * st.s1) as real == st.s1 as real * st.s1 as real;
    assert (st.s2 * st.s2) as real == st.s2 as real * st.s2 as real;
    assert (m * st.s2) as real == m as real * st.s2 as real;
  }

  lemma Lost(m: real, rest: real, s2: real)
    ensures Times(m - rest, s2) == Times(m, s2) - Times(rest, s2)
  {
  }

  lemma LostBound(rest: real, s2: int)
    requires 0.0 <= rest < 1.0
    ensures -(Abs(s2) as real) <= Times(rest, s2 as real) <= Abs(s2) as real
  {
    UnitTimes(rest, Abs(s2) as real);
    if s2 < 0 { assert Times(rest, s2 as real) == -Times(rest, Abs(s2) as real); }
  }

  lemma UnitTimes(rest: real, n: real)
    requires 0.0 <= rest < 1.0 && n >= 0.0
    ensures 0.0 <= Times(rest, n) <= n
  {
    NonNegTimes(rest, n);
    NonNegTimes(1.0 - rest, n);
    Lost(1.0, rest, n);
  }

  lemma NonNegTimes(x: real, y: real)
    requires x >= 0.0 && y >= 0.0
    ensures Times(x, y) >= 0.0 && Times(1.0, y) == y
  {
  }
}
