/** The C detector on 64-bit integers. Every operation on an int64 is checked to stay in
    range, so that these methods verify at all is the claim that nothing overflows. */
module Detector {
  import opened Basics
  import opened Goertzel
  import opened DetectorSpec

  const LIMIT := 0x4000_0000

  /** The configurations for which nothing overflows, whatever the input. */
  ghost predicate Safe(cfg: Config) {
    && cfg.sampleRate > 0
    && cfg.toneFreqHz as int + cfg.toneBandHz as int < 0x1_0000_0000
    && cfg.inputShift < 32
    && StateBound(Amp(cfg.inputShift as int), cfg.frameSamples as int) <= LIMIT
    && EnergyBound(cfg, cfg.frameSamples as int) < 0x8000_0000_0000_0000
    && EnergyBound(cfg, cfg.frameSamples as int) * cfg.toneRatioMin as int < 0x8000_0000_0000_0000
  }

  ghost function EnergyBound(cfg: Config, n: nat): nat {
    n * (Amp(cfg.inputShift as int) * Amp(cfg.inputShift as int))
  }

  lemma DefaultIsSafe()
    ensures Safe(DEFAULT_CONFIG)
  {
    assert Pow2(6) == 64;
    StateBoundClosed(513, 256);
  }

  // ---- coefficients ----

  /** The squared angle on [0, pi/2], in Q28. */
  lemma SquaredAngle(a: int)
    requires 0 <= a <= HALF_PI_Q28
    ensures 0 <= a * a <= HALF_PI_Q28 * HALF_PI_Q28
    ensures 0 <= a * a / Q28_ONE <= 662348000
  {
    SquareMonotone(a, HALF_PI_Q28);
  }

  lemma HigherPowers(x2: int)
    requires 0 <= x2 <= 662348000
    ensures 0 <= x2 * x2 <= 662348000 * 662348000
    ensures var t := x2 * x2 / Q28_ONE;
            0 <= t <= 1634304000 && t <= 3 * x2 && 0 <= t * x2 <= 1634304000 * 662348000
  {
    SquareMonotone(x2, 662348000);
    ProductBound(x2, x2, 662348000, x2);
    var t := x2 * x2 / Q28_ONE;
    ProductBound(t, x2, 1634304000, 662348000);
    NonNegProduct(t, x2);
  }

  /** The Taylor sum stays in [-1, 1]: the fourth-order term is below the second-order one. */
  lemma TaylorRange(a: int)
    requires 0 <= a <= HALF_PI_Q28
    ensures -Q28_ONE <= Taylor(a) <= Q28_ONE
  {
    SquaredAngle(a);
    HigherPowers(a * a / Q28_ONE);
  }

  /** The fixed-point cosine never leaves [-1, 1]. */
  lemma {:induction false} CosRange(a: int)
    ensures -Q28_ONE <= CosQ28(a) <= Q28_ONE
  {
    TaylorRange(FoldAngle(a).0);
  }

  lemma {:induction false} CoeffRange(f: int, fs: int)
    requires fs > 0
    ensures CoeffInRange(CoeffQ15(f, fs))
  {
    CosRange(TruncDiv(TWO_PI_Q28 * f, fs));
  }

  /** C remainder, on a machine whose only other operations are in range. */
  method Remainder(a: int64, b: int64) returns (r: int64)
    requires b > 0
    ensures r as int == TruncRem(a as int, b as int)
  {
    TruncRemRange(a as int, b as int);
    r := a % b;
    if a < 0 && r > 0 { r := r - b; }
  }

  /** The folding half: `flip` is the C code's sign of -1. */
  method Fold(angle: int64) returns (a: int64, flip: bool)
    ensures (a as int, flip) == FoldAngle(angle as int)
  {
    hide TruncRem;
    TruncRemRange(angle as int, TWO_PI_Q28);
    a := Remainder(angle, 1686629714);
    if a < 0 { a := a + 1686629714; }
    if a > 843314857 { a := 1686629714 - a; }
    flip := a > 421657428;
    if flip { a := 843314857 - a; }
  }

  /** The Taylor half, on a folded angle. */
  method TaylorSum(a: int64) returns (acc: int64)
    requires 0 <= a as int <= HALF_PI_Q28
    ensures acc as int == Taylor(a as int)
  {
    SquaredAngle(a as int);
    HigherPowers(a as int * a as int / Q28_ONE);
    var x2 := a * a / 268435456;
    acc := 268435456;
    acc := acc - x2 / 2;
    var t := x2 * x2 / 268435456;
    acc := acc + t / 24;
    t := t * x2 / 268435456;
    acc := acc - t / 720;
  }

  method Cosine(angle: int64) returns (c: int64)
    ensures c as int == CosQ28(angle as int)
  {
    hide FoldAngle, Taylor;
    var a, flip := Fold(angle);
    TaylorRange(a as int);
    var acc := TaylorSum(a);
    c := if flip then -acc else acc;
  }

  lemma ThetaRange(f: int, fs: int)
    requires fs > 0 && -0x1_0000_0000 < f < 0x1_0000_0000
    ensures -0x8000_0000_0000_0000 < TWO_PI_Q28 * f < 0x8000_0000_0000_0000
    ensures -0x8000_0000_0000_0000 < TruncDiv(TWO_PI_Q28 * f, fs) < 0x8000_0000_0000_0000
  {
  }

  method Coefficient(f: int64, fs: int64) returns (q: int64)
    requires fs > 0 && -0x1_0000_0000 < f < 0x1_0000_0000
    ensures q as int == CoeffQ15(f as int, fs as int) && CoeffInRange(q as int)
  {
    ThetaRange(f as int, fs as int);
    var product := 1686629714 * f;
    var theta := if product >= 0 then product / fs else -((-product) / fs);
    CosRange(theta as int);
    var cosVal := Cosine(theta);
    q := 2 * cosVal / 8192;
  }

  lemma ProbeInBand(cfg: Config, k: nat, bins: nat)
    requires Safe(cfg) && k < bins <= 8
    ensures -0x1_0000_0000 < ProbeFreq(cfg, k, bins) < 0x1_0000_0000
    ensures 0 <= 2 * cfg.toneBandHz as int * k < 0x8000_0000_0000_0000
  {
    assert cfg.toneFreqHz as int + cfg.toneBandHz as int < 0x1_0000_0000;
    hide Safe;
    BandSteps(2 * cfg.toneBandHz as int, k, bins);
  }

  lemma BandSteps(width: int, k: nat, bins: nat)
    requires 0 <= width < 0x2_0000_0000 && k < bins <= 8
    ensures 0 <= width * k < 0x8000_0000_0000_0000
    ensures bins > 1 ==> 0 <= width * k / (bins - 1) <= width
  {
    NonNegProduct(width, k);
    ProductBound(width, k, width, bins - 1);
    ProductBound(width, bins - 1, 0x2_0000_0000, 8);
    if bins > 1 { DivUpper(width * k, width, bins - 1); }
  }

  lemma DivUpper(x: int, y: int, d: int)
    requires d > 0 && 0 <= x <= y * d
    ensures 0 <= x / d <= y
  {
    MulMonotone(y + 1, x / d, d);
    assert d * (y + 1) == y * d + d;
  }

  /** One coefficient per probe, in a buffer of the fixed maximum size. */
  method AllCoefficients(cfg: Config) returns (coeff: array<int64>)
    requires Safe(cfg)
    ensures fresh(coeff) && coeff.Length == TONE_BINS_MAX as int
    ensures forall k :: 0 <= k < Bins(cfg) as int ==> coeff[k] as int == Coefficients(cfg)[k]
  {
    var bins := Bins(cfg);
    coeff := new int64[8];
    var k: uint32 := 0;
    while k < bins
      invariant k <= bins
      invariant forall j :: 0 <= j < k as int ==> coeff[j] as int == Coefficients(cfg)[j]
    {
      ProbeInBand(cfg, k as int, bins as int);
      var f := cfg.toneFreqHz as int64;
      if bins > 1 {
        f := f - cfg.toneBandHz as int64 + 2 * cfg.toneBandHz as int64 * k as int64 / (bins - 1) as int64;
      }
      coeff[k] := Coefficient(f, cfg.sampleRate as int64);
      k := k + 1;
    }
  }

  lemma CoefficientsInRange(cfg: Config, k: nat)
    requires cfg.sampleRate > 0 && k < |Coefficients(cfg)|
    ensures CoeffInRange(Coefficients(cfg)[k])
  {
    CoeffRange(ProbeFreq(cfg, k, Bins(cfg) as int), cfg.sampleRate as int);
  }

  // ---- one frame ----

  lemma {:induction false} StateBoundMonotone(amp: nat, m: nat, n: nat)
    requires m <= n
    ensures StateBound(amp, m) <= StateBound(amp, n)
    decreases n
  {
    if m < n { StateBoundMonotone(amp, m, n - 1); }
  }

  ghost predicate Small(st: State) {
    -LIMIT <= st.s1 <= LIMIT && -LIMIT <= st.s2 <= LIMIT
  }

  /** Along a whole frame the filter state stays far inside 64 bits. */
  lemma {:induction false} FrameStateSmall(cfg: Config, q: int, xs: seq<int>)
    requires Safe(cfg) && CoeffInRange(q)
    requires |xs| <= cfg.frameSamples as int && Amplitude(xs, Amp(cfg.inputShift as int))
    ensures Small(Run(q, xs))
  {
    var amp := Amp(cfg.inputShift as int);
    RunBounded(q, xs, amp);
    StateBoundMonotone(amp, |xs|, cfg.frameSamples as int);
  }

  lemma FrameAmplitude(cfg: Config, pcm: seq<int16>, f: nat, n: nat)
    requires (f + 1) * n <= |pcm|
    ensures Amplitude(FrameSamples(pcm, f, n, cfg.inputShift as int), Amp(cfg.inputShift as int))
  {
    FrameInside(f, n);
    var xs, amp := FrameSamples(pcm, f, n, cfg.inputShift as int), Amp(cfg.inputShift as int);
    forall i | 0 <= i < n
      ensures 0 <= xs[i] + amp && xs[i] <= amp
    {
      ScaleBounded(pcm[f * n + i], cfg.inputShift as int);
    }
  }

  /** The exact products of the filter and of the power formula. */
  lemma ProductsFit(q: int, st: State)
    requires CoeffInRange(q) && Small(st)
    ensures -0x4000_0000_0000 <= q * st.s1 <= 0x4000_0000_0000
    ensures 0 <= st.s1 * st.s1 <= LIMIT * LIMIT && 0 <= st.s2 * st.s2 <= LIMIT * LIMIT
    ensures -0x8000_0000 <= Shift15(q * st.s1) <= 0x8000_0000
    ensures -0x8000_0000 * LIMIT <= Shift15(q * st.s1) * st.s2 <= 0x8000_0000 * LIMIT
  {
    ProductBound(q, st.s1, 65536, LIMIT);
    ProductBound(-q, st.s1, 65536, LIMIT);
    assert (-q) * st.s1 == -(q * st.s1);
    SquareMonotone(st.s1, LIMIT);
    SquareMonotone(st.s2, LIMIT);
    var g := Shift15(q * st.s1);
    ProductBound(g, st.s2, 0x8000_0000, LIMIT);
    ProductBound(-g, st.s2, 0x8000_0000, LIMIT);
    assert (-g) * st.s2 == -(g * st.s2);
  }

  method NextState(q: int64, s1: int64, s2: int64, x: int64) returns (s0: int64)
    requires CoeffInRange(q as int) && Small(State(s1 as int, s2 as int)) && -0x1_0000 <= x <= 0x1_0000
    ensures s0 as int == Step(q as int, State(s1 as int, s2 as int), x as int).s1
  {
    ProductsFit(q as int, State(s1 as int, s2 as int));
    s0 := x + q * s1 / 32768 - s2;
  }

  method PowerOf(q: int64, s1: int64, s2: int64) returns (power: int64)
    requires CoeffInRange(q as int) && Small(State(s1 as int, s2 as int))
    ensures power as int == Power(q as int, State(s1 as int, s2 as int))
  {
    ProductsFit(q as int, State(s1 as int, s2 as int));
    power := s1 * s1 + s2 * s2 - q * s1 / 32768 * s2;
  }

  lemma {:induction false} EnergyBounded(xs: seq<int>, amp: nat)
    requires Amplitude(xs, amp)
    ensures Energy(xs) <= |xs| * (amp * amp)
    decreases |xs|
  {
    if xs != [] {
      EnergyBounded(Front(xs), amp);
      SquareMonotone(Last(xs), amp);
      assert |xs| * (amp * amp) == (|xs| - 1) * (amp * amp) + amp * amp;
    }
  }

  lemma {:induction false} EnergyFits(cfg: Config, xs: seq<int>)
    requires Safe(cfg) && |xs| <= cfg.frameSamples as int && Amplitude(xs, Amp(cfg.inputShift as int))
    ensures Energy(xs) <= EnergyBound(cfg, cfg.frameSamples as int) < 0x8000_0000_0000_0000
    ensures Energy(xs) * cfg.toneRatioMin as int < 0x8000_0000_0000_0000
  {
    hide StateBound, Energy, Amplitude, Amp;
    var n := cfg.frameSamples as int;
    EnergyBounded(xs, Amp(cfg.inputShift as int));
    NonNegProduct(Amp(cfg.inputShift as int), Amp(cfg.inputShift as int));
    SmallerProduct(|xs|, n, Amp(cfg.inputShift as int) * Amp(cfg.inputShift as int));
    SmallerProduct(Energy(xs), EnergyBound(cfg, n), cfg.toneRatioMin as int);
  }

  lemma SmallerProduct(x: nat, y: nat, r: nat)
    requires x <= y
    ensures x * r <= y * r
  {
  }

  /** The state buffers hold the filter state of probe k. */
  ghost predicate Holds(s1: array<int64>, s2: array<int64>, q: int, k: nat, xs: seq<int>)
    requires k < s1.Length && k < s2.Length
    reads s1, s2
  {
    s1[k] as int == Run(q, xs).s1 && s2[k] as int == Run(q, xs).s2
  }

  /** `q` carries the coefficients of the configuration. */
  ghost predicate Loaded(cfg: Config, q: seq<int64>) {
    && cfg.sampleRate > 0
    && |q| == Bins(cfg) as int
    && forall k :: 0 <= k < |q| ==> q[k] as int == Coefficients(cfg)[k]
  }

  /** Filter states of a probe before and after one more sample. */
  lemma ProbeStep(cfg: Config, q: seq<int64>, k: nat, xs: seq<int>, x: int, ys: seq<int>)
    requires Safe(cfg) && Loaded(cfg, q) && k < |q|
    requires |xs| < cfg.frameSamples as int && Amplitude(xs, Amp(cfg.inputShift as int)) && ys == xs + [x]
    ensures CoeffInRange(q[k] as int) && Small(Run(q[k] as int, xs))
    ensures Run(q[k] as int, ys) == Step(q[k] as int, Run(q[k] as int, xs), x)
  {
    CoefficientsInRange(cfg, k);
    FrameStateSmall(cfg, q[k] as int, xs);
    assert Front(ys) == xs && Last(ys) == x;
  }

  /** One sample through every probe. */
  method FilterSample(cfg: Config, q: seq<int64>, s1: array<int64>, s2: array<int64>, x: int64,
                      ghost xs: seq<int>, ghost ys: seq<int>)
    requires Safe(cfg) && Loaded(cfg, q) && s1.Length == s2.Length == 8 && s1 != s2
    requires |xs| < cfg.frameSamples as int && Amplitude(xs, Amp(cfg.inputShift as int))
    requires ys == xs + [x as int] && -0x1_0000 <= x <= 0x1_0000
    requires forall k :: 0 <= k < |q| ==> Holds(s1, s2, q[k] as int, k, xs)
    modifies s1, s2
    ensures forall k :: 0 <= k < |q| ==> Holds(s1, s2, q[k] as int, k, ys)
  {
    hide Safe, Run, Coefficients, Small, Amplitude, CoeffInRange;
    var k := 0;
    while k < |q|
      invariant 0 <= k <= |q|
      invariant forall j :: 0 <= j < k ==> Holds(s1, s2, q[j] as int, j, ys)
      invariant forall j :: k <= j < |q| ==> Holds(s1, s2, q[j] as int, j, xs)
    {
      ProbeStep(cfg, q, k, xs, x as int, ys);
      assert Holds(s1, s2, q[k] as int, k, xs);
      var s0 := NextState(q[k], s1[k], s2[k], x);
      s2[k] := s1[k];
      s1[k] := s0;
      k := k + 1;
    }
  }

  lemma PrefixStep(xs: seq<int>, i: nat)
    requires i < |xs|
    ensures xs[..i + 1] == xs[..i] + [xs[i]] && Energy(xs[..i + 1]) == Energy(xs[..i]) + xs[i] * xs[i]
  {
    assert Front(xs[..i + 1]) == xs[..i];
  }

  lemma {:induction false} Pow2Small(s: nat)
    requires s < 32
    ensures Pow2(s) <= 0x8000_0000
  {
    Pow2Grows(s, 31);
    assert Pow2(10) == 0x400;
    assert Pow2(20) == 0x10_0000;
    assert Pow2(30) == 0x4000_0000;
  }

  lemma {:induction false} Pow2Grows(m: nat, n: nat)
    requires m <= n
    ensures Pow2(m) <= Pow2(n)
    decreases n
  {
    if m < n { Pow2Grows(m, n - 1); }
  }

  lemma SampleAt(pcm: seq<int16>, f: nat, n: nat, shift: nat, i: nat)
    requires (f + 1) * n <= |pcm| && i < n
    ensures f * n + i < |pcm| && FrameSamples(pcm, f, n, shift)[i] == Scale(pcm[f * n + i], shift)
  {
    FrameInside(f, n);
    hide Scale;
  }

  /** The C expression x >> shift, which rounds towards minus infinity. */
  method ShiftRight(x: int16, shift: uint32) returns (y: int64)
    requires shift < 32
    ensures y as int == Scale(x, shift as int) && Shifted(x as int, shift as int, y as int)
  {
    Pow2Small(shift as int);
    var unit := Pow2(shift as int) as int64;
    y := x as int64 / unit;
    Euclid(x as int, Pow2(shift as int));
    Distribute(Pow2(shift as int), y as int, -1);
    ScaleShifts(x, shift as int);
    ShiftedOnce(x as int, shift as int, y as int, Scale(x, shift as int));
  }

  /** All samples of one frame through every probe, and the frame's energy. */
  method FilterFrame(cfg: Config, q: seq<int64>, pcm: seq<int16>, f: nat, s1: array<int64>, s2: array<int64>)
    returns (energy: int64)
    requires Safe(cfg) && Loaded(cfg, q) && s1.Length == s2.Length == 8 && s1 != s2
    requires (f + 1) * cfg.frameSamples as int <= |pcm|
    modifies s1, s2
    ensures var xs := FrameSamples(pcm, f, cfg.frameSamples as int, cfg.inputShift as int);
            && energy as int == Energy(xs)
            && forall k :: 0 <= k < |q| ==> Holds(s1, s2, q[k] as int, k, xs)
  {
    assert cfg.inputShift < 32;
    hide Safe, Coefficients, Energy, EnergyBound, FrameSamples, Scale, Shifted, Amp, Loaded;
    var n := cfg.frameSamples as int;
    ghost var xs := FrameSamples(pcm, f, n, cfg.inputShift as int);
    FrameInside(f, n);
    FrameAmplitude(cfg, pcm, f, n);
    AmpSmall(cfg.inputShift as int);
    forall k | 0 <= k < 8 { s1[k] := 0; }
    forall k | 0 <= k < 8 { s2[k] := 0; }
    energy := 0;
    EmptyEnergy();
    var i := 0;
    while i < n
      invariant 0 <= i <= n
      invariant energy as int == Energy(xs[..i])
      invariant forall k :: 0 <= k < |q| ==> Holds(s1, s2, q[k] as int, k, xs[..i])
    {
      SampleAt(pcm, f, n, cfg.inputShift as int, i);
      var x := ShiftRight(pcm[f * n + i], cfg.inputShift);
      PrefixStep(xs, i);
      EnergyFits(cfg, xs[..i + 1]);
      SquareMonotone(x as int, 0x1_0000);
      FilterSample(cfg, q, s1, s2, x, xs[..i], xs[..i + 1]);
      energy := energy + x * x;
      i := i + 1;
    }
    assert xs[..n] == xs;
  }

  lemma EmptyEnergy()
    ensures Energy([]) == 0
  {
  }

  lemma AmpSmall(shift: nat)
    ensures Amp(shift) <= 0x1_0000
  {
    DivUpper(0x8000, 0x8000, Pow2(shift));
  }

  lemma MaxPowerStep(qs: seq<int>, k: nat, xs: seq<int>)
    requires k < |qs|
    ensures MaxPower(qs[..k + 1], xs) == Max(MaxPower(qs[..k], xs), Power(qs[k], Run(qs[k], xs)))
  {
    assert Front(qs[..k + 1]) == qs[..k];
  }

  /** Strongest power across the probes. */
  method StrongestPower(cfg: Config, q: seq<int64>, s1: array<int64>, s2: array<int64>, ghost xs: seq<int>)
    returns (maxPower: int64)
    requires Safe(cfg) && Loaded(cfg, q) && s1.Length == s2.Length == 8
    requires |xs| <= cfg.frameSamples as int && Amplitude(xs, Amp(cfg.inputShift as int))
    requires forall k :: 0 <= k < |q| ==> Holds(s1, s2, q[k] as int, k, xs)
    ensures maxPower as int == MaxPower(Coefficients(cfg), xs)
  {
    hide Safe, Run, Coefficients, Amplitude, Power, MaxPower;
    ghost var qs := Coefficients(cfg);
    NoPower(xs);
    maxPower := 0;
    var k := 0;
    while k < |q|
      invariant 0 <= k <= |q|
      invariant maxPower as int == MaxPower(qs[..k], xs)
    {
      CoefficientsInRange(cfg, k);
      FrameStateSmall(cfg, qs[k], xs);
      assert Holds(s1, s2, q[k] as int, k, xs);
      var power := PowerOf(q[k], s1[k], s2[k]);
      MaxPowerStep(qs, k, xs);
      if power < 0 { power := 0; }
      if power > maxPower { maxPower := power; }
      k := k + 1;
    }
    assert qs[..|q|] == qs;
  }

  lemma NoPower(xs: seq<int>)
    ensures MaxPower([], xs) == 0
  {
  }

  // ---- the whole recording ----

  method ClassifyFrame(cfg: Config, q: seq<int64>, pcm: seq<int16>, f: nat, s1: array<int64>, s2: array<int64>)
    returns (kind: FrameClass)
    requires Safe(cfg) && Loaded(cfg, q) && s1.Length == s2.Length == 8 && s1 != s2
    requires (f + 1) * cfg.frameSamples as int <= |pcm|
    modifies s1, s2
    ensures kind == Classify(cfg, Coefficients(cfg),
                             FrameSamples(pcm, f, cfg.frameSamples as int, cfg.inputShift as int))
  {
    hide Safe, Coefficients, Energy, EnergyBound, MaxPower, Amplitude, FrameSamples;
    ghost var xs := FrameSamples(pcm, f, cfg.frameSamples as int, cfg.inputShift as int);
    FrameAmplitude(cfg, pcm, f, cfg.frameSamples as int);
    var energy := FilterFrame(cfg, q, pcm, f, s1, s2);
    if energy < cfg.energyFloor { return Silent; }
    var maxPower := StrongestPower(cfg, q, s1, s2, xs);
    EnergyFits(cfg, xs);
    NonNegProduct(Energy(xs), cfg.toneRatioMin as int);
    return if maxPower >= energy * cfg.toneRatioMin as int64 then Tone else Voice;
  }

  /** One more frame, counted. */
  lemma CountStep(cfg: Config, pcm: seq<int16>, f: nat)
    requires cfg.sampleRate > 0 && cfg.frameSamples > 0 && f < FrameCount(cfg, pcm)
    ensures (f + 1) * cfg.frameSamples as int <= |pcm|
    ensures CountFrames(cfg, Coefficients(cfg), pcm, f + 1)
         == Count(CountFrames(cfg, Coefficients(cfg), pcm, f),
                  Classify(cfg, Coefficients(cfg),
                           FrameSamples(pcm, f, cfg.frameSamples as int, cfg.inputShift as int)))
  {
    FrameFits(f, f + 1, |pcm|, cfg.frameSamples as int);
  }

  function IncIf(x: uint32, more: bool): uint32 {
    if more then Inc(x) else x
  }

  /** Counting one more frame on 32-bit counters. */
  lemma CountWraps(frames: uint32, active: uint32, tone: uint32, voice: uint32, c: Counts, k: FrameClass)
    requires Counts(frames as int, active as int, tone as int, voice as int) == Wrapped(c)
    ensures Wrapped(Count(c, k)) == Counts(IncIf(frames, true) as int, IncIf(active, k != Silent) as int,
                                           IncIf(tone, k == Tone) as int, IncIf(voice, k == Voice) as int)
  {
    IncWraps(frames, c.frames);
    IncWraps(active, c.active);
    IncWraps(tone, c.tone);
    IncWraps(voice, c.voice);
    hide Inc;
  }

  lemma SafeRate(cfg: Config)
    requires Safe(cfg)
    ensures cfg.sampleRate > 0
  {
  }

  lemma NothingWraps()
    ensures Wrapped(Counts(0, 0, 0, 0)) == Counts(0, 0, 0, 0)
  {
  }

  method CountAll(cfg: Config, q: seq<int64>, pcm: seq<int16>)
    returns (frames: uint32, active: uint32, tone: uint32, voice: uint32)
    requires Safe(cfg) && Loaded(cfg, q) && cfg.frameSamples > 0
    ensures Counts(frames as int, active as int, tone as int, voice as int)
         == Wrapped(CountFrames(cfg, Coefficients(cfg), pcm, FrameCount(cfg, pcm)))
  {
    hide Safe, Loaded, Classify, Coefficients, FrameSamples, CountFrames, FrameCount, Inc, Count, Wrapped,
         EnergyBound, StateBound;
    SafeRate(cfg);
    NoFrames(cfg, pcm);
    NothingWraps();
    var s1, s2 := new int64[8], new int64[8];
    frames, active, tone, voice := 0, 0, 0, 0;
    var total := FrameCount(cfg, pcm);
    var f := 0;
    while f < total
      invariant 0 <= f <= total
      invariant Counts(frames as int, active as int, tone as int, voice as int)
             == Wrapped(CountFrames(cfg, Coefficients(cfg), pcm, f))
    {
      CountStep(cfg, pcm, f);
      var kind := ClassifyFrame(cfg, q, pcm, f, s1, s2);
      CountWraps(frames, active, tone, voice, CountFrames(cfg, Coefficients(cfg), pcm, f), kind);
      frames := Inc(frames);
      if kind != Silent {
        active := Inc(active);
        if kind == Tone { tone := Inc(tone); } else { voice := Inc(voice); }
      }
      f := f + 1;
    }
  }

  lemma NoFrames(cfg: Config, pcm: seq<int16>)
    requires cfg.sampleRate > 0 && cfg.frameSamples > 0
    ensures CountFrames(cfg, Coefficients(cfg), pcm, 0) == Counts(0, 0, 0, 0)
  {
  }

  /** he_detector_run: for every recording the 32-bit verdict, and the intended one whenever the
      tone count stays below 2^31. */
  method RunDetector(cfg: Config, pcm: seq<int16>) returns (res: Verdict)
    requires Safe(cfg)
    ensures res == MachineVerdict(cfg, pcm)
    ensures cfg.frameSamples > 0 && FrameCount(cfg, pcm) < 0x8000_0000 ==> res == Detect(cfg, pcm)
    ensures cfg.frameSamples == 0 ==>
              res == Verdict(Counts(0, 0, 0, 0), EventNone, false, false) && res == Detect(cfg, pcm)
  {
    if cfg.frameSamples == 0 { assert Detect(cfg, pcm) == Verdict(Counts(0, 0, 0, 0), EventNone, false, false); }
    if cfg.frameSamples > 0 { WrapExactly(cfg, pcm); }
    hide StateBound, EnergyBound, Coefficients, CountFrames, Detect, FrameCount;
    if cfg.frameSamples == 0 {
      return Verdict(Counts(0, 0, 0, 0), EventNone, false, false);
    }
    var coeff := AllCoefficients(cfg);
    var frames, active, tone, voice := CountAll(cfg, coeff[..Bins(cfg)], pcm);
    var counts := Counts(frames as int, active as int, tone as int, voice as int);
    var presence := active >= cfg.minActiveFrames;
    if presence && Double(tone) >= active {
      res := Verdict(counts, EventAlarmTone, false, presence);
    } else if presence && voice >= cfg.minActiveFrames {
      res := Verdict(counts, EventVoice, true, presence);
    } else {
      res := Verdict(counts, EventNone, false, presence);
    }
  }
}
