/** The Rust port of the detector, with its own constants and loops, against the same
    specification as the C original. */
module DetectorPort {
  import opened Basics
  import opened Goertzel
  import opened DetectorSpec
  import opened Detector

  const SAMPLE_RATE: int64 := 16000
  const FRAME_SAMPLES := 256
  const TONE_FREQ_HZ: int64 := 3100
  const ENERGY_FLOOR: int64 := 200000
  const MIN_ACTIVE_FRAMES: uint32 := 8
  const TONE_RATIO_MIN: int64 := 40
  const TONE_BINS := 3
  const TONE_BAND_HZ: int64 := 200

  /** The probe frequencies and coefficients, with the port's constants. */
  method PortCoefficients() returns (coeff: array<int64>)
    ensures fresh(coeff) && coeff.Length == TONE_BINS
    ensures Loaded(DEFAULT_CONFIG, coeff[..])
  {
    hide CosQ28, TruncDiv;
    coeff := new int64[TONE_BINS];
    var k := 0;
    while k < TONE_BINS
      invariant 0 <= k <= TONE_BINS
      invariant forall j :: 0 <= j < k ==> coeff[j] as int == Coefficients(DEFAULT_CONFIG)[j]
    {
      var f := TONE_FREQ_HZ - TONE_BAND_HZ + 2 * TONE_BAND_HZ * (k as int64) / (TONE_BINS as int64 - 1);
      assert f as int == ProbeFreq(DEFAULT_CONFIG, k, 3);
      coeff[k] := PortCoefficient(f);
      k := k + 1;
    }
  }

  /** The port's cosine is the C function statement for statement. */
  method PortCoefficient(f: int64) returns (q: int64)
    requires 0 <= f < 8000
    ensures q as int == CoeffQ15(f as int, 16000)
  {
    var theta := 1686629714 * f / SAMPLE_RATE;
    CosRange(theta as int);
    var cosVal := Cosine(theta);
    q := 2 * cosVal / 8192;
  }

  method PortFrame(q: seq<int64>, pcm: seq<int16>, f: nat) returns (energy: int64, maxPower: int64)
    requires Loaded(DEFAULT_CONFIG, q) && (f + 1) * 256 <= |pcm|
    ensures energy as int == Energy(FrameSamples(pcm, f, 256, 6))
    ensures maxPower as int == MaxPower(Coefficients(DEFAULT_CONFIG), FrameSamples(pcm, f, 256, 6))
  {
    DefaultIsSafe();
    hide Safe, Coefficients, Energy, EnergyBound, MaxPower, Run, Amp, Amplitude;
    ghost var xs := FrameSamples(pcm, f, 256, 6);
    FrameInside(f, 256);
    FrameAmplitude(DEFAULT_CONFIG, pcm, f, 256);
    AmpSmall(6);
    var frame := pcm[f * 256..f * 256 + 256];
    var s1, s2 := new int64[3](_ => 0), new int64[3](_ => 0);
    energy := 0;
    EmptyEnergy();
    EmptyRun(q);
    var i := 0;
    while i < |frame|
      invariant 0 <= i <= |frame|
      invariant energy as int == Energy(xs[..i])
      invariant forall k :: 0 <= k < 3 ==> Holds(s1, s2, q[k] as int, k, xs[..i])
    {
      var x := frame[i] as int64 / 64;
      ShiftBySix(frame[i]);
      PrefixStep(xs, i);
      PrefixAmplitude(xs, i, Amp(6));
      EnergyFits(DEFAULT_CONFIG, xs[..i + 1]);
      SquareMonotone(x as int, 0x1_0000);
      PortSample(q, s1, s2, x, xs[..i], xs[..i + 1]);
      energy := energy + x * x;
      i := i + 1;
    }
    assert xs[..256] == xs;
    maxPower := PortPower(q, s1, s2, xs);
  }

  lemma ShiftBySix(x: int16)
    ensures Scale(x, 6) == x as int / 64
  {
    assert Pow2(6) == 64;
  }

  lemma EmptyRun(q: seq<int64>)
    ensures forall k :: 0 <= k < |q| ==> Run(q[k] as int, []) == State(0, 0)
  {
  }

  lemma PrefixAmplitude(xs: seq<int>, i: nat, amp: nat)
    requires i < |xs| && Amplitude(xs, amp)
    ensures Amplitude(xs[..i], amp) && Amplitude(xs[..i + 1], amp)
  {
  }

  method PortSample(q: seq<int64>, s1: array<int64>, s2: array<int64>, x: int64, ghost xs: seq<int>, ghost ys: seq<int>)
    requires Loaded(DEFAULT_CONFIG, q) && s1.Length == s2.Length == 3 && s1 != s2
    requires |xs| < 256 && Amplitude(xs, Amp(6)) && ys == xs + [x as int] && -0x1_0000 <= x <= 0x1_0000
    requires forall k :: 0 <= k < 3 ==> Holds(s1, s2, q[k] as int, k, xs)
    modifies s1, s2
    ensures forall k :: 0 <= k < 3 ==> Holds(s1, s2, q[k] as int, k, ys)
  {
    DefaultIsSafe();
    hide Safe, Run, Coefficients, Small, Amplitude, CoeffInRange;
    var k := 0;
    while k < 3
      invariant 0 <= k <= 3
      invariant forall j :: 0 <= j < k ==> Holds(s1, s2, q[j] as int, j, ys)
      invariant forall j :: k <= j < 3 ==> Holds(s1, s2, q[j] as int, j, xs)
    {
      ProbeStep(DEFAULT_CONFIG, q, k, xs, x as int, ys);
      assert Holds(s1, s2, q[k] as int, k, xs);
      ProductsFit(q[k] as int, Run(q[k] as int, xs));
      assert Small(Run(q[k] as int, xs));
      var s0 := NextState(q[k], s1[k], s2[k], x);
      s2[k] := s1[k];
      s1[k] := s0;
      k := k + 1;
    }
  }

  method PortPower(q: seq<int64>, s1: array<int64>, s2: array<int64>, ghost xs: seq<int>) returns (maxPower: int64)
    requires Loaded(DEFAULT_CONFIG, q) && s1.Length == s2.Length == 3
    requires |xs| == 256 && Amplitude(xs, Amp(6))
    requires forall k :: 0 <= k < 3 ==> Holds(s1, s2, q[k] as int, k, xs)
    ensures maxPower as int == MaxPower(Coefficients(DEFAULT_CONFIG), xs)
  {
    DefaultIsSafe();
    hide Safe, Run, Coefficients, Amplitude, Power, MaxPower;
    ghost var qs := Coefficients(DEFAULT_CONFIG);
    NoPower(xs);
    maxPower := 0;
    var k := 0;
    while k < 3
      invariant 0 <= k <= 3
      invariant maxPower as int == MaxPower(qs[..k], xs)
    {
      CoefficientsInRange(DEFAULT_CONFIG, k);
      FrameStateSmall(DEFAULT_CONFIG, qs[k], xs);
      assert Holds(s1, s2, q[k] as int, k, xs);
      var power := PowerOf(q[k], s1[k], s2[k]);
      MaxPowerStep(qs, k, xs);
      if power < 0 { power := 0; }
      if power > maxPower { maxPower := power; }
      k := k + 1;
    }
    assert qs[..3] == qs;
  }

  lemma PortEnergyFits(pcm: seq<int16>, f: nat)
    requires (f + 1) * 256 <= |pcm|
    ensures 0 <= Energy(FrameSamples(pcm, f, 256, 6)) * 40 < 0x8000_0000_0000_0000
  {
    DefaultIsSafe();
    FrameAmplitude(DEFAULT_CONFIG, pcm, f, 256);
    EnergyFits(DEFAULT_CONFIG, FrameSamples(pcm, f, 256, 6));
  }

  method PortClassify(q: seq<int64>, pcm: seq<int16>, f: nat) returns (kind: FrameClass)
    requires Loaded(DEFAULT_CONFIG, q) && (f + 1) * 256 <= |pcm|
    ensures kind == Classify(DEFAULT_CONFIG, Coefficients(DEFAULT_CONFIG), FrameSamples(pcm, f, 256, 6))
  {
    hide Coefficients, FrameSamples, Energy, MaxPower;
    var energy, maxPower := PortFrame(q, pcm, f);
    if energy < ENERGY_FLOOR { return Silent; }
    PortEnergyFits(pcm, f);
    return if maxPower >= energy * TONE_RATIO_MIN then Tone else Voice;
  }

  lemma PortFrames(pcm: seq<int16>)
    ensures |pcm| / FRAME_SAMPLES == FrameCount(DEFAULT_CONFIG, pcm)
  {
  }

  method PortCount(q: seq<int64>, pcm: seq<int16>) returns (frames: uint32, active: uint32, tone: uint32, voice: uint32)
    requires Loaded(DEFAULT_CONFIG, q)
    ensures Counts(frames as int, active as int, tone as int, voice as int)
         == Wrapped(CountFrames(DEFAULT_CONFIG, Coefficients(DEFAULT_CONFIG), pcm, FrameCount(DEFAULT_CONFIG, pcm)))
  {
    hide Loaded, Classify, Coefficients, FrameSamples, CountFrames, FrameCount, Inc, Count, Wrapped;
    NoFrames(DEFAULT_CONFIG, pcm);
    NothingWraps();
    PortFrames(pcm);
    frames, active, tone, voice := 0, 0, 0, 0;
    var total := |pcm| / FRAME_SAMPLES;
    var f := 0;
    while f < total
      invariant 0 <= f <= total
      invariant Counts(frames as int, active as int, tone as int, voice as int)
             == Wrapped(CountFrames(DEFAULT_CONFIG, Coefficients(DEFAULT_CONFIG), pcm, f))
    {
      CountStep(DEFAULT_CONFIG, pcm, f);
      var kind := PortClassify(q, pcm, f);
      CountWraps(frames, active, tone, voice, CountFrames(DEFAULT_CONFIG, Coefficients(DEFAULT_CONFIG), pcm, f), kind);
      frames := Inc(frames);
      f := f + 1;
      if kind == Silent { continue; }
      active := Inc(active);
      if kind == Tone { tone := Inc(tone); } else { voice := Inc(voice); }
    }
  }

  /** `detect`: the port's verdict is the specification's under the default configuration,
      hence the C detector's. */
  method PortDetect(pcm: seq<int16>) returns (res: Verdict)
    ensures res == MachineVerdict(DEFAULT_CONFIG, pcm)
    ensures FrameCount(DEFAULT_CONFIG, pcm) < 0x8000_0000 ==> res == Detect(DEFAULT_CONFIG, pcm)
  {
    WrapExactly(DEFAULT_CONFIG, pcm);
    hide Coefficients, CountFrames, FrameCount, Detect, MachineDecide;
    var coeff := PortCoefficients();
    var frames, active, tone, voice := PortCount(coeff[..], pcm);
    res := PortDecide(frames, active, tone, voice);
  }

  method PortDecide(frames: uint32, active: uint32, tone: uint32, voice: uint32) returns (res: Verdict)
    ensures res == MachineDecide(DEFAULT_CONFIG, Counts(frames as int, active as int, tone as int, voice as int))
  {
    var counts := Counts(frames as int, active as int, tone as int, voice as int);
    var presence := active >= MIN_ACTIVE_FRAMES;
    if presence && Double(tone) >= active {
      res := Verdict(counts, EventAlarmTone, false, presence);
    } else if presence && voice >= MIN_ACTIVE_FRAMES {
      res := Verdict(counts, EventVoice, true, presence);
    } else {
      res := Verdict(counts, EventNone, false, presence);
    }
  }

  /** Both implementations, side by side: the same verdict on every recording. */
  method SameVerdict(pcm: seq<int16>) returns (c: Verdict, rust: Verdict)
    ensures c == rust
  {
    DefaultIsSafe();
    c := RunDetector(DEFAULT_CONFIG, pcm);
    rust := PortDetect(pcm);
  }
}
