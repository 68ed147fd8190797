/** The detector's verdict as a statement about the recording: how many frames are loud and how
    many of those carry the tone, whatever the code counts with. */
module VerdictLaw {
  import opened Basics
  import opened Goertzel
  import opened DetectorSpec

  /** xs are the samples of frame f, each an arithmetic shift of what was recorded. */
  ghost predicate Hears(cfg: Config, pcm: seq<int16>, f: nat, xs: seq<int>) {
    var n := cfg.frameSamples as int;
    && |xs| == n && f * n + n <= |pcm|
    && forall i :: 0 <= i < n ==> Shifted(pcm[f * n + i] as int, cfg.inputShift as int, xs[i])
  }

  function SumOfSquares(xs: seq<int>): int {
    if xs == [] then 0 else xs[0] * xs[0] + SumOfSquares(xs[1..])
  }

  /** At least 1 and at most 8 probes. */
  function Probes(cfg: Config): nat {
    if cfg.toneBins == 0 then 1 else if cfg.toneBins > 8 then 8 else cfg.toneBins as int
  }

  /** The Goertzel power of probe k. */
  function ProbePower(cfg: Config, xs: seq<int>, k: nat): int
    requires cfg.sampleRate > 0
  {
    var q := CoeffQ15(ProbeFreq(cfg, k, Probes(cfg)), cfg.sampleRate as int);
    Power(q, Run(q, xs))
  }

  ghost predicate Loud(cfg: Config, xs: seq<int>) {
    SumOfSquares(xs) >= cfg.energyFloor as int
  }

  /** Some probe's power, or no power at all, reaches the energy times the ratio. */
  ghost predicate Tonal(cfg: Config, xs: seq<int>)
    requires cfg.sampleRate > 0
  {
    var least := SumOfSquares(xs) * cfg.toneRatioMin as int;
    Loud(cfg, xs) && (least <= 0 || exists k :: 0 <= k < Probes(cfg) && ProbePower(cfg, xs, k) >= least)
  }

  // ---- samples ----

  /** There is exactly one way to hear a frame. */
  lemma HeardSamples(cfg: Config, pcm: seq<int16>, f: nat, xs: seq<int>)
    requires Hears(cfg, pcm, f, xs)
    ensures (f + 1) * cfg.frameSamples as int <= |pcm|
    ensures FrameSamples(pcm, f, cfg.frameSamples as int, cfg.inputShift as int) == xs
  {
    var n, s := cfg.frameSamples as int, cfg.inputShift as int;
    FrameInside(f, n);
    var ys := FrameSamples(pcm, f, n, s);
    forall i | 0 <= i < n ensures ys[i] == xs[i] {
      ScaleShifts(pcm[f * n + i], s);
      assert Shifted(pcm[f * n + i] as int, s, xs[i]);
      ShiftedOnce(pcm[f * n + i] as int, s, ys[i], xs[i]);
    }
  }

  lemma {:induction false} SquaresSnoc(xs: seq<int>, x: int)
    ensures SumOfSquares(xs + [x]) == SumOfSquares(xs) + x * x
  {
    if xs != [] {
      SquaresSnoc(xs[1..], x);
      assert (xs + [x])[1..] == xs[1..] + [x];
    }
  }

  lemma {:induction false} EnergyIsSquares(xs: seq<int>)
    ensures Energy(xs) == SumOfSquares(xs)
  {
    if xs != [] {
      EnergyIsSquares(Front(xs));
      SquaresSnoc(Front(xs), Last(xs));
      assert Front(xs) + [Last(xs)] == xs;
    }
  }

  // ---- frames ----

  lemma {:induction false} StrongestReaches(qs: seq<int>, xs: seq<int>, least: int)
    ensures MaxPower(qs, xs) >= least
       <==> least <= 0 || exists k :: 0 <= k < |qs| && Power(qs[k], Run(qs[k], xs)) >= least
  {
    if qs != [] {
      var front := Front(qs);
      StrongestReaches(front, xs, least);
      assert MaxPower(qs, xs) == Max(MaxPower(front, xs), Power(Last(qs), Run(Last(qs), xs)));
      hide MaxPower, Power, Run;
      if k :| 0 <= k < |qs| && Power(qs[k], Run(qs[k], xs)) >= least {
        if k < |front| { assert front[k] == qs[k]; }
      }
      if k :| 0 <= k < |front| && Power(front[k], Run(front[k], xs)) >= least { assert qs[k] == front[k]; }
      if Power(Last(qs), Run(Last(qs), xs)) >= least { assert qs[|qs| - 1] == Last(qs); }
    }
  }

  lemma ClassOfFrame(cfg: Config, xs: seq<int>)
    requires cfg.sampleRate > 0
    ensures Classify(cfg, Coefficients(cfg), xs) == Silent <==> !Loud(cfg, xs)
    ensures Classify(cfg, Coefficients(cfg), xs) == Tone <==> Tonal(cfg, xs)
  {
    EnergyIsSquares(xs);
    var qs, least := Coefficients(cfg), SumOfSquares(xs) * cfg.toneRatioMin as int;
    StrongestReaches(qs, xs, least);
    hide Energy, MaxPower, SumOfSquares, CoeffQ15, ProbeFreq, Power, Run;
    assert |qs| == Probes(cfg);
    forall k | 0 <= k < |qs| ensures Power(qs[k], Run(qs[k], xs)) == ProbePower(cfg, xs, k) { }
    if k :| 0 <= k < Probes(cfg) && ProbePower(cfg, xs, k) >= least {
      assert Power(qs[k], Run(qs[k], xs)) >= least;
    }
  }

  ghost function LoudOnes(cfg: Config, frames: seq<seq<int>>, n: nat): set<int>
    requires n <= |frames|
  {
    set f | 0 <= f < n && Loud(cfg, frames[f])
  }

  ghost function TonalOnes(cfg: Config, frames: seq<seq<int>>, n: nat): set<int>
    requires cfg.sampleRate > 0 && n <= |frames|
  {
    set f | 0 <= f < n && Tonal(cfg, frames[f])
  }

  lemma SetsGrow(cfg: Config, frames: seq<seq<int>>, n: nat)
    requires cfg.sampleRate > 0 && n < |frames|
    ensures LoudOnes(cfg, frames, n + 1)
         == LoudOnes(cfg, frames, n) + if Loud(cfg, frames[n]) then {n as int} else {}
    ensures TonalOnes(cfg, frames, n + 1)
         == TonalOnes(cfg, frames, n) + if Tonal(cfg, frames[n]) then {n as int} else {}
    ensures n as int !in LoudOnes(cfg, frames, n) && n as int !in TonalOnes(cfg, frames, n)
  {
    hide Loud, Tonal;
  }

  /** frames are the whole frames of the recording. */
  ghost predicate AllHeard(cfg: Config, pcm: seq<int16>, frames: seq<seq<int>>)
    requires cfg.frameSamples > 0
  {
    |frames| == |pcm| / cfg.frameSamples as int && forall f :: 0 <= f < |frames| ==> Hears(cfg, pcm, f, frames[f])
  }

  lemma HeardCount(cfg: Config, pcm: seq<int16>, frames: seq<seq<int>>)
    requires cfg.frameSamples > 0 && AllHeard(cfg, pcm, frames)
    ensures |frames| == FrameCount(cfg, pcm)
  {
  }

  lemma HeardFrame(cfg: Config, pcm: seq<int16>, frames: seq<seq<int>>, f: nat)
    requires cfg.frameSamples > 0 && AllHeard(cfg, pcm, frames) && f < |frames|
    ensures (f + 1) * cfg.frameSamples as int <= |pcm|
    ensures FrameSamples(pcm, f, cfg.frameSamples as int, cfg.inputShift as int) == frames[f]
  {
    HeardSamples(cfg, pcm, f, frames[f]);
  }

  lemma CountStep(cfg: Config, qs: seq<int>, pcm: seq<int16>, n: nat, xs: seq<int>)
    requires cfg.frameSamples > 0 && n < FrameCount(cfg, pcm) && (n + 1) * cfg.frameSamples as int <= |pcm|
    requires FrameSamples(pcm, n, cfg.frameSamples as int, cfg.inputShift as int) == xs
    ensures CountFrames(cfg, qs, pcm, n + 1) == Count(CountFrames(cfg, qs, pcm, n), Classify(cfg, qs, xs))
    ensures CountFrames(cfg, qs, pcm, 0) == Counts(0, 0, 0, 0)
  {
    hide Classify, FrameSamples;
  }

  /** What the counters say after n frames. */
  ghost predicate CountedBy(cfg: Config, frames: seq<seq<int>>, n: nat, c: Counts)
    requires cfg.sampleRate > 0 && n <= |frames|
  {
    && c.frames == n && c.active == |LoudOnes(cfg, frames, n)| && c.tone == |TonalOnes(cfg, frames, n)|
    && c.voice == c.active - c.tone
  }

  lemma CountedNext(cfg: Config, frames: seq<seq<int>>, n: nat, c: Counts)
    requires cfg.sampleRate > 0 && n < |frames| && CountedBy(cfg, frames, n, c)
    ensures CountedBy(cfg, frames, n + 1, Count(c, Classify(cfg, Coefficients(cfg), frames[n])))
  {
    SetsGrow(cfg, frames, n);
    ClassOfFrame(cfg, frames[n]);
    hide LoudOnes, TonalOnes, Classify, Coefficients;
    TonalIsLoud(cfg, frames[n]);
    hide Loud, Tonal;
  }

  lemma TonalIsLoud(cfg: Config, xs: seq<int>)
    requires cfg.sampleRate > 0
    ensures Tonal(cfg, xs) ==> Loud(cfg, xs)
  {
  }

  /** The counters are the sizes of those sets. */
  lemma {:induction false} CountsAreSets(cfg: Config, pcm: seq<int16>, frames: seq<seq<int>>, n: nat)
    requires cfg.sampleRate > 0 && cfg.frameSamples > 0 && AllHeard(cfg, pcm, frames) && n <= |frames|
    ensures n <= FrameCount(cfg, pcm)
    ensures CountedBy(cfg, frames, n, CountFrames(cfg, Coefficients(cfg), pcm, n))
  {
    HeardCount(cfg, pcm, frames);
    if n == 0 {
      hide AllHeard, Coefficients;
      assert LoudOnes(cfg, frames, 0) == {} && TonalOnes(cfg, frames, 0) == {};
    } else {
      hide *;
      CountsAreSets(cfg, pcm, frames, n - 1);
      HeardFrame(cfg, pcm, frames, n - 1);
      CountStep(cfg, Coefficients(cfg), pcm, n - 1, frames[n - 1]);
      CountedNext(cfg, frames, n - 1, CountFrames(cfg, Coefficients(cfg), pcm, n - 1));
    }
  }

  /** The verdict on every recording: presence when at least minActiveFrames frames are loud; then an
      alarm when at least half of the loud frames carry the tone, and otherwise voice when at least
      minActiveFrames loud frames do not; and no event in all other cases. */
  lemma {:induction false} VerdictExactly(cfg: Config, pcm: seq<int16>, frames: seq<seq<int>>)
    requires cfg.sampleRate > 0 && cfg.frameSamples > 0 && AllHeard(cfg, pcm, frames)
    ensures var v := Detect(cfg, pcm);
            var loud := |set f | 0 <= f < |frames| && Loud(cfg, frames[f])|;
            var tonal := |set f | 0 <= f < |frames| && Tonal(cfg, frames[f])|;
            var least := cfg.minActiveFrames as int;
            && v.counts.frames == |frames| && v.counts.active == loud
            && v.counts.tone == tonal && v.counts.voice == loud - tonal
            && (v.presence <==> loud >= least)
            && (v.event == EventAlarmTone <==> loud >= least && 2 * tonal >= loud)
            && (v.event == EventVoice <==> loud >= least && 2 * tonal < loud && loud - tonal >= least)
            && (v.event == EventNone <==> loud < least || (2 * tonal < loud && loud - tonal < least))
            && (v.voiceActive <==> v.event == EventVoice)
  {
    HeardCount(cfg, pcm, frames);
    CountsAreSets(cfg, pcm, frames, |frames|);
    hide AllHeard, FrameCount, CountFrames, Coefficients, Loud, Tonal;
    assert LoudOnes(cfg, frames, |frames|) == set f | 0 <= f < |frames| && Loud(cfg, frames[f]);
    assert TonalOnes(cfg, frames, |frames|) == set f | 0 <= f < |frames| && Tonal(cfg, frames[f]);
  }

  /** Every recording has its frames. */
  lemma FramesOf(cfg: Config, pcm: seq<int16>) returns (frames: seq<seq<int>>)
    requires cfg.frameSamples > 0
    ensures AllHeard(cfg, pcm, frames)
  {
    var n, total := cfg.frameSamples as int, FrameCount(cfg, pcm);
    frames := [];
    while |frames| < total
      invariant |frames| <= total && forall f :: 0 <= f < |frames| ==> Hears(cfg, pcm, f, frames[f])
    {
      FrameFits(|frames|, total, |pcm|, n);
      FrameIsHeard(cfg, pcm, |frames|);
      frames := frames + [FrameSamples(pcm, |frames|, n, cfg.inputShift as int)];
    }
  }

  lemma FrameIsHeard(cfg: Config, pcm: seq<int16>, f: nat)
    requires (f + 1) * cfg.frameSamples as int <= |pcm|
    ensures Hears(cfg, pcm, f, FrameSamples(pcm, f, cfg.frameSamples as int, cfg.inputShift as int))
  {
    var n, s := cfg.frameSamples as int, cfg.inputShift as int;
    FrameInside(f, n);
    forall i | 0 <= i < n ensures Shifted(pcm[f * n + i] as int, s, FrameSamples(pcm, f, n, s)[i]) {
      ScaleShifts(pcm[f * n + i], s);
    }
  }

  /** Frames that are all the same are all loud or all silent, all with the tone or all without. */
  lemma {:induction false} AllAlike(cfg: Config, frames: seq<seq<int>>, n: nat)
    requires cfg.sampleRate > 0 && n <= |frames| && forall f :: 0 <= f < n ==> frames[f] == frames[0]
    ensures |LoudOnes(cfg, frames, n)| == if n > 0 && Loud(cfg, frames[0]) then n else 0
    ensures |TonalOnes(cfg, frames, n)| == if n > 0 && Tonal(cfg, frames[0]) then n else 0
  {
    if n == 0 {
      assert LoudOnes(cfg, frames, 0) == {} && TonalOnes(cfg, frames, 0) == {};
    } else {
      hide Loud, Tonal, LoudOnes, TonalOnes;
      AllAlike(cfg, frames, n - 1);
      SetsGrow(cfg, frames, n - 1);
    }
  }

  lemma FullScaleFrame(pcm: seq<int16>, f: nat)
    requires |pcm| == 2048 && (forall i :: 0 <= i < |pcm| ==> pcm[i] == 32767) && f < 8
    ensures Hears(DEFAULT_CONFIG, pcm, f, seq(256, _ => 511))
  {
    assert Pow2(6) == 64;
    hide Pow2;
  }

  lemma FullScaleFrames(pcm: seq<int16>) returns (frames: seq<seq<int>>)
    requires |pcm| == 2048 && forall i :: 0 <= i < |pcm| ==> pcm[i] == 32767
    ensures AllHeard(DEFAULT_CONFIG, pcm, frames) && |frames| == 8
    ensures forall f :: 0 <= f < 8 ==> frames[f] == frames[0]
    ensures forall f :: 0 <= f < 8 ==> Loud(DEFAULT_CONFIG, frames[f])
  {
    var xs := seq(256, _ => 511);
    frames := [xs, xs, xs, xs, xs, xs, xs, xs];
    ConstantSquares(256, 511);
    hide Hears, SumOfSquares;
    forall f | 0 <= f < 8 ensures Hears(DEFAULT_CONFIG, pcm, f, frames[f]) { FullScaleFrame(pcm, f); }
  }

  /** The shipped detector hears a recording at full scale: eight frames of 32767 are eight frames of
      511 after the shift, each of energy 66846976, far above the floor of 200000. */
  lemma FullScaleIsHeard(pcm: seq<int16>)
    requires |pcm| == 2048 && forall i :: 0 <= i < |pcm| ==> pcm[i] == 32767
    ensures Detect(DEFAULT_CONFIG, pcm).presence && Detect(DEFAULT_CONFIG, pcm).counts.active == 8
    ensures Detect(DEFAULT_CONFIG, pcm).event != EventNone
  {
    var frames := FullScaleFrames(pcm);
    hide AllHeard, Loud, Tonal, Detect;
    VerdictExactly(DEFAULT_CONFIG, pcm, frames);
    AllAlike(DEFAULT_CONFIG, frames, 8);
    assert LoudOnes(DEFAULT_CONFIG, frames, 8) == set f | 0 <= f < |frames| && Loud(DEFAULT_CONFIG, frames[f]);
    assert TonalOnes(DEFAULT_CONFIG, frames, 8) == set f | 0 <= f < |frames| && Tonal(DEFAULT_CONFIG, frames[f]);
  }

  lemma {:induction false} ConstantSquares(n: nat, x: int)
    ensures SumOfSquares(seq(n, _ => x)) == n * (x * x)
  {
    if n > 0 {
      ConstantSquares(n - 1, x);
      assert seq(n, _ => x)[1..] == seq(n - 1, _ => x);
    }
  }
}
