/** The detector as mathematics on unbounded integers: configuration, fixed-point cosine,
    probe frequencies, frame classification and the verdict. */
module DetectorSpec {
  import opened Basics
  import opened Goertzel

  newtype int16 = x: int | -0x8000 <= x < 0x8000
  newtype uint32 = x: int | 0 <= x < 0x1_0000_0000
  newtype int64 = x: int | -0x8000_0000_0000_0000 <= x < 0x8000_0000_0000_0000

  datatype Config = Config(
    sampleRate: uint32, frameSamples: uint32, toneFreqHz: uint32, inputShift: uint32,
    energyFloor: int64, minActiveFrames: uint32, toneRatioMin: uint32, toneBins: uint32, toneBandHz: uint32)

  const DEFAULT_CONFIG := Config(16000, 256, 3100, 6, 200000, 8, 40, 3, 200)
  const TONE_BINS_MAX: uint32 := 8

  const Q28_ONE := 0x1000_0000
  const PI_Q28 := 843314857
  const TWO_PI_Q28 := 1686629714
  const HALF_PI_Q28 := 421657428

  /** C division and remainder truncate toward zero. */
  function TruncDiv(a: int, b: int): int
    requires b > 0
  {
    if a >= 0 then a / b else -((-a) / b)
  }

  function TruncRem(a: int, b: int): int
    requires b > 0
  {
    a - b * TruncDiv(a, b)
  }

  /** Folds any angle to [0, pi/2]; `neg` says whether the cosine changes sign. */
  function FoldAngle(a: int): (r: (int, bool))
    ensures 0 <= r.0 <= HALF_PI_Q28
  {
    TruncRemRange(a, TWO_PI_Q28);
    var a1 := TruncRem(a, TWO_PI_Q28);
    var a2 := if a1 < 0 then a1 + TWO_PI_Q28 else a1;
    var a3 := if a2 > PI_Q28 then TWO_PI_Q28 - a2 else a2;
    if a3 > HALF_PI_Q28 then (PI_Q28 - a3, true) else (a3, false)
  }

  lemma TruncRemRange(a: int, b: int)
    requires b > 0
    ensures -b < TruncRem(a, b) < b
    ensures TruncRem(a, b) == if a < 0 && a % b > 0 then a % b - b else a % b
  {
    if a < 0 {
      NegRem(-a, b);
    } else {
      Euclid(a, b);
    }
  }

  lemma Euclid(a: int, b: int)
    requires b > 0
    ensures a == b * (a / b) + a % b && 0 <= a % b < b
  {
  }

  lemma NegRem(c: int, b: int)
    requires b > 0
    ensures (-c) % b == if c % b == 0 then 0 else b - c % b
    ensures -c + b * (c / b) == -(c % b)
  {
    var q, r := c / b, c % b;
    Euclid(c, b);
    Distribute(b, 0, q);
    Distribute(b, 0, q + 1);
    Distribute(b, q + 1, q);
    if r == 0 {
      QuotientUnique(-c, b, -q, 0);
    } else {
      QuotientUnique(-c, b, -(q + 1), b - r);
    }
  }

  lemma Distribute(d: int, x: int, y: int)
    ensures d * (x - y) == d * x - d * y
  {
  }

  /** Quotient and remainder are the only pair of their kind. */
  lemma QuotientUnique(a: int, b: int, q: int, r: int)
    requires a == b * q + r && 0 <= r < b
    ensures a / b == q && a % b == r
  {
    Euclid(a, b);
    var q' := a / b;
    Distribute(b, q', q);
    MulOrder(-1, q' - q, b);
    MulOrder(q' - q, 1, b);
  }

  /** Four Taylor terms of the cosine on [0, pi/2]. */
  function Taylor(a: int): int {
    var x2 := a * a / Q28_ONE;
    var t := x2 * x2 / Q28_ONE;
    var t' := t * x2 / Q28_ONE;
    Q28_ONE - x2 / 2 + t / 24 - t' / 720
  }

  function CosQ28(a: int): int {
    var (b, neg) := FoldAngle(a);
    if neg then -Taylor(b) else Taylor(b)
  }

  /** Goertzel coefficient 2*cos(2*pi*f/fs) in Q15. */
  function CoeffQ15(f: int, fs: int): int
    requires fs > 0
  {
    2 * CosQ28(TruncDiv(TWO_PI_Q28 * f, fs)) / 8192
  }

  function Bins(cfg: Config): (b: uint32)
    ensures 1 <= b <= TONE_BINS_MAX
  {
    if cfg.toneBins < 1 then 1 else if cfg.toneBins > TONE_BINS_MAX then TONE_BINS_MAX else cfg.toneBins
  }

  function ProbeFreq(cfg: Config, k: nat, bins: nat): int {
    if bins <= 1 then cfg.toneFreqHz as int
    else cfg.toneFreqHz as int - cfg.toneBandHz as int + 2 * cfg.toneBandHz as int * k / (bins - 1)
  }

  function Coefficients(cfg: Config): (qs: seq<int>)
    requires cfg.sampleRate > 0
    ensures |qs| == Bins(cfg) as int
  {
    seq(Bins(cfg) as int, k requires 0 <= k < Bins(cfg) as int =>
      CoeffQ15(ProbeFreq(cfg, k, Bins(cfg) as int), cfg.sampleRate as int))
  }

  function Scale(x: int16, shift: nat): int {
    x as int / Pow2(shift)
  }

  /** y is x shifted right by s, towards minus infinity. */
  ghost predicate Shifted(x: int, s: nat, y: int) {
    Pow2(s) * y <= x < Pow2(s) * (y + 1)
  }

  lemma ScaleShifts(x: int16, s: nat)
    ensures Shifted(x as int, s, Scale(x, s))
  {
    Euclid(x as int, Pow2(s));
    Distribute(Pow2(s), Scale(x, s), -1);
  }

  lemma ShiftedOnce(x: int, s: nat, y: int, z: int)
    requires Shifted(x, s, y) && Shifted(x, s, z)
    ensures y == z
  {
    MulOrder(y, z + 1, Pow2(s));
    MulOrder(z, y + 1, Pow2(s));
  }

  /** The scaled samples of frame f. */
  function FrameSamples(pcm: seq<int16>, f: nat, n: nat, shift: nat): (xs: seq<int>)
    requires (f + 1) * n <= |pcm|
    ensures |xs| == n
  {
    FrameInside(f, n);
    seq(n, i requires 0 <= i < n => Scale(pcm[f * n + i], shift))
  }

  lemma FrameInside(f: nat, n: nat)
    ensures (f + 1) * n == f * n + n
  {
  }

  function Energy(xs: seq<int>): (e: int)
    ensures e >= 0
  {
    if xs == [] then 0 else
      SquareMonotone(Last(xs), Abs(Last(xs)));
      Energy(Front(xs)) + Last(xs) * Last(xs)
  }

  function Max(a: int, b: int): int {
    if b > a then b else a
  }

  /** Strongest power over the probes, at least 0. */
  function MaxPower(qs: seq<int>, xs: seq<int>): (p: int)
    ensures p >= 0
  {
    if qs == [] then 0 else Max(MaxPower(Front(qs), xs), Power(Last(qs), Run(Last(qs), xs)))
  }

  datatype FrameClass = Silent | Tone | Voice

  function Classify(cfg: Config, qs: seq<int>, xs: seq<int>): FrameClass {
    if Energy(xs) < cfg.energyFloor as int then Silent
    else if MaxPower(qs, xs) >= Energy(xs) * cfg.toneRatioMin as int then Tone
    else Voice
  }

  datatype Counts = Counts(frames: nat, active: nat, tone: nat, voice: nat)

  function Count(c: Counts, k: FrameClass): Counts {
    match k
    case Silent => c.(frames := c.frames + 1)
    case Tone => c.(frames := c.frames + 1, active := c.active + 1, tone := c.tone + 1)
    case Voice => c.(frames := c.frames + 1, active := c.active + 1, voice := c.voice + 1)
  }

  lemma FrameFits(f: nat, total: nat, len: nat, n: nat)
    requires n > 0 && f < total <= len / n
    ensures (f + 1) * n <= len
  {
    MulMonotone(f + 1, len / n, n);
    assert len == n * (len / n) + len % n;
    assert (f + 1) * n == n * (f + 1);
  }

  /** Whole frames in a recording. */
  function FrameCount(cfg: Config, pcm: seq<int16>): nat
    requires cfg.frameSamples > 0
  {
    |pcm| / cfg.frameSamples as int
  }

  /** Counts over the first f frames. */
  function CountFrames(cfg: Config, qs: seq<int>, pcm: seq<int16>, f: nat): (c: Counts)
    requires cfg.frameSamples > 0 && f <= FrameCount(cfg, pcm)
    ensures c.frames == f && c.active == c.tone + c.voice && c.active <= f
  {
    if f == 0 then Counts(0, 0, 0, 0)
    else
      FrameFits(f - 1, f, |pcm|, cfg.frameSamples as int);
      Count(CountFrames(cfg, qs, pcm, f - 1),
            Classify(cfg, qs, FrameSamples(pcm, f - 1, cfg.frameSamples as int, cfg.inputShift as int)))
  }

  datatype Event = EventNone | EventVoice | EventAlarmTone

  datatype Verdict = Verdict(counts: Counts, event: Event, voiceActive: bool, presence: bool)

  function Decide(cfg: Config, c: Counts): Verdict {
    var presence := c.active >= cfg.minActiveFrames as int;
    if presence && c.tone * 2 >= c.active then Verdict(c, EventAlarmTone, false, presence)
    else if presence && c.voice >= cfg.minActiveFrames as int then Verdict(c, EventVoice, true, presence)
    else Verdict(c, EventNone, false, presence)
  }

  /** The detector's verdict on a recording. */
  function Detect(cfg: Config, pcm: seq<int16>): Verdict
    requires cfg.sampleRate > 0
  {
    if cfg.frameSamples == 0 then Verdict(Counts(0, 0, 0, 0), EventNone, false, false)
    else Decide(cfg, CountFrames(cfg, Coefficients(cfg), pcm, FrameCount(cfg, pcm)))
  }

  // ---- 32-bit counters ----

  const TWO_32 := 0x1_0000_0000

  /** One more on a 32-bit counter, and twice a 32-bit value. */
  function Inc(x: uint32): uint32 {
    if x == 0xffff_ffff then 0 else x + 1
  }

  function Double(x: uint32): uint32 {
    (2 * (x as int) % TWO_32) as uint32
  }

  /** What 32-bit counters hold of the counts. */
  function Wrapped(c: Counts): Counts {
    Counts(c.frames % TWO_32, c.active % TWO_32, c.tone % TWO_32, c.voice % TWO_32)
  }

  lemma IncWraps(x: uint32, n: nat)
    requires x as int == n % TWO_32
    ensures Inc(x) as int == (n + 1) % TWO_32
  {
  }

  /** The decision as the machine takes it, on 32-bit counters with a doubling modulo 2^32. */
  function MachineDecide(cfg: Config, w: Counts): Verdict {
    var presence := w.active >= cfg.minActiveFrames as int;
    if presence && w.tone * 2 % TWO_32 >= w.active then Verdict(w, EventAlarmTone, false, presence)
    else if presence && w.voice >= cfg.minActiveFrames as int then Verdict(w, EventVoice, true, presence)
    else Verdict(w, EventNone, false, presence)
  }

  function MachineVerdict(cfg: Config, pcm: seq<int16>): Verdict
    requires cfg.sampleRate > 0
  {
    if cfg.frameSamples == 0 then Verdict(Counts(0, 0, 0, 0), EventNone, false, false)
    else MachineDecide(cfg, Wrapped(CountFrames(cfg, Coefficients(cfg), pcm, FrameCount(cfg, pcm))))
  }

  lemma WrapOfSmall(c: Counts)
    requires c.active == c.tone + c.voice && c.active <= c.frames
    ensures Wrapped(c) == c <==> c.frames < TWO_32
    ensures c.frames >= TWO_32 ==> Wrapped(c).frames != c.frames
  {
  }

  lemma DoubleWraps(tone: nat, active: nat)
    requires tone <= active < TWO_32
    ensures tone < 0x8000_0000 ==> tone * 2 % TWO_32 == tone * 2
    ensures tone >= 0x8000_0000 ==> tone * 2 % TWO_32 < active <= tone * 2
  {
    if tone >= 0x8000_0000 { assert tone * 2 % TWO_32 == tone * 2 - TWO_32; }
  }

  lemma WrapDecides(cfg: Config, c: Counts)
    requires c.active == c.tone + c.voice && c.active <= c.frames
    ensures MachineDecide(cfg, Wrapped(c)) == Decide(cfg, c)
       <==> c.frames < TWO_32 && (c.tone < 0x8000_0000 || c.active < cfg.minActiveFrames as int)
  {
    WrapOfSmall(c);
    if c.frames < TWO_32 {
      DoubleWraps(c.tone, c.active);
    } else {
      hide Wrapped;
    }
  }

  /** The 32-bit verdict is the intended one exactly when the frame counter does not wrap and, if
      there is presence, fewer than 2^31 frames carry the tone: beyond that the doubling wraps and
      an alarm is lost. Fewer than 2^31 frames are always enough. */
  lemma {:induction false} WrapExactly(cfg: Config, pcm: seq<int16>)
    requires cfg.sampleRate > 0 && cfg.frameSamples > 0
    ensures var c := CountFrames(cfg, Coefficients(cfg), pcm, FrameCount(cfg, pcm));
            (MachineVerdict(cfg, pcm) == Detect(cfg, pcm)
             <==> FrameCount(cfg, pcm) < TWO_32 && (c.tone < 0x8000_0000 || c.active < cfg.minActiveFrames as int))
    ensures FrameCount(cfg, pcm) < 0x8000_0000 ==> MachineVerdict(cfg, pcm) == Detect(cfg, pcm)
  {
    hide CountFrames, Coefficients, Decide, MachineDecide, Wrapped, FrameCount;
    WrapDecides(cfg, CountFrames(cfg, Coefficients(cfg), pcm, FrameCount(cfg, pcm)));
  }

  /** The reported counters are the true ones modulo 2^32. */
  lemma CountersWrap(cfg: Config, pcm: seq<int16>)
    requires cfg.sampleRate > 0
    ensures var c := Detect(cfg, pcm).counts;
            MachineVerdict(cfg, pcm).counts
            == Counts(c.frames % 0x1_0000_0000, c.active % 0x1_0000_0000,
                      c.tone % 0x1_0000_0000, c.voice % 0x1_0000_0000)
  {
    hide CountFrames, Coefficients, FrameCount;
  }

  // ---- the recording that loses its alarm ----

  /** A frame, played n times. */
  function Repeated(frame: seq<int16>, n: nat): (pcm: seq<int16>)
    requires frame != []
    ensures |pcm| == n * |frame|
  {
    seq(n * |frame|, i requires 0 <= i => frame[i % |frame|])
  }

  lemma PositionInFrame(f: nat, size: nat, i: nat, n: nat)
    requires f < n && i < size
    ensures f * size + i < n * size && (f * size + i) % size == i && (f + 1) * size <= n * size
  {
    MulMonotone(f + 1, n, size);
    assert size * (f + 1) == f * size + size && size * n == n * size && (f + 1) * size == size * (f + 1);
    RemainderOf(f, size, i);
  }

  lemma RemainderOf(f: nat, size: nat, i: nat)
    requires i < size
    ensures (f * size + i) % size == i
  {
    QuotientUnique(f * size + i, size, f, i);
  }

  /** What the detector sees of one frame. */
  function Scaled(frame: seq<int16>, shift: nat): seq<int> {
    seq(|frame|, i requires 0 <= i < |frame| => Scale(frame[i], shift))
  }

  lemma RepeatedSamples(frame: seq<int16>, f: nat, n: nat, shift: nat)
    requires frame != [] && f < n
    ensures (f + 1) * |frame| <= |Repeated(frame, n)|
    ensures FrameSamples(Repeated(frame, n), f, |frame|, shift) == Scaled(frame, shift)
  {
    hide Scale;
    PositionInFrame(f, |frame|, 0, n);
    var xs := FrameSamples(Repeated(frame, n), f, |frame|, shift);
    forall i | 0 <= i < |frame| ensures xs[i] == Scaled(frame, shift)[i] {
      PositionInFrame(f, |frame|, i, n);
      FrameInside(f, |frame|);
    }
  }

  lemma ExactQuotient(n: nat, size: nat)
    requires size > 0
    ensures n * size / size == n
  {
    RemainderOf(n, size, 0);
    var q := n * size / size;
    assert n * size == size * q;
    assert size * (q - n) == 0;
    MulOrder(q - n, 1, size);
    MulOrder(-1, q - n, size);
  }

  /** The frame, as this configuration hears it, carries the tone. */
  predicate HasTone(cfg: Config, frame: seq<int16>)
    requires cfg.sampleRate > 0
  {
    Classify(cfg, Coefficients(cfg), Scaled(frame, cfg.inputShift as int)) == Tone
  }

  lemma {:induction false} CountRepeated(cfg: Config, frame: seq<int16>, n: nat, f: nat)
    requires cfg.sampleRate > 0 && cfg.frameSamples > 0 && |frame| == cfg.frameSamples as int && HasTone(cfg, frame)
    requires f <= n
    ensures FrameCount(cfg, Repeated(frame, n)) == n
    ensures CountFrames(cfg, Coefficients(cfg), Repeated(frame, n), f) == Counts(f, f, f, 0)
    decreases f
  {
    hide Classify, Coefficients, FrameSamples, Scaled, Repeated;
    ExactQuotient(n, |frame|);
    if f > 0 {
      CountRepeated(cfg, frame, n, f - 1);
      RepeatedSamples(frame, f - 1, n, cfg.inputShift as int);
    }
  }

  /** A tone held for n frames: the verdict is the intended one exactly for n < 2^31. From there
      up to 2^32 frames the alarm that was meant comes out as no event. */
  lemma {:induction false} LongToneLosesAlarm(cfg: Config, frame: seq<int16>, n: nat)
    requires cfg.sampleRate > 0 && cfg.frameSamples > 0 && |frame| == cfg.frameSamples as int && HasTone(cfg, frame)
    requires 0 < cfg.minActiveFrames as int <= 0x8000_0000
    ensures MachineVerdict(cfg, Repeated(frame, n)) == Detect(cfg, Repeated(frame, n)) <==> n < 0x8000_0000
    ensures 0x8000_0000 <= n < TWO_32 ==>
              && Detect(cfg, Repeated(frame, n)).event == EventAlarmTone
              && MachineVerdict(cfg, Repeated(frame, n)).event == EventNone
  {
    CountRepeated(cfg, frame, n, n);
    hide CountFrames, Coefficients, HasTone, Repeated, FrameCount;
    var c := Counts(n, n, n, 0);
    WrapDecides(cfg, c);
    if 0x8000_0000 <= n < TWO_32 {
      WrapOfSmall(c);
      DoubleWraps(n, n);
    }
  }

  /** Such frames exist: without an energy floor and without a ratio to reach, any frame has tone. */
  lemma AnyFrameHasTone(cfg: Config, frame: seq<int16>)
    requires cfg.sampleRate > 0 && cfg.energyFloor <= 0 && cfg.toneRatioMin == 0
    ensures HasTone(cfg, frame)
  {
    var xs := Scaled(frame, cfg.inputShift as int);
    assert Energy(xs) >= 0 && MaxPower(Coefficients(cfg), xs) >= 0;
    hide Energy, MaxPower, Coefficients, Scaled;
  }

  // ---- bounds ----

  /** Bound on the magnitude of a scaled sample. */
  function Amp(shift: nat): nat {
    0x8000 / Pow2(shift) + 1
  }

  lemma ScaleBounded(x: int16, shift: nat)
    ensures 0 <= Scale(x, shift) + Amp(shift) && Scale(x, shift) <= Amp(shift)
  {
    DivBounded(x as int, Pow2(shift));
  }

  /** Floor division of a 16-bit value. */
  lemma DivBounded(x: int, d: int)
    requires -0x8000 <= x < 0x8000 && d >= 1
    ensures -(0x8000 / d) - 1 <= x / d <= 0x8000 / d
  {
    var q, k := x / d, 0x8000 / d;
    assert x == d * q + x % d && 0x8000 == d * k + 0x8000 % d;
    MulOrder(q, k + 1, d);
    MulOrder(-k - 1, q + 1, d);
    assert d * (k + 1) == d * k + d && d * (q + 1) == d * q + d;
    assert d * (-k - 1) == -(d * k) - d;
  }

  lemma MulOrder(a: int, b: int, d: int)
    requires d >= 1 && d * a < d * b
    ensures a < b
  {
    MulMonotone(b, a, d);
  }

  lemma MulMonotone(a: int, b: int, d: int)
    requires d >= 1
    ensures a <= b ==> d * a <= d * b
  {
  }
}
