/** Transferable evidence that a log equivocated: what it is, whom it convicts, and the
    fingerprint under which a witness retains it. */
module Evidence {
  import opened Basics
  import opened Text
  import opened TextExact
  import opened Notes
  import opened Witness

  /** One cosigned checkpoint. The key fields are what its producer reports and are never trusted. */
  datatype Half = Half(who: Bytes, body: Bytes, cosigHex: Bytes, pubXHex: Bytes, pubYHex: Bytes)

  datatype Proof = Proof(schema: Bytes, a: Half, b: Half)

  /** Two checkpoints of one log and one size with different roots. */
  predicate Conflicting(bodyA: Bytes, bodyB: Bytes) {
    match (ParseCheckpoint(bodyA), ParseCheckpoint(bodyB))
    case (Some(a), Some(b)) => a.origin == b.origin && a.size == b.size && a.root != b.root
    case _ => false
  }

  predicate VerifyEquivocation(verify: Verify, bodyA: Bytes, sigA: Bytes, keyA: PubKey,
                               bodyB: Bytes, sigB: Bytes, keyB: PubKey)
  {
    verify(keyA, bodyA, sigA) && verify(keyB, bodyB, sigB) && Conflicting(bodyA, bodyB)
  }

  // ---- whom it convicts ----

  /** A key that verifies only bodies which one run of poll cosigned. */
  ghost predicate HonestKey(key: PubKey, cfg: Config, answers: seq<Answer>) {
    forall body, sig :: cfg.verify(key, body, sig) ==> body in Cosigned(cfg, FIRST_RUN, answers)
  }

  ghost predicate LogSigned(cfg: Config, body: Bytes) {
    exists sig :: cfg.verify(cfg.logKey, body, sig)
  }

  lemma AcceptedIsSigned(cfg: Config, v: View, a: Answer)
    requires PollStep(cfg, v, a).1.Accepted?
    ensures LogSigned(cfg, PollStep(cfg, v, a).1.body)
  {
    hide Decide, ParseCheckpoint, HexDec;
    assert PollStep(cfg, v, a).1.body == a.checkpoint.value.0 by { DecideBody(cfg, v, a); }
    assert cfg.verify(cfg.logKey, a.checkpoint.value.0, HexDec(a.checkpoint.value.1).value);
  }

  lemma DecideBody(cfg: Config, v: View, a: Answer)
    requires PollStep(cfg, v, a).1.Accepted?
    ensures PollStep(cfg, v, a).1.body == a.checkpoint.value.0
  {
    hide ParseCheckpoint, HexDec, HexRoot, DecodeProof;
  }

  /** A witness cosigns only what the operator signed under the pinned key. */
  lemma {:induction false} CosignedIsSigned(cfg: Config, v: View, answers: seq<Answer>, body: Bytes)
    requires body in Cosigned(cfg, v, answers)
    ensures LogSigned(cfg, body)
    decreases |answers|
  {
    hide PollStep, LogSigned;
    var (v', res) := PollStep(cfg, v, answers[0]);
    if res.Accepted? && body == res.body {
      AcceptedIsSigned(cfg, v, answers[0]);
    } else {
      CosignedIsSigned(cfg, v', answers[1..], body);
    }
  }

  /** Evidence under the keys of two witnesses that follow poll, both watching one log, convicts
      the operator: it signed two roots for one size. */
  lemma EvidenceConvictsLog(cfgA: Config, runA: seq<Answer>, cfgB: Config, runB: seq<Answer>,
                            bodyA: Bytes, sigA: Bytes, keyA: PubKey, bodyB: Bytes, sigB: Bytes, keyB: PubKey)
    requires cfgA.verify == cfgB.verify && cfgA.logKey == cfgB.logKey
    requires HonestKey(keyA, cfgA, runA) && HonestKey(keyB, cfgB, runB)
    requires VerifyEquivocation(cfgA.verify, bodyA, sigA, keyA, bodyB, sigB, keyB)
    ensures LogSigned(cfgA, bodyA) && LogSigned(cfgA, bodyB) && Conflicting(bodyA, bodyB)
  {
    hide Cosigned, Conflicting, LogSigned;
    CosignedIsSigned(cfgA, FIRST_RUN, runA, bodyA);
    CosignedIsSigned(cfgB, FIRST_RUN, runB, bodyB);
    assert LogSigned(cfgB, bodyB) <==> LogSigned(cfgA, bodyB) by { SameLog(cfgA, cfgB, bodyB); }
  }

  lemma SameLog(cfgA: Config, cfgB: Config, body: Bytes)
    requires cfgA.verify == cfgB.verify && cfgA.logKey == cfgB.logKey
    ensures LogSigned(cfgB, body) <==> LogSigned(cfgA, body)
  {
  }

  /** One witness that follows poll never cosigns both halves, whatever the log does and
      whatever the hash: evidence under its key alone is impossible. */
  lemma OneWitnessIsInnocent(cfg: Config, answers: seq<Answer>, bodyA: Bytes, sigA: Bytes, bodyB: Bytes, sigB: Bytes,
                             key: PubKey)
    requires HonestKey(key, cfg, answers)
    ensures !VerifyEquivocation(cfg.verify, bodyA, sigA, key, bodyB, sigB, key)
  {
    hide Cosigned, ParseCheckpoint, RunPreimages, History, Parsed;
    if cfg.verify(key, bodyA, sigA) && cfg.verify(key, bodyB, sigB) {
      var hashed := RunPreimages(cfg, FIRST_RUN, answers);
      var i := CosignedInHistory(cfg, answers, hashed, bodyA);
      var j := CosignedInHistory(cfg, answers, hashed, bodyB);
      var h := Parsed(Cosigned(cfg, FIRST_RUN, answers));
      if i <= j { SizesGrow(cfg.sha, hashed, h, i, j); } else { SizesGrow(cfg.sha, hashed, h, j, i); }
    }
  }

  // ---- the fingerprint of evidence ----

  /** Byte-wise lexicographic a > b. */
  predicate Greater(a: Bytes, b: Bytes) {
    a != [] && (b == [] || a[0] > b[0] || (a[0] == b[0] && Greater(a[1..], b[1..])))
  }

  const BARS: Bytes := [124, 124]

  function Ordered(a: Bytes, b: Bytes): Bytes {
    if Greater(a, b) then b + BARS + a else a + BARS + b
  }

  function ProofKey(sha: Sha, p: Proof): Bytes {
    HexEnc(sha(Ordered(p.a.body, p.b.body)))
  }

  lemma {:induction false} GreaterIsTotal(a: Bytes, b: Bytes)
    ensures !(Greater(a, b) && Greater(b, a))
    ensures !Greater(a, b) && !Greater(b, a) ==> a == b
  {
    if a != [] && b != [] && a[0] == b[0] {
      GreaterIsTotal(a[1..], b[1..]);
      assert a == [a[0]] + a[1..] && b == [b[0]] + b[1..];
    }
  }

  /** lo sorts before hi: it is a proper prefix, or the first byte that differs is smaller. */
  ghost predicate SortsBefore(lo: Bytes, hi: Bytes, i: nat) {
    && i <= |lo| && i < |hi| && (forall j :: 0 <= j < i ==> lo[j] == hi[j])
    && (i < |lo| ==> lo[i] < hi[i])
  }

  lemma {:induction false} GreaterExactly(lo: Bytes, hi: Bytes, i: nat)
    requires SortsBefore(lo, hi, i)
    ensures Greater(hi, lo) && !Greater(lo, hi)
    decreases i
  {
    if i > 0 {
      assert lo[0] == hi[0];
      assert forall j :: 0 <= j < i - 1 ==> lo[1..][j] == hi[1..][j];
      GreaterExactly(lo[1..], hi[1..], i - 1);
    }
  }

  /** The fingerprint is the hex digest of the two bodies in byte order with two bars between. */
  lemma KeyText(sha: Sha, p: Proof, lo: Bytes, hi: Bytes, i: nat)
    requires (lo == p.a.body && hi == p.b.body) || (lo == p.b.body && hi == p.a.body)
    requires SortsBefore(lo, hi, i) || lo == hi
    ensures ProofKey(sha, p) == HexEnc(sha(lo + [124, 124] + hi))
  {
    if SortsBefore(lo, hi, i) { GreaterExactly(lo, hi, i); } else { GreaterIsTotal(lo, hi); }
    hide Greater, SortsBefore;
  }

  predicate NoBar(s: Bytes) {
    forall i :: 0 <= i < |s| ==> s[i] != 124
  }

  /** A checkpoint body has no bar after its origin. */
  ghost predicate BarFreeAfter(origin: Bytes, body: Bytes) {
    origin <= body && NoBar(body[|origin|..])
  }

  lemma BarFreeIndex(origin: Bytes, body: Bytes)
    requires BarFreeAfter(origin, body)
    ensures forall k :: |origin| <= k < |body| ==> body[k] != 124
  {
    forall k | |origin| <= k < |body| ensures body[k] != 124 {
      assert body[k] == body[|origin|..][k - |origin|];
    }
  }

  lemma BarsSplit(origin: Bytes, a: Bytes, b: Bytes, a': Bytes, b': Bytes)
    requires BarFreeAfter(origin, a) && BarFreeAfter(origin, a') && a + BARS + b == a' + BARS + b'
    ensures a == a' && b == b'
  {
    BarFreeIndex(origin, a);
    BarFreeIndex(origin, a');
    hide BarFreeAfter;
    Joined(a, b);
    Joined(a', b');
    assert |a| == |a'|;
    var s := a + BARS + b;
    assert s[..|a|] == a && s[..|a'|] == a';
    assert s[|a| + 2..] == b && s[|a'| + 2..] == b';
  }

  lemma Joined(a: Bytes, b: Bytes)
    ensures var s := a + BARS + b;
            && |s| == |a| + 2 + |b| && s[|a|] == 124 && forall k :: 0 <= k < |a| ==> s[k] == a[k]
  {
  }

  lemma {:induction false} PartsNoBar(t: Bytes)
    requires forall i :: 0 <= i < |SplitLF(t)| ==> NoBar(SplitLF(t)[i])
    ensures NoBar(t)
  {
    if t != [] {
      var parts, rest := SplitLF(t), SplitLF(t[1..]);
      if t[0] == LF {
        assert forall i :: 0 <= i < |rest| ==> rest[i] == parts[i + 1];
      } else {
        assert rest[0] == parts[0][1..] && t[0] == parts[0][0];
        assert forall i :: 1 <= i < |rest| ==> rest[i] == parts[i];
      }
      PartsNoBar(t[1..]);
      assert t == [t[0]] + t[1..];
    }
  }

  lemma {:induction false} FirstPartThenNoBar(t: Bytes)
    requires forall i :: 1 <= i < |SplitLF(t)| ==> NoBar(SplitLF(t)[i])
    ensures BarFreeAfter(SplitLF(t)[0], t)
  {
    if t != [] {
      var parts, rest := SplitLF(t), SplitLF(t[1..]);
      if t[0] == LF {
        assert forall i :: 0 <= i < |rest| ==> rest[i] == parts[i + 1];
        PartsNoBar(t[1..]);
        assert t == [t[0]] + t[1..] && t[0..] == t;
      } else {
        assert forall i :: 1 <= i < |rest| ==> rest[i] == parts[i];
        FirstPartThenNoBar(t[1..]);
        assert parts[0] == [t[0]] + rest[0] && t == [t[0]] + t[1..];
        assert t[|parts[0]|..] == t[1..][|rest[0]|..];
      }
    }
  }

  lemma {:induction false} TrimKeepsBarFree(origin: Bytes, body: Bytes)
    requires BarFreeAfter(origin, TrimLF(body))
    ensures BarFreeAfter(origin, body)
  {
    if body != [] && Last(body) == LF {
      TrimKeepsBarFree(origin, Front(body));
      assert body == Front(body) + [LF];
      assert body[|origin|..] == Front(body)[|origin|..] + [LF];
    }
  }

  lemma AtoiNoBar(s: Bytes)
    requires Atoi(s).Some?
    ensures NoBar(s)
  {
    var signed := s != [] && (s[0] == 43 || s[0] == 45);
    var digits := if signed then s[1..] else s;
    assert AllDigits(digits);
    if signed { assert s == [s[0]] + digits; }
  }

  lemma {:induction false} QuantaNoBar(s: Bytes)
    requires Quanta(s).Some?
    ensures NoBar(s)
  {
    if s != [] {
      var padded := Group(s[0], s[1], s[2], s[3]).value.1;
      assert s[0] != 124 && s[1] != 124 && s[2] != 124 && s[3] != 124;
      hide Group;
      if !padded { QuantaNoBar(s[4..]); }
      assert s == [s[0], s[1], s[2], s[3]] + s[4..];
    }
  }

  lemma {:induction false} DropBreaksNoBar(s: Bytes)
    requires NoBar(DropBreaks(s))
    ensures NoBar(s)
  {
    if s != [] {
      if s[0] != LF && s[0] != CR {
        assert DropBreaks(s)[0] == s[0] && DropBreaks(s)[1..] == DropBreaks(s[1..]);
      }
      DropBreaksNoBar(s[1..]);
      assert s == [s[0]] + s[1..];
    }
  }

  /** Only the origin of a checkpoint body can contain a bar. */
  lemma ParsedIsBarFree(body: Bytes)
    requires ParseCheckpoint(body).Some?
    ensures BarFreeAfter(ParseCheckpoint(body).value.origin, body)
  {
    var lines := SplitLF(TrimLF(body));
    AtoiNoBar(lines[1]);
    QuantaNoBar(DropBreaks(lines[2]));
    DropBreaksNoBar(lines[2]);
    hide NoBar, BarFreeAfter, Atoi, B64Dec;
    FirstPartThenNoBar(TrimLF(body));
    TrimKeepsBarFree(lines[0], body);
  }

  /** The fingerprint does not depend on the order of the halves ... */
  lemma KeyIgnoresOrder(sha: Sha, p: Proof)
    ensures ProofKey(sha, p) == ProofKey(sha, p.(a := p.b, b := p.a))
  {
    GreaterIsTotal(p.a.body, p.b.body);
    hide Greater;
  }

  /** ... and, for the log this witness watches and a hash without a collision on the two
      strings, it is the pair of bodies. */
  lemma {:induction false} KeyIsThePair(sha: Sha, p: Proof, q: Proof, origin: Bytes)
    requires CollisionFree(sha, {Ordered(p.a.body, p.b.body), Ordered(q.a.body, q.b.body)})
    requires Conflicting(p.a.body, p.b.body) && ParseCheckpoint(p.a.body).value.origin == origin
    requires Conflicting(q.a.body, q.b.body) && ParseCheckpoint(q.a.body).value.origin == origin
    ensures ProofKey(sha, p) == ProofKey(sha, q) <==> {p.a.body, p.b.body} == {q.a.body, q.b.body}
  {
    var x, y := Ordered(p.a.body, p.b.body), Ordered(q.a.body, q.b.body);
    ParsedIsBarFree(p.a.body);
    ParsedIsBarFree(p.b.body);
    ParsedIsBarFree(q.a.body);
    ParsedIsBarFree(q.b.body);
    hide Ordered, ParseCheckpoint, BarFreeAfter;
    OrderedIsThePair(p.a.body, p.b.body, q.a.body, q.b.body, origin);
    HexRoundTrip(sha(x));
    HexRoundTrip(sha(y));
    assert Hashed(x, {x, y}) && Hashed(y, {x, y});
  }

  lemma OrderedIsThePair(a: Bytes, b: Bytes, a': Bytes, b': Bytes, origin: Bytes)
    requires BarFreeAfter(origin, a) && BarFreeAfter(origin, b) && BarFreeAfter(origin, a') && BarFreeAfter(origin, b')
    ensures Ordered(a, b) == Ordered(a', b') <==> {a, b} == {a', b'}
  {
    hide Greater, BarFreeAfter;
    var (lo, hi) := if Greater(a, b) then (b, a) else (a, b);
    var (lo', hi') := if Greater(a', b') then (b', a') else (a', b');
    if Ordered(a, b) == Ordered(a', b') {
      BarsSplit(origin, lo, hi, lo', hi');
    }
    if {a, b} == {a', b'} {
      assert a in {a', b'} && b in {a', b'} && a' in {a, b} && b' in {a, b};
      GreaterIsTotal(a, b);
    }
  }

  /** Spelled the way the log prints checkpoints. */
  ghost predicate Canonical(body: Bytes) {
    ParseCheckpoint(body).Some? && body == CheckpointBody(ParseCheckpoint(body).value)
  }

  /** The two checkpoints (origin, size and root) that evidence sets against each other. */
  function ForkOf(p: Proof): set<Checkpoint>
    requires Conflicting(p.a.body, p.b.body)
  {
    {ParseCheckpoint(p.a.body).value, ParseCheckpoint(p.b.body).value}
  }

  /** When all four bodies are canonical the fingerprint is the fork itself: equal fingerprints mean
      the same two checkpoints. */
  lemma {:induction false} KeyIsTheFork(sha: Sha, p: Proof, q: Proof, origin: Bytes)
    requires CollisionFree(sha, {Ordered(p.a.body, p.b.body), Ordered(q.a.body, q.b.body)})
    requires Conflicting(p.a.body, p.b.body) && ParseCheckpoint(p.a.body).value.origin == origin
    requires Conflicting(q.a.body, q.b.body) && ParseCheckpoint(q.a.body).value.origin == origin
    requires Canonical(p.a.body) && Canonical(p.b.body) && Canonical(q.a.body) && Canonical(q.b.body)
    ensures ProofKey(sha, p) == ProofKey(sha, q) <==> ForkOf(p) == ForkOf(q)
  {
    KeyIsThePair(sha, p, q, origin);
    hide CollisionFree, ProofKey, Conflicting, Ordered;
    CanonicalIsInjective(p.a.body, q.a.body);
    CanonicalIsInjective(p.a.body, q.b.body);
    CanonicalIsInjective(p.b.body, q.a.body);
    CanonicalIsInjective(p.b.body, q.b.body);
    hide Canonical, ParseCheckpoint;
    SamePairs(p.a.body, p.b.body, q.a.body, q.b.body,
              ParseCheckpoint(p.a.body).value, ParseCheckpoint(p.b.body).value,
              ParseCheckpoint(q.a.body).value, ParseCheckpoint(q.b.body).value);
  }

  lemma CanonicalIsInjective(x: Bytes, y: Bytes)
    requires Canonical(x) && Canonical(y)
    ensures ParseCheckpoint(x).value == ParseCheckpoint(y).value <==> x == y
  {
    hide ParseCheckpoint, CheckpointBody;
  }

  lemma SamePairs<X, Y>(a: X, b: X, a': X, b': X, f: Y, g: Y, f': Y, g': Y)
    requires (a == a' <==> f == f') && (a == b' <==> f == g') && (b == a' <==> g == f') && (b == b' <==> g == g')
    ensures {a, b} == {a', b'} <==> {f, g} == {f', g'}
  {
    if {a, b} == {a', b'} { assert a in {a', b'} && b in {a', b'} && a' in {a, b} && b' in {a, b}; }
    if {f, g} == {f', g'} { assert f in {f', g'} && g in {f', g'} && f' in {f, g} && g' in {f, g}; }
  }

  // ---- one fork, many spellings ----

  /** The same checkpoint with n more trailing newlines, which the parser trims. */
  function Respelled(body: Bytes, n: nat): Bytes {
    body + Newlines(n)
  }

  lemma {:induction false} RespelledTrims(body: Bytes, n: nat)
    ensures TrimLF(Respelled(body, n)) == TrimLF(body) && |Respelled(body, n)| == |body| + n
  {
    if n == 0 {
      assert Respelled(body, 0) == body;
    } else {
      RespelledTrims(body, n - 1);
      var s := Respelled(body, n);
      assert s == Respelled(body, n - 1) + [LF] by { assert Newlines(n) == Newlines(n - 1) + [LF]; }
      assert Front(s) == Respelled(body, n - 1) && Last(s) == LF;
    }
  }

  lemma RespelledParses(body: Bytes, n: nat)
    ensures ParseCheckpoint(Respelled(body, n)) == ParseCheckpoint(body)
    ensures |Respelled(body, n)| == |body| + n
  {
    RespelledTrims(body, n);
    hide Respelled, TrimLF, SplitLF, Atoi, B64Dec;
  }

  /** A witness cosigns every spelling the log signs: to poll it is the checkpoint it already stores. */
  lemma {:induction false} RespelledIsCosigned(cfg: Config, v: View, a: Answer, body: Bytes, n: nat, sigHex: Bytes)
    requires ParseCheckpoint(body).Some? && ParseCheckpoint(body).value.origin == cfg.origin
    requires Represents(v, ParseCheckpoint(body).value) && a.checkpoint == Some((Respelled(body, n), sigHex))
    requires HexDec(sigHex).Some? && cfg.verify(cfg.logKey, Respelled(body, n), HexDec(sigHex).value)
    ensures PollStep(cfg, v, a) == (v, Accepted(Respelled(body, n), cfg.sign(Respelled(body, n), a.rnd)))
  {
    RespelledParses(body, n);
    hide ParseCheckpoint, Respelled, HexDec, HexRoot, DecodeProof;
  }

  function RespelledFork(p: Proof, n: nat): Proof {
    p.(a := p.a.(body := Respelled(p.a.body, n)))
  }

  /** So the fingerprint is not that of the fork (origin, size and roots): each number of trailing
      newlines gives the same fork, conflicting all the same, a fingerprint of its own. */
  lemma {:induction false} RespellingIsNew(sha: Sha, p: Proof, m: nat, n: nat)
    requires Conflicting(p.a.body, p.b.body)
    requires CollisionFree(sha, {Ordered(Respelled(p.a.body, m), p.b.body), Ordered(Respelled(p.a.body, n), p.b.body)})
    ensures Conflicting(RespelledFork(p, n).a.body, RespelledFork(p, n).b.body)
    ensures ParseCheckpoint(RespelledFork(p, n).a.body) == ParseCheckpoint(p.a.body)
    ensures ProofKey(sha, RespelledFork(p, m)) == ProofKey(sha, RespelledFork(p, n)) <==> m == n
  {
    var x, y := RespelledFork(p, m), RespelledFork(p, n);
    RespelledParses(p.a.body, m);
    RespelledParses(p.a.body, n);
    assert ParseCheckpoint(x.a.body) == ParseCheckpoint(p.a.body) == ParseCheckpoint(y.a.body);
    hide Respelled, ParseCheckpoint, ProofKey, CollisionFree, Ordered;
    KeyIsThePair(sha, x, y, ParseCheckpoint(p.a.body).value.origin);
    assert x.a.body != p.b.body && y.a.body != p.b.body;
    if {x.a.body, p.b.body} == {y.a.body, p.b.body} { assert x.a.body in {y.a.body, p.b.body}; }
  }
}
