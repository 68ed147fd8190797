/** One witness polling an arbitrary log: the poll step, whole runs, and what the sequence of
    cosigned checkpoints is worth. */
module Witness {
  import opened Basics
  import opened Text
  import opened Notes
  import opened MerkleTree
  import opened MerkleGrowth
  import opened MerkleVerify

  /** What a witness is configured with. Signing takes fresh randomness each time. */
  datatype Config = Config(
    name: Bytes, origin: Bytes, self: PubKey, logKey: PubKey,
    sha: Sha, verify: Verify, sign: (Bytes, nat) -> Bytes)

  /** Everything an adversarial log can answer to one poll, and the signing randomness. */
  datatype Answer = Answer(checkpoint: Option<(Bytes, Bytes)>, proof: Option<seq<Bytes>>, rnd: nat)

  datatype PollResult = Failed | Refused | Accepted(body: Bytes, sig: Bytes)

  /** The persisted view. An empty root means no checkpoint has been accepted yet. */
  datatype View = View(origin: Bytes, size: int, root: Bytes)

  const FIRST_RUN := View([], 0, [])

  function HexRoot(h: Bytes): Option<Digest> {
    match HexDec(h)
    case Some(b) => if |b| == 32 then Some(b) else None
    case None => None
  }

  /** A proof decodes exactly when each of its hexes does. */
  function DecodeProof(hexes: seq<Bytes>): Option<seq<Digest>> {
    if forall i :: 0 <= i < |hexes| ==> HexRoot(hexes[i]).Some?
    then Some(seq(|hexes|, i requires 0 <= i < |hexes| && HexRoot(hexes[i]).Some? => HexRoot(hexes[i]).value))
    else None
  }

  function Advanced(c: Checkpoint): View {
    View(c.origin, c.size, HexEnc(c.root))
  }

  /** Is checkpoint c acceptable after view v? Only this decision needs the log's proof. */
  function Decide(cfg: Config, v: View, c: Checkpoint, body: Bytes, a: Answer): (View, PollResult) {
    var accepted := Accepted(body, cfg.sign(body, a.rnd));
    if v.root == [] then (Advanced(c), accepted)
    else
      match HexRoot(v.root)
      case None => (v, Failed)
      case Some(oldRoot) =>
        if c.size < v.size then (v, Refused)
        else if c.size == v.size then
          if c.root != oldRoot then (v, Refused) else (v, accepted)
        else if a.proof.None? || DecodeProof(a.proof.value).None? then (v, Failed)
        else if !ConsistencyAccepts(cfg.sha, v.size, c.size, DecodeProof(a.proof.value).value, oldRoot, c.root)
        then (v, Refused)
        else (Advanced(c), accepted)
  }

  function PollStep(cfg: Config, v: View, a: Answer): (View, PollResult) {
    if a.checkpoint.None? then (v, Failed)
    else
      var (body, sigHex) := a.checkpoint.value;
      match HexDec(sigHex)
      case None => (v, Failed)
      case Some(sig) =>
        if !cfg.verify(cfg.logKey, body, sig) then (v, Refused)
        else
          match ParseCheckpoint(body)
          case None => (v, Failed)
          case Some(c) => if c.origin != cfg.origin then (v, Refused) else Decide(cfg, v, c, body, a)
  }

  class WitnessState {
    var origin: Bytes
    var size: int
    var root: Bytes

    function Value(): View
      reads this
    {
      View(origin, size, root)
    }

    constructor (v: View)
      ensures Value() == v
    {
      origin, size, root := v.origin, v.size, v.root;
    }

    method Advance(c: Checkpoint)
      modifies this
      ensures Value() == Advanced(c)
    {
      origin := c.origin;
      size := c.size;
      root := HexEnc(c.root);
    }
  }

  lemma HexRootsExactly(hexes: seq<Bytes>)
    ensures forall i :: 0 <= i < |hexes| ==>
              (HexRoot(hexes[i]).Some? <==> HexDec(hexes[i]).Some? && |HexDec(hexes[i]).value| == 32)
    ensures forall i :: 0 <= i < |hexes| && HexRoot(hexes[i]).Some? ==>
              HexDec(hexes[i]) == Some(HexRoot(hexes[i]).value)
  {
    hide HexDec;
  }

  method DecodeHexes(hexes: seq<Bytes>) returns (out: Option<seq<Digest>>)
    ensures out == DecodeProof(hexes)
    ensures out.Some? <==> forall i :: 0 <= i < |hexes| ==> HexDec(hexes[i]).Some? && |HexDec(hexes[i]).value| == 32
    ensures out.Some? ==> |out.value| == |hexes|
    ensures out.Some? ==> forall i :: 0 <= i < |hexes| ==> HexDec(hexes[i]) == Some(out.value[i])
  {
    HexRootsExactly(hexes);
    hide HexRoot;
    var done: seq<Digest> := [];
    while |done| < |hexes|
      invariant |done| <= |hexes|
      invariant forall k :: 0 <= k < |done| ==> HexRoot(hexes[k]) == Some(done[k])
    {
      var d := HexRoot(hexes[|done|]);
      if d.None? { return None; }
      done := done + [d.value];
    }
    assert done == DecodeProof(hexes).value;
    return Some(done);
  }

  /** poll: the state is advanced in place before the checkpoint is cosigned. */
  method Poll(cfg: Config, st: WitnessState, a: Answer) returns (res: PollResult)
    modifies st
    ensures (st.Value(), res) == PollStep(cfg, old(st.Value()), a)
  {
    hide HexDec, ParseCheckpoint, ConsistencyAccepts, DecodeProof;
    if a.checkpoint.None? { return Failed; }
    var (body, sigHex) := a.checkpoint.value;
    var sig := HexDec(sigHex);
    if sig.None? { return Failed; }
    if !cfg.verify(cfg.logKey, body, sig.value) { return Refused; }
    var parsed := ParseCheckpoint(body);
    if parsed.None? { return Failed; }
    var c := parsed.value;
    if c.origin != cfg.origin { return Refused; }
    if st.root == [] {
      st.Advance(c);
      return Accepted(body, cfg.sign(body, a.rnd));
    }
    var oldRoot := HexRoot(st.root);
    if oldRoot.None? { return Failed; }
    if c.size < st.size { return Refused; }
    if c.size == st.size {
      if c.root != oldRoot.value { return Refused; }
      return Accepted(body, cfg.sign(body, a.rnd));
    }
    if a.proof.None? { return Failed; }
    var proof := DecodeHexes(a.proof.value);
    if proof.None? { return Failed; }
    var ok := VerifyConsistency(cfg.sha, st.size, c.size, proof.value, oldRoot.value, c.root);
    if !ok { return Refused; }
    st.Advance(c);
    return Accepted(body, cfg.sign(body, a.rnd));
  }

  // ---- runs ----

  /** The bodies a witness cosigns while answering `answers` from view v on. */
  function Cosigned(cfg: Config, v: View, answers: seq<Answer>): seq<Bytes>
    decreases |answers|
  {
    if answers == [] then []
    else
      var (v', res) := PollStep(cfg, v, answers[0]);
      (if res.Accepted? then [res.body] else []) + Cosigned(cfg, v', answers[1..])
  }

  /** The view after answering `answers`: what is persisted. */
  function FinalView(cfg: Config, v: View, answers: seq<Answer>): View
    decreases |answers|
  {
    if answers == [] then v else FinalView(cfg, PollStep(cfg, v, answers[0]).0, answers[1..])
  }

  /** A process restarted from the view it last saved continues one run: together the two
      lifetimes cosign what a single one would. */
  lemma {:induction false} RestartIsOneRun(cfg: Config, v: View, answers: seq<Answer>, later: seq<Answer>)
    ensures Cosigned(cfg, v, answers + later) ==
            Cosigned(cfg, v, answers) + Cosigned(cfg, FinalView(cfg, v, answers), later)
    decreases |answers|
  {
    hide PollStep;
    if answers == [] {
      assert answers + later == later;
    } else {
      var (v', res) := PollStep(cfg, v, answers[0]);
      RestartIsOneRun(cfg, v', answers[1..], later);
      assert (answers + later)[1..] == answers[1..] + later;
      var head := if res.Accepted? then [res.body] else [];
      var mine, rest := Cosigned(cfg, v', answers[1..]), Cosigned(cfg, FinalView(cfg, v, answers), later);
      assert head + (mine + rest) == (head + mine) + rest;
    }
  }

  /** The strings hashed by the consistency checks of a run. */
  ghost function RunPreimages(cfg: Config, v: View, answers: seq<Answer>): set<Bytes>
    decreases |answers|
  {
    if answers == [] then {}
    else StepPreimages(cfg, v, answers[0]) + RunPreimages(cfg, PollStep(cfg, v, answers[0]).0, answers[1..])
  }

  ghost function StepPreimages(cfg: Config, v: View, a: Answer): set<Bytes> {
    if a.checkpoint.Some? && ParseCheckpoint(a.checkpoint.value.0).Some? && a.proof.Some?
       && DecodeProof(a.proof.value).Some? && HexRoot(v.root).Some?
    then ConsistencyPreimages(cfg.sha, v.size, ParseCheckpoint(a.checkpoint.value.0).value.size,
                              DecodeProof(a.proof.value).value, HexRoot(v.root).value)
    else {}
  }

  /** The view stands for checkpoint c. */
  ghost predicate Represents(v: View, c: Checkpoint) {
    v.root != [] && HexRoot(v.root) == Some(c.root) && v.size == c.size
  }

  /** b follows a: the same tree, or an accepted extension whose check hashed only known strings. */
  ghost predicate Follows(sha: Sha, hashed: set<Bytes>, a: Checkpoint, b: Checkpoint) {
    || (a.size == b.size && a.root == b.root)
    || (a.size < b.size && exists proof :: ConsistencyAccepts(sha, a.size, b.size, proof, a.root, b.root)
                                        && ConsistencyPreimages(sha, a.size, b.size, proof, a.root) <= hashed)
  }

  ghost predicate History(sha: Sha, hashed: set<Bytes>, h: seq<Checkpoint>) {
    forall i :: 0 <= i < |h| - 1 ==> Follows(sha, hashed, h[i], h[i + 1])
  }

  lemma AdvancedRepresents(c: Checkpoint)
    ensures Represents(Advanced(c), c)
  {
    HexRoundTrip(c.root);
    assert |HexEnc(c.root)| == 64;
  }

  /** What one accepted poll establishes. */
  lemma AcceptedStep(cfg: Config, v: View, a: Answer, hashed: set<Bytes>, prev: Option<Checkpoint>)
    requires PollStep(cfg, v, a).1.Accepted? && StepPreimages(cfg, v, a) <= hashed
    requires if prev.Some? then Represents(v, prev.value) else v.root == []
    ensures ParseCheckpoint(PollStep(cfg, v, a).1.body).Some?
    ensures var c := ParseCheckpoint(PollStep(cfg, v, a).1.body).value;
            && c.origin == cfg.origin && Represents(PollStep(cfg, v, a).0, c)
            && (prev.Some? ==> Follows(cfg.sha, hashed, prev.value, c))
  {
    hide ParseCheckpoint, ConsistencyAccepts, ConsistencyPreimages, DecodeProof, HexDec;
    var (body, sigHex) := a.checkpoint.value;
    var c := ParseCheckpoint(body).value;
    AdvancedRepresents(c);
  }

  lemma RefusedStep(cfg: Config, v: View, a: Answer)
    requires !PollStep(cfg, v, a).1.Accepted?
    ensures PollStep(cfg, v, a).0 == v
  {
    hide ParseCheckpoint, ConsistencyAccepts, DecodeProof, HexDec;
  }

  /** Parsed checkpoints of cosigned bodies. */
  function Parsed(bodies: seq<Bytes>): (h: seq<Checkpoint>)
    requires forall i :: 0 <= i < |bodies| ==> ParseCheckpoint(bodies[i]).Some?
    ensures |h| == |bodies| && forall i :: 0 <= i < |h| ==> h[i] == ParseCheckpoint(bodies[i]).value
  {
    seq(|bodies|, i requires 0 <= i < |bodies| => ParseCheckpoint(bodies[i]).value)
  }

  ghost predicate AllParse(cfg: Config, bodies: seq<Bytes>) {
    forall i :: 0 <= i < |bodies| ==>
      ParseCheckpoint(bodies[i]).Some? && ParseCheckpoint(bodies[i]).value.origin == cfg.origin
  }

  function Before(prev: Option<Checkpoint>): seq<Checkpoint> {
    if prev.Some? then [prev.value] else []
  }

  lemma HistoryCons(sha: Sha, hashed: set<Bytes>, a: Checkpoint, h: seq<Checkpoint>)
    requires h != [] && Follows(sha, hashed, a, h[0]) && History(sha, hashed, h)
    ensures History(sha, hashed, [a] + h)
  {
    hide Follows;
    var g := [a] + h;
    forall i | 0 <= i < |g| - 1
      ensures Follows(sha, hashed, g[i], g[i + 1])
    {
      if i > 0 { assert g[i] == h[i - 1] && g[i + 1] == h[i]; }
    }
  }

  lemma CosignedCons(cfg: Config, v: View, answers: seq<Answer>)
    requires answers != []
    ensures var (v', res) := PollStep(cfg, v, answers[0]);
            && Cosigned(cfg, v, answers)
               == (if res.Accepted? then [res.body] else []) + Cosigned(cfg, v', answers[1..])
            && RunPreimages(cfg, v, answers) == StepPreimages(cfg, v, answers[0]) + RunPreimages(cfg, v', answers[1..])
  {
    hide PollStep, StepPreimages;
  }

  lemma ParsedCons(cfg: Config, body: Bytes, rest: seq<Bytes>)
    requires AllParse(cfg, rest) && ParseCheckpoint(body).Some? && ParseCheckpoint(body).value.origin == cfg.origin
    ensures AllParse(cfg, [body] + rest) && Parsed([body] + rest) == [ParseCheckpoint(body).value] + Parsed(rest)
  {
    hide ParseCheckpoint;
  }

  /** A cosigned body in front of a history of bodies. */
  lemma HistoryGrows(cfg: Config, hashed: set<Bytes>, prev: Option<Checkpoint>, body: Bytes, rest: seq<Bytes>)
    requires AllParse(cfg, rest) && ParseCheckpoint(body).Some? && ParseCheckpoint(body).value.origin == cfg.origin
    requires History(cfg.sha, hashed, Before(Some(ParseCheckpoint(body).value)) + Parsed(rest))
    requires prev.Some? ==> Follows(cfg.sha, hashed, prev.value, ParseCheckpoint(body).value)
    ensures AllParse(cfg, [body] + rest) && History(cfg.sha, hashed, Before(prev) + Parsed([body] + rest))
  {
    ParsedCons(cfg, body, rest);
    hide ParseCheckpoint, AllParse, Parsed, Follows, History;
    var h := [ParseCheckpoint(body).value] + Parsed(rest);
    if prev.Some? {
      HistoryCons(cfg.sha, hashed, prev.value, h);
    } else {
      assert Before(prev) + h == h;
    }
  }

  /** Every cosigned checkpoint of a run follows the one before it. */
  lemma {:induction false} RunIsHistory(cfg: Config, v: View, answers: seq<Answer>, hashed: set<Bytes>,
                                        prev: Option<Checkpoint>)
    requires RunPreimages(cfg, v, answers) <= hashed
    requires if prev.Some? then Represents(v, prev.value) else v.root == []
    ensures AllParse(cfg, Cosigned(cfg, v, answers))
    ensures History(cfg.sha, hashed, Before(prev) + Parsed(Cosigned(cfg, v, answers)))
    decreases |answers|
  {
    if answers == [] {
      OneIsHistory(cfg.sha, hashed, Before(prev) + Parsed([]));
    } else {
      CosignedCons(cfg, v, answers);
      hide PollStep, ParseCheckpoint, StepPreimages, RunPreimages, Cosigned, Represents, Follows, History, AllParse,
           Parsed, Before;
      var (v', res) := PollStep(cfg, v, answers[0]);
      var rest := Cosigned(cfg, v', answers[1..]);
      if res.Accepted? {
        AcceptedStep(cfg, v, answers[0], hashed, prev);
        RunIsHistory(cfg, v', answers[1..], hashed, Some(ParseCheckpoint(res.body).value));
        HistoryGrows(cfg, hashed, prev, res.body, rest);
      } else {
        RefusedStep(cfg, v, answers[0]);
        RunIsHistory(cfg, v', answers[1..], hashed, prev);
        assert [] + rest == rest;
      }
    }
  }

  lemma OneIsHistory(sha: Sha, hashed: set<Bytes>, h: seq<Checkpoint>)
    requires |h| <= 1
    ensures History(sha, hashed, h)
  {
  }

  // ---- what a history is worth ----

  lemma {:induction false} SizesGrow(sha: Sha, hashed: set<Bytes>, h: seq<Checkpoint>, i: nat, j: nat)
    requires History(sha, hashed, h) && i <= j < |h|
    ensures h[i].size <= h[j].size
    ensures h[i].size == h[j].size ==> h[i].root == h[j].root
    decreases j - i
  {
    hide ConsistencyAccepts, ConsistencyPreimages;
    if i < j {
      SizesGrow(sha, hashed, h, i + 1, j);
      assert Follows(sha, hashed, h[i], h[i + 1]);
    }
  }

  /** `hashed` covers the tree hashes of every prefix of the list. */
  ghost predicate CoversPrefixes(sha: Sha, hashed: set<Bytes>, leaves: seq<Bytes>) {
    forall k :: 0 <= k <= |leaves| ==> TreePreimages(sha, leaves[..k]) <= hashed
  }

  lemma FollowsOpens(sha: Sha, hashed: set<Bytes>, a: Checkpoint, b: Checkpoint, leaves: seq<Bytes>)
    requires CollisionFree(sha, hashed) && TreePreimages(sha, leaves) <= hashed
    requires Follows(sha, hashed, a, b) && |leaves| == b.size && b.root == Mth(sha, leaves)
    ensures a.size <= |leaves| && a.root == Mth(sha, leaves[..a.size])
  {
    hide ConsistencyAccepts, ConsistencyPreimages, CollisionFree, TreePreimages;
    if a.size == b.size {
      WholePrefix(sha, leaves);
    } else {
      var proof :| ConsistencyAccepts(sha, a.size, b.size, proof, a.root, b.root)
                && ConsistencyPreimages(sha, a.size, b.size, proof, a.root) <= hashed;
      ConsistencySound(sha, hashed, leaves, a.size, proof, a.root);
    }
  }

  /** Once checkpoint j of a history is opened by a list, every earlier root is the tree hash
      of a prefix of that list. */
  lemma {:induction false} HistoryOpens(sha: Sha, hashed: set<Bytes>, h: seq<Checkpoint>, i: nat, j: nat,
                                        leaves: seq<Bytes>)
    requires CollisionFree(sha, hashed) && CoversPrefixes(sha, hashed, leaves)
    requires History(sha, hashed, h) && i <= j < |h| && |leaves| == h[j].size && h[j].root == Mth(sha, leaves)
    ensures h[i].size <= |leaves| && h[i].root == Mth(sha, leaves[..h[i].size])
    decreases j - i
  {
    hide Follows, CollisionFree, TreePreimages, Mth;
    if i == j {
      WholePrefix(sha, leaves);
    } else {
      HistoryOpens(sha, hashed, h, i + 1, j, leaves);
      var next := leaves[..h[i + 1].size];
      FollowsOpens(sha, hashed, h[i], h[i + 1], next);
      assert next[..h[i].size] == leaves[..h[i].size];
    }
  }

  /** Two checkpoints agree: equal sizes have equal roots, and a smaller (or equal) first one
      is a prefix of any list that opens the second. */
  ghost predicate Agree(sha: Sha, leaves: seq<Bytes>, a: Checkpoint, b: Checkpoint) {
    && (a.size == b.size ==> a.root == b.root)
    && (a.size <= b.size && |leaves| == b.size && b.root == Mth(sha, leaves) ==> a.root == Mth(sha, leaves[..a.size]))
  }

  lemma HistoryAgrees(sha: Sha, hashed: set<Bytes>, h: seq<Checkpoint>, i: nat, j: nat, leaves: seq<Bytes>)
    requires CollisionFree(sha, hashed) && CoversPrefixes(sha, hashed, leaves)
    requires History(sha, hashed, h) && i < |h| && j < |h|
    ensures Agree(sha, leaves, h[i], h[j])
  {
    hide History, CollisionFree, Mth, CoversPrefixes;
    if i <= j { SizesGrow(sha, hashed, h, i, j); } else { SizesGrow(sha, hashed, h, j, i); }
    if h[i].size <= h[j].size && |leaves| == h[j].size && h[j].root == Mth(sha, leaves) {
      if i <= j {
        HistoryOpens(sha, hashed, h, i, j, leaves);
      } else {
        WholePrefix(sha, leaves);
      }
    }
  }

  /** Each cosigned body of a run is some checkpoint of one history. */
  lemma {:induction false} CosignedInHistory(cfg: Config, answers: seq<Answer>, hashed: set<Bytes>, a: Bytes) returns (i: nat)
    requires RunPreimages(cfg, FIRST_RUN, answers) <= hashed && a in Cosigned(cfg, FIRST_RUN, answers)
    ensures AllParse(cfg, Cosigned(cfg, FIRST_RUN, answers))
    ensures History(cfg.sha, hashed, Parsed(Cosigned(cfg, FIRST_RUN, answers)))
    ensures i < |Cosigned(cfg, FIRST_RUN, answers)| && ParseCheckpoint(a).Some? &&
            ParseCheckpoint(a).value.origin == cfg.origin
    ensures Parsed(Cosigned(cfg, FIRST_RUN, answers))[i] == ParseCheckpoint(a).value
  {
    hide ParseCheckpoint, History, RunPreimages, Cosigned, Represents, Follows, PollStep, HexRoot, Parsed;
    var bodies := Cosigned(cfg, FIRST_RUN, answers);
    RunIsHistory(cfg, FIRST_RUN, answers, hashed, None);
    assert Before(None) + Parsed(bodies) == Parsed(bodies);
    i :| 0 <= i < |bodies| && bodies[i] == a;
  }

  /** No equivocation: of two checkpoints one witness cosigned in a run against an arbitrary
      log, the smaller is a prefix of the larger as soon as the larger is opened, and two of
      the same size are the same. */
  lemma NoEquivocation(cfg: Config, answers: seq<Answer>, hashed: set<Bytes>, a: Bytes, b: Bytes, leaves: seq<Bytes>)
    requires CollisionFree(cfg.sha, hashed) && RunPreimages(cfg, FIRST_RUN, answers) <= hashed
    requires CoversPrefixes(cfg.sha, hashed, leaves)
    requires a in Cosigned(cfg, FIRST_RUN, answers) && b in Cosigned(cfg, FIRST_RUN, answers)
    ensures ParseCheckpoint(a).Some? && ParseCheckpoint(b).Some?
    ensures Agree(cfg.sha, leaves, ParseCheckpoint(a).value, ParseCheckpoint(b).value)
  {
    hide ParseCheckpoint, History, CollisionFree, RunPreimages, CoversPrefixes, Cosigned, Agree, Parsed;
    var i := CosignedInHistory(cfg, answers, hashed, a);
    var j := CosignedInHistory(cfg, answers, hashed, b);
    HistoryAgrees(cfg.sha, hashed, Parsed(Cosigned(cfg, FIRST_RUN, answers)), i, j, leaves);
  }

  /** The stored view is an honest view of some prefix of the list, or there is none yet. */
  ghost predicate ViewOfPrefix(sha: Sha, v: View, leaves: seq<Bytes>) {
    v.root == [] || (0 <= v.size <= |leaves| && HexRoot(v.root) == Some(Mth(sha, leaves[..v.size])))
  }

  lemma HonestProofAccepted(cfg: Config, v: View, proof: seq<Bytes>, leaves: seq<Bytes>)
    requires 0 <= v.size < |leaves| && DecodeProof(proof) == ConsistencyProof(cfg.sha, leaves, v.size)
    ensures DecodeProof(proof).Some?
    ensures ConsistencyAccepts(cfg.sha, v.size, |leaves|, DecodeProof(proof).value,
                               Mth(cfg.sha, leaves[..v.size]), Mth(cfg.sha, leaves))
  {
    hide DecodeProof, Mth, ConsistencyAccepts;
    ConsistencyComplete(cfg.sha, leaves, v.size);
  }

  lemma DecisionAccepts(cfg: Config, v: View, c: Checkpoint, body: Bytes, a: Answer)
    requires v.root != [] ==>
               HexRoot(v.root).Some? && v.size <= c.size && (v.size == c.size ==> HexRoot(v.root) == Some(c.root))
    requires v.root != [] && v.size < c.size ==>
               && a.proof.Some? && DecodeProof(a.proof.value).Some?
               && ConsistencyAccepts(cfg.sha, v.size, c.size, DecodeProof(a.proof.value).value,
                                     HexRoot(v.root).value, c.root)
    ensures Decide(cfg, v, c, body, a).1 == Accepted(body, cfg.sign(body, a.rnd))
    ensures Decide(cfg, v, c, body, a).0 == Advanced(c)
            || (Decide(cfg, v, c, body, a).0 == v && v.size == c.size && HexRoot(v.root) == Some(c.root))
  {
    hide ConsistencyAccepts, DecodeProof, HexRoot, Advanced;
  }

  lemma HonestDecision(cfg: Config, v: View, a: Answer, leaves: seq<Bytes>, body: Bytes)
    requires ViewOfPrefix(cfg.sha, v, leaves)
    requires v.root != [] && v.size < |leaves| ==>
               && a.proof.Some? && DecodeProof(a.proof.value).Some?
               && ConsistencyAccepts(cfg.sha, v.size, |leaves|, DecodeProof(a.proof.value).value,
                                     Mth(cfg.sha, leaves[..v.size]), Mth(cfg.sha, leaves))
    ensures var c := Checkpoint(cfg.origin, |leaves|, Mth(cfg.sha, leaves));
            && Decide(cfg, v, c, body, a).1 == Accepted(body, cfg.sign(body, a.rnd))
            && (Decide(cfg, v, c, body, a).0 == Advanced(c)
                || (Decide(cfg, v, c, body, a).0 == v && v.size == |leaves| && HexRoot(v.root) == Some(c.root)))
  {
    WholePrefix(cfg.sha, leaves);
    hide ConsistencyAccepts, DecodeProof, HexRoot, Mth, Decide;
    DecisionAccepts(cfg, v, Checkpoint(cfg.origin, |leaves|, Mth(cfg.sha, leaves)), body, a);
  }

  /** An honest append-only log, empty or not, that does not change between the two fetches of a
      poll is never refused. Only when the log has grown past a stored view is a proof looked at. */
  lemma {:induction false} HonestLogAccepted(cfg: Config, v: View, a: Answer, leaves: seq<Bytes>, sigHex: Bytes,
                                             body: Bytes)
    requires ViewOfPrefix(cfg.sha, v, leaves)
    requires a.checkpoint == Some((body, sigHex)) && HexDec(sigHex).Some? &&
             cfg.verify(cfg.logKey, body, HexDec(sigHex).value)
    requires ParseCheckpoint(body) == Some(Checkpoint(cfg.origin, |leaves|, Mth(cfg.sha, leaves)))
    requires v.root != [] && v.size < |leaves| ==>
               a.proof.Some? && DecodeProof(a.proof.value) == ConsistencyProof(cfg.sha, leaves, v.size)
    ensures PollStep(cfg, v, a).1.Accepted? && PollStep(cfg, v, a).1.body == body
    ensures HexRoot(PollStep(cfg, v, a).0.root) == Some(Mth(cfg.sha, leaves)) && PollStep(cfg, v, a).0.size == |leaves|
  {
    hide ParseCheckpoint, ConsistencyAccepts, DecodeProof, HexDec, HexRoot, Mth, Represents, ConsistencyProof;
    var c := Checkpoint(cfg.origin, |leaves|, Mth(cfg.sha, leaves));
    if v.root != [] && v.size < |leaves| { HonestProofAccepted(cfg, v, a.proof.value, leaves); }
    HonestDecision(cfg, v, a, leaves, body);
    AdvancedRepresents(c);
    assert PollStep(cfg, v, a) == Decide(cfg, v, c, body, a);
  }

  /** An honest log that grows between the two fetches of a poll can be refused: for a checkpoint of
      size n and a proof to the grown list, exactly when there was something to prove and the list
      has grown past n. Otherwise it is accepted. */
  lemma {:induction false} GrownLogRefused(cfg: Config, v: View, a: Answer, grown: seq<Bytes>, n: nat,
                                           sigHex: Bytes, body: Bytes)
    requires n <= |grown| && v.root != [] && 0 <= v.size <= n
    requires HexRoot(v.root) == Some(Mth(cfg.sha, grown[..v.size]))
    requires a.checkpoint == Some((body, sigHex)) && HexDec(sigHex).Some?
    requires cfg.verify(cfg.logKey, body, HexDec(sigHex).value)
    requires ParseCheckpoint(body) == Some(Checkpoint(cfg.origin, n, Mth(cfg.sha, grown[..n])))
    requires a.proof.Some? && DecodeProof(a.proof.value) == ConsistencyProof(cfg.sha, grown, v.size)
    requires CollisionFree(cfg.sha, GrownPreimages(cfg.sha, grown, v.size, n))
    ensures PollStep(cfg, v, a).1.Refused? <==> 0 < v.size < n < |grown|
    ensures PollStep(cfg, v, a).1.Accepted? <==> !(0 < v.size < n < |grown|)
  {
    if v.size < n { GrownProofAccepted(cfg.sha, grown, v.size, n); }
    hide ParseCheckpoint, ConsistencyAccepts, DecodeProof, HexDec, HexRoot, Mth, GrownPreimages, CollisionFree,
         Subproof;
    var c := Checkpoint(cfg.origin, n, Mth(cfg.sha, grown[..n]));
    assert PollStep(cfg, v, a) == Decide(cfg, v, c, body, a);
  }

  /** The strings whose digests the judgement of a poll relies on. */
  ghost predicate JudgedOver(sha: Sha, hashed: set<Bytes>, seen: seq<Bytes>, shown: seq<Bytes>,
                             proof: Option<seq<Digest>>)
  {
    && CollisionFree(sha, hashed) && TreePreimages(sha, seen) <= hashed && TreePreimages(sha, shown) <= hashed
    && (|seen| <= |shown| ==> TreePreimages(sha, shown[..|seen|]) <= hashed)
    && (proof.Some? ==> ConsistencyPreimages(sha, |seen|, |shown|, proof.value, Mth(sha, seen)) <= hashed)
  }

  /** An extension is accepted exactly when it is one and the proof is the right one. */
  lemma ExtensionJudged(sha: Sha, hashed: set<Bytes>, seen: seq<Bytes>, shown: seq<Bytes>, proof: seq<Digest>)
    requires |seen| < |shown| && JudgedOver(sha, hashed, seen, shown, Some(proof))
    ensures ConsistencyAccepts(sha, |seen|, |shown|, proof, Mth(sha, seen), Mth(sha, shown))
       <==> seen <= shown && ConsistencyProof(sha, shown, |seen|) == Some(proof)
  {
    hide ConsistencyAccepts, Mth, TreePreimages, ConsistencyPreimages, CollisionFree, ConsistencyProof;
    var part := shown[..|seen|];
    FewerPreimages(sha, hashed, TreePreimages(sha, shown)
                                + ConsistencyPreimages(sha, |seen|, |shown|, proof, Mth(sha, seen)));
    ConsistencyExact(sha, shown, |seen|, proof, Mth(sha, seen));
    if Mth(sha, seen) == Mth(sha, part) { RootDeterminesList(sha, hashed, seen, part); }
    if seen <= shown { assert part == seen; }
  }

  /** A witness that has seen one list and is shown another, with any proof: the poll is accepted
      exactly when the list shown begins with the list seen and, if it is longer, the proof decodes
      to the consistency proof between them; it fails exactly when a proof is needed and none can be
      read; and it is refused otherwise. */
  lemma {:induction false} PollJudges(cfg: Config, v: View, a: Answer, body: Bytes, sigHex: Bytes,
                                      seen: seq<Bytes>, shown: seq<Bytes>, hashed: set<Bytes>)
    requires v.root != [] && v.size == |seen| && HexRoot(v.root) == Some(Mth(cfg.sha, seen))
    requires a.checkpoint == Some((body, sigHex)) && HexDec(sigHex).Some?
    requires cfg.verify(cfg.logKey, body, HexDec(sigHex).value)
    requires ParseCheckpoint(body) == Some(Checkpoint(cfg.origin, |shown|, Mth(cfg.sha, shown)))
    requires JudgedOver(cfg.sha, hashed, seen, shown, if a.proof.Some? then DecodeProof(a.proof.value) else None)
    ensures PollStep(cfg, v, a).1.Accepted?
       <==> seen <= shown
            && (|seen| < |shown| ==>
                  a.proof.Some? && DecodeProof(a.proof.value) == ConsistencyProof(cfg.sha, shown, |seen|))
    ensures PollStep(cfg, v, a).1.Failed?
       <==> |seen| < |shown| && (a.proof.None? || DecodeProof(a.proof.value).None?)
    ensures PollStep(cfg, v, a).1.Accepted? ==>
              PollStep(cfg, v, a).1 == Accepted(body, cfg.sign(body, a.rnd))
              && PollStep(cfg, v, a).0.size == |shown|
              && HexRoot(PollStep(cfg, v, a).0.root) == Some(Mth(cfg.sha, shown))
  {
    var c := Checkpoint(cfg.origin, |shown|, Mth(cfg.sha, shown));
    if |seen| < |shown| {
      if a.proof.Some? && DecodeProof(a.proof.value).Some? {
        ExtensionJudged(cfg.sha, hashed, seen, shown, DecodeProof(a.proof.value).value);
      }
      ProofWithin(cfg.sha, shown, |seen|);
    } else if |seen| == |shown| {
      SameSizeJudged(cfg.sha, hashed, seen, shown);
    }
    AdvancedRepresents(c);
    hide ParseCheckpoint, ConsistencyAccepts, DecodeProof, HexDec, HexRoot, Mth, JudgedOver, ConsistencyProof;
    assert PollStep(cfg, v, a) == Decide(cfg, v, c, body, a);
  }

  lemma ProofWithin(sha: Sha, leaves: seq<Bytes>, m: nat)
    requires m <= |leaves|
    ensures ConsistencyProof(sha, leaves, m).Some?
  {
  }

  lemma SameSizeJudged(sha: Sha, hashed: set<Bytes>, seen: seq<Bytes>, shown: seq<Bytes>)
    requires |seen| == |shown| && CollisionFree(sha, hashed)
    requires TreePreimages(sha, seen) <= hashed && TreePreimages(sha, shown) <= hashed
    ensures Mth(sha, seen) == Mth(sha, shown) <==> seen <= shown
  {
    hide Mth, TreePreimages, CollisionFree;
    if Mth(sha, seen) == Mth(sha, shown) { RootDeterminesList(sha, hashed, seen, shown); }
    if seen <= shown { assert seen == shown; }
  }
}
