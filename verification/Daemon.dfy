/** The serving witness: its timer goroutine, the intake that interleaves with it at the mutex,
    the alarm latch and the retained evidence. */
module Daemon {
  import opened Basics
  import opened Text
  import opened Notes
  import opened MerkleTree
  import opened MerkleVerify
  import opened Witness
  import opened CrossCheck
  import opened Evidence

  const MAX_RETAINED := 64
  const SCHEMA := Ascii("honest-ear/equivocation-proof/v1")

  datatype Peer = Peer(name: Bytes, key: PubKey)

  /** What a peer publishes, with what the log answers when asked for a proof from our size. */
  datatype Reply = Reply(body: Bytes, cosigHex: Bytes, log: Option<seq<Bytes>>)

  // ---- pinned keys ----

  function PeerKey(peers: seq<Peer>, name: Bytes): Option<PubKey> {
    if peers == [] then None
    else if peers[0].name == name then Some(peers[0].key) else PeerKey(peers[1..], name)
  }

  /** Our own name is resolved first, then the first peer of that name. */
  function PinnedKey(cfg: Config, peers: seq<Peer>, name: Bytes): Option<PubKey> {
    if name == cfg.name then Some(cfg.self) else PeerKey(peers, name)
  }

  /** A key we were configured with for this name. */
  ghost predicate Configured(cfg: Config, peers: seq<Peer>, name: Bytes, key: PubKey) {
    (name == cfg.name && key == cfg.self) || Peer(name, key) in peers
  }

  lemma {:induction false} PeerKeyConfigured(peers: seq<Peer>, name: Bytes)
    ensures PeerKey(peers, name).Some? ==> Peer(name, PeerKey(peers, name).value) in peers
    ensures PeerKey(peers, name).None? ==> forall p :: p in peers ==> p.name != name
  {
    if peers != [] {
      PeerKeyConfigured(peers[1..], name);
      assert peers == [peers[0]] + peers[1..];
    }
  }

  ghost predicate DistinctNames(peers: seq<Peer>) {
    forall i, j :: 0 <= i < j < |peers| ==> peers[i].name != peers[j].name
  }

  /** Start-up refuses two peers of one name but not a peer named like us. Every configured key
      is the pinned one exactly when no such peer has another key than ours. */
  lemma PinsResolve(cfg: Config, peers: seq<Peer>)
    requires DistinctNames(peers)
    ensures (forall name, key :: Configured(cfg, peers, name, key) ==> PinnedKey(cfg, peers, name) == Some(key))
       <==> (forall p :: p in peers && p.name == cfg.name ==> p.key == cfg.self)
  {
    if forall p :: p in peers && p.name == cfg.name ==> p.key == cfg.self {
      forall name, key | Configured(cfg, peers, name, key)
        ensures PinnedKey(cfg, peers, name) == Some(key)
      {
        PeerKeyConfigured(peers, name);
      }
    } else {
      var p :| p in peers && p.name == cfg.name && p.key != cfg.self;
      assert Configured(cfg, peers, p.name, p.key);
    }
  }

  // ---- evidence ----

  /** Proof p holds up under these two keys and concerns the log we watch. */
  predicate Evident(cfg: Config, p: Proof, keyA: PubKey, keyB: PubKey) {
    match (HexDec(p.a.cosigHex), HexDec(p.b.cosigHex))
    case (Some(sigA), Some(sigB)) =>
      && VerifyEquivocation(cfg.verify, p.a.body, sigA, keyA, p.b.body, sigB, keyB)
      && ParseCheckpoint(p.a.body).value.origin == cfg.origin
    case _ => false
  }

  /** What tryAdopt asks: only OUR pinned keys count, never the reported ones. */
  predicate Adoptable(cfg: Config, peers: seq<Peer>, p: Proof) {
    var keyA, keyB := PinnedKey(cfg, peers, p.a.who), PinnedKey(cfg, peers, p.b.who);
    keyA.Some? && keyB.Some? && Evident(cfg, p, keyA.value, keyB.value)
  }

  /** Genuine evidence under keys this daemon was configured with. */
  ghost predicate Genuine(cfg: Config, peers: seq<Peer>, p: Proof) {
    exists keyA, keyB :: Configured(cfg, peers, p.a.who, keyA) && Configured(cfg, peers, p.b.who, keyB)
                      && Evident(cfg, p, keyA, keyB)
  }

  lemma AdoptableIsGenuine(cfg: Config, peers: seq<Peer>, p: Proof)
    requires Adoptable(cfg, peers, p)
    ensures Genuine(cfg, peers, p)
  {
    hide Evident;
    PeerKeyConfigured(peers, p.a.who);
    PeerKeyConfigured(peers, p.b.who);
    var keyA, keyB := PinnedKey(cfg, peers, p.a.who).value, PinnedKey(cfg, peers, p.b.who).value;
    assert Configured(cfg, peers, p.a.who, keyA) && Configured(cfg, peers, p.b.who, keyB);
  }

  /** Unless a peer shares our name under another key, whatever this daemon retains any daemon
      with the same pins adopts. */
  lemma GenuineIsAdoptable(cfg: Config, peers: seq<Peer>, p: Proof)
    requires DistinctNames(peers) && forall q :: q in peers && q.name == cfg.name ==> q.key == cfg.self
    ensures Genuine(cfg, peers, p) <==> Adoptable(cfg, peers, p)
  {
    hide Evident, PinnedKey;
    PinsResolve(cfg, peers);
    if Adoptable(cfg, peers, p) { AdoptableIsGenuine(cfg, peers, p); }
  }

  ghost predicate DistinctKeys(sha: Sha, proofs: seq<Proof>) {
    forall i, j :: 0 <= i < j < |proofs| ==> ProofKey(sha, proofs[i]) != ProofKey(sha, proofs[j])
  }

  /** Retaining p: unless its pair of bodies is known or the set is full. */
  function Recorded(sha: Sha, proofs: seq<Proof>, p: Proof): seq<Proof> {
    if |proofs| >= MAX_RETAINED || (exists q :: q in proofs && ProofKey(sha, q) == ProofKey(sha, p))
    then proofs else proofs + [p]
  }

  lemma RecordedGrows(sha: Sha, proofs: seq<Proof>, p: Proof)
    ensures proofs <= Recorded(sha, proofs, p)
  {
    hide ProofKey;
  }

  /** What is always true of the retained evidence. */
  ghost predicate Retained(cfg: Config, peers: seq<Peer>, proof: Option<Proof>, proofs: seq<Proof>) {
    && (proof.None? ==> proofs == [])
    && (proof.Some? ==> proofs != [] && proofs[0] == proof.value)
    && |proofs| <= MAX_RETAINED
    && DistinctKeys(cfg.sha, proofs)
    && forall q :: q in proofs ==> Genuine(cfg, peers, q)
  }

  lemma RecordedRetained(cfg: Config, peers: seq<Peer>, proof: Option<Proof>, proofs: seq<Proof>, p: Proof)
    requires Retained(cfg, peers, proof, proofs) && Genuine(cfg, peers, p)
    ensures Retained(cfg, peers, if proof.None? then Some(p) else proof, Recorded(cfg.sha, proofs, p))
  {
    hide Genuine, ProofKey;
  }

  /** The set is meant for distinct forks, but one fork respelled 64 times fills it as evidence that
      is genuine and distinct as pairs of bodies, and from then on every other fork is dropped. */
  lemma {:induction false} OneForkFillsTheSet(cfg: Config, peers: seq<Peer>, p: Proof, forks: seq<Proof>, other: Proof)
    requires Conflicting(p.a.body, p.b.body) && |forks| == MAX_RETAINED
    requires forall i :: 0 <= i < |forks| ==>
               && forks[i].a.body == Respelled(p.a.body, i) && forks[i].b.body == p.b.body
               && Genuine(cfg, peers, forks[i])
    requires forall i, j :: 0 <= i < j < |forks| ==>
               CollisionFree(cfg.sha, {Ordered(forks[i].a.body, p.b.body), Ordered(forks[j].a.body, p.b.body)})
    ensures Retained(cfg, peers, Some(forks[0]), forks)
    ensures forall i :: 0 <= i < |forks| ==> ParseCheckpoint(forks[i].a.body) == ParseCheckpoint(p.a.body)
    ensures Recorded(cfg.sha, forks, other) == forks
  {
    hide Genuine, Conflicting, ParseCheckpoint, Respelled, CollisionFree, Ordered;
    forall i | 0 <= i < |forks| ensures ParseCheckpoint(forks[i].a.body) == ParseCheckpoint(p.a.body) {
      RespelledParses(p.a.body, i);
    }
    forall i, j | 0 <= i < j < |forks| ensures ProofKey(cfg.sha, forks[i]) != ProofKey(cfg.sha, forks[j]) {
      RespellingIsNew(cfg.sha, p, i, j);
      SameKey(cfg.sha, forks[i], RespelledFork(p, i));
      SameKey(cfg.sha, forks[j], RespelledFork(p, j));
    }
  }

  lemma SameKey(sha: Sha, p: Proof, q: Proof)
    requires p.a.body == q.a.body && p.b.body == q.b.body
    ensures ProofKey(sha, p) == ProofKey(sha, q)
  {
  }

  // ---- cross-checking peers ----

  datatype Sighting = Nothing | Alarm | Fork(half: Half)

  function HalfOf(p: Peer, r: Reply): Half {
    Half(p.name, r.body, r.cosigHex, HexEnc(p.key.x), HexEnc(p.key.y))
  }

  function Sight(cfg: Config, ours: Option<Seen>, p: Peer, reply: Option<Reply>): Sighting {
    if reply.None? then Nothing
    else
      var r := reply.value;
      match HexDec(r.cosigHex)
      case None => Nothing
      case Some(sig) =>
        if !cfg.verify(p.key, r.body, sig) then Nothing
        else
          match ParseCheckpoint(r.body)
          case None => Nothing
          case Some(c) =>
            if c.origin != cfg.origin then Nothing
            else
              var proof := if ours.Some? && c.size > ours.value.size && r.log.Some? then DecodeProof(r.log.value)
                           else None;
              match Compare(cfg.sha, ours, Seen(c.size, c.root), proof)
              case Equivocates => if c.size == ours.value.size then Fork(HalfOf(p, r)) else Alarm
              case _ => Nothing
  }

  /** A half whose cosigner contradicts our view at its own size. */
  ghost predicate Contradicts(cfg: Config, peers: seq<Peer>, ours: Option<Seen>, h: Half) {
    && ours.Some? && HexDec(h.cosigHex).Some? && ParseCheckpoint(h.body).Some?
    && (exists p :: p in peers && p.name == h.who && cfg.verify(p.key, h.body, HexDec(h.cosigHex).value))
    && ParseCheckpoint(h.body).value.origin == cfg.origin
    && ParseCheckpoint(h.body).value.size == ours.value.size && ParseCheckpoint(h.body).value.root != ours.value.root
  }

  /** The reply is a checkpoint of our log under the peer's pinned key, and at our size it has
      another root. */
  ghost predicate DivergesHere(cfg: Config, ours: Option<Seen>, p: Peer, reply: Option<Reply>) {
    && ours.Some? && reply.Some? && HexDec(reply.value.cosigHex).Some?
    && cfg.verify(p.key, reply.value.body, HexDec(reply.value.cosigHex).value)
    && ParseCheckpoint(reply.value.body).Some?
    && var c := ParseCheckpoint(reply.value.body).value;
       c.origin == cfg.origin && c.size == ours.value.size && c.root != ours.value.root
  }

  /** ... or it is ahead of us and the consistency check refuses the proof that the log served. */
  ghost predicate DivergesAhead(cfg: Config, ours: Option<Seen>, p: Peer, reply: Option<Reply>) {
    && ours.Some? && reply.Some? && HexDec(reply.value.cosigHex).Some?
    && cfg.verify(p.key, reply.value.body, HexDec(reply.value.cosigHex).value)
    && ParseCheckpoint(reply.value.body).Some?
    && reply.value.log.Some? && DecodeProof(reply.value.log.value).Some?
    && var c := ParseCheckpoint(reply.value.body).value;
       c.origin == cfg.origin && c.size > ours.value.size
       && !ConsistencyAccepts(cfg.sha, ours.value.size, c.size, DecodeProof(reply.value.log.value).value,
                              ours.value.root, c.root)
  }

  ghost predicate Diverges(cfg: Config, ours: Option<Seen>, p: Peer, reply: Option<Reply>) {
    DivergesHere(cfg, ours, p, reply) || DivergesAhead(cfg, ours, p, reply)
  }

  lemma SightExactly(cfg: Config, ours: Option<Seen>, p: Peer, reply: Option<Reply>)
    ensures Sight(cfg, ours, p, reply).Fork? <==> DivergesHere(cfg, ours, p, reply)
    ensures Sight(cfg, ours, p, reply).Fork? ==>
              reply.Some? && Sight(cfg, ours, p, reply).half == HalfOf(p, reply.value)
    ensures Sight(cfg, ours, p, reply) != Nothing <==> Diverges(cfg, ours, p, reply)
  {
    hide HexDec, ParseCheckpoint, DecodeProof, HexEnc, ConsistencyAccepts;
  }

  lemma ForkContradicts(cfg: Config, peers: seq<Peer>, ours: Option<Seen>, p: Peer, reply: Option<Reply>)
    requires p in peers && Sight(cfg, ours, p, reply).Fork?
    ensures Contradicts(cfg, peers, ours, Sight(cfg, ours, p, reply).half)
  {
    hide HexDec, ParseCheckpoint, DecodeProof, HexEnc;
  }

  function Nth(replies: seq<Option<Reply>>, i: nat): Option<Reply> {
    if i < |replies| then replies[i] else None
  }

  datatype Found = Found(alarm: bool, fork: Option<Half>)

  /** What the survey of the first n peers finds: any divergence alarms, the first same-size one
      is kept. */
  function Surveyed(cfg: Config, peers: seq<Peer>, ours: Option<Seen>, replies: seq<Option<Reply>>, n: nat): Found
    requires n <= |peers|
  {
    if n == 0 then Found(false, None)
    else
      var before := Surveyed(cfg, peers, ours, replies, n - 1);
      match Sight(cfg, ours, peers[n - 1], Nth(replies, n - 1))
      case Nothing => before
      case Alarm => before.(alarm := true)
      case Fork(half) => Found(true, if before.fork.None? then Some(half) else before.fork)
  }

  /** Alarm exactly for a divergent peer; the fork kept is the reply of the first one that diverges
      at our own size, and contradicts our view. */
  lemma {:induction false} SurveyedExact(cfg: Config, peers: seq<Peer>, ours: Option<Seen>,
                                         replies: seq<Option<Reply>>, n: nat)
    requires n <= |peers|
    ensures var found := Surveyed(cfg, peers, ours, replies, n);
            && (found.alarm <==> exists i :: 0 <= i < n && Diverges(cfg, ours, peers[i], Nth(replies, i)))
            && (found.fork.None? ==> forall i :: 0 <= i < n ==> !DivergesHere(cfg, ours, peers[i], Nth(replies, i)))
            && (found.fork.Some? ==>
                  && (exists i :: 0 <= i < n && FirstHere(cfg, peers, ours, replies, i)
                               && found.fork.value == HalfOf(peers[i], Nth(replies, i).value))
                  && found.alarm && Contradicts(cfg, peers, ours, found.fork.value))
  {
    hide Sight, Contradicts, Diverges, DivergesHere, HalfOf;
    if n > 0 {
      SurveyedExact(cfg, peers, ours, replies, n - 1);
      SightExactly(cfg, ours, peers[n - 1], Nth(replies, n - 1));
      var s := Sight(cfg, ours, peers[n - 1], Nth(replies, n - 1));
      if s.Fork? {
        ForkContradicts(cfg, peers, ours, peers[n - 1], Nth(replies, n - 1));
        var before := Surveyed(cfg, peers, ours, replies, n - 1);
        if before.fork.None? {
          assert FirstHere(cfg, peers, ours, replies, n - 1);
        } else {
          hide FirstHere;
        }
      } else {
        hide FirstHere;
      }
    }
  }

  /** Peer i is the first that diverges at our own size. */
  ghost predicate FirstHere(cfg: Config, peers: seq<Peer>, ours: Option<Seen>, replies: seq<Option<Reply>>, i: nat)
    requires i < |peers|
  {
    && DivergesHere(cfg, ours, peers[i], Nth(replies, i)) && Nth(replies, i).Some?
    && forall k :: 0 <= k < i ==> !DivergesHere(cfg, ours, peers[k], Nth(replies, k))
  }

  /** The unlocked part of checkPeers. */
  method Survey(cfg: Config, peers: seq<Peer>, ours: Option<Seen>, replies: seq<Option<Reply>>) returns (found: Found)
    ensures found == Surveyed(cfg, peers, ours, replies, |peers|)
    ensures found.alarm <==> exists i :: 0 <= i < |peers| && Diverges(cfg, ours, peers[i], Nth(replies, i))
    ensures found.fork.None? ==> forall i :: 0 <= i < |peers| ==> !DivergesHere(cfg, ours, peers[i], Nth(replies, i))
    ensures found.fork.Some? ==>
              exists i :: 0 <= i < |peers| && FirstHere(cfg, peers, ours, replies, i)
                          && found.fork.value == HalfOf(peers[i], Nth(replies, i).value)
    ensures found.fork.Some? ==> found.alarm && Contradicts(cfg, peers, ours, found.fork.value)
  {
    hide Sight, Contradicts, Diverges, DivergesHere, HalfOf, FirstHere;
    found := Found(false, None);
    var i := 0;
    while i < |peers|
      invariant 0 <= i <= |peers| && found == Surveyed(cfg, peers, ours, replies, i)
    {
      var s := Sight(cfg, ours, peers[i], Nth(replies, i));
      if s.Fork? && found.fork.None? {
        found := Found(true, Some(s.half));
      } else if s != Nothing {
        found := found.(alarm := true);
      }
      i := i + 1;
    }
    SurveyedExact(cfg, peers, ours, replies, i);
  }

  /** Peer p's reply, pinned and signed, comes with a decodable proof other than the one from our
      size m to its size n. */
  ghost predicate OtherProof(cfg: Config, p: Peer, reply: Option<Reply>, leaves: seq<Bytes>, m: nat, n: nat)
    requires n <= |leaves|
  {
    && reply.Some? && HexDec(reply.value.cosigHex).Some?
    && cfg.verify(p.key, reply.value.body, HexDec(reply.value.cosigHex).value)
    && reply.value.log.Some? && DecodeProof(reply.value.log.value).Some?
    && DecodeProof(reply.value.log.value) != ConsistencyProof(cfg.sha, leaves[..n], m)
  }

  /** The reply, if any, is a checkpoint of the first n leaves, and judging it against our view of
      the first m relies on no collision. */
  ghost predicate HonestReply(cfg: Config, reply: Option<Reply>, leaves: seq<Bytes>, m: nat, n: nat)
    requires m <= |leaves| && n <= |leaves|
  {
    reply.Some? ==>
      && ParseCheckpoint(reply.value.body) == Some(Checkpoint(cfg.origin, n, Mth(cfg.sha, leaves[..n])))
      && forall proof :: reply.value.log.Some? && DecodeProof(reply.value.log.value) == Some(proof) ==>
           CollisionFree(cfg.sha, TreePreimages(cfg.sha, leaves[..n])
                                  + ConsistencyPreimages(cfg.sha, m, n, proof, Mth(cfg.sha, leaves[..m])))
  }

  lemma HonestPeerSeen(cfg: Config, p: Peer, reply: Option<Reply>, leaves: seq<Bytes>, m: nat, n: nat)
    requires m <= |leaves| && n <= |leaves| && HonestReply(cfg, reply, leaves, m, n)
    ensures Diverges(cfg, Some(Seen(m, Mth(cfg.sha, leaves[..m]))), p, reply)
       <==> m < n && OtherProof(cfg, p, reply, leaves, m, n)
    ensures !DivergesHere(cfg, Some(Seen(m, Mth(cfg.sha, leaves[..m]))), p, reply)
  {
    hide HexDec, ParseCheckpoint, DecodeProof, ConsistencyAccepts, ConsistencyProof, Mth, CollisionFree, TreePreimages;
    if m < n && reply.Some? && reply.value.log.Some? && DecodeProof(reply.value.log.value).Some? {
      assert leaves[..n][..m] == leaves[..m];
      AheadExactly(cfg.sha, leaves[..n], m, DecodeProof(reply.value.log.value).value);
    }
  }

  /** Against peers whose checkpoints are all prefixes of one list, of any sizes on either side of
      ours, the survey alarms exactly when some peer is ahead of us and the proof served with its
      pinned, signed reply is not the one from our size to its size. Nobody is taken for a fork. */
  lemma {:induction false} HonestPeersAlarm(cfg: Config, peers: seq<Peer>, replies: seq<Option<Reply>>,
                                            leaves: seq<Bytes>, m: nat, sizes: seq<nat>)
    requires m <= |leaves| && |sizes| == |peers| && forall i :: 0 <= i < |sizes| ==> sizes[i] <= |leaves|
    requires forall i :: 0 <= i < |peers| ==> HonestReply(cfg, Nth(replies, i), leaves, m, sizes[i])
    ensures var found := Surveyed(cfg, peers, Some(Seen(m, Mth(cfg.sha, leaves[..m]))), replies, |peers|);
            && (found.alarm <==>
                  exists i :: 0 <= i < |peers| && m < sizes[i]
                              && OtherProof(cfg, peers[i], Nth(replies, i), leaves, m, sizes[i]))
            && found.fork == None
  {
    hide HonestReply, OtherProof, Diverges, DivergesHere, Surveyed, Contradicts, Mth;
    var ours := Some(Seen(m, Mth(cfg.sha, leaves[..m])));
    SurveyedExact(cfg, peers, ours, replies, |peers|);
    forall i | 0 <= i < |peers|
      ensures Diverges(cfg, ours, peers[i], Nth(replies, i))
         <==> m < sizes[i] && OtherProof(cfg, peers[i], Nth(replies, i), leaves, m, sizes[i])
      ensures !DivergesHere(cfg, ours, peers[i], Nth(replies, i))
    {
      HonestPeerSeen(cfg, peers[i], Nth(replies, i), leaves, m, sizes[i]);
    }
  }

  /** Without a view of our own nobody raises an alarm. */
  lemma NoViewNoAlarm(cfg: Config, peers: seq<Peer>, replies: seq<Option<Reply>>)
    ensures Surveyed(cfg, peers, None, replies, |peers|) == Found(false, None)
  {
    hide Contradicts;
    SurveyedExact(cfg, peers, None, replies, |peers|);
  }

  // ---- the daemon's own checkpoint ----

  /** loadState refuses a persisted root that is not 32 bytes of hex. */
  ghost predicate Loadable(v: View) {
    v.root == [] || HexRoot(v.root).Some?
  }

  function OurView(v: View): Option<Seen> {
    if v.root == [] then None
    else match HexRoot(v.root) case Some(root) => Some(Seen(v.size, root)) case None => None
  }

  ghost predicate SigningWorks(cfg: Config) {
    forall body, rnd :: cfg.verify(cfg.self, body, cfg.sign(body, rnd))
  }

  /** The published checkpoint carries exactly the stored size and root, and our signature. */
  ghost predicate LatestMatches(cfg: Config, v: View, body: Bytes, sig: Bytes) {
    && ParseCheckpoint(body).Some? && ParseCheckpoint(body).value.origin == cfg.origin
    && Represents(v, ParseCheckpoint(body).value) && cfg.verify(cfg.self, body, sig)
  }

  lemma {:induction false} AcceptedMatches(cfg: Config, v: View, a: Answer)
    requires SigningWorks(cfg) && Loadable(v) && PollStep(cfg, v, a).1.Accepted?
    ensures LatestMatches(cfg, PollStep(cfg, v, a).0, PollStep(cfg, v, a).1.body, PollStep(cfg, v, a).1.sig)
  {
    hide HexDec, HexRoot, ParseCheckpoint, DecodeProof;
    var body := a.checkpoint.value.0;
    AdvancedRepresents(ParseCheckpoint(body).value);
    assert cfg.verify(cfg.self, body, cfg.sign(body, a.rnd));
  }

  lemma MatchIsLoadable(cfg: Config, v: View, body: Bytes, sig: Bytes)
    requires LatestMatches(cfg, v, body, sig)
    ensures Loadable(v)
  {
    hide HexRoot, ParseCheckpoint;
  }

  function Assembled(cfg: Config, body: Bytes, sig: Bytes, fork: Half): Proof {
    Proof(SCHEMA, Half(cfg.name, body, HexEnc(sig), HexEnc(cfg.self.x), HexEnc(cfg.self.y)), fork)
  }

  lemma AssembledSays(cfg: Config, body: Bytes, sig: Bytes, fork: Half)
    ensures var p := Assembled(cfg, body, sig, fork);
            && p.schema == Ascii("honest-ear/equivocation-proof/v1") && p.b == fork
            && p.a.who == cfg.name && p.a.body == body && HexDec(p.a.cosigHex) == Some(sig)
            && HexDec(p.a.pubXHex) == Some(cfg.self.x) && HexDec(p.a.pubYHex) == Some(cfg.self.y)
  {
    HexRoundTrip(sig);
    HexRoundTrip(cfg.self.x);
    HexRoundTrip(cfg.self.y);
    hide HexEnc, HexDec;
  }

  lemma AssembledIsGenuine(cfg: Config, peers: seq<Peer>, v: View, body: Bytes, sig: Bytes, fork: Half)
    requires LatestMatches(cfg, v, body, sig) && Contradicts(cfg, peers, OurView(v), fork)
    ensures Genuine(cfg, peers, Assembled(cfg, body, sig, fork))
  {
    hide HexRoot, ParseCheckpoint, HexDec, HexEnc;
    HexRoundTrip(sig);
    var p :| p in peers && p.name == fork.who && cfg.verify(p.key, fork.body, HexDec(fork.cosigHex).value);
    assert Configured(cfg, peers, cfg.name, cfg.self) && Configured(cfg, peers, fork.who, p.key) by {
      assert p == Peer(fork.who, p.key);
    }
    assert Evident(cfg, Assembled(cfg, body, sig, fork), cfg.self, p.key);
  }

  /** The cross-check and the evidence rule agree: a peer's reply is taken as a fork exactly when
      our published checkpoint and that reply would pass as evidence under our key and the peer's. */
  lemma {:induction false} ForkExactly(cfg: Config, v: View, body: Bytes, sig: Bytes, p: Peer, r: Reply)
    requires LatestMatches(cfg, v, body, sig)
    ensures Sight(cfg, OurView(v), p, Some(r)) == Fork(HalfOf(p, r))
       <==> Evident(cfg, Assembled(cfg, body, sig, HalfOf(p, r)), cfg.self, p.key)
  {
    hide HexRoot, ParseCheckpoint, HexDec, HexEnc, DecodeProof, ConsistencyAccepts;
    HexRoundTrip(sig);
  }

  /** With a peer named like us under a key of its own, the evidence we assemble against our own
      view is genuine and yet refused by our own intake rule. */
  lemma SelfNamedPeerRefused(cfg: Config, peers: seq<Peer>, v: View, body: Bytes, sig: Bytes, fork: Half)
    requires LatestMatches(cfg, v, body, sig) && Contradicts(cfg, peers, OurView(v), fork)
    requires fork.who == cfg.name && !cfg.verify(cfg.self, fork.body, HexDec(fork.cosigHex).value)
    ensures Genuine(cfg, peers, Assembled(cfg, body, sig, fork))
    ensures !Adoptable(cfg, peers, Assembled(cfg, body, sig, fork))
  {
    AssembledIsGenuine(cfg, peers, v, body, sig, fork);
    hide Genuine, LatestMatches, OurView, ParseCheckpoint, HexDec, HexEnc;
  }

  /** The key belongs to a witness that follows poll and watches our log. */
  ghost predicate HonestPin(cfg: Config, key: PubKey) {
    exists c: Config, answers: seq<Answer> ::
      c.verify == cfg.verify && c.logKey == cfg.logKey && HonestKey(key, c, answers)
  }

  /** When the two witnesses that evidence names are honest, holding it means that the operator
      signed both halves. Other pinned witnesses may be arbitrary. */
  lemma {:induction false} GenuineConvicts(cfg: Config, peers: seq<Peer>, p: Proof)
    requires Genuine(cfg, peers, p)
    requires forall key :: Configured(cfg, peers, p.a.who, key) ==> HonestPin(cfg, key)
    requires forall key :: Configured(cfg, peers, p.b.who, key) ==> HonestPin(cfg, key)
    ensures LogSigned(cfg, p.a.body) && LogSigned(cfg, p.b.body) && Conflicting(p.a.body, p.b.body)
  {
    hide Configured, HonestKey, HexDec, VerifyEquivocation, LogSigned, Conflicting;
    var keyA, keyB :| Configured(cfg, peers, p.a.who, keyA) && Configured(cfg, peers, p.b.who, keyB)
                   && Evident(cfg, p, keyA, keyB);
    assert HonestPin(cfg, keyA) && HonestPin(cfg, keyB);
    var cA: Config, runA: seq<Answer> :|
      cA.verify == cfg.verify && cA.logKey == cfg.logKey && HonestKey(keyA, cA, runA);
    var cB: Config, runB: seq<Answer> :|
      cB.verify == cfg.verify && cB.logKey == cfg.logKey && HonestKey(keyB, cB, runB);
    EvidenceConvictsLog(cA, runA, cB, runB, p.a.body, HexDec(p.a.cosigHex).value, keyA,
                        p.b.body, HexDec(p.b.cosigHex).value, keyB);
    SameLog(cA, cfg, p.a.body);
    SameLog(cA, cfg, p.b.body);
  }

  // ---- the daemon as a state machine ----

  /** Where the timer goroutine stands. */
  datatype Pc = AtPoll | AtCheck | AtCommit(found: Found) | AtHave | AtPull(next: nat)

  /** One locked step: a posted proof, a health request, or the goroutine's next step with all
      its possible inputs. */
  datatype Event =
    | Intake(posted: Proof)
    | Health
    | Timer(answer: Answer, saved: bool, replies: seq<Option<Reply>>, pulled: Option<Proof>)

  /** Everything the process holds between two locked steps. */
  datatype Core = Core(view: View, latest: Option<(Bytes, Bytes)>, healthOK: bool, equivocation: bool,
                       proof: Option<Proof>, proofs: seq<Proof>, pc: Pc)

  function Polled(cfg: Config, s: Core, a: Answer, saved: bool): Core {
    var (v, res) := PollStep(cfg, s.view, a);
    s.(view := v, latest := if res.Accepted? then Some((res.body, res.sig)) else s.latest,
       healthOK := res.Accepted? && saved)
  }

  /** Holding p, as representative if it is the first. */
  function Held(cfg: Config, s: Core, p: Proof): Core {
    s.(proof := if s.proof.None? then Some(p) else s.proof, proofs := Recorded(cfg.sha, s.proofs, p))
  }

  function Alarmed(s: Core, alarm: bool): Core {
    s.(equivocation := s.equivocation || alarm, healthOK := s.healthOK && !alarm)
  }

  function Adopted(cfg: Config, peers: seq<Peer>, s: Core, p: Proof): Core {
    if Adoptable(cfg, peers, p) then Held(cfg, Alarmed(s, true), p) else s
  }

  function Committed(cfg: Config, s: Core, found: Found): Core {
    if found.fork.Some? && s.proof.None? && s.latest.Some?
    then Held(cfg, Alarmed(s, found.alarm), Assembled(cfg, s.latest.value.0, s.latest.value.1, found.fork.value))
    else Alarmed(s, found.alarm)
  }

  function Next(cfg: Config, peers: seq<Peer>, s: Core, e: Event): Core {
    match e
    case Intake(p) => Adopted(cfg, peers, s, p)
    case Health => s
    case Timer(answer, saved, replies, pulled) =>
      match s.pc
      case AtPoll => Polled(cfg, s, answer, saved).(pc := AtCheck)
      case AtCheck => s.(pc := AtCommit(Surveyed(cfg, peers, OurView(s.view), replies, |peers|)))
      case AtCommit(found) => Committed(cfg, s, found).(pc := AtHave)
      case AtHave => s.(pc := if s.proof.Some? || peers == [] then AtPoll else AtPull(0))
      case AtPull(k) =>
        if k >= |peers| then s.(pc := AtPoll)
        else if pulled.None? then s.(pc := AtPull(k + 1))
        else
          Adopted(cfg, peers, s, pulled.value)
          .(pc := if Adoptable(cfg, peers, pulled.value) then AtPoll else AtPull(k + 1))
  }

  /** The answer to a health request. */
  function Answered(s: Core, e: Event): Option<bool> {
    if e.Health? then Some(s.healthOK && !s.equivocation) else None
  }

  /** What the goroutine carries from its survey still fits the view it was made with. */
  ghost predicate Resumable(cfg: Config, peers: seq<Peer>, v: View, pc: Pc) {
    pc.AtCommit? && pc.found.fork.Some? ==> pc.found.alarm && Contradicts(cfg, peers, OurView(v), pc.found.fork.value)
  }

  /** The invariant: the published checkpoint is the stored one, the evidence is genuine,
      distinct as pairs of bodies, bounded and led by its representative, and holding any means
      being alarmed. */
  ghost predicate Good(cfg: Config, peers: seq<Peer>, s: Core) {
    && Loadable(s.view)
    && (s.latest.Some? ==> LatestMatches(cfg, s.view, s.latest.value.0, s.latest.value.1))
    && Retained(cfg, peers, s.proof, s.proofs)
    && (s.proof.Some? ==> s.equivocation)
    && Resumable(cfg, peers, s.view, s.pc)
  }

  /** From s to t nothing is forgotten: a held proof is still held, retained evidence is still
      retained in place, and an alarm is still up. */
  ghost predicate Stays(s: Core, t: Core) {
    && (s.proof.Some? ==> t.proof == s.proof)
    && s.proofs <= t.proofs
    && (s.equivocation ==> t.equivocation)
  }

  lemma HeldKeeps(cfg: Config, peers: seq<Peer>, s: Core, p: Proof)
    requires Good(cfg, peers, s) && s.equivocation && Genuine(cfg, peers, p)
    ensures Good(cfg, peers, Held(cfg, s, p)) && Stays(s, Held(cfg, s, p))
  {
    hide Loadable, LatestMatches, Retained, Resumable, Genuine, Recorded;
    RecordedRetained(cfg, peers, s.proof, s.proofs, p);
    RecordedGrows(cfg.sha, s.proofs, p);
  }

  lemma AlarmedKeeps(cfg: Config, peers: seq<Peer>, s: Core, alarm: bool)
    requires Good(cfg, peers, s)
    ensures Good(cfg, peers, Alarmed(s, alarm)) && Stays(s, Alarmed(s, alarm))
  {
    hide Loadable, LatestMatches, Retained, Resumable;
  }

  lemma PolledKeeps(cfg: Config, peers: seq<Peer>, s: Core, a: Answer, saved: bool)
    requires Good(cfg, peers, s) && SigningWorks(cfg) && s.pc.AtPoll?
    ensures Good(cfg, peers, Polled(cfg, s, a, saved)) && Stays(s, Polled(cfg, s, a, saved))
  {
    hide PollStep, LatestMatches, Loadable, Retained, SigningWorks;
    var (v, res) := PollStep(cfg, s.view, a);
    if res.Accepted? {
      AcceptedMatches(cfg, s.view, a);
      MatchIsLoadable(cfg, v, res.body, res.sig);
    } else {
      RefusedStep(cfg, s.view, a);
    }
  }

  lemma AdoptedKeeps(cfg: Config, peers: seq<Peer>, s: Core, p: Proof)
    requires Good(cfg, peers, s)
    ensures Good(cfg, peers, Adopted(cfg, peers, s, p)) && Stays(s, Adopted(cfg, peers, s, p))
  {
    hide Good, Genuine, Adoptable, Held;
    if Adoptable(cfg, peers, p) {
      AlarmedKeeps(cfg, peers, s, true);
      AdoptableIsGenuine(cfg, peers, p);
      HeldKeeps(cfg, peers, Alarmed(s, true), p);
    }
  }

  lemma CommittedKeeps(cfg: Config, peers: seq<Peer>, s: Core)
    requires Good(cfg, peers, s) && s.pc.AtCommit?
    ensures Good(cfg, peers, Committed(cfg, s, s.pc.found)) && Stays(s, Committed(cfg, s, s.pc.found))
  {
    hide Loadable, LatestMatches, Retained, Contradicts, Genuine, Held, Assembled, OurView;
    var found := s.pc.found;
    AlarmedKeeps(cfg, peers, s, found.alarm);
    if found.fork.Some? && s.proof.None? && s.latest.Some? {
      AssembledIsGenuine(cfg, peers, s.view, s.latest.value.0, s.latest.value.1, found.fork.value);
      HeldKeeps(cfg, peers, Alarmed(s, found.alarm),
                Assembled(cfg, s.latest.value.0, s.latest.value.1, found.fork.value));
    }
  }

  lemma MovedKeeps(cfg: Config, peers: seq<Peer>, s: Core, pc: Pc)
    requires Good(cfg, peers, s) && Resumable(cfg, peers, s.view, pc)
    ensures Good(cfg, peers, s.(pc := pc)) && Stays(s, s.(pc := pc))
  {
    hide Loadable, LatestMatches, Retained, Resumable;
  }

  /** Every locked step keeps the invariant and forgets nothing. */
  lemma {:induction false} StepKeeps(cfg: Config, peers: seq<Peer>, s: Core, e: Event)
    requires Good(cfg, peers, s) && SigningWorks(cfg)
    ensures Good(cfg, peers, Next(cfg, peers, s, e)) && Stays(s, Next(cfg, peers, s, e))
  {
    hide Good, Polled, Adopted, Committed, Surveyed, Adoptable, SigningWorks, OurView, Contradicts;
    if e.Intake? {
      AdoptedKeeps(cfg, peers, s, e.posted);
    } else if e.Timer? {
      var t := Next(cfg, peers, s, e);
      match s.pc {
        case AtPoll =>
          PolledKeeps(cfg, peers, s, e.answer, e.saved);
          MovedKeeps(cfg, peers, Polled(cfg, s, e.answer, e.saved), t.pc);
        case AtCheck =>
          SurveyedExact(cfg, peers, OurView(s.view), e.replies, |peers|);
          MovedKeeps(cfg, peers, s, t.pc);
        case AtCommit(found) =>
          CommittedKeeps(cfg, peers, s);
          MovedKeeps(cfg, peers, Committed(cfg, s, found), t.pc);
        case AtHave =>
          MovedKeeps(cfg, peers, s, t.pc);
        case AtPull(k) =>
          if k < |peers| && e.pulled.Some? {
            AdoptedKeeps(cfg, peers, s, e.pulled.value);
            MovedKeeps(cfg, peers, Adopted(cfg, peers, s, e.pulled.value), t.pc);
          } else {
            MovedKeeps(cfg, peers, s, t.pc);
          }
      }
    }
  }

  // ---- runs of the daemon ----

  /** trace[k] is the state before event k; every step is the machine's. */
  ghost predicate IsTrace(cfg: Config, peers: seq<Peer>, trace: seq<Core>, events: seq<Event>) {
    && |trace| == |events| + 1
    && forall k :: 0 <= k < |events| ==> trace[k + 1] == Next(cfg, peers, trace[k], events[k])
  }

  /** In every run from a good state every state is good. */
  lemma {:induction false} RunGood(cfg: Config, peers: seq<Peer>, trace: seq<Core>, events: seq<Event>, k: nat)
    requires IsTrace(cfg, peers, trace, events) && SigningWorks(cfg) && Good(cfg, peers, trace[0]) && k < |trace|
    ensures Good(cfg, peers, trace[k])
  {
    hide Good, Next, SigningWorks, Stays;
    if k > 0 {
      RunGood(cfg, peers, trace, events, k - 1);
      StepKeeps(cfg, peers, trace[k - 1], events[k - 1]);
    }
  }

  /** In every run nothing held, retained or latched at one point is missing at any later point. */
  lemma {:induction false} RunStays(cfg: Config, peers: seq<Peer>, trace: seq<Core>, events: seq<Event>, i: nat, j: nat)
    requires IsTrace(cfg, peers, trace, events) && SigningWorks(cfg) && Good(cfg, peers, trace[0]) && i <= j < |trace|
    ensures Stays(trace[i], trace[j])
    decreases j
  {
    hide Good, Next, SigningWorks;
    if i < j {
      RunStays(cfg, peers, trace, events, i, j - 1);
      RunGood(cfg, peers, trace, events, j - 1);
      StepKeeps(cfg, peers, trace[j - 1], events[j - 1]);
    }
  }

  /** Once the alarm was up at some point of a run, no later health request is answered healthy. */
  lemma {:induction false} NeverHealthyAgain(cfg: Config, peers: seq<Peer>, trace: seq<Core>, events: seq<Event>,
                                             i: nat, j: nat)
    requires IsTrace(cfg, peers, trace, events) && SigningWorks(cfg) && Good(cfg, peers, trace[0])
    requires i <= j < |events| && trace[i].equivocation
    ensures Answered(trace[j], events[j]) != Some(true)
  {
    hide Good, Next, SigningWorks;
    RunStays(cfg, peers, trace, events, i, j);
  }

  /** Event k makes the daemon hold its first proof, which it then pushes to its peers. */
  ghost predicate PushesAt(trace: seq<Core>, k: nat) {
    k + 1 < |trace| && trace[k].proof.None? && trace[k + 1].proof.Some?
  }

  /** In every run at most one event pushes. */
  lemma {:induction false} PushesOnce(cfg: Config, peers: seq<Peer>, trace: seq<Core>, events: seq<Event>,
                                      i: nat, j: nat)
    requires IsTrace(cfg, peers, trace, events) && SigningWorks(cfg) && Good(cfg, peers, trace[0])
    requires PushesAt(trace, i) && PushesAt(trace, j)
    ensures i == j
  {
    hide Good, Next, SigningWorks;
    if i < j {
      RunStays(cfg, peers, trace, events, i + 1, j);
    } else if j < i {
      RunStays(cfg, peers, trace, events, j + 1, i);
    }
  }

  /** A run from s with the answers its health requests got. */
  ghost predicate IsRun(cfg: Config, peers: seq<Peer>, s: Core, trace: seq<Core>, events: seq<Event>,
                        answers: seq<Option<bool>>) {
    && IsTrace(cfg, peers, trace, events) && trace[0] == s && |answers| == |events|
    && forall k :: 0 <= k < |events| ==> answers[k] == Answered(trace[k], events[k])
  }

  lemma RunSnoc(cfg: Config, peers: seq<Peer>, s: Core, trace: seq<Core>, events: seq<Event>,
                answers: seq<Option<bool>>, e: Event)
    requires IsRun(cfg, peers, s, trace, events, answers)
    ensures trace != []
    ensures IsRun(cfg, peers, s, trace + [Next(cfg, peers, Last(trace), e)], events + [e],
                  answers + [Answered(Last(trace), e)])
  {
    hide Next, Answered;
  }

  /** All of it, for a whole run. */
  lemma RunFacts(cfg: Config, peers: seq<Peer>, s: Core, trace: seq<Core>, events: seq<Event>,
                 answers: seq<Option<bool>>)
    requires IsRun(cfg, peers, s, trace, events, answers) && SigningWorks(cfg) && Good(cfg, peers, s)
    ensures |trace| == |events| + 1 && |answers| == |events|
    ensures forall k :: 0 <= k < |trace| ==> Good(cfg, peers, trace[k])
    ensures forall i, j :: 0 <= i <= j < |trace| ==> Stays(trace[i], trace[j])
    ensures forall i, j :: 0 <= i <= j < |events| && trace[i].equivocation ==> answers[j] != Some(true)
  {
    hide Good, Next, SigningWorks, Stays, Answered;
    forall k | 0 <= k < |trace| ensures Good(cfg, peers, trace[k]) { RunGood(cfg, peers, trace, events, k); }
    forall i, j | 0 <= i <= j < |trace| ensures Stays(trace[i], trace[j]) { RunStays(cfg, peers, trace, events, i, j); }
    forall i, j | 0 <= i <= j < |events| && trace[i].equivocation ensures answers[j] != Some(true) {
      NeverHealthyAgain(cfg, peers, trace, events, i, j);
    }
  }

  // ---- the daemon ----

  class WitnessDaemon {
    const cfg: Config
    const peers: seq<Peer>
    const st: WitnessState
    var latest: Option<(Bytes, Bytes)>
    var healthOK: bool
    var equivocation: bool
    var proof: Option<Proof>
    var proofs: seq<Proof>
    var seenProof: set<Bytes>

    ghost predicate Valid()
      reads this, st
    {
      && Loadable(st.Value())
      && (latest.Some? ==> LatestMatches(cfg, st.Value(), latest.value.0, latest.value.1))
      && Retained(cfg, peers, proof, proofs)
      && (forall key :: key in seenProof <==> exists q :: q in proofs && ProofKey(cfg.sha, q) == key)
      && (proof.Some? ==> equivocation)
    }

    /** The machine state the process stands for. */
    ghost function Now(pc: Pc): Core
      reads this, st
    {
      Core(st.Value(), latest, healthOK, equivocation, proof, proofs, pc)
    }

    lemma ValidIsGood(pc: Pc)
      requires Valid() && Resumable(cfg, peers, st.Value(), pc)
      ensures Good(cfg, peers, Now(pc))
    {
      hide Retained, Loadable, LatestMatches, Resumable;
    }

    constructor (cfg: Config, peers: seq<Peer>, loaded: View)
      requires Loadable(loaded)
      ensures this.cfg == cfg && this.peers == peers && fresh(st) && st.Value() == loaded
      ensures Valid() && proof.None? && latest.None? && !equivocation && !healthOK
    {
      this.cfg, this.peers := cfg, peers;
      st := new WitnessState(loaded);
      latest, proof, proofs, seenProof := None, None, [], {};
      healthOK, equivocation := false, false;
    }

    method HandleHealth() returns (ok: bool)
      ensures ok <==> healthOK && !equivocation
    {
      ok := healthOK && !equivocation;
    }

    method RecordProofLocked(p: Proof)
      requires forall key :: key in seenProof <==> exists q :: q in proofs && ProofKey(cfg.sha, q) == key
      modifies this`proofs, this`seenProof
      ensures proofs == Recorded(cfg.sha, old(proofs), p)
      ensures var unknown := forall q :: q in old(proofs) ==> ProofKey(cfg.sha, q) != ProofKey(cfg.sha, p);
              proofs == if |old(proofs)| < 64 && unknown then old(proofs) + [p] else old(proofs)
      ensures forall key :: key in seenProof <==> exists q :: q in proofs && ProofKey(cfg.sha, q) == key
    {
      hide ProofKey;
      var k := ProofKey(cfg.sha, p);
      if k in seenProof || |proofs| >= MAX_RETAINED { return; }
      seenProof := seenProof + {k};
      proofs := proofs + [p];
      assert forall q :: q in proofs <==> q in old(proofs) || q == p;
    }

    /** Poll the log; the previous checkpoint stays published when this poll fails. */
    method Once(a: Answer, saved: bool)
      requires Valid() && SigningWorks(cfg)
      modifies this`latest, this`healthOK, st
      ensures Valid()
      ensures st.Value() == PollStep(cfg, old(st.Value()), a).0
      ensures var res := PollStep(cfg, old(st.Value()), a).1;
              && latest == (if res.Accepted? then Some((res.body, res.sig)) else old(latest))
              && healthOK == (res.Accepted? && saved)
    {
      hide PollStep, LatestMatches, Loadable, Retained, ProofKey, SigningWorks;
      ghost var v := st.Value();
      var res := Poll(cfg, st, a);
      match res {
        case Accepted(body, sig) =>
          latest := Some((body, sig));
          healthOK := saved;
          AcceptedMatches(cfg, v, a);
          MatchIsLoadable(cfg, st.Value(), body, sig);
        case _ =>
          healthOK := false;
          RefusedStep(cfg, v, a);
      }
    }

    /** The locked end of checkPeers. Intake may have run since the view was read, a poll cannot. */
    method CommitCheck(found: Found) returns (push: Option<Proof>)
      requires Valid()
      requires found.fork.Some? ==> found.alarm && Contradicts(cfg, peers, OurView(st.Value()), found.fork.value)
      modifies this`equivocation, this`healthOK, this`proof, this`proofs, this`seenProof
      ensures Valid()
      ensures equivocation == (old(equivocation) || found.alarm) && healthOK == (old(healthOK) && !found.alarm)
      ensures push == if found.fork.Some? && old(proof).None? && latest.Some?
                      then Some(Assembled(cfg, latest.value.0, latest.value.1, found.fork.value)) else None
      ensures push.Some? ==>
                && push.value.schema == Ascii("honest-ear/equivocation-proof/v1") && push.value.b == found.fork.value
                && push.value.a.who == cfg.name && push.value.a.body == latest.value.0
                && HexDec(push.value.a.cosigHex) == Some(latest.value.1)
                && HexDec(push.value.a.pubXHex) == Some(cfg.self.x) && HexDec(push.value.a.pubYHex) == Some(cfg.self.y)
      ensures proof == if push.Some? then push else old(proof)
      ensures proofs == if push.Some? then Recorded(cfg.sha, old(proofs), push.value) else old(proofs)
      ensures old(proofs) <= proofs
    {
      hide LatestMatches, Contradicts, Loadable, Retained, ProofKey, Assembled, Recorded, HexDec, Ascii, OurView;
      hide Genuine;
      if found.alarm {
        equivocation := true;
        healthOK := false;
      }
      push := None;
      if found.fork.Some? && proof.None? && latest.Some? {
        push := Some(Assembled(cfg, latest.value.0, latest.value.1, found.fork.value));
        AssembledSays(cfg, latest.value.0, latest.value.1, found.fork.value);
        AssembledIsGenuine(cfg, peers, st.Value(), latest.value.0, latest.value.1, found.fork.value);
        RecordedRetained(cfg, peers, proof, proofs, push.value);
        RecordedGrows(cfg.sha, proofs, push.value);
        proof := push;
        RecordProofLocked(push.value);
      }
    }

    /** Verify and adopt, from intake or pull; the first adoption is pushed on to every peer. */
    method TryAdopt(p: Proof) returns (ok: bool, push: Option<Proof>)
      requires Valid()
      modifies this`equivocation, this`healthOK, this`proof, this`proofs, this`seenProof
      ensures Valid()
      ensures ok <==> Adoptable(cfg, peers, p)
      ensures ok <==>
                && PinnedKey(cfg, peers, p.a.who).Some? && PinnedKey(cfg, peers, p.b.who).Some?
                && HexDec(p.a.cosigHex).Some? && HexDec(p.b.cosigHex).Some?
                && cfg.verify(PinnedKey(cfg, peers, p.a.who).value, p.a.body, HexDec(p.a.cosigHex).value)
                && cfg.verify(PinnedKey(cfg, peers, p.b.who).value, p.b.body, HexDec(p.b.cosigHex).value)
                && ParseCheckpoint(p.a.body).Some? && ParseCheckpoint(p.b.body).Some?
                && var (a, b) := (ParseCheckpoint(p.a.body).value, ParseCheckpoint(p.b.body).value);
                   a.origin == cfg.origin && b.origin == cfg.origin && a.size == b.size && a.root != b.root
      ensures equivocation == (old(equivocation) || ok) && healthOK == (old(healthOK) && !ok)
      ensures push == if ok && old(proof).None? then Some(p) else None
      ensures proof == if push.Some? then push else old(proof)
      ensures proofs == if ok then Recorded(cfg.sha, old(proofs), p) else old(proofs)
      ensures old(proofs) <= proofs
    {
      hide LatestMatches, Loadable, Retained, ProofKey, Recorded, Genuine, HexDec, ParseCheckpoint;
      push := None;
      var keyA, keyB := PinnedKey(cfg, peers, p.a.who), PinnedKey(cfg, peers, p.b.who);
      if keyA.None? || keyB.None? { return false, None; }
      var sigA, sigB := HexDec(p.a.cosigHex), HexDec(p.b.cosigHex);
      if sigA.None? || sigB.None? { return false, None; }
      if !VerifyEquivocation(cfg.verify, p.a.body, sigA.value, keyA.value, p.b.body, sigB.value, keyB.value) {
        return false, None;
      }
      var parsed := ParseCheckpoint(p.a.body);
      if parsed.None? || parsed.value.origin != cfg.origin { return false, None; }
      ok := true;
      assert Adoptable(cfg, peers, p);
      AdoptableIsGenuine(cfg, peers, p);
      RecordedRetained(cfg, peers, proof, proofs, p);
      RecordedGrows(cfg.sha, proofs, p);
      if proof.None? {
        proof := Some(p);
        push := proof;
      }
      equivocation := true;
      healthOK := false;
      RecordProofLocked(p);
    }

    /** Every interleaving of the timer goroutine with intake and health requests, from any point
        of the timer cycle, so that runs compose. The goroutine polls, reads its view, surveys the
        peers without the lock, commits, then pulls if it holds no proof. The trace of states is a
        run of the machine: between any two of its points a held proof stays, evidence only grows
        in place and the alarm stays up; after an alarm no health request is answered healthy; at
        every point the evidence is genuine, distinct as pairs of bodies, bounded and led by its
        representative; and exactly the first proof ever held is pushed on. */
    method Serve(events: seq<Event>, start: Pc)
      returns (pc: Pc, pushed: seq<Proof>, answers: seq<Option<bool>>, ghost trace: seq<Core>)
      requires Valid() && SigningWorks(cfg) && Resumable(cfg, peers, st.Value(), start)
      modifies this, st
      ensures Valid() && Resumable(cfg, peers, st.Value(), pc)
      ensures IsRun(cfg, peers, old(Now(start)), trace, events, answers) && Last(trace) == Now(pc)
      ensures |trace| == |events| + 1 && |answers| == |events|
      ensures forall k :: 0 <= k < |trace| ==> Good(cfg, peers, trace[k])
      ensures forall i, j :: 0 <= i <= j < |trace| ==> Stays(trace[i], trace[j])
      ensures forall i, j :: 0 <= i <= j < |events| && trace[i].equivocation ==> answers[j] != Some(true)
      ensures pushed == if old(proof).None? && proof.Some? then [proof.value] else []
    {
      pc, pushed, answers, trace := start, [], [], [Now(start)];
      ValidIsGood(start);
      ghost var first := Now(start);
      var i := 0;
      assert events[..0] == [];
      while i < |events|
        invariant 0 <= i <= |events|
        invariant Valid() && Resumable(cfg, peers, st.Value(), pc)
        invariant IsRun(cfg, peers, first, trace, events[..i], answers) && trace != [] && Last(trace) == Now(pc)
        invariant old(proof).Some? ==> proof == old(proof)
        invariant pushed == if old(proof).None? && proof.Some? then [proof.value] else []
      {
        hide Valid, Resumable, IsRun, Next, Answered, Good;
        RunSnoc(cfg, peers, first, trace, events[..i], answers, events[i]);
        var push: Option<Proof>, answer: Option<bool>;
        pc, push, answer := Step(events[i], pc);
        if push.Some? { pushed := pushed + [push.value]; }
        assert events[..i] + [events[i]] == events[..i + 1];
        answers := answers + [answer];
        trace := trace + [Now(pc)];
        i := i + 1;
      }
      hide *;
      assert events[..i] == events;
      RunFacts(cfg, peers, first, trace, events, answers);
    }

    /** One pulled answer: the first that is adopted ends the pull. */
    method PullOne(k: nat, pulled: Option<Proof>) returns (pc: Pc, push: Option<Proof>)
      requires Valid()
      modifies this`equivocation, this`healthOK, this`proof, this`proofs, this`seenProof
      ensures Valid()
      ensures Now(pc) == Next(cfg, peers, old(Now(AtPull(k))), Timer(Answer(None, None, 0), false, [], pulled))
      ensures push == if old(proof).None? && proof.Some? then proof else None
    {
      hide Valid, Recorded, Adoptable, Polled, Committed, Surveyed, OurView;
      push := None;
      if k >= |peers| { return AtPoll, None; }
      if pulled.None? { return AtPull(k + 1), None; }
      var ok;
      ok, push := TryAdopt(pulled.value);
      pc := if ok then AtPoll else AtPull(k + 1);
    }

    /** The next step of the timer goroutine. */
    method Tick(a: Answer, saved: bool, replies: seq<Option<Reply>>, pulled: Option<Proof>, from: Pc)
      returns (pc: Pc, push: Option<Proof>)
      requires Valid() && SigningWorks(cfg) && Resumable(cfg, peers, st.Value(), from)
      modifies this, st
      ensures Valid() && Now(pc) == Next(cfg, peers, old(Now(from)), Timer(a, saved, replies, pulled))
      ensures push == if old(proof).None? && proof.Some? then proof else None
    {
      hide Valid, Recorded, PollStep, Adopted, Assembled, SigningWorks, OurView, Surveyed, Contradicts;
      push := None;
      match from {
        case AtPoll =>
          Once(a, saved);
          pc := AtCheck;
        case AtCheck =>
          var found := Survey(cfg, peers, OurView(st.Value()), replies);
          pc := AtCommit(found);
        case AtCommit(found) =>
          push := CommitCheck(found);
          pc := AtHave;
        case AtHave =>
          pc := if proof.Some? || peers == [] then AtPoll else AtPull(0);
        case AtPull(k) =>
          pc, push := PullOne(k, pulled);
      }
    }

    /** One locked step of the process is one step of the machine. */
    method Step(e: Event, from: Pc) returns (pc: Pc, push: Option<Proof>, answer: Option<bool>)
      requires Valid() && SigningWorks(cfg) && Resumable(cfg, peers, st.Value(), from)
      modifies this, st
      ensures Valid() && Resumable(cfg, peers, st.Value(), pc)
      ensures Now(pc) == Next(cfg, peers, old(Now(from)), e)
      ensures answer == Answered(old(Now(from)), e)
      ensures push == if old(proof).None? && proof.Some? then proof else None
      ensures old(proof).Some? ==> proof == old(proof)
    {
      ValidIsGood(from);
      StepKeeps(cfg, peers, Now(from), e);
      hide Valid, Recorded, Adoptable, Retained, Loadable, LatestMatches, SigningWorks;
      pc, push, answer := from, None, None;
      match e {
        case Intake(p) =>
          var ok;
          ok, push := TryAdopt(p);
        case Health =>
          var ok := HandleHealth();
          answer := Some(ok);
        case Timer(a, saved, replies, pulled) =>
          hide Next, Resumable;
          pc, push := Tick(a, saved, replies, pulled, from);
      }
    }
  }
}
