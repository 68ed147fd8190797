/** Counting cosignatures: who counts, and why a large enough quorum rules out two
    inconsistent checkpoints. */
module WitnessQuorum {
  import opened Basics
  import opened Notes
  import opened Witness

  datatype Cosignature = Cosignature(who: Bytes, key: PubKey, sig: Bytes)

  predicate IsEntryFor(c: Cosignature, w: Prover) {
    w.name == c.who && w.key == c.key
  }

  /** The enrolled witness's name, or the empty name when name and key match no entry. */
  method MatchWitness(c: Cosignature, enrolled: seq<Prover>) returns (name: Bytes)
    ensures (exists w :: w in enrolled && IsEntryFor(c, w)) ==> name == c.who
    ensures (forall w :: w in enrolled ==> !IsEntryFor(c, w)) ==> name == []
  {
    var i := 0;
    while i < |enrolled|
      invariant 0 <= i <= |enrolled|
      invariant forall k :: 0 <= k < i ==> !IsEntryFor(c, enrolled[k])
    {
      if IsEntryFor(c, enrolled[i]) { return enrolled[i].name; }
      i := i + 1;
    }
    return [];
  }

  /** A cosignature counts when an enrolled entry has its non-empty name and its key, and it
      verifies over the body. */
  predicate Valid(verify: Verify, body: Bytes, c: Cosignature, enrolled: seq<Prover>) {
    && c.who != [] && verify(c.key, body, c.sig)
    && exists w :: w in enrolled && IsEntryFor(c, w)
  }

  ghost predicate Counts(verify: Verify, body: Bytes, cosigs: seq<Cosignature>, enrolled: seq<Prover>, name: Bytes) {
    exists c :: c in cosigs && c.who == name && Valid(verify, body, c, enrolled)
  }

  ghost predicate Distinct<T>(s: seq<T>) {
    forall i, j :: 0 <= i < j < |s| ==> s[i] != s[j]
  }

  /** The result names each counting witness exactly once, and nobody else. */
  method VerifyCheckpointWitnesses(verify: Verify, body: Bytes, cosigs: seq<Cosignature>, enrolled: seq<Prover>)
    returns (ok: seq<Bytes>)
    ensures Distinct(ok)
    ensures forall name :: name in ok <==> Counts(verify, body, cosigs, enrolled, name)
    ensures forall name :: name in ok <==>
              && name != []
              && exists c, w :: (&& c in cosigs && w in enrolled && c.who == name && w.name == name
                                 && c.key == w.key && verify(c.key, body, c.sig))
  {
    ok := [];
    var seen: set<Bytes> := {};
    var i := 0;
    while i < |cosigs|
      invariant 0 <= i <= |cosigs|
      invariant Distinct(ok)
      invariant forall name :: name in seen <==> name in ok
      invariant forall name :: name in ok <==> Counts(verify, body, cosigs[..i], enrolled, name)
    {
      var c := cosigs[i];
      CountsNext(verify, body, cosigs, enrolled, i);
      hide Counts;
      var name := MatchWitness(c, enrolled);
      if name != [] && name !in seen && verify(c.key, body, c.sig) {
        assert Valid(verify, body, c, enrolled);
        seen := seen + {name};
        ok := ok + [name];
      }
      i := i + 1;
    }
    assert cosigs[..|cosigs|] == cosigs;
    forall name
      ensures Counts(verify, body, cosigs, enrolled, name)
         <==> && name != []
              && exists c, w :: (&& c in cosigs && w in enrolled && c.who == name && w.name == name
                                 && c.key == w.key && verify(c.key, body, c.sig))
    {
      CountsMeaning(verify, body, cosigs, enrolled, name);
    }
  }

  lemma CountsMeaning(verify: Verify, body: Bytes, cosigs: seq<Cosignature>, enrolled: seq<Prover>, name: Bytes)
    ensures Counts(verify, body, cosigs, enrolled, name)
       <==> && name != []
            && exists c, w :: (&& c in cosigs && w in enrolled && c.who == name && w.name == name
                               && c.key == w.key && verify(c.key, body, c.sig))
  {
    if Counts(verify, body, cosigs, enrolled, name) {
      var c :| c in cosigs && c.who == name && Valid(verify, body, c, enrolled);
      var w :| w in enrolled && IsEntryFor(c, w);
    }
    if c, w :| (&& c in cosigs && w in enrolled && c.who == name && w.name == name && c.key == w.key
                && verify(c.key, body, c.sig)) {
      assert IsEntryFor(c, w);
      if name != [] { assert Valid(verify, body, c, enrolled); }
    }
  }

  lemma CountsNext(verify: Verify, body: Bytes, cosigs: seq<Cosignature>, enrolled: seq<Prover>, i: nat)
    requires i < |cosigs|
    ensures forall name :: Counts(verify, body, cosigs[..i + 1], enrolled, name)
                      <==> Counts(verify, body, cosigs[..i], enrolled, name)
                           || (name == cosigs[i].who && Valid(verify, body, cosigs[i], enrolled))
  {
    hide Valid;
    forall c ensures c in cosigs[..i + 1] <==> c in cosigs[..i] || c == cosigs[i] {
      assert cosigs[..i + 1] == cosigs[..i] + [cosigs[i]];
    }
    forall name
      ensures Counts(verify, body, cosigs[..i + 1], enrolled, name)
         <==> Counts(verify, body, cosigs[..i], enrolled, name)
              || (name == cosigs[i].who && Valid(verify, body, cosigs[i], enrolled))
    {
      if Counts(verify, body, cosigs[..i + 1], enrolled, name) {
        var c :| c in cosigs[..i + 1] && c.who == name && Valid(verify, body, c, enrolled);
        assert c in cosigs[..i] || c == cosigs[i];
      }
    }
  }

  // ---- quorum intersection ----

  function Names(enrolled: seq<Prover>): set<Bytes> {
    set w | w in enrolled :: w.name
  }

  /** What one honest witness did since its first run. */
  datatype Run = Run(cfg: Config, answers: seq<Answer>)

  function Bodies(run: Run): seq<Bytes> {
    Cosigned(run.cfg, FIRST_RUN, run.answers)
  }

  /** Ideal signatures: every key enrolled under the name verifies only bodies this run cosigned. */
  ghost predicate SignsOnly(verify: Verify, enrolled: seq<Prover>, name: Bytes, run: Run) {
    forall w, body, sig :: w in enrolled && w.name == name && verify(w.key, body, sig) ==> body in Bodies(run)
  }

  /** All but the names in `faulty` follow poll, with the one hash. */
  ghost predicate Honest(sha: Sha, hashed: set<Bytes>, verify: Verify, enrolled: seq<Prover>,
                         faulty: set<Bytes>, runs: map<Bytes, Run>)
  {
    forall name :: name in Names(enrolled) - faulty ==>
      && name in runs && runs[name].cfg.sha == sha && SignsOnly(verify, enrolled, name, runs[name])
      && RunPreimages(runs[name].cfg, FIRST_RUN, runs[name].answers) <= hashed
  }

  lemma CountedIsCosigned(verify: Verify, body: Bytes, cosigs: seq<Cosignature>, enrolled: seq<Prover>, name: Bytes,
                          run: Run)
    requires Counts(verify, body, cosigs, enrolled, name) && SignsOnly(verify, enrolled, name, run)
    ensures body in Bodies(run)
  {
    hide Bodies;
    var c :| c in cosigs && c.who == name && Valid(verify, body, c, enrolled);
    var w :| w in enrolled && IsEntryFor(c, w);
  }

  lemma CountedIsEnrolled(verify: Verify, body: Bytes, cosigs: seq<Cosignature>, enrolled: seq<Prover>, name: Bytes)
    requires Counts(verify, body, cosigs, enrolled, name)
    ensures name in Names(enrolled)
  {
    var c :| c in cosigs && c.who == name && Valid(verify, body, c, enrolled);
    var w :| w in enrolled && IsEntryFor(c, w);
  }

  lemma {:induction false} SubsetCard<T>(a: set<T>, b: set<T>)
    requires a <= b
    ensures |a| <= |b|
  {
    if a != {} {
      var x :| x in a;
      SubsetCard(a - {x}, b - {x});
    }
  }

  lemma {:induction false} DistinctCard<T>(s: seq<T>)
    requires Distinct(s)
    ensures |set x | x in s| == |s|
  {
    if s != [] {
      DistinctCard(Front(s));
      assert (set x | x in s) == (set x | x in Front(s)) + {Last(s)};
    }
  }

  /** Two large name sets out of few names share one outside `faulty`. */
  lemma Intersect(a: seq<Bytes>, b: seq<Bytes>, names: set<Bytes>, faulty: set<Bytes>) returns (name: Bytes)
    requires Distinct(a) && Distinct(b)
    requires (forall x :: x in a ==> x in names) && (forall x :: x in b ==> x in names)
    requires |a| + |b| > |names| + |faulty|
    ensures name in a && name in b && name in names - faulty
  {
    var sa, sb := set x | x in a, set x | x in b;
    DistinctCard(a);
    DistinctCard(b);
    SubsetCard(sa + sb, names);
    if sa * sb <= faulty { SubsetCard(sa * sb, faulty); }
    name :| name in sa * sb && name !in faulty;
  }

  /** With n witness names, at most f of them not following poll, and 2t > n + f, two
      checkpoints that both reach threshold t agree: same size means same root, and the
      smaller is a prefix of any list that opens the larger. */
  lemma QuorumsAgree(sha: Sha, hashed: set<Bytes>, verify: Verify, enrolled: seq<Prover>, faulty: set<Bytes>,
                     runs: map<Bytes, Run>, t: nat, f: nat,
                     bodyA: Bytes, cosigsA: seq<Cosignature>, okA: seq<Bytes>,
                     bodyB: Bytes, cosigsB: seq<Cosignature>, okB: seq<Bytes>, leaves: seq<Bytes>)
    requires CollisionFree(sha, hashed) && CoversPrefixes(sha, hashed, leaves)
    requires Honest(sha, hashed, verify, enrolled, faulty, runs)
    requires |faulty| <= f && 2 * t > |Names(enrolled)| + f && |okA| >= t && |okB| >= t
    requires Distinct(okA) && forall name :: name in okA <==> Counts(verify, bodyA, cosigsA, enrolled, name)
    requires Distinct(okB) && forall name :: name in okB <==> Counts(verify, bodyB, cosigsB, enrolled, name)
    ensures ParseCheckpoint(bodyA).Some? && ParseCheckpoint(bodyB).Some?
    ensures Agree(sha, leaves, ParseCheckpoint(bodyA).value, ParseCheckpoint(bodyB).value)
  {
    hide Counts, Distinct, ParseCheckpoint, CollisionFree, CoversPrefixes, RunPreimages, SignsOnly, Names, Agree;
    forall x | x in okA ensures x in Names(enrolled) { CountedIsEnrolled(verify, bodyA, cosigsA, enrolled, x); }
    forall x | x in okB ensures x in Names(enrolled) { CountedIsEnrolled(verify, bodyB, cosigsB, enrolled, x); }
    var name := Intersect(okA, okB, Names(enrolled), faulty);
    var run := runs[name];
    CountedIsCosigned(verify, bodyA, cosigsA, enrolled, name, run);
    CountedIsCosigned(verify, bodyB, cosigsB, enrolled, name, run);
    NoEquivocation(run.cfg, run.answers, hashed, bodyA, bodyB, leaves);
  }
}
