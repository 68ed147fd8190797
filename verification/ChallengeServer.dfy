/** The challenge server: sessions in a bounded table, bundles verified without the lock
    against a snapshot of the counter, and a locked compare-and-advance. */
module ChallengeServer {
  import opened Basics
  import opened Payload
  import opened Bundles

  const MAX_SESSIONS := 10000

  datatype Verdict = Unset | Pass | Fail

  ghost predicate Increasing(counters: seq<nat>) {
    forall i, j :: 0 <= i < j < |counters| ==> counters[i] < counters[j]
  }

  /** One answer given to a client for a bundle of a session, and whether the session was live. */
  datatype Answer = Answer(pass: bool, counter: nat, live: bool)

  /** The counters of the PASS answers given while the session was live. */
  ghost function LivePasses(answers: seq<Answer>): seq<nat> {
    if answers == [] then []
    else
      var a := Last(answers);
      LivePasses(Front(answers)) + (if a.pass && a.live then [a.counter] else [])
  }

  lemma {:induction false} LivePassListed(answers: seq<Answer>, i: nat)
    requires i < |answers| && answers[i].pass && answers[i].live
    ensures answers[i].counter in LivePasses(answers)
  {
    if i < |answers| - 1 { LivePassListed(Front(answers), i); }
  }

  /** Earlier answers, and behind them what was served on session s, in order. */
  ghost function WithServed(earlier: seq<Answer>, served: seq<(Session, Answer)>, s: Session): seq<Answer> {
    if served == [] then earlier
    else WithServed(earlier, Front(served), s) + if Last(served).0 == s then [Last(served).1] else []
  }

  lemma WithServedSnoc(earlier: seq<Answer>, served: seq<(Session, Answer)>, sess: Session, a: Answer, s: Session)
    ensures WithServed(earlier, served + [(sess, a)], s)
         == WithServed(earlier, served, s) + if s == sess then [a] else []
  {
    assert Front(served + [(sess, a)]) == served;
  }

  lemma {:induction false} WithServedGrows(earlier: seq<Answer>, served: seq<(Session, Answer)>, s: Session)
    ensures earlier <= WithServed(earlier, served, s)
    ensures (forall k :: 0 <= k < |served| ==> served[k].0 != s) ==> WithServed(earlier, served, s) == earlier
  {
    if served != [] { WithServedGrows(earlier, Front(served), s); }
  }

  /** A later PASS on a live session always has a larger counter: none is accepted twice. */
  lemma {:induction false} LiveNeverRepeats(answers: seq<Answer>, i: nat, j: nat)
    requires Increasing(LivePasses(answers)) && i < j < |answers|
    requires answers[i].pass && answers[i].live && answers[j].pass && answers[j].live
    ensures answers[i].counter < answers[j].counter
    decreases |answers|
  {
    var front := LivePasses(Front(answers));
    if j < |answers| - 1 {
      assert front <= LivePasses(answers);
      LiveNeverRepeats(Front(answers), i, j);
    } else {
      LivePassListed(Front(answers), i);
      var k :| 0 <= k < |front| && front[k] == answers[i].counter;
      assert LivePasses(answers)[k] == front[k] && Last(LivePasses(answers)) == answers[j].counter;
    }
  }

  class Session {
    const nonce: Bytes
    const createdAt: int
    var lastCounter: nat
    var verdict: Verdict
    var proof: Option<Predicate>
    /** Every answer given for this session, oldest first. */
    ghost var answers: seq<Answer>

    ghost predicate Valid()
      reads this
    {
      && Increasing(LivePasses(answers))
      && lastCounter == (if LivePasses(answers) == [] then 0 else Last(LivePasses(answers)))
      && (proof.Some? <==> verdict == Pass)
      && (proof.Some? ==> LivePasses(answers) != [] && proof.value.counter == lastCounter)
    }

    constructor (nonce: Bytes, createdAt: int)
      ensures this.nonce == nonce && this.createdAt == createdAt
      ensures Valid() && answers == [] && verdict == Unset && lastCounter == 0
    {
      this.nonce, this.createdAt := nonce, createdAt;
      lastCounter, verdict, proof, answers := 0, Unset, None, [];
    }

    /** The locked compare-and-advance. On a session that is no longer in the table the outcome
        of the unlocked check stands and nothing is recorded. */
    method Record(res: GateResult, live: bool) returns (pass: bool)
      requires Valid()
      modifies this
      ensures Valid()
      ensures pass <==> res.Passed? && (!live || res.p.counter > old(lastCounter))
      ensures answers == old(answers) + [Answer(pass, if res.Passed? then res.p.counter else 0, live)]
      ensures lastCounter == if live && pass then res.p.counter else old(lastCounter)
      ensures verdict == if !live then old(verdict) else if pass then Pass else Fail
      ensures proof == if !live then old(proof) else if pass then Some(res.p) else None
    {
      pass := res.Passed?;
      if !live {
      } else if pass && res.p.counter <= lastCounter {
        pass := false;
      } else if pass {
        lastCounter := res.p.counter;
      }
      if live {
        verdict := if pass then Pass else Fail;
        proof := if pass then Some(res.p) else None;
      }
      ghost var a := Answer(pass, if res.Passed? then res.p.counter else 0, live);
      assert Front(answers + [a]) == answers;
      answers := answers + [a];
    }
  }

  /** An attest between its snapshot and its commit. */
  datatype Pending = Pending(sid: Bytes, sess: Session, bundle: Bundle, snapshot: nat)

  /** A request in progress: its session was looked up, and later its counter read. */
  datatype Request = Request(sid: Bytes, sess: Session, bundle: Bundle, snapshot: Option<nat>)

  /** One locked section, with what its handler got from the network, the clock and the generator. */
  datatype Event =
    | Challenge(sid: Bytes, nonce: Bytes, now: int, created: int)
    | Lookup(session: Bytes, bundle: Bundle)
    | Snapshot(index: nat)
    | Commit(index: nat)

  class Server {
    const verify: Verify
    const pin: Option<PubKey>
    const ttl: int
    var sessions: map<Bytes, Session>
    /** Every session ever created; dropping one from the table does not end the requests on it. */
    ghost var known: set<Session>

    ghost predicate Valid()
      reads this, known
    {
      && |sessions| <= MAX_SESSIONS
      && (forall sid :: sid in sessions ==> sessions[sid] in known)
      && (forall s :: s in known ==> s.Valid())
    }

    constructor (verify: Verify, pin: Option<PubKey>, ttl: int)
      ensures Valid() && sessions == map[] && known == {}
      ensures this.verify == verify && this.pin == pin && this.ttl == ttl
    {
      this.verify, this.pin, this.ttl := verify, pin, ttl;
      sessions, known := map[], {};
    }

    ghost function Unexpired(now: int): set<Bytes>
      reads this
    {
      set sid | sid in sessions && now - sessions[sid].createdAt <= ttl
    }

    /** Drops exactly the sessions older than ttl. */
    method GcLocked(now: int)
      modifies this`sessions
      ensures forall sid :: sid in sessions <==> sid in old(sessions) && now - old(sessions)[sid].createdAt <= ttl
      ensures forall sid :: sid in sessions ==> sessions[sid] == old(sessions)[sid]
      ensures |sessions| <= |old(sessions)| && sessions.Keys == old(Unexpired(now))
    {
      var todo := sessions.Keys;
      while todo != {}
        invariant todo <= sessions.Keys && |sessions| <= |old(sessions)|
        invariant forall sid :: sid in sessions <==>
                    sid in old(sessions) && (sid in todo || now - old(sessions)[sid].createdAt <= ttl)
        invariant forall sid :: sid in sessions ==> sessions[sid] == old(sessions)[sid]
        decreases |todo|
      {
        var sid :| sid in todo;
        todo := todo - {sid};
        if now - sessions[sid].createdAt > ttl {
          SmallerMap(sessions, sid);
          sessions := sessions - {sid};
        }
      }
    }

    /** A fresh session under sid. */
    method Admit(sid: Bytes, nonce: Bytes, created: int) returns (sess: Session)
      requires Valid() && |sessions| < MAX_SESSIONS
      modifies this`sessions, this`known
      ensures Valid() && fresh(sess) && sessions == old(sessions)[sid := sess] && known == old(known) + {sess}
      ensures sess.nonce == nonce && sess.createdAt == created
      ensures sess.lastCounter == 0 && sess.verdict == Unset && sess.answers == []
    {
      hide Session.Valid, LivePasses, Increasing;
      sess := new Session(nonce, created);
      sessions := sessions[sid := sess];
      known := known + {sess};
    }

    /** A challenge is issued exactly when fewer than 10000 sessions are left after dropping the
        expired ones; the table never exceeds its cap, and only expired sessions leave it. */
    method HandleChallenge(sid: Bytes, nonce: Bytes, now: int, created: int) returns (ok: bool)
      requires Valid()
      modifies this`sessions, this`known
      ensures Valid()
      ensures old(known) <= known && fresh(known - old(known))
      ensures forall s :: s in known - old(known) ==> s.answers == []
      ensures ok ==> sid in sessions && fresh(sessions[sid])
      ensures ok <==> |old(Unexpired(now))| < 10000
      ensures sessions.Keys == old(Unexpired(now)) + if ok then {sid} else {}
      ensures ok ==> sessions[sid].nonce == nonce && sessions[sid].createdAt == created
      ensures ok ==> sessions[sid].lastCounter == 0 && sessions[sid].verdict == Unset && sessions[sid].answers == []
      ensures forall k :: k in sessions && (k != sid || !ok) ==> k in old(sessions) && sessions[k] == old(sessions)[k]
      ensures forall k :: k in old(sessions) && k != sid ==>
              (k in sessions <==> now - old(sessions)[k].createdAt <= ttl)
    {
      hide Session.Valid, Unexpired, LivePasses, Increasing;
      GcLocked(now);
      if |sessions| >= MAX_SESSIONS { return false; }
      var sess := Admit(sid, nonce, created);
      return true;
    }

    /** The unlocked check: the counter to beat is the one read when the attest came in. */
    function Check(p: Pending): GateResult {
      VerifyBundle(verify, p.bundle, pin, Options(p.sess.nonce, p.snapshot, None))
    }

    /** verifyAndRecord after its unlocked check, for a session looked up earlier. */
    method CommitVerdict(p: Pending) returns (pass: bool)
      requires Valid() && p.sess in known
      modifies p.sess
      ensures Valid()
      ensures var res := Check(p);
              var live := p.sid in sessions;
              && (pass <==> res.Passed? && (!live || res.p.counter > old(p.sess.lastCounter)))
              && p.sess.answers == old(p.sess.answers) + [Answer(pass, if res.Passed? then res.p.counter else 0, live)]
              && p.sess.lastCounter == (if live && pass then res.p.counter else old(p.sess.lastCounter))
              && p.sess.verdict == (if !live then old(p.sess.verdict) else if pass then Pass else Fail)
              && p.sess.proof == (if !live then old(p.sess.proof) else if pass then Some(res.p) else None)
    {
      hide Check, Session.Valid;
      var res := Check(p);
      pass := p.sess.Record(res, p.sid in sessions);
    }

    ghost predicate AllKnown(requests: seq<Request>)
      reads this`known
    {
      forall k :: 0 <= k < |requests| ==> requests[k].sess in known
    }

    /** Event e commits the k-th request, which has read its counter. */
    ghost predicate Commits(e: Event, requests: seq<Request>) {
      e.Commit? && e.index < |requests| && requests[e.index].snapshot.Some?
    }

    /** One locked section. The lookup, the snapshot and the commit of a request take the lock
        separately, so anything may happen in between. A request enters only by a lookup that finds
        its session; a commit answers it, on the session looked up and on no other, by whether its
        bundle passes against the session's nonce and the counter read, and on a session still in
        the table also beats the counter of that moment; the verdict is recorded there. */
    method Step(e: Event, requests: seq<Request>) returns (rest: seq<Request>)
      requires Valid() && AllKnown(requests)
      modifies this`sessions, this`known, known
      ensures Valid() && AllKnown(rest)
      ensures old(known) <= known && fresh(known - old(known))
      ensures forall s :: s in known - old(known) ==> s.answers == []
      ensures !e.Challenge? ==> sessions == old(sessions) && known == old(known)
      ensures e.Challenge? ==> rest == requests
      ensures e.Lookup? ==>
                rest == requests + if e.session in sessions
                                   then [Request(e.session, sessions[e.session], e.bundle, None)] else []
      ensures e.Snapshot? ==>
                rest == if e.index < |requests| && requests[e.index].snapshot.None?
                        then requests[e.index := requests[e.index].(snapshot := Some(
                                        requests[e.index].sess.lastCounter))]
                        else requests
      ensures e.Commit? ==>
                rest == if Commits(e, requests) then requests[..e.index] + requests[e.index + 1..] else requests
      ensures forall s :: s in old(known) && !(Commits(e, requests) && s == requests[e.index].sess) ==>
                s.answers == old(s.answers) && s.lastCounter == old(s.lastCounter) && s.verdict == old(s.verdict)
      ensures Commits(e, requests) ==>
                var r := requests[e.index];
                var res := VerifyBundle(verify, r.bundle, pin, Options(r.sess.nonce, r.snapshot.value, None));
                var live := r.sid in sessions;
                var pass := res.Passed? && (!live || res.p.counter > old(r.sess.lastCounter));
                && r.sess.answers == old(r.sess.answers)
                                     + [Answer(pass, if res.Passed? then res.p.counter else 0, live)]
                && r.sess.lastCounter == (if live && pass then res.p.counter else old(r.sess.lastCounter))
                && (live ==> r.sess.verdict == (if pass then Pass else Fail)
                             && r.sess.proof == (if pass then Some(res.p) else None))
    {
      hide Session.Valid, VerifyBundle, LivePasses, Increasing;
      rest := requests;
      match e {
        case Challenge(sid, nonce, now, created) =>
          var _ := HandleChallenge(sid, nonce, now, created);
        case Lookup(sid, bundle) =>
          if sid in sessions {
            rest := requests + [Request(sid, sessions[sid], bundle, None)];
          }
        case Snapshot(k) =>
          if k < |requests| && requests[k].snapshot.None? {
            rest := requests[k := requests[k].(snapshot := Some(requests[k].sess.lastCounter))];
          }
        case Commit(k) =>
          if k < |requests| && requests[k].snapshot.Some? {
            var r := requests[k];
            var _ := CommitVerdict(Pending(r.sid, r.sess, r.bundle, r.snapshot.value));
            rest := requests[..k] + requests[k + 1..];
          }
      }
    }

    /** Every interleaving of challenges (each with its garbage collection), lookups, snapshots and
        commits, with any requests already in progress, so that runs compose: the table stays
        bounded, every session's live PASS counters strictly increase, and no answer is rewritten.
        Nothing is lost or invented either: of the requests in progress at the start and the `found`
        ones whose session was found, each is still in progress or was served once, and what a
        session answered is what was served on it, in order. */
    method Serve(events: seq<Event>, started: seq<Request>)
      returns (requests: seq<Request>, ghost served: seq<(Session, Answer)>, ghost found: nat)
      requires Valid() && AllKnown(started)
      modifies this`sessions, this`known, known
      ensures Valid() && AllKnown(requests) && |sessions| <= 10000
      ensures |requests| + |served| == |started| + found
      ensures forall s :: s in known ==>
                s.answers == WithServed(if s in old(known) then old(s.answers) else [], served, s)
      ensures old(known) <= known
      ensures forall s :: s in known ==> Increasing(LivePasses(s.answers))
      ensures forall s :: s in known ==> (s.proof.Some? <==> s.verdict == Pass)
      ensures forall s :: s in old(known) ==> old(s.answers) <= s.answers
    {
      hide LivePasses, Increasing, VerifyBundle, WithServed, Unexpired;
      requests, served, found := started, [], 0;
      forall s | s in known ensures s.answers == WithServed(s.answers, served, s) {
        WithServedGrows(s.answers, served, s);
      }
      for i := 0 to |events|
        invariant Valid() && AllKnown(requests)
        invariant old(known) <= known && fresh(known - old(known))
        invariant |requests| + |served| == |started| + found
        invariant forall k :: 0 <= k < |served| ==> served[k].0 in known
        invariant forall s :: s in known ==>
                    s.answers == WithServed(if s in old(known) then old(s.answers) else [], served, s)
      {
        hide Session.Valid;
        ghost var before, was, known0 := requests, served, known;
        if events[i].Lookup? && events[i].session in sessions { found := found + 1; }
        requests := Step(events[i], requests);
        if Commits(events[i], before) {
          ghost var sess := before[events[i].index].sess;
          served := served + [(sess, Last(sess.answers))];
        }
        forall s | s in known
          ensures s.answers == WithServed(if s in old(known) then old(s.answers) else [], served, s)
        {
          ghost var earlier := if s in old(known) then old(s.answers) else [];
          if s !in known0 { WithServedGrows(earlier, served, s); }
          if served != was { WithServedSnoc(earlier, was, Last(served).0, Last(served).1, s); }
        }
      }
      forall s | s in old(known) ensures old(s.answers) <= s.answers {
        WithServedGrows(old(s.answers), served, s);
      }
    }
  }

  /** A check that passes pinned to a device key means that this device measured the predicate
      for this session's own nonce. */
  lemma {:induction false} PassIsMeasured(server: Server, p: Pending, key: PubKey, measured: set<Predicate>)
    requires server.pin == Some(key) && DeviceKey(server.verify, key, measured) && server.Check(p).Passed?
    ensures server.Check(p).p in measured && server.Check(p).p.nonce == p.sess.nonce
    ensures server.Check(p).p.counter > p.snapshot
  {
    hide DeviceKey, VerifyBundle;
    AcceptedWasMeasured(server.verify, p.bundle, key, Options(p.sess.nonce, p.snapshot, None), measured);
  }

  /** Only live sessions are protected: on a session dropped meanwhile one bundle is answered
      PASS as often as it was posted. */
  method DeadSessionRepeats(server: Server, p: Pending) returns (first: bool, second: bool)
    requires server.Valid() && p.sess in server.known && p.sid !in server.sessions
    requires server.Check(p).Passed?
    modifies p.sess
    ensures first && second
    ensures p.sess.lastCounter == old(p.sess.lastCounter)
  {
    hide Session.Valid, Server.Check;
    first := server.CommitVerdict(p);
    second := server.CommitVerdict(p);
  }

  lemma SmallerMap<K, V>(m: map<K, V>, k: K)
    requires k in m
    ensures |m - {k}| < |m|
  {
    assert (m - {k}).Keys == m.Keys - {k};
    assert |m| == |m.Keys| && |m - {k}| == |(m - {k}).Keys|;
  }
}
