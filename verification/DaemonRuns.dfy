/** What a whole run of the serving witness shows to others: when a health request is answered
    healthy, why an alarm is up, and what the retained evidence says about the log. */
module DaemonRuns {
  import opened Basics
  import opened Text
  import opened Notes
  import opened Witness
  import opened Evidence
  import opened Daemon

  /** Event i is a step of the timer goroutine. */
  ghost predicate TimerAt(events: seq<Event>, i: nat) {
    i < |events| && events[i].Timer?
  }

  /** Event i polls the log. */
  ghost predicate PollsAt(trace: seq<Core>, events: seq<Event>, i: nat) {
    TimerAt(events, i) && i < |trace| && trace[i].pc.AtPoll?
  }

  /** ... with a checkpoint accepted and the view saved. */
  ghost predicate PollsWellAt(cfg: Config, trace: seq<Core>, events: seq<Event>, i: nat) {
    && PollsAt(trace, events, i) && events[i].saved
    && PollStep(cfg, trace[i].view, events[i].answer).1.Accepted?
  }

  /** The last poll before point k went well. */
  ghost predicate LastPollWell(cfg: Config, trace: seq<Core>, events: seq<Event>, k: nat) {
    exists i :: 0 <= i < k && PollsWellAt(cfg, trace, events, i) && forall j :: i < j < k ==> !PollsAt(trace, events, j)
  }

  /** Event i posts or pulls evidence that this daemon adopts. */
  ghost predicate AdoptsAt(cfg: Config, peers: seq<Peer>, trace: seq<Core>, events: seq<Event>, i: nat) {
    && i < |events| && i < |trace|
    && match events[i]
       case Intake(p) => Adoptable(cfg, peers, p)
       case Health => false
       case Timer(_, _, _, pulled) =>
         trace[i].pc.AtPull? && trace[i].pc.next < |peers| && pulled.Some? && Adoptable(cfg, peers, pulled.value)
  }

  /** Event i surveys the peers, and some peer diverges from the view of that moment. */
  ghost predicate FindsDivergenceAt(cfg: Config, peers: seq<Peer>, trace: seq<Core>, events: seq<Event>, i: nat) {
    && TimerAt(events, i) && i < |trace| && trace[i].pc.AtCheck?
    && exists n :: 0 <= n < |peers| && Diverges(cfg, OurView(trace[i].view), peers[n], Nth(events[i].replies, n))
  }

  ghost predicate CauseAt(cfg: Config, peers: seq<Peer>, trace: seq<Core>, events: seq<Event>, i: nat) {
    AdoptsAt(cfg, peers, trace, events, i) || FindsDivergenceAt(cfg, peers, trace, events, i)
  }

  /** The alarm is up, or was found and awaits the lock. */
  predicate Alerted(s: Core) {
    s.equivocation || (s.pc.AtCommit? && s.pc.found.alarm)
  }

  lemma NextAlerted(cfg: Config, peers: seq<Peer>, trace: seq<Core>, events: seq<Event>, i: nat)
    requires IsTrace(cfg, peers, trace, events) && i < |events|
    ensures Alerted(trace[i + 1]) <==> Alerted(trace[i]) || CauseAt(cfg, peers, trace, events, i)
  {
    hide Adoptable, PollStep, Recorded, Surveyed, OurView, Diverges, Assembled;
    var s, e := trace[i], events[i];
    assert trace[i + 1] == Next(cfg, peers, s, e);
    if e.Timer? && s.pc.AtCheck? { SurveyedExact(cfg, peers, OurView(s.view), e.replies, |peers|); }
  }

  /** An alarm has a cause and a cause an alarm: in every run of the process, whenever no survey
      result awaits the lock, the alarm is up exactly when evidence was adopted before or a survey
      found a peer that diverges. */
  lemma {:induction false} AlarmExactly(cfg: Config, peers: seq<Peer>, trace: seq<Core>, events: seq<Event>, k: nat)
    requires IsTrace(cfg, peers, trace, events) && k < |trace| && !Alerted(trace[0])
    ensures Alerted(trace[k]) <==> exists i :: 0 <= i < k && CauseAt(cfg, peers, trace, events, i)
    ensures !trace[k].pc.AtCommit? ==>
              (trace[k].equivocation <==> exists i :: 0 <= i < k && CauseAt(cfg, peers, trace, events, i))
  {
    hide CauseAt, IsTrace;
    if k > 0 {
      TraceLength(cfg, peers, trace, events);
      AlarmExactly(cfg, peers, trace, events, k - 1);
      NextAlerted(cfg, peers, trace, events, k - 1);
    }
  }

  lemma TraceLength(cfg: Config, peers: seq<Peer>, trace: seq<Core>, events: seq<Event>)
    requires IsTrace(cfg, peers, trace, events)
    ensures |trace| == |events| + 1
  {
  }

  lemma NextHealth(cfg: Config, peers: seq<Peer>, trace: seq<Core>, events: seq<Event>, i: nat)
    requires IsTrace(cfg, peers, trace, events) && i < |events| && !trace[i + 1].equivocation
    ensures !trace[i].equivocation
    ensures trace[i + 1].healthOK <==>
              PollsWellAt(cfg, trace, events, i) || (!PollsAt(trace, events, i) && trace[i].healthOK)
  {
    hide Adoptable, PollStep, Recorded, Surveyed, OurView, Assembled;
    assert trace[i + 1] == Next(cfg, peers, trace[i], events[i]);
  }

  lemma {:induction false} HealthIsLastPoll(cfg: Config, peers: seq<Peer>, trace: seq<Core>, events: seq<Event>, k: nat)
    requires IsTrace(cfg, peers, trace, events) && k < |trace| && !trace[0].healthOK && !trace[k].equivocation
    ensures trace[k].healthOK <==> LastPollWell(cfg, trace, events, k)
  {
    hide PollsWellAt, PollsAt, IsTrace;
    if k > 0 {
      TraceLength(cfg, peers, trace, events);
      NextHealth(cfg, peers, trace, events, k - 1);
      HealthIsLastPoll(cfg, peers, trace, events, k - 1);
      LastPollStep(cfg, trace, events, k - 1);
      hide LastPollWell;
    }
  }

  lemma LastPollStep(cfg: Config, trace: seq<Core>, events: seq<Event>, k: nat)
    ensures LastPollWell(cfg, trace, events, k + 1)
       <==> PollsWellAt(cfg, trace, events, k) || (!PollsAt(trace, events, k) && LastPollWell(cfg, trace, events, k))
  {
    WellIsPoll(cfg, trace, events, k);
    hide PollsWellAt, PollsAt;
    if LastPollWell(cfg, trace, events, k + 1) {
      var i :| 0 <= i < k + 1 && PollsWellAt(cfg, trace, events, i)
            && forall j :: i < j < k + 1 ==> !PollsAt(trace, events, j);
      if i < k { assert !PollsAt(trace, events, k); }
    }
  }

  lemma WellIsPoll(cfg: Config, trace: seq<Core>, events: seq<Event>, i: nat)
    ensures PollsWellAt(cfg, trace, events, i) ==> PollsAt(trace, events, i)
  {
  }

  /** In every run of the process a health request is answered healthy exactly when the last poll
      before it was accepted and its view saved, no evidence was adopted before, and no survey whose
      result was committed found a peer that diverges. */
  lemma HealthyExactly(cfg: Config, peers: seq<Peer>, trace: seq<Core>, events: seq<Event>, j: nat)
    requires IsTrace(cfg, peers, trace, events) && !trace[0].healthOK && !Alerted(trace[0])
    requires j < |events| && events[j].Health? && !trace[j].pc.AtCommit?
    ensures Answered(trace[j], events[j]) == Some(true)
       <==> LastPollWell(cfg, trace, events, j)
            && forall i :: 0 <= i < j ==> !CauseAt(cfg, peers, trace, events, i)
  {
    hide CauseAt, LastPollWell;
    TraceLength(cfg, peers, trace, events);
    AlarmExactly(cfg, peers, trace, events, j);
    if !trace[j].equivocation { HealthIsLastPoll(cfg, peers, trace, events, j); }
    hide IsTrace;
  }

  /** Whatever is retained at any point of any run is a fork of the log this daemon watches: two
      checkpoints of its origin and of one size with different roots, each cosigned under a key the
      daemon was configured with for the name it carries. At most 64 are retained. */
  lemma {:induction false} RetainedAreForks(cfg: Config, peers: seq<Peer>, trace: seq<Core>, events: seq<Event>,
                                            k: nat, q: Proof)
    requires IsTrace(cfg, peers, trace, events) && SigningWorks(cfg) && Good(cfg, peers, trace[0])
    requires k < |trace| && q in trace[k].proofs
    ensures |trace[k].proofs| <= 64
    ensures ParseCheckpoint(q.a.body).Some? && ParseCheckpoint(q.b.body).Some?
    ensures var (a, b) := (ParseCheckpoint(q.a.body).value, ParseCheckpoint(q.b.body).value);
            a.origin == cfg.origin && b.origin == cfg.origin && a.size == b.size && a.root != b.root
    ensures HexDec(q.a.cosigHex).Some? && HexDec(q.b.cosigHex).Some?
    ensures exists key :: ((q.a.who == cfg.name && key == cfg.self) || Peer(q.a.who, key) in peers)
                          && cfg.verify(key, q.a.body, HexDec(q.a.cosigHex).value)
    ensures exists key :: ((q.b.who == cfg.name && key == cfg.self) || Peer(q.b.who, key) in peers)
                          && cfg.verify(key, q.b.body, HexDec(q.b.cosigHex).value)
  {
    RunGood(cfg, peers, trace, events, k);
    hide IsTrace, SigningWorks, HexDec, ParseCheckpoint, Loadable, LatestMatches, Resumable, DistinctKeys;
    assert Genuine(cfg, peers, q);
    var keyA, keyB :| Configured(cfg, peers, q.a.who, keyA) && Configured(cfg, peers, q.b.who, keyB)
                   && Evident(cfg, q, keyA, keyB);
    assert cfg.verify(keyA, q.a.body, HexDec(q.a.cosigHex).value);
    assert cfg.verify(keyB, q.b.body, HexDec(q.b.cosigHex).value);
  }

  // ---- the timer cycle ----

  /** Event i asks peer n for its proof. */
  ghost predicate AsksAt(trace: seq<Core>, events: seq<Event>, i: nat, n: nat) {
    TimerAt(events, i) && i < |trace| && trace[i].pc == AtPull(n)
  }

  ghost predicate AskedBetween(trace: seq<Core>, events: seq<Event>, h: nat, k: nat, n: nat) {
    exists i :: h < i < k && AsksAt(trace, events, i, n)
  }

  /** Between h and k every peer below n was asked. */
  ghost predicate Asked(trace: seq<Core>, events: seq<Event>, h: nat, k: nat, n: nat) {
    forall j :: 0 <= j < n ==> AskedBetween(trace, events, h, k, j)
  }

  ghost predicate AdoptedBetween(cfg: Config, peers: seq<Peer>, trace: seq<Core>, events: seq<Event>, h: nat, k: nat) {
    exists i :: h < i < k && TimerAt(events, i) && AdoptsAt(cfg, peers, trace, events, i)
  }

  /** The goroutine surveyed the peers at c, committed what it found at m and looked at h whether it
      holds a proof, in this order and before k. */
  ghost predicate Went(trace: seq<Core>, events: seq<Event>, i: nat, c: nat, m: nat, h: nat, k: nat) {
    && i < c < m < h < k <= |events| && |trace| == |events| + 1
    && TimerAt(events, c) && trace[c].pc.AtCheck? && TimerAt(events, m) && trace[m].pc.AtCommit?
    && TimerAt(events, h) && trace[h].pc.AtHave?
  }

  /** How far the goroutine has come at k since its poll at i. */
  ghost predicate Progress(cfg: Config, peers: seq<Peer>, trace: seq<Core>, events: seq<Event>, i: nat, k: nat,
                           c: nat, m: nat, h: nat)
  {
    && i < k <= |events| && |trace| == |events| + 1
    && match trace[k].pc
       case AtCheck => true
       case AtCommit(_) => i < c < k && TimerAt(events, c) && trace[c].pc.AtCheck?
       case AtHave =>
         && i < c < m < k && TimerAt(events, c) && trace[c].pc.AtCheck?
         && TimerAt(events, m) && trace[m].pc.AtCommit?
       case AtPull(n) =>
         Went(trace, events, i, c, m, h, k) && n <= |peers| && Asked(trace, events, h, k, n)
       case AtPoll =>
         Went(trace, events, i, c, m, h, k)
         && (trace[h].proof.Some? || Asked(trace, events, h, k, |peers|)
             || AdoptedBetween(cfg, peers, trace, events, h, k))
  }

  lemma AskedLater(trace: seq<Core>, events: seq<Event>, h: nat, k: nat, n: nat)
    requires Asked(trace, events, h, k, n)
    ensures Asked(trace, events, h, k + 1, n)
    ensures h < k && AsksAt(trace, events, k, n) ==> Asked(trace, events, h, k + 1, n + 1)
  {
    hide AsksAt;
    var next := k + 1;
    forall j | 0 <= j < n ensures AskedBetween(trace, events, h, next, j) {
      assert AskedBetween(trace, events, h, k, j);
    }
  }

  lemma ProgressStep(cfg: Config, peers: seq<Peer>, trace: seq<Core>, events: seq<Event>, i: nat, k: nat,
                     c: nat, m: nat, h: nat) returns (c': nat, m': nat, h': nat)
    requires IsTrace(cfg, peers, trace, events) && k < |events| && !PollsAt(trace, events, k)
    requires Progress(cfg, peers, trace, events, i, k, c, m, h)
    ensures Progress(cfg, peers, trace, events, i, k + 1, c', m', h')
  {
    hide Adoptable, PollStep, Recorded, Surveyed, OurView, Assembled, Asked;
    assert trace[k + 1] == Next(cfg, peers, trace[k], events[k]);
    c', m', h' := c, m, h;
    match trace[k].pc {
      case AtCheck => c' := k;
      case AtCommit(_) => m' := k;
      case AtHave =>
        h' := k;
        NoneAsked(trace, events, k, k + 1);
      case AtPull(n) =>
        AskedLater(trace, events, h, k, n);
      case AtPoll =>
        AskedMaybe(trace, events, h, k, |peers|);
        hide AdoptsAt;
    }
  }

  lemma NoneAsked(trace: seq<Core>, events: seq<Event>, h: nat, k: nat)
    ensures Asked(trace, events, h, k, 0)
  {
  }

  lemma AskedMaybe(trace: seq<Core>, events: seq<Event>, h: nat, k: nat, n: nat)
    ensures Asked(trace, events, h, k, n) ==> Asked(trace, events, h, k + 1, n)
  {
    if Asked(trace, events, h, k, n) { AskedLater(trace, events, h, k, n); }
  }

  lemma {:induction false} ProgressTo(cfg: Config, peers: seq<Peer>, trace: seq<Core>, events: seq<Event>,
                                      i: nat, k: nat) returns (c: nat, m: nat, h: nat)
    requires IsTrace(cfg, peers, trace, events) && PollsAt(trace, events, i) && i < k <= |events|
    requires forall j :: i < j < k ==> !PollsAt(trace, events, j)
    ensures Progress(cfg, peers, trace, events, i, k, c, m, h)
  {
    if k == i + 1 {
      c, m, h := 0, 0, 0;
      hide PollStep;
      assert trace[k] == Next(cfg, peers, trace[i], events[i]);
    } else {
      hide IsTrace, PollsAt, Progress;
      c, m, h := ProgressTo(cfg, peers, trace, events, i, k - 1);
      c, m, h := ProgressStep(cfg, peers, trace, events, i, k - 1, c, m, h);
    }
  }

  /** Between any two successive polls of any run the goroutine surveys the peers, commits what it
      found and then, unless it holds a proof, asks every peer for one, one after the other, or adopts
      one on the way. */
  lemma {:induction false} EachCycle(cfg: Config, peers: seq<Peer>, trace: seq<Core>, events: seq<Event>,
                                     i: nat, j: nat) returns (c: nat, m: nat, h: nat)
    requires IsTrace(cfg, peers, trace, events) && i < j && PollsAt(trace, events, i) && PollsAt(trace, events, j)
    requires forall k :: i < k < j ==> !PollsAt(trace, events, k)
    ensures Went(trace, events, i, c, m, h, j)
    ensures trace[h].proof.None? ==>
              AdoptedBetween(cfg, peers, trace, events, h, j)
              || forall n :: 0 <= n < |peers| ==> AskedBetween(trace, events, h, j, n)
  {
    hide IsTrace;
    c, m, h := ProgressTo(cfg, peers, trace, events, i, j);
    hide AdoptedBetween, AsksAt;
  }
}
