/** k-of-n verification: independent roots vote by verifying for one nonce, and must agree on
    the event class. */
module Quorum {
  import opened Basics
  import opened Text
  import opened Payload
  import opened Bundles

  datatype Rules = Rules(verify: Verify, nonce: Bytes, roots: seq<Prover>, threshold: int, lastCounter: nat)

  datatype EventClass = AlarmTone | Voice | NoEvent

  function EventName(p: Predicate): EventClass {
    if p.eventId == 2 then AlarmTone else if p.eventId == 1 then Voice else NoEvent
  }

  datatype QuorumResult = NoQuorum | Reached(event: EventClass, names: set<Bytes>)

  datatype Vote = Vote(key: PubKey, p: Predicate)

  /** The first enrolled root with this key. */
  function RootOf(roots: seq<Prover>, key: PubKey): (r: Option<Prover>)
    ensures r.Some? ==> r.value in roots && r.value.key == key
    ensures r.None? ==> forall w :: w in roots ==> w.key != key
  {
    if roots == [] then None
    else if roots[0].key == key then Some(roots[0])
    else RootOf(roots[1..], key)
  }

  lemma HexKeyExactly(xHex: Bytes, yHex: Bytes)
    ensures forall key: PubKey :: HexKey(xHex, yHex) == Some(key) <==>
                                    HexDec(xHex) == Some(key.x) && HexDec(yHex) == Some(key.y)
    ensures HexKey(xHex, yHex).None? <==> HexDec(xHex).None? || HexDec(yHex).None?
  {
    hide HexDec;
  }

  method MatchKeyHex(xHex: Bytes, yHex: Bytes, roots: seq<Prover>) returns (r: Option<Prover>)
    ensures r == match HexKey(xHex, yHex) case None => None case Some(key) => RootOf(roots, key)
    ensures r.None? <==> forall w :: w in roots ==> HexDec(xHex) != Some(w.key.x) || HexDec(yHex) != Some(w.key.y)
    ensures r.Some? ==>
              && HexDec(xHex) == Some(r.value.key.x) && HexDec(yHex) == Some(r.value.key.y)
              && exists i :: 0 <= i < |roots| && roots[i] == r.value
                             && forall j :: 0 <= j < i ==> roots[j].key != r.value.key
  {
    HexKeyExactly(xHex, yHex);
    hide HexKey, HexDec;
    var key := HexKey(xHex, yHex);
    if key.None? { return None; }
    var i := 0;
    assert roots[0..] == roots;
    while i < |roots|
      invariant 0 <= i <= |roots| && forall j :: 0 <= j < i ==> roots[j].key != key.value
      invariant RootOf(roots, key.value) == RootOf(roots[i..], key.value)
    {
      assert roots[i..][1..] == roots[i + 1..];
      if roots[i].key == key.value { return Some(roots[i]); }
      i := i + 1;
    }
    return None;
  }

  function Gates(rules: Rules): Options {
    Options(rules.nonce, rules.lastCounter, None)
  }

  /** The vote a bundle casts: under the name of its key's first root. */
  function VoteOf(rules: Rules, b: Bundle): Option<(Bytes, Vote)> {
    match HexKey(b.pubXHex, b.pubYHex)
    case None => None
    case Some(key) =>
      match RootOf(rules.roots, key)
      case None => None
      case Some(root) =>
        match VerifyBundle(rules.verify, b, Some(key), Gates(rules))
        case Refused => None
        case Passed(p) => Some((root.name, Vote(key, p)))
  }

  /** One vote per name: the first bundle that passes. */
  function Tally(rules: Rules, bundles: seq<Bundle>): map<Bytes, Vote> {
    if bundles == [] then map[]
    else
      var t := Tally(rules, Front(bundles));
      match VoteOf(rules, Last(bundles))
      case None => t
      case Some((name, v)) => if name in t then t else t[name := v]
  }

  predicate Unanimous(t: map<Bytes, Vote>) {
    forall m, n :: m in t && n in t ==> EventName(t[m].p) == EventName(t[n].p)
  }

  method CountVotes(rules: Rules, bundles: seq<Bundle>) returns (passed: map<Bytes, Vote>)
    ensures passed == Tally(rules, bundles)
  {
    hide VerifyBundle, HexKey, RootOf;
    passed := map[];
    var i := 0;
    while i < |bundles|
      invariant 0 <= i <= |bundles|
      invariant passed == Tally(rules, bundles[..i])
    {
      var b := bundles[i];
      assert Front(bundles[..i + 1]) == bundles[..i];
      var root := MatchKeyHex(b.pubXHex, b.pubYHex, rules.roots);
      if root.Some? && root.value.name !in passed {
        KeyOfRoot(b, rules.roots);
        var res := VerifyBundle(rules.verify, b, Some(root.value.key), Gates(rules));
        if res.Passed? {
          passed := passed[root.value.name := Vote(root.value.key, res.p)];
        }
      }
      i := i + 1;
    }
    assert bundles[..|bundles|] == bundles;
  }

  lemma KeyOfRoot(b: Bundle, roots: seq<Prover>)
    requires HexKey(b.pubXHex, b.pubYHex).Some? && RootOf(roots, HexKey(b.pubXHex, b.pubYHex).value).Some?
    ensures RootOf(roots, HexKey(b.pubXHex, b.pubYHex).value).value.key == HexKey(b.pubXHex, b.pubYHex).value
  {
    hide HexKey;
  }

  lemma ClassesApart(t: map<Bytes, Vote>)
    ensures forall n :: n in t ==> (EventName(t[n].p) == AlarmTone <==> t[n].p.eventId == 2)
    ensures forall n :: n in t ==> (EventName(t[n].p) == Voice <==> t[n].p.eventId == 1)
    ensures forall n :: n in t ==> (EventName(t[n].p) == NoEvent <==> t[n].p.eventId !in {1, 2})
  {
  }

  /** quorumCore: the verdict on the tally. */
  method QuorumCore(rules: Rules, bundles: seq<Bundle>) returns (res: QuorumResult)
    ensures var t := Tally(rules, bundles);
            && (res.Reached? <==> 0 < rules.threshold <= |rules.roots| && |t| >= rules.threshold && Unanimous(t))
            && (res.Reached? ==> res.names == t.Keys && forall n :: n in t ==> EventName(t[n].p) == res.event)
    ensures var t := Tally(rules, bundles);
            var enough := 0 < rules.threshold <= |rules.roots| && |t| >= rules.threshold;
            && (res == Reached(AlarmTone, t.Keys) <==> enough && forall n :: n in t ==> t[n].p.eventId == 2)
            && (res == Reached(Voice, t.Keys) <==> enough && forall n :: n in t ==> t[n].p.eventId == 1)
            && (res == Reached(NoEvent, t.Keys) <==> enough && forall n :: n in t ==> t[n].p.eventId !in {1, 2})
    ensures var t := Tally(rules, bundles);
            (exists m, n :: m in t && n in t && t[m].p.eventId in {1, 2} && t[n].p.eventId != t[m].p.eventId) ==>
              res == NoQuorum
  {
    ClassesApart(Tally(rules, bundles));
    hide Tally, EventName;
    if rules.threshold <= 0 || rules.threshold > |rules.roots| { return NoQuorum; }
    var passed := CountVotes(rules, bundles);
    if |passed| < rules.threshold { return NoQuorum; }
    var names := passed.Keys;
    assert names != {};
    var first :| first in names;
    var event := EventName(passed[first].p);
    var todo := names;
    while todo != {}
      invariant todo <= names
      invariant forall n :: n in names - todo ==> EventName(passed[n].p) == event
      decreases |todo|
    {
      var name :| name in todo;
      if EventName(passed[name].p) != event { return NoQuorum; }
      todo := todo - {name};
    }
    return Reached(event, names);
  }

  // ---- what a reached quorum means ----

  /** Some bundle under this enrolled key verifies for the nonce and reports this event. */
  ghost predicate Vouches(rules: Rules, bundles: seq<Bundle>, key: PubKey, event: EventClass) {
    exists b :: b in bundles && HexKey(b.pubXHex, b.pubYHex) == Some(key) && Enrolled(rules.roots, key)
             && VerifyBundle(rules.verify, b, Some(key), Gates(rules)).Passed?
             && EventName(VerifyBundle(rules.verify, b, Some(key), Gates(rules)).p) == event
  }

  ghost predicate Enrolled(roots: seq<Prover>, key: PubKey) {
    exists w :: w in roots && w.key == key
  }

  function VotingKeys(t: map<Bytes, Vote>): set<PubKey> {
    KeysOf(t, t.Keys)
  }

  /** Every vote was cast by a bundle, under the first root of its key, and no earlier bundle casts
      a vote under that name. */
  lemma {:induction false} TallySound(rules: Rules, bundles: seq<Bundle>, name: Bytes)
    requires name in Tally(rules, bundles)
    ensures exists i :: 0 <= i < |bundles| && VoteOf(rules, bundles[i]) == Some((name, Tally(rules, bundles)[name]))
              && forall j :: 0 <= j < i ==> !VotesAs(rules, bundles[j], name)
  {
    hide VoteOf;
    var front := Front(bundles);
    if name in Tally(rules, front) {
      TallySound(rules, front, name);
      var i :| 0 <= i < |front| && VoteOf(rules, front[i]) == Some((name, Tally(rules, front)[name]))
            && forall j :: 0 <= j < i ==> !VotesAs(rules, front[j], name);
      assert bundles[i] == front[i] && forall j :: 0 <= j < i ==> bundles[j] == front[j];
    } else {
      forall j | 0 <= j < |front| ensures !VotesAs(rules, bundles[j], name) {
        if VotesAs(rules, bundles[j], name) { TallyComplete(rules, front, front[j]); }
      }
      assert VoteOf(rules, bundles[|bundles| - 1]) == Some((name, Tally(rules, bundles)[name]));
    }
  }

  ghost predicate VotesAs(rules: Rules, b: Bundle, name: Bytes) {
    VoteOf(rules, b).Some? && VoteOf(rules, b).value.0 == name
  }

  /** Every bundle that casts a vote is represented by its name. */
  lemma {:induction false} TallyComplete(rules: Rules, bundles: seq<Bundle>, b: Bundle)
    requires b in bundles && VoteOf(rules, b).Some?
    ensures VoteOf(rules, b).value.0 in Tally(rules, bundles)
  {
    hide VoteOf;
    if b != Last(bundles) {
      assert b in Front(bundles);
      TallyComplete(rules, Front(bundles), b);
    }
  }

  lemma VoteFacts(rules: Rules, b: Bundle)
    requires VoteOf(rules, b).Some?
    ensures var (name, v) := VoteOf(rules, b).value;
            && HexKey(b.pubXHex, b.pubYHex) == Some(v.key) && Enrolled(rules.roots, v.key)
            && RootOf(rules.roots, v.key).Some? && RootOf(rules.roots, v.key).value.name == name
            && VerifyBundle(rules.verify, b, Some(v.key), Gates(rules)) == Passed(v.p)
  {
    hide HexKey, VerifyBundle;
  }

  lemma KeyHasOneName(rules: Rules, bundles: seq<Bundle>, m: Bytes, n: Bytes)
    requires m in Tally(rules, bundles) && n in Tally(rules, bundles)
    requires Tally(rules, bundles)[m].key == Tally(rules, bundles)[n].key
    ensures m == n
  {
    hide VoteOf, Tally, RootOf;
    TallySound(rules, bundles, m);
    TallySound(rules, bundles, n);
    var t := Tally(rules, bundles);
    var i :| 0 <= i < |bundles| && VoteOf(rules, bundles[i]) == Some((m, t[m]));
    var j :| 0 <= j < |bundles| && VoteOf(rules, bundles[j]) == Some((n, t[n]));
    VoteFacts(rules, bundles[i]);
    VoteFacts(rules, bundles[j]);
  }

  function KeysOf(t: map<Bytes, Vote>, names: set<Bytes>): set<PubKey>
    requires names <= t.Keys
  {
    set n | n in names :: t[n].key
  }

  lemma {:induction false} OneKeyPerName(t: map<Bytes, Vote>, names: set<Bytes>)
    requires names <= t.Keys
    requires forall m, n :: m in names && n in names && t[m].key == t[n].key ==> m == n
    ensures |KeysOf(t, names)| == |names|
    decreases |names|
  {
    if names != {} {
      var n :| n in names;
      OneKeyPerName(t, names - {n});
      assert KeysOf(t, names) == KeysOf(t, names - {n}) + {t[n].key};
    }
  }

  /** A reached quorum means that at least threshold pairwise distinct enrolled keys, even when
      the enrolment repeats a key under several names or a name for several keys, each verified
      a bundle for this nonce and reported this one event class. */
  lemma {:induction false} QuorumCounts(rules: Rules, bundles: seq<Bundle>, event: EventClass)
    requires |Tally(rules, bundles)| >= rules.threshold
    requires forall n :: n in Tally(rules, bundles) ==> EventName(Tally(rules, bundles)[n].p) == event
    ensures |VotingKeys(Tally(rules, bundles))| >= rules.threshold
    ensures forall key :: key in VotingKeys(Tally(rules, bundles)) ==> Vouches(rules, bundles, key, event)
  {
    hide Tally, VoteOf, RootOf, HexKey, VerifyBundle, Enrolled, EventName;
    var t := Tally(rules, bundles);
    forall m, n | m in t && n in t && t[m].key == t[n].key ensures m == n {
      KeyHasOneName(rules, bundles, m, n);
    }
    OneKeyPerName(t, t.Keys);
    assert |t.Keys| == |t|;
    forall key | key in VotingKeys(t) ensures Vouches(rules, bundles, key, event) {
      var n :| n in t && t[n].key == key;
      TallySound(rules, bundles, n);
      var i :| 0 <= i < |bundles| && VoteOf(rules, bundles[i]) == Some((n, t[n]));
      VoteFacts(rules, bundles[i]);
    }
  }

  /** ... and, for a device key, that the device measured that event for this nonce. */
  lemma {:induction false} VouchIsMeasured(rules: Rules, bundles: seq<Bundle>, key: PubKey, event: EventClass,
                                           measured: set<Predicate>)
    requires Vouches(rules, bundles, key, event) && DeviceKey(rules.verify, key, measured)
    ensures exists p :: p in measured &&
                        p.nonce == rules.nonce && p.counter > rules.lastCounter && EventName(p) == event
  {
    hide DeviceKey, VerifyBundle, HexKey, EventName, Enrolled;
    var b :| b in bundles && HexKey(b.pubXHex, b.pubYHex) == Some(key) && Enrolled(rules.roots, key)
          && VerifyBundle(rules.verify, b, Some(key), Gates(rules)).Passed?
          && EventName(VerifyBundle(rules.verify, b, Some(key), Gates(rules)).p) == event;
    AcceptedWasMeasured(rules.verify, b, key, Gates(rules), measured);
  }

  ghost predicate NamesAreUnique(roots: seq<Prover>) {
    forall v, w :: v in roots && w in roots && v.name == w.name ==> v.key == w.key
  }

  /** With one key per name nothing is lost either: the voting keys are exactly the enrolled
      keys under which some bundle verifies. */
  lemma {:induction false} EveryKeyCounts(rules: Rules, bundles: seq<Bundle>, b: Bundle, key: PubKey)
    requires NamesAreUnique(rules.roots) && b in bundles && HexKey(b.pubXHex, b.pubYHex) == Some(key)
    requires Enrolled(rules.roots, key) && VerifyBundle(rules.verify, b, Some(key), Gates(rules)).Passed?
    ensures key in VotingKeys(Tally(rules, bundles))
  {
    CastsVote(rules, b, key);
    hide Tally, VoteOf, HexKey, VerifyBundle, RootOf, Enrolled;
    TallyComplete(rules, bundles, b);
    var (n, v) := VoteOf(rules, b).value;
    VoteFacts(rules, b);
    TallySound(rules, bundles, n);
    var t := Tally(rules, bundles);
    var i :| 0 <= i < |bundles| && VoteOf(rules, bundles[i]) == Some((n, t[n]));
    VoteFacts(rules, bundles[i]);
    RootHasKey(rules.roots, key);
    RootHasKey(rules.roots, t[n].key);
  }

  lemma CastsVote(rules: Rules, b: Bundle, key: PubKey)
    requires HexKey(b.pubXHex, b.pubYHex) == Some(key)
    requires Enrolled(rules.roots, key) && VerifyBundle(rules.verify, b, Some(key), Gates(rules)).Passed?
    ensures VoteOf(rules, b).Some?
  {
    hide HexKey, VerifyBundle;
  }

  lemma RootHasKey(roots: seq<Prover>, key: PubKey)
    ensures RootOf(roots, key).Some? ==> RootOf(roots, key).value in roots && RootOf(roots, key).value.key == key
  {
  }
}
