/** Flooding a proof through any finite graph of daemons: every push round happens at most once
    per daemon, and with no loss the flood leaves no informed daemon with an uninformed peer. */
module Gossip {
  import opened Basics
  import opened Witness
  import opened Evidence
  import opened Daemon

  /** A daemon; `links[k]` is the daemon that answers at the address of peer k. */
  datatype Node = Node(cfg: Config, peers: seq<Peer>, links: seq<nat>)

  /** Who holds which representative proof, what is on the wire, who pushed (in order), how
      many pushes were sent, and how many were delivered or lost. */
  datatype Net = Net(holds: seq<Option<Proof>>, flight: multiset<(nat, Proof)>, pushers: seq<nat>, sent: nat, done: nat)

  datatype Event =
    | Detect(i: nat, p: Proof)      // checkPeers assembles a proof
    | Deliver(i: nat, p: Proof)     // a push reaches the intake of i
    | Lose(i: nat, p: Proof)        // a push never arrives
    | Offer(i: nat, p: Proof)       // a proof pulled by i or posted to i by anybody

  ghost predicate WellFormed(nodes: seq<Node>, net: Net) {
    && |net.holds| == |nodes|
    && forall i :: 0 <= i < |nodes| ==> |nodes[i].links| == |nodes[i].peers| && InRange(nodes[i].links, |nodes|)
  }

  predicate InRange(links: seq<nat>, n: nat) {
    forall k :: 0 <= k < |links| ==> links[k] < n
  }

  function Pushes(links: seq<nat>, p: Proof): (m: multiset<(nat, Proof)>)
    ensures |m| == |links|
    ensures forall k :: k in links ==> (k, p) in m
    ensures forall msg :: msg in m ==> msg.1 == p
  {
    if links == [] then multiset{} else multiset{(links[0], p)} + Pushes(links[1..], p)
  }

  /** Taking p as representative and pushing it to every peer, once. */
  function Take(nodes: seq<Node>, net: Net, i: nat, p: Proof): Net
    requires i < |nodes| == |net.holds|
  {
    if net.holds[i].Some? then net
    else Net(net.holds[i := Some(p)], net.flight + Pushes(nodes[i].links, p), net.pushers + [i],
             net.sent + |nodes[i].links|, net.done)
  }

  function Adopt(nodes: seq<Node>, net: Net, i: nat, p: Proof): Net
    requires i < |nodes| == |net.holds|
  {
    if Adoptable(nodes[i].cfg, nodes[i].peers, p) then Take(nodes, net, i, p) else net
  }

  function Unsend(net: Net, i: nat, p: Proof): Net {
    net.(flight := net.flight - multiset{(i, p)}, done := net.done + 1)
  }

  ghost predicate Enabled(nodes: seq<Node>, net: Net, e: Event) {
    && e.i < |nodes|
    && match e
       case Detect(i, p) => Genuine(nodes[i].cfg, nodes[i].peers, p)
       case Deliver(i, p) => (i, p) in net.flight
       case Lose(i, p) => (i, p) in net.flight
       case Offer(_, _) => true
  }

  function Step(nodes: seq<Node>, net: Net, e: Event): Net
    requires |net.holds| == |nodes| && e.i < |nodes|
  {
    match e
    case Detect(i, p) => Take(nodes, net, i, p)
    case Deliver(i, p) => Adopt(nodes, Unsend(net, i, p), i, p)
    case Lose(i, p) => Unsend(net, i, p)
    case Offer(i, p) => Adopt(nodes, net, i, p)
  }

  function Start(nodes: seq<Node>): Net {
    Net(seq(|nodes|, _ => None), multiset{}, [], 0, 0)
  }

  /** nets is a run: it starts empty and every step is an enabled event. */
  ghost predicate IsRun(nodes: seq<Node>, nets: seq<Net>, events: seq<Event>) {
    && |nets| == |events| + 1 && nets[0] == Start(nodes)
    && forall k :: 0 <= k < |events| ==>
         WellFormed(nodes, nets[k]) && Enabled(nodes, nets[k], events[k]) &&
         nets[k + 1] == Step(nodes, nets[k], events[k])
  }

  /** The abstract step is what a daemon object does: it ends up holding what `Adopt` says and
      pushes exactly when `Adopt` lists it as a pusher. */
  method Receive(nodes: seq<Node>, net: Net, i: nat, d: WitnessDaemon, p: Proof) returns (push: Option<Proof>)
    requires i < |nodes| == |net.holds| && d.cfg == nodes[i].cfg && d.peers == nodes[i].peers
    requires d.Valid() && net.holds[i] == d.proof
    modifies d
    ensures d.Valid() && Adopt(nodes, net, i, p).holds[i] == d.proof
    ensures push.Some? <==> Adopt(nodes, net, i, p).pushers == net.pushers + [i]
    ensures push.Some? ==> Adopt(nodes, net, i, p).flight == net.flight + Pushes(nodes[i].links, push.value)
    ensures push.None? ==> Adopt(nodes, net, i, p) == net
  {
    hide Adoptable, Pushes;
    var ok;
    ok, push := d.TryAdopt(p);
  }

  /** Likewise for a detection: what a daemon object assembles at the end of its cross-check is
      genuine, and holding and pushing it is the abstract `Detect`. */
  method Assemble(nodes: seq<Node>, net: Net, i: nat, d: WitnessDaemon, found: Found) returns (push: Option<Proof>)
    requires i < |nodes| == |net.holds| && d.cfg == nodes[i].cfg && d.peers == nodes[i].peers
    requires d.Valid() && net.holds[i] == d.proof
    requires found.fork.Some? ==> found.alarm && Contradicts(d.cfg, d.peers, OurView(d.st.Value()), found.fork.value)
    modifies d
    ensures d.Valid()
    ensures push.Some? ==> Enabled(nodes, net, Detect(i, push.value))
    ensures push.Some? ==> var net' := Step(nodes, net, Detect(i, push.value));
                           && net'.holds[i] == d.proof && net'.pushers == net.pushers + [i]
                           && net'.flight == net.flight + Pushes(nodes[i].links, push.value)
    ensures push.None? ==> net.holds[i] == d.proof
  {
    hide Contradicts, Pushes, Genuine, OurView, Assembled, DistinctKeys;
    push := d.CommitCheck(found);
    if push.Some? { assert push.value in d.proofs; }
  }

  // ---- counting ----

  /** Peer edges leaving the first n daemons that satisfy `who`. */
  function EdgesOf(nodes: seq<Node>, holds: seq<Option<Proof>>, n: nat): nat
    requires n <= |nodes| == |holds|
  {
    if n == 0 then 0
    else EdgesOf(nodes, holds, n - 1) + (if holds[n - 1].Some? then |nodes[n - 1].links| else 0)
  }

  function Edges(nodes: seq<Node>): nat {
    if nodes == [] then 0 else Edges(Front(nodes)) + |Last(nodes).links|
  }

  lemma {:induction false} EdgesOfBounded(nodes: seq<Node>, holds: seq<Option<Proof>>, n: nat)
    requires n <= |nodes| == |holds|
    ensures EdgesOf(nodes, holds, n) <= Edges(nodes[..n])
  {
    if n > 0 {
      EdgesOfBounded(nodes, holds, n - 1);
      assert Front(nodes[..n]) == nodes[..n - 1];
    }
  }

  lemma {:induction false} EdgesOfTake(nodes: seq<Node>, holds: seq<Option<Proof>>, i: nat, p: Proof, n: nat)
    requires n <= |nodes| == |holds| && i < |nodes| && holds[i].None?
    ensures EdgesOf(nodes, holds[i := Some(p)], n) == EdgesOf(nodes, holds, n) + if i < n then |nodes[i].links| else 0
  {
    if n > 0 { EdgesOfTake(nodes, holds, i, p, n - 1); }
  }

  lemma {:induction false} EdgesOfNobody(nodes: seq<Node>, n: nat)
    requires n <= |nodes|
    ensures EdgesOf(nodes, Start(nodes).holds, n) == 0
  {
    if n > 0 { EdgesOfNobody(nodes, n - 1); }
  }

  /** Who has pushed is who holds a proof, each once; sent pushes are their edges and are all
      accounted for. */
  ghost predicate Accounted(nodes: seq<Node>, net: Net) {
    && WellFormed(nodes, net)
    && (forall a, b :: 0 <= a < b < |net.pushers| ==> net.pushers[a] != net.pushers[b])
    && (forall i: nat :: i in net.pushers <==> i < |nodes| && net.holds[i].Some?)
    && net.sent == EdgesOf(nodes, net.holds, |nodes|)
    && net.sent == net.done + |net.flight|
  }

  lemma TakeAccounted(nodes: seq<Node>, net: Net, i: nat, p: Proof)
    requires Accounted(nodes, net) && i < |nodes|
    ensures Accounted(nodes, Take(nodes, net, i, p))
  {
    if net.holds[i].None? {
      EdgesOfTake(nodes, net.holds, i, p, |nodes|);
      hide EdgesOf, InRange;
      var net' := Take(nodes, net, i, p);
      forall k: nat ensures k in net'.pushers <==> k < |nodes| && net'.holds[k].Some? {
        assert k in net'.pushers <==> k in net.pushers || k == i;
      }
    }
  }

  lemma StepAccounted(nodes: seq<Node>, net: Net, e: Event)
    requires Accounted(nodes, net) && Enabled(nodes, net, e)
    ensures Accounted(nodes, Step(nodes, net, e))
  {
    hide EdgesOf, InRange, Adoptable, Genuine, Take;
    match e {
      case Detect(i, p) => TakeAccounted(nodes, net, i, p);
      case Deliver(i, p) => TakeAccounted(nodes, Unsend(net, i, p), i, p);
      case Lose(i, p) =>
      case Offer(i, p) => TakeAccounted(nodes, net, i, p);
    }
  }

  lemma StartAccounted(nodes: seq<Node>)
    requires WellFormed(nodes, Start(nodes))
    ensures Accounted(nodes, Start(nodes))
  {
    EdgesOfNobody(nodes, |nodes|);
    hide InRange, EdgesOf;
  }

  lemma {:induction false} RunAccounted(nodes: seq<Node>, nets: seq<Net>, events: seq<Event>, k: nat)
    requires IsRun(nodes, nets, events) && k < |nets| && WellFormed(nodes, nets[0])
    ensures Accounted(nodes, nets[k])
  {
    hide Accounted, Enabled, Step;
    if k == 0 {
      StartAccounted(nodes);
    } else {
      RunAccounted(nodes, nets, events, k - 1);
      StepAccounted(nodes, nets[k - 1], events[k - 1]);
    }
  }

  /** In every run every daemon pushes at most one round, the pushes sent are exactly the peer
      edges leaving the holders and so at most all edges, and every push sent was delivered,
      lost, or is still on the wire. */
  lemma {:induction false} FloodIsBounded(nodes: seq<Node>, nets: seq<Net>, events: seq<Event>, k: nat)
    requires IsRun(nodes, nets, events) && k < |nets| && WellFormed(nodes, nets[0])
    ensures forall a, b :: 0 <= a < b < |nets[k].pushers| ==> nets[k].pushers[a] != nets[k].pushers[b]
    ensures |nets[k].holds| == |nodes| && nets[k].sent == EdgesOf(nodes, nets[k].holds, |nodes|) <= Edges(nodes)
    ensures nets[k].sent == nets[k].done + |nets[k].flight|
  {
    RunAccounted(nodes, nets, events, k);
    EdgesOfBounded(nodes, nets[k].holds, |nodes|);
    assert nodes[..|nodes|] == nodes;
  }

  // ---- closure ----

  /** The daemons of the mesh watch one log and resolve every name of `names` to the same key;
      about other names, and about who peers with whom, nothing is said. As start-up ensures, no
      daemon has two peers of one name; nor does one share its name under another key. */
  ghost predicate AlikeOn(nodes: seq<Node>, mesh: set<nat>, names: set<Bytes>) {
    && (forall i :: i in mesh ==> i < |nodes| && DistinctNames(nodes[i].peers))
    && (forall i, q :: i in mesh && q in nodes[i].peers && q.name == nodes[i].cfg.name ==> q.key == nodes[i].cfg.self)
    && (forall i, j :: i in mesh && j in mesh ==>
          nodes[i].cfg.verify == nodes[j].cfg.verify && nodes[i].cfg.origin == nodes[j].cfg.origin)
    && (forall i, j, name :: i in mesh && j in mesh && name in names ==>
          PinnedKey(nodes[i].cfg, nodes[i].peers, name) == PinnedKey(nodes[j].cfg, nodes[j].peers, name))
  }

  /** A caller can arrange that by configuration alone: it is enough that every daemon of the mesh
      was given the same key for every name of `names`, as its own or as a peer's. */
  lemma {:induction false} AlikeByConfiguration(nodes: seq<Node>, mesh: set<nat>, keys: map<Bytes, PubKey>)
    requires forall i :: i in mesh ==> i < |nodes| && DistinctNames(nodes[i].peers)
    requires forall i, q :: i in mesh && q in nodes[i].peers && q.name == nodes[i].cfg.name ==>
             q.key == nodes[i].cfg.self
    requires forall i, j :: i in mesh && j in mesh ==>
               nodes[i].cfg.verify == nodes[j].cfg.verify && nodes[i].cfg.origin == nodes[j].cfg.origin
    requires forall i, name :: i in mesh && name in keys ==> Configured(nodes[i].cfg, nodes[i].peers, name, keys[name])
    ensures AlikeOn(nodes, mesh, keys.Keys)
  {
    hide Configured, PinnedKey, DistinctNames;
    forall i, name | i in mesh && name in keys
      ensures PinnedKey(nodes[i].cfg, nodes[i].peers, name) == Some(keys[name])
    {
      PinsResolve(nodes[i].cfg, nodes[i].peers);
    }
  }

  /** The evidence names two witnesses of `names`. */
  ghost predicate NamedIn(names: set<Bytes>, p: Proof) {
    p.a.who in names && p.b.who in names
  }

  /** Whatever a daemon of the mesh finds convincing in these events names witnesses of `names`. */
  ghost predicate ForksNamed(nodes: seq<Node>, mesh: set<nat>, names: set<Bytes>, e: Event) {
    e.i in mesh && e.i < |nodes| && Adoptable(nodes[e.i].cfg, nodes[e.i].peers, e.p) ==> NamedIn(names, e.p)
  }

  ghost predicate AdoptableInMesh(nodes: seq<Node>, mesh: set<nat>, p: Proof) {
    forall i :: i in mesh && i < |nodes| ==> Adoptable(nodes[i].cfg, nodes[i].peers, p)
  }

  lemma OneAdoptsAllAdopt(nodes: seq<Node>, mesh: set<nat>, names: set<Bytes>, i: nat, p: Proof)
    requires AlikeOn(nodes, mesh, names) && i in mesh && i < |nodes| && NamedIn(names, p)
    requires Adoptable(nodes[i].cfg, nodes[i].peers, p)
    ensures AdoptableInMesh(nodes, mesh, p)
  {
    hide PinnedKey, VerifyEquivocation;
    forall j | j in mesh && j < |nodes| ensures Adoptable(nodes[j].cfg, nodes[j].peers, p) {
      assert PinnedKey(nodes[i].cfg, nodes[i].peers, p.a.who) == PinnedKey(nodes[j].cfg, nodes[j].peers, p.a.who);
      assert PinnedKey(nodes[i].cfg, nodes[i].peers, p.b.who) == PinnedKey(nodes[j].cfg, nodes[j].peers, p.b.who);
    }
  }

  lemma DetectedIsAdoptable(nodes: seq<Node>, mesh: set<nat>, names: set<Bytes>, i: nat, p: Proof)
    requires AlikeOn(nodes, mesh, names) && i in mesh && i < |nodes|
    requires Genuine(nodes[i].cfg, nodes[i].peers, p)
    ensures Adoptable(nodes[i].cfg, nodes[i].peers, p)
  {
    hide Genuine, Adoptable, PinnedKey;
    GenuineIsAdoptable(nodes[i].cfg, nodes[i].peers, p);
  }

  /** A push is under way to j that j will adopt. */
  ghost predicate OnItsWay(nodes: seq<Node>, net: Net, j: nat) {
    exists p :: (j, p) in net.flight && j < |nodes| && Adoptable(nodes[j].cfg, nodes[j].peers, p)
  }

  /** Within the mesh every peer of a holder holds evidence or has some on its way. */
  ghost predicate Flooding(nodes: seq<Node>, mesh: set<nat>, net: Net) {
    && WellFormed(nodes, net)
    && forall i, j :: i in mesh && i < |nodes| && net.holds[i].Some? && j in mesh && j in nodes[i].links ==>
         net.holds[j].Some? || OnItsWay(nodes, net, j)
  }

  lemma TakeFlooding(nodes: seq<Node>, mesh: set<nat>, net: Net, i: nat, p: Proof)
    requires Flooding(nodes, mesh, net) && i < |nodes| && (i in mesh ==> AdoptableInMesh(nodes, mesh, p))
    ensures Flooding(nodes, mesh, Take(nodes, net, i, p))
  {
    hide Adoptable;
    var net' := Take(nodes, net, i, p);
    forall a, j | a in mesh && a < |nodes| && net'.holds[a].Some? && j in mesh && j in nodes[a].links
      ensures net'.holds[j].Some? || OnItsWay(nodes, net', j)
    {
      if net.holds[i].None? {
        if a == i {
          assert (j, p) in net'.flight;
        } else if OnItsWay(nodes, net, j) {
          var q :| (j, q) in net.flight && Adoptable(nodes[j].cfg, nodes[j].peers, q);
          assert (j, q) in net'.flight;
        }
      }
    }
  }

  /** A push that will not be adopted may leave the wire: nothing anybody waits for is gone. */
  lemma UnsendFlooding(nodes: seq<Node>, mesh: set<nat>, net: Net, i: nat, p: Proof)
    requires Flooding(nodes, mesh, net) && i < |nodes|
    requires i in mesh ==> !Adoptable(nodes[i].cfg, nodes[i].peers, p) || net.holds[i].Some?
    ensures Flooding(nodes, mesh, Unsend(net, i, p))
  {
    hide Adoptable;
    var net' := Unsend(net, i, p);
    forall a, j | a in mesh && a < |nodes| && net'.holds[a].Some? && j in mesh && j in nodes[a].links
      ensures net'.holds[j].Some? || OnItsWay(nodes, net', j)
    {
      if net.holds[j].None? {
        var q :| (j, q) in net.flight && Adoptable(nodes[j].cfg, nodes[j].peers, q);
        assert (j, q) != (i, p);
        assert (j, q) in net'.flight;
      }
    }
  }

  lemma RemoveEarly(m: multiset<(nat, Proof)>, more: multiset<(nat, Proof)>, x: (nat, Proof))
    requires x in m
    ensures m - multiset{x} + more == m + more - multiset{x}
  {
  }

  /** Removing a delivered push and taking its proof can be seen in the other order. */
  lemma DeliverAsTake(nodes: seq<Node>, net: Net, i: nat, p: Proof)
    requires i < |nodes| == |net.holds| && (i, p) in net.flight
    ensures Take(nodes, Unsend(net, i, p), i, p) == Unsend(Take(nodes, net, i, p), i, p)
  {
    hide Pushes;
    RemoveEarly(net.flight, Pushes(nodes[i].links, p), (i, p));
  }

  lemma DeliverFlooding(nodes: seq<Node>, mesh: set<nat>, net: Net, i: nat, p: Proof)
    requires Flooding(nodes, mesh, net) && i < |nodes| && (i, p) in net.flight
    requires i in mesh && Adoptable(nodes[i].cfg, nodes[i].peers, p) ==> AdoptableInMesh(nodes, mesh, p)
    ensures Flooding(nodes, mesh, Step(nodes, net, Deliver(i, p)))
  {
    assert |net.holds| == |nodes|;
    hide Adoptable, AdoptableInMesh, Flooding, Pushes, Unsend;
    if Adoptable(nodes[i].cfg, nodes[i].peers, p) {
      TakeFlooding(nodes, mesh, net, i, p);
      DeliverAsTake(nodes, net, i, p);
      UnsendFlooding(nodes, mesh, Take(nodes, net, i, p), i, p);
    } else {
      UnsendFlooding(nodes, mesh, net, i, p);
    }
  }

  lemma StepFlooding(nodes: seq<Node>, mesh: set<nat>, names: set<Bytes>, net: Net, e: Event)
    requires AlikeOn(nodes, mesh, names) && Flooding(nodes, mesh, net) && Enabled(nodes, net, e)
    requires ForksNamed(nodes, mesh, names, e) && !(e.Lose? && e.i in mesh)
    ensures Flooding(nodes, mesh, Step(nodes, net, e))
  {
    hide AlikeOn, Adoptable, AdoptableInMesh, Genuine, Take, Flooding, Unsend;
    var (i, p) := (e.i, e.p);
    if i in mesh && e.Detect? { DetectedIsAdoptable(nodes, mesh, names, i, p); }
    if i in mesh && Adoptable(nodes[i].cfg, nodes[i].peers, p) { OneAdoptsAllAdopt(nodes, mesh, names, i, p); }
    match e {
      case Detect(_, _) => TakeFlooding(nodes, mesh, net, i, p);
      case Deliver(_, _) => DeliverFlooding(nodes, mesh, net, i, p);
      case Lose(_, _) => UnsendFlooding(nodes, mesh, net, i, p);
      case Offer(_, _) =>
        if Adoptable(nodes[i].cfg, nodes[i].peers, p) { TakeFlooding(nodes, mesh, net, i, p); }
    }
  }

  lemma StartFlooding(nodes: seq<Node>, mesh: set<nat>)
    requires WellFormed(nodes, Start(nodes))
    ensures Flooding(nodes, mesh, Start(nodes))
  {
    hide InRange;
  }

  /** In every run in which no push to the mesh is lost: within the mesh every peer of a holder
      holds evidence or has some on its way. The mesh need not be complete, daemons outside it may
      pin and do what they like, and so may whoever posts to it. */
  lemma {:induction false} RunFlooding(nodes: seq<Node>, mesh: set<nat>, names: set<Bytes>, nets: seq<Net>,
                                       events: seq<Event>, k: nat)
    requires AlikeOn(nodes, mesh, names) && IsRun(nodes, nets, events) && k < |nets| && WellFormed(nodes, nets[0])
    requires forall e :: e in events ==> ForksNamed(nodes, mesh, names, e) && !(e.Lose? && e.i in mesh)
    ensures Flooding(nodes, mesh, nets[k])
  {
    hide AlikeOn, Flooding, Enabled, Step, ForksNamed;
    if k == 0 {
      StartFlooding(nodes, mesh);
    } else {
      RunFlooding(nodes, mesh, names, nets, events, k - 1);
      assert events[k - 1] in events;
      StepFlooding(nodes, mesh, names, nets[k - 1], events[k - 1]);
    }
  }

  /** A path along peer edges within the mesh. */
  ghost predicate IsPath(nodes: seq<Node>, mesh: set<nat>, path: seq<nat>) {
    && path != [] && (forall k :: 0 <= k < |path| ==> path[k] < |nodes| && path[k] in mesh)
    && forall k :: 0 <= k < |path| - 1 ==> path[k + 1] in nodes[path[k]].links
  }

  lemma SettledEdge(nodes: seq<Node>, mesh: set<nat>, net: Net, i: nat, j: nat)
    requires Flooding(nodes, mesh, net) && forall msg :: msg in net.flight ==> msg.0 !in mesh
    requires i in mesh && i < |nodes| && net.holds[i].Some? && j in mesh && j in nodes[i].links
    ensures j < |nodes| && net.holds[j].Some?
  {
    hide Adoptable;
  }

  /** Once no push to the mesh is on the wire, every daemon reachable from a holder holds evidence. */
  lemma {:induction false} FloodReachesAll(nodes: seq<Node>, mesh: set<nat>, names: set<Bytes>, nets: seq<Net>,
                                           events: seq<Event>, k: nat, path: seq<nat>)
    requires AlikeOn(nodes, mesh, names) && IsRun(nodes, nets, events) && k < |nets| && WellFormed(nodes, nets[0])
    requires forall e :: e in events ==> ForksNamed(nodes, mesh, names, e) && !(e.Lose? && e.i in mesh)
    requires forall msg :: msg in nets[k].flight ==> msg.0 !in mesh
    requires IsPath(nodes, mesh, path)
    ensures |nets[k].holds| == |nodes| && (nets[k].holds[path[0]].Some? ==> nets[k].holds[Last(path)].Some?)
    decreases |path|
  {
    RunFlooding(nodes, mesh, names, nets, events, k);
    assert |nets[k].holds| == |nodes|;
    hide AlikeOn, IsRun, ForksNamed, Flooding;
    if |path| > 1 {
      var q := Front(path);
      FloodReachesAll(nodes, mesh, names, nets, events, k, q);
      assert Last(path) in nodes[Last(q)].links;
      if nets[k].holds[Last(q)].Some? { SettledEdge(nodes, mesh, nets[k], Last(q), Last(path)); }
    }
  }

  // ---- reconciliation ----

  function HeldBy(net: Net, i: nat): Option<Proof> {
    if i < |net.holds| then net.holds[i] else None
  }

  /** One request of a pull: the answer given at `asked`, if any came, is put to the own intake at `got`. */
  datatype Ask = Ask(asked: nat, got: nat, answer: Option<Proof>)

  predicate Convinces(node: Node, ask: Ask) {
    ask.answer.Some? && Adoptable(node.cfg, node.peers, ask.answer.value)
  }

  /** A pull of daemon i between a and b: unless it holds a proof at `start` it asks its peers in
      order, tries to adopt whatever comes back, and stops early only behind a proof it adopts. */
  ghost predicate IsPull(nodes: seq<Node>, nets: seq<Net>, events: seq<Event>, i: nat, a: nat, b: nat,
                         start: nat, asks: seq<Ask>)
    requires |nets| == |events| + 1 && i < |nodes|
  {
    && a <= start <= b <= |events|
    && if HeldBy(nets[start], i).Some? then asks == []
       else
         && |asks| <= |nodes[i].links|
         && (forall k :: 0 <= k < |asks| ==> start <= asks[k].asked <= asks[k].got <= b)
         && (forall k :: 0 <= k < |asks| - 1 ==> asks[k].got <= asks[k + 1].asked && !Convinces(nodes[i], asks[k]))
         && (forall k :: 0 <= k < |asks| && asks[k].answer.Some? ==>
               asks[k].got < b && events[asks[k].got] == Offer(i, asks[k].answer.value))
         && (|asks| == |nodes[i].links| || (asks != [] && Convinces(nodes[i], Last(asks))))
  }

  /** Peer k was asked, its answer arrived, and it is the proof it served at that moment, if any. */
  ghost predicate Answers(nodes: seq<Node>, nets: seq<Net>, i: nat, asks: seq<Ask>, k: nat)
    requires i < |nodes| && k < |asks|
  {
    k < |nodes[i].links| && asks[k].asked < |nets| &&
    asks[k].answer == HeldBy(nets[asks[k].asked], nodes[i].links[k])
  }

  /** Every daemon of the mesh holds only what the whole mesh adopts. */
  ghost predicate HoldsAdoptable(nodes: seq<Node>, mesh: set<nat>, net: Net) {
    forall i :: i in mesh && HeldBy(net, i).Some? ==> AdoptableInMesh(nodes, mesh, HeldBy(net, i).value)
  }

  lemma StepHoldsAdoptable(nodes: seq<Node>, mesh: set<nat>, names: set<Bytes>, net: Net, e: Event)
    requires AlikeOn(nodes, mesh, names) && HoldsAdoptable(nodes, mesh, net) && WellFormed(nodes, net)
    requires Enabled(nodes, net, e) && ForksNamed(nodes, mesh, names, e)
    ensures HoldsAdoptable(nodes, mesh, Step(nodes, net, e))
  {
    hide AlikeOn, Adoptable, AdoptableInMesh, Genuine, Pushes, InRange;
    var (i, p) := (e.i, e.p);
    if i in mesh && e.Detect? { DetectedIsAdoptable(nodes, mesh, names, i, p); }
    if i in mesh && Adoptable(nodes[i].cfg, nodes[i].peers, p) { OneAdoptsAllAdopt(nodes, mesh, names, i, p); }
  }

  lemma {:induction false} RunHoldsAdoptable(nodes: seq<Node>, mesh: set<nat>, names: set<Bytes>, nets: seq<Net>,
                                             events: seq<Event>, k: nat)
    requires AlikeOn(nodes, mesh, names) && IsRun(nodes, nets, events) && k < |nets|
    requires forall e :: e in events ==> ForksNamed(nodes, mesh, names, e)
    ensures HoldsAdoptable(nodes, mesh, nets[k])
  {
    hide AlikeOn, AdoptableInMesh, Enabled, Step, ForksNamed;
    if k > 0 {
      hide HoldsAdoptable;
      RunHoldsAdoptable(nodes, mesh, names, nets, events, k - 1);
      assert events[k - 1] in events;
      StepHoldsAdoptable(nodes, mesh, names, nets[k - 1], events[k - 1]);
    }
  }

  lemma AtStep(nodes: seq<Node>, nets: seq<Net>, events: seq<Event>, k: nat)
    requires IsRun(nodes, nets, events) && k + 1 < |nets|
    ensures k < |events| && WellFormed(nodes, nets[k]) && Enabled(nodes, nets[k], events[k])
    ensures nets[k + 1] == Step(nodes, nets[k], events[k])
  {
    hide WellFormed, Enabled, Step;
    assert Enabled(nodes, nets[k], events[k]);
  }

  lemma HoldsStep(nodes: seq<Node>, net: Net, e: Event, i: nat)
    requires WellFormed(nodes, net) && Enabled(nodes, net, e) && HeldBy(net, i).Some?
    ensures HeldBy(Step(nodes, net, e), i) == HeldBy(net, i)
  {
    hide Adoptable, Genuine, Pushes, InRange;
  }

  lemma {:induction false} HoldsStay(nodes: seq<Node>, nets: seq<Net>, events: seq<Event>, i: nat, s: nat, t: nat)
    requires IsRun(nodes, nets, events) && s <= t < |nets| && HeldBy(nets[s], i).Some?
    ensures HeldBy(nets[t], i) == HeldBy(nets[s], i)
    decreases t - s
  {
    hide *;
    if s < t {
      HoldsStay(nodes, nets, events, i, s, t - 1);
      AtStep(nodes, nets, events, t - 1);
      HoldsStep(nodes, nets[t - 1], events[t - 1], i);
    }
  }

  lemma OfferLands(nodes: seq<Node>, net: Net, i: nat, p: Proof)
    requires |net.holds| == |nodes| && i < |nodes| && Adoptable(nodes[i].cfg, nodes[i].peers, p)
    ensures HeldBy(Step(nodes, net, Offer(i, p)), i).Some?
  {
    hide Adoptable, Pushes;
  }

  /** An offered proof that i adopts leaves i holding one from then on. */
  lemma OfferStays(nodes: seq<Node>, nets: seq<Net>, events: seq<Event>, i: nat, p: Proof, s: nat, t: nat)
    requires IsRun(nodes, nets, events) && s < t < |nets| && events[s] == Offer(i, p) && i < |nodes|
    requires Adoptable(nodes[i].cfg, nodes[i].peers, p)
    ensures HeldBy(nets[t], i).Some?
  {
    AtStep(nodes, nets, events, s);
    OfferLands(nodes, nets[s], i, p);
    hide Adoptable, IsRun, WellFormed, Enabled, Step, HeldBy;
    HoldsStay(nodes, nets, events, i, s + 1, t);
  }

  /** However many pushes are lost: a daemon of the mesh that completes one pull holds evidence at
      its end if any peer of the mesh that held some at its beginning answered when it was asked. */
  lemma PullCatchesUp(nodes: seq<Node>, mesh: set<nat>, names: set<Bytes>, nets: seq<Net>, events: seq<Event>,
                      i: nat, c: nat, a: nat, b: nat, start: nat, asks: seq<Ask>)
    requires AlikeOn(nodes, mesh, names) && IsRun(nodes, nets, events)
    requires forall e :: e in events ==> ForksNamed(nodes, mesh, names, e)
    requires i in mesh && i < |nodes| && IsPull(nodes, nets, events, i, a, b, start, asks)
    requires c < |nodes[i].links| && nodes[i].links[c] in mesh && HeldBy(nets[a], nodes[i].links[c]).Some?
    requires c < |asks| ==> Answers(nodes, nets, i, asks, c)
    ensures HeldBy(nets[b], i).Some?
  {
    assert b < |nets|;
    hide AlikeOn, IsRun, Adoptable, ForksNamed;
    if HeldBy(nets[start], i).Some? {
      HoldsStay(nodes, nets, events, i, start, b);
    } else if c < |asks| {
      var (j, t) := (nodes[i].links[c], asks[c].asked);
      HoldsStay(nodes, nets, events, j, a, t);
      RunHoldsAdoptable(nodes, mesh, names, nets, events, t);
      OfferStays(nodes, nets, events, i, asks[c].answer.value, asks[c].got, b);
    } else {
      OfferStays(nodes, nets, events, i, Last(asks).answer.value, Last(asks).got, b);
    }
  }

  /** Between a and b every daemon of the mesh completes a pull that its peers in the mesh answer. */
  ghost predicate Round(nodes: seq<Node>, mesh: set<nat>, nets: seq<Net>, events: seq<Event>, a: nat, b: nat)
    requires |nets| == |events| + 1
  {
    forall i :: i in mesh && i < |nodes| ==>
      exists start, asks :: IsPull(nodes, nets, events, i, a, b, start, asks) &&
                            forall c :: 0 <= c < |asks| && c < |nodes[i].links| && nodes[i].links[c] in mesh ==>
                              Answers(nodes, nets, i, asks, c)
  }

  /** With every push lost, evidence still travels one peer edge a round: after as many rounds as
      the path is long, its first daemon holds evidence if its last one did before them. */
  lemma {:induction false} RoundsReachAll(nodes: seq<Node>, mesh: set<nat>, names: set<Bytes>, nets: seq<Net>,
                                          events: seq<Event>, times: seq<nat>, path: seq<nat>)
    requires AlikeOn(nodes, mesh, names) && IsRun(nodes, nets, events)
    requires forall e :: e in events ==> ForksNamed(nodes, mesh, names, e)
    requires IsPath(nodes, mesh, path) && |times| == |path| && forall k :: 0 <= k < |times| ==> times[k] <= |events|
    requires forall k :: 0 <= k < |times| - 1 ==> Round(nodes, mesh, nets, events, times[k], times[k + 1])
    requires HeldBy(nets[times[0]], Last(path)).Some?
    ensures HeldBy(nets[Last(times)], path[0]).Some?
    decreases |path|
  {
    hide AlikeOn, Adoptable, ForksNamed, Answers;
    if |path| > 1 {
      var i, a, b := path[0], times[|path| - 2], times[|path| - 1];
      RoundsReachAll(nodes, mesh, names, nets, events, Front(times), path[1..]);
      assert Round(nodes, mesh, nets, events, a, b);
      var start, asks :| IsPull(nodes, nets, events, i, a, b, start, asks) &&
        forall c :: 0 <= c < |asks| && c < |nodes[i].links| && nodes[i].links[c] in mesh ==>
          Answers(nodes, nets, i, asks, c);
      var c :| 0 <= c < |nodes[i].links| && nodes[i].links[c] == path[1];
      PullCatchesUp(nodes, mesh, names, nets, events, i, c, a, b, start, asks);
    }
  }
}
