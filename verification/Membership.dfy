/**
 One node's membership layer: each handler and loop body states the new view by the
 functions on views, and what it hands to the network.

 Time is an input, read once per call; message ids and the shuffle of peers are unspecified.
 */
module Membership {
  import opened Options
  import opened Payloads
  import opened Lists
  import opened Gossip
  import opened PeerViews
  import opened Quorum
  import LeaseConvergence

  /** Missing keys are empty strings, a missing timestamp or hop count is 0. */
  datatype Body =
    | Heartbeat(sender: Key, profile: Profile, tasksHeld: seq<string>, duration: real, knownPeers: set<Key>)
    | Suspicion(origin: Option<Key>, suspect: Key, timestamp: real)
    | NodeJoin(sender: Key, profile: Profile)
    | Unknown

  datatype Message = Message(msgId: string, hops: int, body: Body)

  datatype Sent = Sent(to: Key, message: Message)

  function SentTo(targets: seq<Key>, message: Message): (r: seq<Sent>)
    ensures |r| == |targets|
    ensures forall i :: 0 <= i < |r| ==> r[i] == Sent(targets[i], message)
  {
    seq(|targets|, i requires 0 <= i < |targets| => Sent(targets[i], message))
  }

  function NotDead(peers: map<Key, PeerInfo>): set<Key> {
    set p | p in peers && !peers[p].status.Dead?
  }

  /** The message went to the targets of one shuffle of the peers not held dead. */
  ghost predicate Fanned(before: seq<Sent>, after: seq<Sent>, message: Message, peers: map<Key, PeerInfo>, mesh: set<Key>) {
    exists targets, listing ::
      IsListing(listing, NotDead(peers)) && Chosen(targets, listing, mesh) && after == before + SentTo(targets, message)
  }

  /** A fresh suspicion in the node's own name was fanned out. */
  ghost predicate Accused(before: seq<Sent>, after: seq<Sent>, me: Key, suspect: Key, at: real, peers: map<Key, PeerInfo>, mesh: set<Key>) {
    exists id :: Fanned(before, after, Message(id, HOPS, Suspicion(Some(me), suspect, at)), peers, mesh)
  }

  ghost predicate AccusedAll(before: seq<Sent>, after: seq<Sent>, me: Key, suspects: seq<Key>, at: real,
                             peers: map<Key, PeerInfo>, mesh: set<Key>)
    decreases |suspects|
  {
    if |suspects| == 0 then after == before
    else exists middle ::
      AccusedAll(before, middle, me, Front(suspects), at, peers, mesh) && Accused(middle, after, me, Final(suspects), at, peers, mesh)
  }

  /** One direct join message to each of these. */
  ghost predicate Greeted(before: seq<Sent>, after: seq<Sent>, me: Key, profile: Profile, keys: seq<Key>) {
    && |after| == |before| + |keys|
    && after[..|before|] == before
    && forall i :: 0 <= i < |keys| ==> Greeting(after[|before| + i], me, profile, keys[i])
  }

  predicate Greeting(s: Sent, me: Key, profile: Profile, key: Key) {
    s.to == key && s.message.hops == 1 && s.message.body == NodeJoin(me, profile)
  }

  /** The view after a message the node has not seen before. */
  function Handled(v: View, me: Key, from: Key, body: Body, now: real): View {
    match body
    case Heartbeat(sender, profile, held, duration, known) => Heard(v, me, sender, profile, held, duration, known, now)
    case Suspicion(origin, suspect, timestamp) => Reported(v, me, suspect, Reporter(origin, from), timestamp)
    case NodeJoin(sender, profile) => Joined(v, me, sender, profile, now)
    case Unknown => v
  }

  /** A suspicion without an originator counts for the peer that delivered it. */
  function Reporter(origin: Option<Key>, from: Key): Key {
    if origin.Some? then origin.value else from
  }

  /** Whether the node has a message of this body passed on. */
  predicate RelayDue(v: View, me: Key, body: Body) {
    match body
    case Heartbeat(sender, _, _, _, _) => sender != "" && sender != me
    case Suspicion(_, suspect, timestamp) => Heeded(v, me, suspect, timestamp)
    case NodeJoin(sender, _) => sender != "" && sender != me
    case Unknown => false
  }

  /** Passing on changes the hop count only, so a relayed suspicion names its originator. */
  ghost predicate Relayed(before: seq<Sent>, after: seq<Sent>, due: bool, message: Message, peers: map<Key, PeerInfo>, mesh: set<Key>) {
    if due && message.hops - 1 > 0
    then Fanned(before, after, message.(hops := message.hops - 1), peers, mesh)
    else after == before
  }

  /** The messages as the dying-out argument sees them. */
  function Packets(sent: seq<Sent>): (r: seq<Packet>)
    ensures |r| == |sent|
    ensures forall i :: 0 <= i < |r| ==> r[i] == Packet(sent[i].to, sent[i].message.hops)
  {
    seq(|sent|, i requires 0 <= i < |sent| => Packet(sent[i].to, sent[i].message.hops))
  }

  /** A message fanned out is at most three packets of its hop count. */
  lemma FanoutIsPackets(before: seq<Sent>, after: seq<Sent>, message: Message, peers: map<Key, PeerInfo>, mesh: set<Key>)
    requires Fanned(before, after, message, peers, mesh)
    ensures |before| <= |after| && after[..|before|] == before
    ensures var out := Packets(after[|before|..]);
      |out| <= FANOUT && forall p :: p in out ==> p.hops == message.hops
  {
    var targets, listing :|
      IsListing(listing, NotDead(peers)) && Chosen(targets, listing, mesh) && after == before + SentTo(targets, message);
    assert after[|before|..] == SentTo(targets, message);
  }

  /** What a handler passes on is what the dying-out argument allows. */
  lemma HandlerForwards(before: seq<Sent>, after: seq<Sent>, due: bool, message: Message, me: Key, peers: map<Key, PeerInfo>, mesh: set<Key>)
    requires Relayed(before, after, due, message, peers, mesh)
    ensures |before| <= |after| && after[..|before|] == before
    ensures Forwards(Packet(me, message.hops), Packets(after[|before|..]))
  {
    if due && message.hops - 1 > 0 {
      FanoutIsPackets(before, after, message.(hops := message.hops - 1), peers, mesh);
    }
  }

  predicate IsDead(v: View, p: Key) { p in v.peers && v.peers[p].status.Dead? }

  /** The peer on which the death callback is run, if a suspicion turned it dead. */
  function Killed(v: View, v': View, body: Body): seq<Key> {
    if body.Suspicion? && IsDead(v', body.suspect) && !IsDead(v, body.suspect) then [body.suspect] else []
  }

  /** The part of a view that lease agreement looks at. */
  function LeaseOf(peers: map<Key, PeerInfo>, duration: real, threshold: real): LeaseConvergence.Lease {
    LeaseConvergence.Lease(duration, threshold,
                           map p | p in peers :: LeaseConvergence.Peer(peers[p].leaseDuration, peers[p].status.Dead?))
  }

  ghost predicate ConsensusOf(peers: map<Key, PeerInfo>, duration: real, threshold: real, consensus: real) {
    LeaseConvergence.IsConsensus(LeaseOf(peers, duration, threshold), consensus)
  }

  predicate Reports(peer: PeerInfo) { !peer.status.Dead? && peer.leaseDuration.Some? }

  ghost predicate ReportedBySome(peers: map<Key, PeerInfo>, duration: real) {
    exists p :: p in peers && Reports(peers[p]) && peers[p].leaseDuration == Some(duration)
  }

  /** Each silent peer was reported once. */
  ghost predicate SilenceReported(before: seq<Sent>, after: seq<Sent>, me: Key, silent: set<Key>, at: real,
                                  peers: map<Key, PeerInfo>, mesh: set<Key>) {
    exists suspects :: IsListing(suspects, silent) && AccusedAll(before, after, me, suspects, at, peers, mesh)
  }

  ghost predicate NewcomersGreeted(before: seq<Sent>, after: seq<Sent>, me: Key, profile: Profile, newcomers: set<Key>) {
    exists keys :: IsListing(keys, newcomers) && Greeted(before, after, me, profile, keys)
  }

  // What goes out, message by message.

  /** The peers that became suspects. */
  function NewSuspects(before: map<Key, PeerInfo>, after: map<Key, PeerInfo>): set<Key> {
    set p | p in before && p in after && before[p].status == Alive && after[p].status == Suspected
  }

  lemma DroppedAreNewSuspects(v: View, previous: set<Key>, connected: set<Key>, me: Key, now: real, suspectAfter: real)
    ensures var v' := Synced(v, previous, connected, me, now, suspectAfter);
      && NewSuspects(v.peers, v'.peers) == Dropped(v, previous, connected, me, now, suspectAfter)
      && forall p :: p in NewSuspects(v.peers, v'.peers) ==> p in v'.peers && v'.peers[p].status != Dead
  {}

  /** What was sent between the two are reports in the node's own name on each of these, and nothing else. */
  ghost predicate Told(before: seq<Sent>, after: seq<Sent>, me: Key, blamed: set<Key>, at: real) {
    && before <= after
    && (forall i :: |before| <= i < |after| ==> IsReportOnOneOf(after[i].message, me, blamed, at))
    && (forall p :: p in blamed ==> exists i :: |before| <= i < |after| && after[i].message.body == Suspicion(Some(me), p, at))
  }

  predicate IsReportOnOneOf(m: Message, me: Key, blamed: set<Key>, at: real) {
    m.hops == HOPS && m.body.Suspicion? && m.body.suspect in blamed && m.body == Suspicion(Some(me), m.body.suspect, at)
  }

  /** A message fanned out goes to somebody, unless every peer is held dead, and to three at most. */
  lemma FannedTells(before: seq<Sent>, after: seq<Sent>, message: Message, peers: map<Key, PeerInfo>, mesh: set<Key>)
    requires Fanned(before, after, message, peers, mesh)
    ensures before <= after && |after| <= |before| + 3
    ensures forall i :: |before| <= i < |after| ==> (after[i].message == message && after[i].to in peers && peers[after[i].to].status != Dead)
    ensures |after| > |before| <==> exists p :: p in peers && peers[p].status != Dead
  {
    var targets, listing :|
      IsListing(listing, NotDead(peers)) && Chosen(targets, listing, mesh) && after == before + SentTo(targets, message);
    assert forall i :: 0 <= i < |targets| ==> targets[i] in targets;
    if p :| p in peers && peers[p].status != Dead {
      assert p in NotDead(peers) && p in listing;
    }
    if |listing| > 0 {
      assert listing[0] in listing;
    }
  }

  lemma {:induction false} AccusedAllTells(before: seq<Sent>, after: seq<Sent>, me: Key, suspects: seq<Key>, at: real,
                                           peers: map<Key, PeerInfo>, mesh: set<Key>)
    requires AccusedAll(before, after, me, suspects, at, peers, mesh)
    requires exists p :: p in peers && peers[p].status != Dead
    ensures Told(before, after, me, (set p | p in suspects), at)
    decreases |suspects|
  {
    hide Fanned;
    if |suspects| > 0 {
      var middle :| AccusedAll(before, middle, me, Front(suspects), at, peers, mesh) && Accused(middle, after, me, Final(suspects), at, peers, mesh);
      AccusedAllTells(before, middle, me, Front(suspects), at, peers, mesh);
      var id :| Fanned(middle, after, Message(id, HOPS, Suspicion(Some(me), Final(suspects), at)), peers, mesh);
      FannedTells(middle, after, Message(id, HOPS, Suspicion(Some(me), Final(suspects), at)), peers, mesh);
      TellsMore(before, middle, after, me, Front(suspects), Final(suspects), at, id);
      assert suspects == Front(suspects) + [Final(suspects)];
    }
  }

  lemma TellsMore(before: seq<Sent>, middle: seq<Sent>, after: seq<Sent>, me: Key, first: seq<Key>, last: Key, at: real, id: string)
    requires Told(before, middle, me, (set p | p in first), at)
    requires middle <= after && |after| > |middle|
    requires forall i :: |middle| <= i < |after| ==> after[i].message == Message(id, HOPS, Suspicion(Some(me), last, at))
    ensures Told(before, after, me, (set p | p in first + [last]), at)
  {
    forall i | |before| <= i < |after|
      ensures IsReportOnOneOf(after[i].message, me, (set p | p in first + [last]), at)
    {
      if i < |middle| {
        assert after[i] == middle[i];
      }
    }
    forall p | p in first + [last]
      ensures exists i :: |before| <= i < |after| && after[i].message.body == Suspicion(Some(me), p, at)
    {
      if p in first {
        var i :| |before| <= i < |middle| && middle[i].message.body == Suspicion(Some(me), p, at);
        assert after[i] == middle[i];
      } else {
        assert after[|middle|].message.body == Suspicion(Some(me), p, at);
      }
    }
  }

  /** Reporting the silent peers sends reports on all of them and nothing else. */
  lemma SuspectsAreTold(before: seq<Sent>, after: seq<Sent>, me: Key, silent: set<Key>, at: real, peers: map<Key, PeerInfo>, mesh: set<Key>)
    requires SilenceReported(before, after, me, silent, at, peers, mesh)
    requires forall p :: p in silent ==> p in peers && peers[p].status != Dead
    ensures Told(before, after, me, silent, at)
  {
    var suspects :| IsListing(suspects, silent) && AccusedAll(before, after, me, suspects, at, peers, mesh);
    assert silent == set p | p in suspects;
    if |suspects| > 0 {
      assert suspects[0] in suspects;
      AccusedAllTells(before, after, me, suspects, at, peers, mesh);
    }
  }

  /** What was sent are greetings to the newcomers and reports on the suspects, at least one for each. */
  ghost predicate GreetedAndTold(before: seq<Sent>, after: seq<Sent>, me: Key, profile: Profile, newcomers: set<Key>, blamed: set<Key>, at: real) {
    && before <= after
    && (forall i :: |before| <= i < |after| ==>
          (after[i].to in newcomers && after[i].message.hops == 1 && after[i].message.body == NodeJoin(me, profile)) || IsReportOnOneOf(after[i].message, me, blamed, at))
    && (forall p :: p in newcomers ==> exists i :: |before| <= i < |after| && after[i].to == p && after[i].message.body == NodeJoin(me, profile))
    && (forall p :: p in blamed ==> exists i :: |before| <= i < |after| && after[i].message.body == Suspicion(Some(me), p, at))
  }

  lemma GreetedThenTold(before: seq<Sent>, middle: seq<Sent>, after: seq<Sent>, me: Key, profile: Profile, keys: seq<Key>, blamed: set<Key>, at: real)
    requires Greeted(before, middle, me, profile, keys) && Told(middle, after, me, blamed, at)
    ensures GreetedAndTold(before, after, me, profile, (set k | k in keys), blamed, at)
  {
    forall i | |before| <= i < |after|
      ensures (after[i].to in keys && after[i].message.hops == 1 && after[i].message.body == NodeJoin(me, profile)) || IsReportOnOneOf(after[i].message, me, blamed, at)
    {
      if i < |middle| {
        var j := i - |before|;
        assert after[i] == middle[|before| + j] && Greeting(middle[|before| + j], me, profile, keys[j]);
      }
    }
    forall p | p in keys
      ensures exists i :: |before| <= i < |after| && after[i].to == p && after[i].message.body == NodeJoin(me, profile)
    {
      var j :| 0 <= j < |keys| && keys[j] == p;
      assert after[|before| + j] == middle[|before| + j] && Greeting(middle[|before| + j], me, profile, keys[j]);
      assert after[|before| + j].to == p;
    }
    forall p | p in blamed
      ensures exists i :: |before| <= i < |after| && after[i].message.body == Suspicion(Some(me), p, at)
    {
      var i :| |middle| <= i < |after| && after[i].message.body == Suspicion(Some(me), p, at);
    }
  }

  /** A suspicion heard again, through whatever relay and with whatever clock, changes nothing: its originator counts once. */
  lemma EchoesCountOnce(v: View, me: Key, origin: Key, suspect: Key, timestamp: real, first: Key, second: Key, t1: real, t2: real)
    requires Sound(v, me)
    ensures var body := Suspicion(Some(origin), suspect, timestamp);
      Handled(Handled(v, me, first, body, t1), me, second, body, t2) == Handled(v, me, first, body, t1)
  {
    var once := Reported(v, me, suspect, origin, timestamp);
    if Heeded(v, me, suspect, timestamp) {
      assert Reporters(once, suspect) + {origin} == Reporters(once, suspect);
      assert once.suspicions[suspect := Reporters(once, suspect)] == once.suspicions;
    }
  }

  /** News to be passed on: what another node says of itself, or a report on another node no older than its last sign of life. */
  predicate IsNews(v: View, me: Key, body: Body) {
    match body
    case Heartbeat(sender, _, _, _, _) => sender !in {"", me}
    case NodeJoin(sender, _) => sender !in {"", me}
    case Suspicion(_, suspect, timestamp) =>
      suspect !in {"", me} && (suspect in v.peers ==> v.peers[suspect].lastSeen <= timestamp)
    case Unknown => false
  }

  /**
   A handler passes a message on exactly when it is news, hops remain and some peer is not held
   dead; what it sends is the message itself with one hop less, to three peers at most.
   */
  lemma PassedOnExactly(v: View, me: Key, before: seq<Sent>, after: seq<Sent>, message: Message, peers: map<Key, PeerInfo>, mesh: set<Key>)
    requires Relayed(before, after, RelayDue(v, me, message.body), message, peers, mesh)
    ensures before <= after && |after| <= |before| + 3
    ensures |after| > |before| <==>
      IsNews(v, me, message.body) && message.hops > 1 && exists p :: p in peers && peers[p].status != Dead
    ensures forall i :: |before| <= i < |after| ==> (
      after[i].message == Message(message.msgId, message.hops - 1, message.body)
      && after[i].to in peers && peers[after[i].to].status != Dead)
  {
    hide Fanned;
    if IsNews(v, me, message.body) && message.hops > 1 {
      FannedTells(before, after, message.(hops := message.hops - 1), peers, mesh);
    }
  }

  class MembershipLayer {
    const ourKey: Key
    const clusterSize: int
    const suspectAfter: real
    var ourProfile: Profile
    var ourLeaseDuration: real
    var peers: map<Key, PeerInfo>
    var suspicions: map<Key, set<Key>>
    var seenIds: seq<string>
    var axlConnected: set<Key>
    var prevAxlConnected: set<Key>
    var outbox: seq<Sent>
    var confirmedDead: seq<Key>

    constructor (key: Key, size: int, limit: real, profile: Profile, duration: real)
      ensures ourKey == key && clusterSize == size && suspectAfter == limit
      ensures ourProfile == profile && ourLeaseDuration == duration
      ensures Here() == View(map[], map[]) && Sound(Here(), ourKey)
      ensures seenIds == [] && axlConnected == {} && prevAxlConnected == {} && outbox == [] && confirmedDead == []
    {
      ourKey, clusterSize, suspectAfter := key, size, limit;
      ourProfile, ourLeaseDuration := profile, duration;
      peers, suspicions, seenIds := map[], map[], [];
      axlConnected, prevAxlConnected := {}, {};
      outbox, confirmedDead := [], [];
    }

    function Here(): View
      reads this
    {
      View(peers, suspicions)
    }

    method AddPeer(key: Key, now: real)
      modifies this`peers
      ensures peers == Discovered(old(peers), {key}, ourKey, now)
    {
      if key != ourKey && key !in peers {
        peers := peers[key := NewPeer(now)];
      }
    }

    method GetAlivePeers() returns (alive: seq<Key>)
      ensures IsListing(alive, NotDead(peers))
      ensures forall p :: p in alive <==> p in peers && peers[p].status != Dead
    {
      alive := [];
      var todo := peers.Keys;
      while todo != {}
        invariant todo <= peers.Keys
        invariant IsListing(alive, NotDead(peers) - todo)
      {
        var key :| key in todo;
        todo := todo - {key};
        if peers[key].status != Dead {
          alive := alive + [key];
        }
      }
    }

    method CountStatus(status: PeerStatus) returns (count: nat)
      ensures count == |WithStatus(peers, status)|
    {
      count := 0;
      var todo := peers.Keys;
      ghost var counted: seq<Key> := [];
      while todo != {}
        invariant todo <= peers.Keys
        invariant IsListing(counted, WithStatus(peers, status) - todo) && count == |counted|
      {
        var key :| key in todo;
        todo := todo - {key};
        if peers[key].status == status {
          count := count + 1;
          counted := counted + [key];
        }
      }
      CountDistinct(counted, WithStatus(peers, status));
    }

    method GetEffectiveClusterSize() returns (size: int)
      ensures size == EffectiveSize(peers, clusterSize)
    {
      if clusterSize > 0 {
        return clusterSize;
      }
      size := |peers| + 1;
    }

    method HasQuorumNow() returns (ok: bool)
      ensures ok <==> HasQuorum(peers, clusterSize)
    {
      var alive := CountStatus(Alive);
      var dead := CountStatus(Dead);
      var cluster := GetEffectiveClusterSize();
      if cluster <= 1 {
        return true;
      }
      var effectiveSize := cluster - dead;
      ok := (alive + 1) as real > effectiveSize as real / 2.0;
    }

    method GetPeerForShard(shardId: int) returns (key: Option<Key>)
      ensures key.Some? ==> key.value in peers && peers[key.value].shardId == Some(shardId) && peers[key.value].status.Alive?
      ensures key.None? ==> forall p :: p in peers ==> !(peers[p].shardId == Some(shardId) && peers[p].status.Alive?)
    {
      var todo := peers.Keys;
      while todo != {}
        invariant todo <= peers.Keys
        invariant forall p :: p in peers && p !in todo ==> !(peers[p].shardId == Some(shardId) && peers[p].status.Alive?)
      {
        var p :| p in todo;
        todo := todo - {p};
        if peers[p].shardId == Some(shardId) && peers[p].status == Alive {
          return Some(p);
        }
      }
      key := None;
    }

    method GetConsensusLeaseDuration() returns (consensus: real)
      ensures forall threshold :: ConsensusOf(peers, ourLeaseDuration, threshold, consensus)
      ensures consensus <= ourLeaseDuration
      ensures forall p :: p in peers && peers[p].status != Dead && peers[p].leaseDuration.Some? ==> consensus <= peers[p].leaseDuration.value
      ensures consensus == ourLeaseDuration
        || exists p :: p in peers && peers[p].status != Dead && peers[p].leaseDuration == Some(consensus)
    {
      consensus := ourLeaseDuration;
      var todo := peers.Keys;
      while todo != {}
        invariant todo <= peers.Keys && consensus <= ourLeaseDuration
        invariant forall p :: p in peers.Keys - todo && Reports(peers[p]) ==> consensus <= peers[p].leaseDuration.value
        invariant consensus == ourLeaseDuration || ReportedBySome(peers, consensus)
      {
        var p :| p in todo;
        todo := todo - {p};
        if Reports(peers[p]) && peers[p].leaseDuration.value < consensus {
          consensus := peers[p].leaseDuration.value;
        }
      }
      forall threshold
        ensures ConsensusOf(peers, ourLeaseDuration, threshold, consensus)
      {
        SmallestIsConsensus(peers, ourLeaseDuration, threshold, consensus);
      }
    }

    /** Some permutation of the keys. */
    method Shuffle(keys: seq<Key>) returns (shuffled: seq<Key>)
      ensures multiset(shuffled) == multiset(keys)
    {
      shuffled := keys;
    }

    /** Some message id. */
    method NewId() returns (id: string)
    {
      id := "id";
    }

    method Fanout(message: Message)
      modifies this`outbox
      ensures Fanned(old(outbox), outbox, message, peers, axlConnected)
    {
      var alive := GetAlivePeers();
      var shuffled := Shuffle(alive);
      TargetsChosen(alive, shuffled, axlConnected);
      var targets := Targets(shuffled, axlConnected);
      outbox := outbox + SentTo(targets, message);
    }

    method GossipSuspicion(suspect: Key, now: real)
      modifies this`outbox
      ensures Accused(old(outbox), outbox, ourKey, suspect, now, peers, axlConnected)
    {
      var id := NewId();
      Fanout(Message(id, HOPS, Suspicion(Some(ourKey), suspect, now)));
    }

    method GossipSuspicions(suspects: seq<Key>, now: real)
      modifies this`outbox
      ensures AccusedAll(old(outbox), outbox, ourKey, suspects, now, peers, axlConnected)
    {
      for i := 0 to |suspects|
        invariant AccusedAll(old(outbox), outbox, ourKey, suspects[..i], now, peers, axlConnected)
      {
        ghost var middle := outbox;
        GossipSuspicion(suspects[i], now);
        assert Front(suspects[..i + 1]) == suspects[..i];
      }
      assert suspects[..|suspects|] == suspects;
    }

    /** The locked part of the method below it. */
    method SuspectSilent(now: real) returns (suspected: seq<Key>)
      modifies this`peers
      ensures peers == Suspecting(old(peers), Silent(old(peers), now, suspectAfter))
      ensures IsListing(suspected, Silent(old(peers), now, suspectAfter))
    {
      suspected := [];
      var todo := peers.Keys;
      ghost var silent := Silent(peers, now, suspectAfter);
      while todo != {}
        invariant todo <= old(peers).Keys == peers.Keys
        invariant forall p :: p in todo ==> peers[p] == old(peers)[p]
        invariant peers == Suspecting(old(peers), silent - todo)
        invariant IsListing(suspected, silent - todo)
      {
        var key :| key in todo;
        todo := todo - {key};
        assert silent - todo == silent - todo - {key} + if key in silent then {key} else {};
        if peers[key].status == Dead {
          continue;
        }
        if now - peers[key].lastSeen > suspectAfter && peers[key].status == Alive {
          ListingGrows(suspected, silent - todo - {key}, key);
          peers := peers[key := peers[key].(status := Suspected)];
          suspected := suspected + [key];
        }
      }
      assert silent - todo == silent;
    }

    /** One round of the failure detector. */
    method DetectFailures(now: real)
      modifies this`peers, this`outbox
      ensures Here() == Swept(old(Here()), now, suspectAfter)
      ensures SilenceReported(old(outbox), outbox, ourKey, Silent(old(peers), now, suspectAfter), now, peers, axlConnected)
      ensures peers.Keys == old(peers).Keys
      ensures forall p :: p in peers ==> (
        peers[p] == if old(peers)[p].status == Alive && now - old(peers)[p].lastSeen > suspectAfter
                    then old(peers)[p].(status := Suspected) else old(peers)[p])
      ensures var blamed := NewSuspects(old(peers), peers);
        Told(old(outbox), outbox, ourKey, blamed, now)
    {
      var suspected := SuspectSilent(now);
      ghost var silent := Silent(old(peers), now, suspectAfter);
      assert NewSuspects(old(peers), peers) == silent;
      GossipSuspicions(suspected, now);
      SuspectsAreTold(old(outbox), outbox, ourKey, silent, now, peers, axlConnected);
    }

    method SendJoinTo(key: Key, hops: int)
      modifies this`outbox
      ensures |outbox| == |old(outbox)| + 1 && outbox[..|old(outbox)|] == old(outbox)
      ensures hops == 1 ==> Greeting(outbox[|old(outbox)|], ourKey, ourProfile, key)
    {
      var id := NewId();
      outbox := outbox + [Sent(key, Message(id, hops, NodeJoin(ourKey, ourProfile)))];
    }

    /** The keys seen in the mesh for the first time become peers. */
    method Discover(connected: set<Key>, now: real) returns (discovered: seq<Key>)
      modifies this`peers
      ensures peers == Discovered(old(peers), connected, ourKey, now)
      ensures IsListing(discovered, connected - {ourKey} - old(peers).Keys)
    {
      discovered := [];
      var todo := connected;
      ghost var newcomers := connected - {ourKey} - peers.Keys;
      while todo != {}
        invariant todo <= connected
        invariant peers == Discovered(old(peers), connected - todo, ourKey, now)
        invariant IsListing(discovered, newcomers - todo)
      {
        var key :| key in todo;
        todo := todo - {key};
        if key != ourKey && key !in peers {
          ListingGrows(discovered, newcomers - todo - {key}, key);
          peers := peers[key := NewPeer(now)];
          discovered := discovered + [key];
        }
        assert newcomers - todo == newcomers - todo - {key} + if key in newcomers then {key} else {};
      }
      assert connected - todo == connected && newcomers - todo == newcomers;
    }

    /** The peers that left the mesh and are silent for half the limit become suspects. */
    method SuspectDropped(dropped: set<Key>, now: real) returns (suspected: seq<Key>)
      modifies this`peers
      ensures peers == Suspecting(old(peers), dropped * Silent(old(peers), now, suspectAfter / 2.0))
      ensures IsListing(suspected, dropped * Silent(old(peers), now, suspectAfter / 2.0))
    {
      suspected := [];
      var todo := dropped;
      ghost var silent := dropped * Silent(peers, now, suspectAfter / 2.0);
      while todo != {}
        invariant todo <= dropped && peers.Keys == old(peers).Keys
        invariant forall p :: p in todo && p in peers ==> peers[p] == old(peers)[p]
        invariant peers == Suspecting(old(peers), silent - todo)
        invariant IsListing(suspected, silent - todo)
      {
        var key :| key in todo;
        todo := todo - {key};
        assert silent - todo == silent - todo - {key} + if key in silent then {key} else {};
        if key !in peers || peers[key].status != Alive {
          continue;
        }
        if now - peers[key].lastSeen > suspectAfter / 2.0 {
          ListingGrows(suspected, silent - todo - {key}, key);
          peers := peers[key := peers[key].(status := Suspected)];
          suspected := suspected + [key];
        }
      }
      assert silent - todo == silent;
    }

    method Greet(keys: seq<Key>)
      modifies this`outbox
      ensures Greeted(old(outbox), outbox, ourKey, ourProfile, keys)
    {
      for i := 0 to |keys|
        invariant Greeted(old(outbox), outbox, ourKey, ourProfile, keys[..i])
      {
        SendJoinTo(keys[i], 1);
      }
      assert keys[..|keys|] == keys;
    }

    /** Newcomers were greeted first, then the suspects reported. */
    ghost predicate SyncSent(before: seq<Sent>, after: seq<Sent>, newcomers: set<Key>, suspects: set<Key>, now: real)
      reads this
    {
      exists middle ::
        NewcomersGreeted(before, middle, ourKey, ourProfile, newcomers)
        && SilenceReported(middle, after, ourKey, suspects, now, peers, axlConnected)
    }

    /** The part of the method below it without the lock. */
    method SpreadWord(discovered: seq<Key>, suspected: seq<Key>, ghost newcomers: set<Key>, ghost suspects: set<Key>, now: real)
      requires IsListing(discovered, newcomers) && IsListing(suspected, suspects)
      requires forall p :: p in suspects ==> p in peers && peers[p].status != Dead
      modifies this`outbox
      ensures SyncSent(old(outbox), outbox, newcomers, suspects, now)
      ensures GreetedAndTold(old(outbox), outbox, ourKey, ourProfile, newcomers, suspects, now)
    {
      assert newcomers == set k | k in discovered;
      Greet(discovered);
      ghost var middle := outbox;
      GossipSuspicions(suspected, now);
      assert SilenceReported(middle, outbox, ourKey, suspects, now, peers, axlConnected);
      SuspectsAreTold(middle, outbox, ourKey, suspects, now, peers, axlConnected);
      GreetedThenTold(old(outbox), middle, outbox, ourKey, ourProfile, discovered, suspects, now);
    }

    /** The locked part of the method below it. */
    method NoteMesh(connected: set<Key>, now: real) returns (discovered: seq<Key>, suspected: seq<Key>)
      modifies this`peers, this`axlConnected, this`prevAxlConnected
      ensures Here() == Synced(old(Here()), old(prevAxlConnected), connected, ourKey, now, suspectAfter)
      ensures axlConnected == connected && prevAxlConnected == connected
      ensures IsListing(discovered, connected - {ourKey} - old(peers).Keys)
      ensures IsListing(suspected, Dropped(old(Here()), old(prevAxlConnected), connected, ourKey, now, suspectAfter))
    {
      var prevConnected := prevAxlConnected;
      prevAxlConnected := connected;
      axlConnected := connected;
      discovered := Discover(connected, now);
      suspected := SuspectDropped(prevConnected - connected, now);
    }

    method AxlSync(connected: set<Key>, now: real)
      modifies this`peers, this`outbox, this`axlConnected, this`prevAxlConnected
      ensures Here() == Synced(old(Here()), old(prevAxlConnected), connected, ourKey, now, suspectAfter)
      ensures axlConnected == connected && prevAxlConnected == connected
      ensures SyncSent(old(outbox), outbox, connected - {ourKey} - old(peers).Keys,
                       Dropped(old(Here()), old(prevAxlConnected), connected, ourKey, now, suspectAfter), now)
      ensures peers.Keys == old(peers).Keys + (connected - {ourKey})
      ensures forall p :: p in old(peers) ==> (
        peers[p] == if p in old(prevAxlConnected) && p !in connected && old(peers)[p].status == Alive
                       && now - old(peers)[p].lastSeen > suspectAfter / 2.0
                    then old(peers)[p].(status := Suspected) else old(peers)[p])
      ensures forall p :: p in peers && p !in old(peers) ==> peers[p] == NewPeer(now)
      ensures GreetedAndTold(old(outbox), outbox, ourKey, ourProfile, peers.Keys - old(peers).Keys, NewSuspects(old(peers), peers), now)
    {
      var discovered, suspected := NoteMesh(connected, now);
      ghost var newcomers := connected - {ourKey} - old(peers).Keys;
      ghost var suspects := Dropped(old(Here()), old(prevAxlConnected), connected, ourKey, now, suspectAfter);
      SyncExactly(old(Here()), old(prevAxlConnected), connected, ourKey, now, suspectAfter);
      DroppedAreNewSuspects(old(Here()), old(prevAxlConnected), connected, ourKey, now, suspectAfter);
      hide Synced, Dropped;
      assert Here().peers == peers && old(Here()).peers == old(peers);
      assert peers.Keys - old(peers).Keys == newcomers;
      SpreadWord(discovered, suspected, newcomers, suspects, now);
    }

    /** The fields that heartbeats and joins have in common. */
    method NoteProfile(sender: Key, profile: Profile, now: real)
      requires sender in peers
      modifies this`peers
      ensures peers == old(peers)[sender := Announced(old(peers)[sender], profile, now)]
    {
      var peer := peers[sender].(lastSeen := now);
      if profile.shardId.Some? {
        peer := peer.(shardId := profile.shardId);
      }
      if profile.encPubkey != "" {
        peer := peer.(encPubkey := Some(profile.encPubkey));
      }
      if profile.capabilities.Some? {
        peer := peer.(capabilities := profile.capabilities.value);
      }
      if profile.price.Some? {
        peer := peer.(price := profile.price.value);
      }
      peers := peers[sender := peer];
    }

    method Revive(sender: Key)
      requires sender in peers
      modifies this`peers, this`suspicions
      ensures Here() == Revived(old(Here()), sender)
    {
      if peers[sender].status != Alive {
        peers := peers[sender := peers[sender].(status := Alive)];
        suspicions := suspicions - {sender};
      }
    }

    method OnNodeJoin(message: Message, now: real)
      requires message.body.NodeJoin?
      modifies this`peers, this`suspicions, this`outbox
      ensures Here() == Handled(old(Here()), ourKey, "", message.body, now)
      ensures Relayed(old(outbox), outbox, RelayDue(old(Here()), ourKey, message.body), message, peers, axlConnected)
    {
      hide Announced, Revived, NewPeer;
      var sender := message.body.sender;
      if sender == "" || sender == ourKey {
        return;
      }
      if sender !in peers {
        peers := peers[sender := NewPeer(now)];
      }
      NoteProfile(sender, message.body.profile, now);
      ghost var known := if sender in old(peers) then old(peers)[sender] else NewPeer(now);
      assert peers == old(peers)[sender := Announced(known, message.body.profile, now)];
      Revive(sender);
      PassOn(message);
    }

    method PassOn(message: Message)
      modifies this`outbox
      ensures Relayed(old(outbox), outbox, true, message, peers, axlConnected)
    {
      var hops := message.hops - 1;
      if hops > 0 {
        Fanout(message.(hops := hops));
      }
    }

    method NoteHeartbeat(sender: Key, tasksHeld: seq<string>, duration: real)
      requires sender in peers
      modifies this`peers
      ensures peers == old(peers)[sender := Beaten(old(peers)[sender], tasksHeld, duration)]
    {
      var peer := peers[sender].(tasksHeld := tasksHeld);
      if duration != 0.0 {
        peer := peer.(leaseDuration := Some(duration));
      }
      peers := peers[sender := peer];
    }

    method OnHeartbeat(message: Message, now: real)
      requires message.body.Heartbeat?
      modifies this`peers, this`suspicions, this`outbox
      ensures Here() == Handled(old(Here()), ourKey, "", message.body, now)
      ensures Relayed(old(outbox), outbox, RelayDue(old(Here()), ourKey, message.body), message, peers, axlConnected)
    {
      hide Announced, Beaten, Revived, NewPeer, Discovered;
      var sender := message.body.sender;
      if sender == "" || sender == ourKey {
        return;
      }
      if sender !in peers {
        peers := peers[sender := NewPeer(now)];
      }
      NoteProfile(sender, message.body.profile, now);
      NoteHeartbeat(sender, message.body.tasksHeld, message.body.duration);
      ghost var known := if sender in old(peers) then old(peers)[sender] else NewPeer(now);
      assert peers == old(peers)[sender :=
          Beaten(Announced(known, message.body.profile, now), message.body.tasksHeld, message.body.duration)];
      Revive(sender);
      var absorbed := Discover(message.body.knownPeers, now);
      PassOn(message);
    }

    /** The locked part of the method below it: whether the report was heeded, and whether it killed. */
    method NoteReport(suspect: Key, reporter: Key, timestamp: real) returns (heeded: bool, confirmedDead: bool)
      modifies this`peers, this`suspicions
      ensures Here() == Reported(old(Here()), ourKey, suspect, reporter, timestamp)
      ensures heeded == Heeded(old(Here()), ourKey, suspect, timestamp)
      ensures confirmedDead == (IsDead(Here(), suspect) && !IsDead(old(Here()), suspect))
      ensures forall p :: p in peers && p != suspect ==> p in old(peers) && peers[p] == old(peers)[p]
    {
      if suspect == "" || suspect == ourKey {
        return false, false;
      }
      if suspect in peers && peers[suspect].lastSeen > timestamp {
        return false, false;
      }
      var reporters := (if suspect in suspicions then suspicions[suspect] else {}) + {reporter};
      suspicions := suspicions[suspect := reporters];
      heeded, confirmedDead := true, false;
      if suspect in peers && peers[suspect].status != Dead && |reporters| >= DEAD_REPORTS_NEEDED {
        peers := peers[suspect := peers[suspect].(status := Dead)];
        confirmedDead := true;
      }
    }

    method OnSuspicion(from: Key, message: Message)
      requires message.body.Suspicion?
      modifies this`peers, this`suspicions, this`outbox, this`confirmedDead
      ensures forall now :: Here() == Handled(old(Here()), ourKey, from, message.body, now)
      ensures Relayed(old(outbox), outbox, RelayDue(old(Here()), ourKey, message.body), message, peers, axlConnected)
      ensures confirmedDead == old(confirmedDead) + Killed(old(Here()), Here(), message.body)
      ensures forall p :: p in peers && peers[p].status == Dead && !(p in old(peers) && old(peers)[p].status == Dead) ==> (
        confirmedDead == old(confirmedDead) + [p])
      ensures (forall p :: p in peers && peers[p].status == Dead ==> p in old(peers) && old(peers)[p].status == Dead)
        ==> confirmedDead == old(confirmedDead)
      ensures IsNews(old(Here()), ourKey, message.body) ==> suspicions == old(suspicions)[message.body.suspect :=
        Reporters(old(Here()), message.body.suspect) + {if message.body.origin.Some? then message.body.origin.value else from}]
    {
      hide Reported, Heeded;
      var body := message.body;
      ReportExactly(Here(), ourKey, body.suspect, Reporter(body.origin, from), body.timestamp);
      var heeded, dead := NoteReport(body.suspect, Reporter(body.origin, from), body.timestamp);
      if dead {
        confirmedDead := confirmedDead + [body.suspect];
      }
      if heeded {
        PassOn(message);
      }
    }

    method HandleMessage(from: Key, message: Message, now: real)
      modifies this`peers, this`suspicions, this`outbox, this`confirmedDead, this`seenIds
      ensures var isNew := message.msgId != "" && message.msgId !in old(seenIds);
        && seenIds == (if isNew then Remember(old(seenIds), message.msgId) else old(seenIds))
        && Here() == (if isNew then Handled(old(Here()), ourKey, from, message.body, now) else old(Here()))
        && Relayed(old(outbox), outbox, isNew && RelayDue(old(Here()), ourKey, message.body), message, peers, axlConnected)
        && confirmedDead == old(confirmedDead) + (if isNew then Killed(old(Here()), Here(), message.body) else [])
    {
      hide Reported, Heeded, Heard, Joined, Relayed;
      if message.msgId == "" || message.msgId in seenIds {
        NothingRelayed(outbox, message, peers, axlConnected);
        return;
      }
      seenIds := Remember(seenIds, message.msgId);
      match message.body
      case Heartbeat(_, _, _, _, _) => OnHeartbeat(message, now);
      case Suspicion(_, _, _) => OnSuspicion(from, message);
      case NodeJoin(_, _) => OnNodeJoin(message, now);
      case Unknown => NothingRelayed(outbox, message, peers, axlConnected);
    }
  }

  lemma NothingRelayed(sent: seq<Sent>, message: Message, peers: map<Key, PeerInfo>, mesh: set<Key>)
    ensures Relayed(sent, sent, false, message, peers, mesh)
  {}

  lemma SmallestIsConsensus(peers: map<Key, PeerInfo>, own: real, threshold: real, c: real)
    requires c <= own
    requires forall p :: p in peers && Reports(peers[p]) ==> c <= peers[p].leaseDuration.value
    requires c == own || ReportedBySome(peers, c)
    ensures ConsensusOf(peers, own, threshold, c)
  {
    var n := LeaseOf(peers, own, threshold);
    if c != own {
      var p :| p in peers && Reports(peers[p]) && peers[p].leaseDuration == Some(c);
      assert LeaseConvergence.Counts(n, p) && c == n.peers[p].reported.value;
    }
  }

  /** For lease agreement a heartbeat is what the agreement machine says: newly met peers have no report yet. */
  lemma HeartbeatIsNoted(v: View, me: Key, sender: Key, profile: Profile, held: seq<string>, duration: real, known: set<Key>,
                         now: real, own: real, threshold: real, p: Key)
    requires sender != "" && sender != me
    ensures var after := LeaseOf(Heard(v, me, sender, profile, held, duration, known, now).peers, own, threshold);
      var noted := LeaseConvergence.Noted(LeaseOf(v.peers, own, threshold), LeaseConvergence.Beat(sender, duration));
      && (LeaseConvergence.Counts(after, p) <==> LeaseConvergence.Counts(noted, p))
      && (LeaseConvergence.Counts(noted, p) ==> after.peers[p] == noted.peers[p])
  {}

  /** Handling a message keeps the node out of its own table and every death verdict backed by two reports. */
  lemma HandledSound(v: View, me: Key, from: Key, body: Body, now: real)
    requires Sound(v, me)
    ensures Sound(Handled(v, me, from, body, now), me)
  {
    hide Sound, Heard, Reported, Joined;
    match body
    case Heartbeat(sender, profile, held, duration, known) => HeardSound(v, me, sender, profile, held, duration, known, now);
    case Suspicion(origin, suspect, timestamp) => ReportedSound(v, me, suspect, Reporter(origin, from), timestamp);
    case NodeJoin(sender, profile) => JoinedSound(v, me, sender, profile, now);
    case Unknown =>
  }
}
