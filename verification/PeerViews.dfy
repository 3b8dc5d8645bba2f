/**
 What a node believes about its peers, and how each event changes it.

 A view is the peer table together with the recorded suspicion reports. Keys, public keys
 and message ids that are missing from a message are empty strings here.
 */
module PeerViews {
  import opened Options
  import opened Payloads

  const DEAD_REPORTS_NEEDED: nat := 2

  datatype PeerStatus = Alive | Suspected | Dead

  /** A lease duration of None was never reported. */
  datatype PeerInfo = PeerInfo(
    status: PeerStatus,
    lastSeen: real,
    tasksHeld: seq<string>,
    shardId: Option<int>,
    encPubkey: Option<Key>,
    leaseDuration: Option<real>,
    capabilities: set<string>,
    price: real)

  datatype View = View(peers: map<Key, PeerInfo>, suspicions: map<Key, set<Key>>)

  /** What a heartbeat or a join announces about its sender. */
  datatype Profile = Profile(
    shardId: Option<int>,
    encPubkey: Key,
    capabilities: Option<set<string>>,
    price: Option<real>)

  function NewPeer(now: real): PeerInfo {
    PeerInfo(Alive, now, [], None, None, None, {}, 0.01)
  }

  function Reporters(v: View, p: Key): set<Key> {
    if p in v.suspicions then v.suspicions[p] else {}
  }

  /** Keys not known before become peers, except the node's own key. */
  function Discovered(peers: map<Key, PeerInfo>, keys: set<Key>, me: Key, now: real): map<Key, PeerInfo> {
    map k | k in peers.Keys + (keys - {me}) :: if k in peers then peers[k] else NewPeer(now)
  }

  /** The sender's entry after its announcement, its status aside. */
  function Announced(peer: PeerInfo, profile: Profile, now: real): PeerInfo {
    peer.(lastSeen := now,
          shardId := if profile.shardId.Some? then profile.shardId else peer.shardId,
          encPubkey := if profile.encPubkey != "" then Some(profile.encPubkey) else peer.encPubkey,
          capabilities := if profile.capabilities.Some? then profile.capabilities.value else peer.capabilities,
          price := if profile.price.Some? then profile.price.value else peer.price)
  }

  /** What only heartbeats carry; a lease duration of 0 counts as missing. */
  function Beaten(peer: PeerInfo, tasksHeld: seq<string>, duration: real): PeerInfo {
    peer.(tasksHeld := tasksHeld, leaseDuration := if duration != 0.0 then Some(duration) else peer.leaseDuration)
  }

  /** A sign of life brings the sender back; reports are dropped only if it was suspected or dead. */
  function Revived(v: View, sender: Key): View
    requires sender in v.peers
  {
    if v.peers[sender].status.Alive? then v
    else View(v.peers[sender := v.peers[sender].(status := Alive)], v.suspicions - {sender})
  }

  /** A join message. */
  function Joined(v: View, me: Key, sender: Key, profile: Profile, now: real): View {
    if sender == "" || sender == me then v
    else
      var known := if sender in v.peers then v.peers[sender] else NewPeer(now);
      Revived(v.(peers := v.peers[sender := Announced(known, profile, now)]), sender)
  }

  /** A heartbeat: a join that also carries held tasks, a lease duration and known peers. */
  function Heard(v: View, me: Key, sender: Key, profile: Profile, tasksHeld: seq<string>, duration: real,
                 knownPeers: set<Key>, now: real): View {
    if sender == "" || sender == me then v
    else
      var known := if sender in v.peers then v.peers[sender] else NewPeer(now);
      var peer := Beaten(Announced(known, profile, now), tasksHeld, duration);
      var revived := Revived(v.(peers := v.peers[sender := peer]), sender);
      revived.(peers := Discovered(revived.peers, knownPeers, me, now))
  }

  /** Whether the report is looked at: a report older than the last sign of life is not. */
  predicate Heeded(v: View, me: Key, suspect: Key, timestamp: real) {
    && suspect != "" && suspect != me
    && !(suspect in v.peers && v.peers[suspect].lastSeen > timestamp)
  }

  function Reported(v: View, me: Key, suspect: Key, reporter: Key, timestamp: real): View {
    if !Heeded(v, me, suspect, timestamp) then v
    else
      var reporters := Reporters(v, suspect) + {reporter};
      var noted := v.(suspicions := v.suspicions[suspect := reporters]);
      if suspect in v.peers && !v.peers[suspect].status.Dead? && |reporters| >= DEAD_REPORTS_NEEDED
      then noted.(peers := noted.peers[suspect := noted.peers[suspect].(status := Dead)])
      else noted
  }

  /** The peers that a check at this time moves to suspected. */
  function Silent(peers: map<Key, PeerInfo>, now: real, limit: real): set<Key> {
    set p | p in peers && peers[p].status.Alive? && now - peers[p].lastSeen > limit
  }

  function Suspecting(peers: map<Key, PeerInfo>, suspects: set<Key>): map<Key, PeerInfo> {
    map p | p in peers :: if p in suspects then peers[p].(status := Suspected) else peers[p]
  }

  /** The periodic check. */
  function Swept(v: View, now: real, suspectAfter: real): View {
    v.(peers := Suspecting(v.peers, Silent(v.peers, now, suspectAfter)))
  }

  /** The direct mesh peers that dropped out and were silent for half the limit. */
  function Dropped(v: View, previous: set<Key>, connected: set<Key>, me: Key, now: real, suspectAfter: real): set<Key> {
    (previous - connected) * Silent(Discovered(v.peers, connected, me, now), now, suspectAfter / 2.0)
  }

  /** A look at the overlay mesh. */
  function Synced(v: View, previous: set<Key>, connected: set<Key>, me: Key, now: real, suspectAfter: real): View {
    v.(peers := Suspecting(Discovered(v.peers, connected, me, now), Dropped(v, previous, connected, me, now, suspectAfter)))
  }

  // What every event keeps.

  /** No node lists itself, and enough reports are on record for every dead peer. */
  ghost predicate Sound(v: View, me: Key) {
    && me !in v.peers
    && forall p :: p in v.peers && v.peers[p].status.Dead? ==> |Reporters(v, p)| >= DEAD_REPORTS_NEEDED
  }

  lemma JoinedSound(v: View, me: Key, sender: Key, profile: Profile, now: real)
    requires Sound(v, me)
    ensures Sound(Joined(v, me, sender, profile, now), me)
  {}

  lemma HeardSound(v: View, me: Key, sender: Key, profile: Profile, tasksHeld: seq<string>, duration: real,
                   knownPeers: set<Key>, now: real)
    requires Sound(v, me)
    ensures Sound(Heard(v, me, sender, profile, tasksHeld, duration, knownPeers, now), me)
  {}

  lemma ReportedSound(v: View, me: Key, suspect: Key, reporter: Key, timestamp: real)
    requires Sound(v, me)
    ensures Sound(Reported(v, me, suspect, reporter, timestamp), me)
  {
    var v' := Reported(v, me, suspect, reporter, timestamp);
    forall p | p in v'.peers && v'.peers[p].status.Dead?
      ensures |Reporters(v', p)| >= DEAD_REPORTS_NEEDED
    {
      if p == suspect && Heeded(v, me, suspect, timestamp) {
        if v.peers[p].status.Dead? {
          MoreReporters(Reporters(v, p), reporter);
        }
      } else {
        assert Reporters(v', p) == Reporters(v, p);
      }
    }
  }

  lemma MoreReporters(reporters: set<Key>, reporter: Key)
    ensures |reporters| <= |reporters + {reporter}| <= |reporters| + 1
  {
    if reporter in reporters {
      assert reporters + {reporter} == reporters;
    }
  }

  lemma SweptSound(v: View, me: Key, now: real, suspectAfter: real)
    requires Sound(v, me)
    ensures Sound(Swept(v, now, suspectAfter), me)
  {}

  lemma SyncedSound(v: View, previous: set<Key>, connected: set<Key>, me: Key, now: real, suspectAfter: real)
    requires Sound(v, me)
    ensures Sound(Synced(v, previous, connected, me, now, suspectAfter), me)
  {}

  /** A report kills exactly when the peer is known and not dead, was not heard since the report, and another reporter is on record. */
  lemma ReportKillsExactly(v: View, me: Key, suspect: Key, reporter: Key, timestamp: real)
    requires suspect in v.peers && !v.peers[suspect].status.Dead? && suspect != "" && suspect != me
    ensures Reported(v, me, suspect, reporter, timestamp).peers[suspect].status.Dead?
       <==> v.peers[suspect].lastSeen <= timestamp && exists r :: r in Reporters(v, suspect) && r != reporter
  {
    var on := Reporters(v, suspect);
    if r :| r in on && r != reporter {
      assert {r, reporter} <= on + {reporter};
      AtLeastTwo(on + {reporter}, r, reporter);
    } else {
      assert on + {reporter} == {reporter};
    }
  }

  lemma AtLeastTwo(reporters: set<Key>, a: Key, b: Key)
    requires a in reporters && b in reporters && a != b
    ensures |reporters| >= 2
  {
    assert |reporters - {a}| == |reporters| - 1;
    assert b in reporters - {a};
  }

  /** A heartbeat forgets the reports against its sender exactly when the sender was suspected or dead. */
  lemma HeartbeatClearsExactly(v: View, me: Key, sender: Key, profile: Profile, held: seq<string>, duration: real,
                               known: set<Key>, now: real)
    requires sender != "" && sender != me && sender in v.suspicions
    ensures sender !in Heard(v, me, sender, profile, held, duration, known, now).suspicions
       <==> sender in v.peers && !v.peers[sender].status.Alive?
  {}

  /** And so does a join. */
  lemma JoinClearsExactly(v: View, me: Key, sender: Key, profile: Profile, now: real)
    requires sender != "" && sender != me && sender in v.suspicions
    ensures sender !in Joined(v, me, sender, profile, now).suspicions
       <==> sender in v.peers && !v.peers[sender].status.Alive?
  {}

  /**
   So a death may rest on a report older than the last heartbeat: a report against a peer
   that still looks alive survives its next heartbeat and is completed by one more.
   */
  lemma OldReportStillCounts(me: Key, p: Key, r1: Key, r2: Key, profile: Profile, held: seq<string>, duration: real, known: set<Key>)
    requires p != "" && p != me && r1 != r2
    ensures var table := View(map[p := NewPeer(0.0)], map[]);
      var blamed := Reported(table, me, p, r1, 1.0);
      var heard := Heard(blamed, me, p, profile, held, duration, known, 2.0);
      var killed := Reported(heard, me, p, r2, 3.0);
      && heard.peers[p].lastSeen == 2.0 && heard.peers[p].status.Alive?
      && killed.peers[p].status.Dead? && killed.suspicions[p] == {r1, r2}
  {
    AtLeastTwo({r1, r2}, r1, r2);
    assert {r1} + {r2} == {r1, r2};
    assert {} + {r1} == {r1};
  }

  // What each event does, field by field.

  /** What an announcement leaves in the sender's entry. */
  predicate Heralded(peer: PeerInfo, known: PeerInfo, profile: Profile, now: real) {
    && peer.status == Alive && peer.lastSeen == now
    && peer.shardId == (if profile.shardId.Some? then profile.shardId else known.shardId)
    && peer.encPubkey == (if profile.encPubkey != "" then Some(profile.encPubkey) else known.encPubkey)
    && peer.capabilities == (if profile.capabilities.Some? then profile.capabilities.value else known.capabilities)
    && peer.price == (if profile.price.Some? then profile.price.value else known.price)
  }

  /** What was known of a peer, or the defaults for one met now. */
  function KnownAs(v: View, p: Key, now: real): PeerInfo {
    if p in v.peers then v.peers[p] else PeerInfo(Alive, now, [], None, None, None, {}, 0.01)
  }

  /** Whatever the sender's status was, a heartbeat makes it alive; it changes no other known peer, and meets the unknown ones it names. */
  lemma HeartbeatExactly(v: View, me: Key, sender: Key, profile: Profile, held: seq<string>, duration: real, known: set<Key>, now: real)
    requires sender != "" && sender != me
    ensures var v' := Heard(v, me, sender, profile, held, duration, known, now);
      && sender in v'.peers && Heralded(v'.peers[sender], KnownAs(v, sender, now), profile, now)
      && v'.peers[sender].tasksHeld == held
      && v'.peers[sender].leaseDuration == (if duration != 0.0 then Some(duration) else KnownAs(v, sender, now).leaseDuration)
      && v'.peers.Keys == v.peers.Keys + {sender} + (known - {me})
      && (forall p :: p in v'.peers && p != sender ==> v'.peers[p] == KnownAs(v, p, now))
      && v'.suspicions == (if KnownAs(v, sender, now).status == Alive then v.suspicions else v.suspicions - {sender})
  {}

  /** A join does the same, without tasks, lease duration and other peers. */
  lemma JoinExactly(v: View, me: Key, sender: Key, profile: Profile, now: real)
    requires sender != "" && sender != me
    ensures var v' := Joined(v, me, sender, profile, now);
      && sender in v'.peers && Heralded(v'.peers[sender], KnownAs(v, sender, now), profile, now)
      && v'.peers[sender].tasksHeld == KnownAs(v, sender, now).tasksHeld
      && v'.peers[sender].leaseDuration == KnownAs(v, sender, now).leaseDuration
      && v'.peers.Keys == v.peers.Keys + {sender}
      && (forall p :: p in v.peers && p != sender ==> v'.peers[p] == v.peers[p])
      && v'.suspicions == (if KnownAs(v, sender, now).status == Alive then v.suspicions else v.suspicions - {sender})
  {}

  /** Messages in a node's own name or in none change nothing. */
  lemma OwnMessagesIgnored(v: View, me: Key, sender: Key, profile: Profile, held: seq<string>, duration: real, known: set<Key>, now: real)
    requires sender == "" || sender == me
    ensures Heard(v, me, sender, profile, held, duration, known, now) == v && Joined(v, me, sender, profile, now) == v
  {}

  /** A report on another node that is not out of date is recorded, and changes nobody but its suspect; any other report is dropped. */
  lemma ReportExactly(v: View, me: Key, suspect: Key, reporter: Key, timestamp: real)
    ensures suspect == "" || suspect == me || (suspect in v.peers && timestamp < v.peers[suspect].lastSeen)
      ==> Reported(v, me, suspect, reporter, timestamp) == v
    ensures suspect != "" && suspect != me && (suspect in v.peers ==> timestamp >= v.peers[suspect].lastSeen) ==>
      var v' := Reported(v, me, suspect, reporter, timestamp);
      && v'.suspicions == v.suspicions[suspect := Reporters(v, suspect) + {reporter}]
      && v'.peers.Keys == v.peers.Keys
      && (forall p :: p in v.peers && p != suspect ==> v'.peers[p] == v.peers[p])
  {}

  /** The second reporter's word is enough: two fresh reports on a known peer make it dead. */
  lemma TwoReportsKill(v: View, me: Key, suspect: Key, r1: Key, r2: Key, t1: real, t2: real)
    requires suspect in v.peers && suspect != "" && suspect != me && r1 != r2
    requires t1 >= v.peers[suspect].lastSeen && t2 >= v.peers[suspect].lastSeen
    ensures var v' := Reported(Reported(v, me, suspect, r1, t1), me, suspect, r2, t2);
      suspect in v'.peers && v'.peers[suspect].status == Dead && {r1, r2} <= Reporters(v', suspect)
  {
    var v1 := Reported(v, me, suspect, r1, t1);
    AtLeastTwo(Reporters(v1, suspect) + {r2}, r1, r2);
  }

  /** The check makes suspects of exactly the live peers silent for longer than the limit, and changes nothing else. */
  lemma CheckExactly(v: View, now: real, suspectAfter: real)
    ensures var v' := Swept(v, now, suspectAfter);
      && v'.suspicions == v.suspicions && v'.peers.Keys == v.peers.Keys
      && forall p :: p in v.peers ==> (
           v'.peers[p] == if v.peers[p].status == Alive && now - v.peers[p].lastSeen > suspectAfter
                          then v.peers[p].(status := Suspected) else v.peers[p])
  {}

  /** A look at the mesh makes suspects of exactly the live peers that left it and were silent for longer than half the limit. */
  lemma SyncExactly(v: View, previous: set<Key>, connected: set<Key>, me: Key, now: real, suspectAfter: real)
    ensures var v' := Synced(v, previous, connected, me, now, suspectAfter);
      && v'.suspicions == v.suspicions && v'.peers.Keys == v.peers.Keys + (connected - {me})
      && (forall p :: p in v.peers ==> (
           v'.peers[p] == if p in previous && p !in connected && v.peers[p].status == Alive
                             && now - v.peers[p].lastSeen > suspectAfter / 2.0
                          then v.peers[p].(status := Suspected) else v.peers[p]))
      && (forall p :: p in connected && p != me && p !in v.peers ==> v'.peers[p] == KnownAs(v, p, now))
  {}
}
