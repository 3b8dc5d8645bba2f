/**
 One node's executor: the scan, the auction award, the executor threads and what they do
 with a payload. Each atomic step is shown to be a step of the cluster machine.

 Threads are table entries; time, membership, collected shares and answers are inputs.
 */
module Runtime {
  import opened Arithmetic
  import opened Options
  import opened Payloads
  import Gf256
  import Polynomials
  import opened Shamir
  import opened Tasks
  import opened PeerViews
  import opened Quorum
  import opened ThresholdCipher
  import opened Cluster
  import opened ClusterSafety
  import opened ShareExchange
  import opened ShareGathering

  // Shards.

  /** The shard a node backs up besides its own. */
  function ReplicaShardFor(shard: int, numShards: int): int
    requires numShards > 0
  {
    (shard - 2) % numShards + 1
  }

  /** Every shard has exactly one backup, the next shard's node, and it is another node exactly when there are two. */
  lemma OneBackupPerShard(backup: int, shard: int, numShards: int)
    requires 1 <= shard <= numShards && 1 <= backup <= numShards
    ensures 1 <= ReplicaShardFor(backup, numShards) <= numShards
    ensures ReplicaShardFor(backup, numShards) == shard <==> backup == shard % numShards + 1
    ensures ReplicaShardFor(shard, numShards) == shard <==> numShards == 1
  {
    PreviousShard(backup, numShards);
    PreviousShard(shard, numShards);
    if shard < numShards {
      assert shard % numShards == shard;
    } else {
      assert shard % numShards == 0;
    }
  }

  lemma PreviousShard(shard: int, numShards: int)
    requires 1 <= shard <= numShards
    ensures ReplicaShardFor(shard, numShards) == if shard == 1 then numShards else shard - 1
  {
    if shard == 1 {
      assert -1 == -1 * numShards + (numShards - 1);
      UniqueRemainder(-1, -1, numShards - 1, numShards);
    } else {
      UniqueRemainder(shard - 2, 0, shard - 2, numShards);
    }
  }

  // What a scan may take.

  datatype Site = Site(shardId: int, numShards: int, capabilities: set<string>)

  /** What the node believes about its peers; a node may run without membership. */
  datatype Surroundings = Alone | Among(peers: map<Key, PeerInfo>, clusterSize: int)

  predicate Quorate(m: Surroundings) {
    m.Alone? || HasQuorum(m.peers, m.clusterSize)
  }

  predicate HomeDead(m: Surroundings, shard: int) {
    m.Alone? || forall p :: p in m.peers ==> !(m.peers[p].shardId == Some(shard) && m.peers[p].status.Alive?)
  }

  /** No live peer has all our capabilities; vacuous if we have none. */
  predicate NoCapablePeer(m: Surroundings, capabilities: set<string>) {
    || capabilities == {} || m.Alone?
    || forall p :: p in m.peers && m.peers[p].status.Alive? ==> !(capabilities <= m.peers[p].capabilities)
  }

  /** 0 for our own shard, 1 for the one we back up, 2 for the rest. */
  function Priority(site: Site, t: Task): int
    requires site.numShards > 0
  {
    if t.identity.shardId == site.shardId then 0
    else if t.identity.shardId == ReplicaShardFor(site.shardId, site.numShards) then 1
    else 2
  }

  /** Our own shard always; others only with quorum and their home dead. */
  predicate Eligible(site: Site, m: Surroundings, t: Task)
    requires site.numShards > 0
  {
    || Priority(site, t) == 0
    || (Quorate(m) && HomeDead(m, t.identity.shardId) && (Priority(site, t) == 1 || NoCapablePeer(m, site.capabilities)))
  }

  function Keep(tasks: seq<Task>, test: Task -> bool): (r: seq<Task>)
    ensures forall t :: t in r <==> t in tasks && test(t)
  {
    if |tasks| == 0 then []
    else Keep(tasks[..|tasks| - 1], test) + if test(tasks[|tasks| - 1]) then [tasks[|tasks| - 1]] else []
  }

  function IsMine(site: Site): Task -> bool {
    (t: Task) => t.identity.shardId == site.shardId
  }

  function IsReplicaOrphan(site: Site, m: Surroundings): Task -> bool
    requires site.numShards > 0
  {
    var replica := ReplicaShardFor(site.shardId, site.numShards);
    (t: Task) => t.identity.shardId == replica && t.identity.shardId != site.shardId
                 && Quorate(m) && HomeDead(m, t.identity.shardId)
  }

  function IsGeneralOrphan(site: Site, m: Surroundings): Task -> bool
    requires site.numShards > 0
  {
    var replica := ReplicaShardFor(site.shardId, site.numShards);
    (t: Task) => t.identity.shardId != site.shardId && t.identity.shardId != replica
                 && Quorate(m) && HomeDead(m, t.identity.shardId) && NoCapablePeer(m, site.capabilities)
  }

  /** The three lists of the scan, in its order. */
  function Candidates(site: Site, m: Surroundings, claimable: seq<Task>): seq<Task>
    requires site.numShards > 0
  {
    Keep(claimable, IsMine(site)) + Keep(claimable, IsReplicaOrphan(site, m)) + Keep(claimable, IsGeneralOrphan(site, m))
  }

  ghost predicate DifferentTasks(tasks: seq<Task>) {
    forall i, j :: 0 <= i < j < |tasks| ==> tasks[i].taskId != tasks[j].taskId
  }

  lemma {:induction false} KeepsDifferent(tasks: seq<Task>, test: Task -> bool)
    requires DifferentTasks(tasks)
    ensures DifferentTasks(Keep(tasks, test))
  {
    if |tasks| > 0 {
      var front, last := tasks[..|tasks| - 1], tasks[|tasks| - 1];
      KeepsDifferent(front, test);
      forall i | 0 <= i < |Keep(front, test)|
        ensures Keep(front, test)[i].taskId != last.taskId
      {
        assert Keep(front, test)[i] in front;
      }
    }
  }

  lemma JoinDifferent(a: seq<Task>, b: seq<Task>)
    requires DifferentTasks(a) && DifferentTasks(b)
    requires forall s, t :: s in a && t in b ==> s.taskId != t.taskId
    ensures DifferentTasks(a + b)
  {
    forall i, j | 0 <= i < j < |a + b|
      ensures (a + b)[i].taskId != (a + b)[j].taskId
    {
      if i < |a| <= j {
        assert a[i] in a && b[j - |a|] in b;
      }
    }
  }

  /** Which tasks each of the three lists holds. */
  lemma ListsByPriority(site: Site, m: Surroundings, t: Task)
    requires site.numShards > 0
    ensures IsMine(site)(t) <==> Eligible(site, m, t) && Priority(site, t) == 0
    ensures IsReplicaOrphan(site, m)(t) <==> Eligible(site, m, t) && Priority(site, t) == 1
    ensures IsGeneralOrphan(site, m)(t) <==> Eligible(site, m, t) && Priority(site, t) == 2
  {
    hide Quorate, HomeDead, NoCapablePeer, ReplicaShardFor;
  }

  ghost predicate AllOf(tasks: seq<Task>, site: Site, priority: int)
    requires site.numShards > 0
  {
    forall i :: 0 <= i < |tasks| ==> Priority(site, tasks[i]) == priority
  }

  lemma OrderedLists(site: Site, a: seq<Task>, b: seq<Task>, c: seq<Task>)
    requires site.numShards > 0 && AllOf(a, site, 0) && AllOf(b, site, 1) && AllOf(c, site, 2)
    ensures forall i, j :: 0 <= i < j < |a + b + c| ==> Priority(site, (a + b + c)[i]) <= Priority(site, (a + b + c)[j])
  {
    hide Priority;
  }

  lemma KeptHavePriority(tasks: seq<Task>, test: Task -> bool, site: Site, priority: int)
    requires site.numShards > 0 && forall t :: test(t) ==> Priority(site, t) == priority
    ensures AllOf(Keep(tasks, test), site, priority)
  {
    hide Priority;
    assert forall i :: 0 <= i < |Keep(tasks, test)| ==> Keep(tasks, test)[i] in Keep(tasks, test);
  }

  /** The scan takes exactly the eligible tasks, each once, home tasks before backups before the rest. */
  lemma CandidatesExactly(site: Site, m: Surroundings, claimable: seq<Task>)
    requires site.numShards > 0 && DifferentTasks(claimable)
    ensures forall t :: t in Candidates(site, m, claimable) <==> t in claimable && Eligible(site, m, t)
    ensures DifferentTasks(Candidates(site, m, claimable))
    ensures forall i, j :: 0 <= i < j < |Candidates(site, m, claimable)| ==>
      Priority(site, Candidates(site, m, claimable)[i]) <= Priority(site, Candidates(site, m, claimable)[j])
  {
    hide Keep, IsMine, IsReplicaOrphan, IsGeneralOrphan, Eligible, Priority, DifferentTasks;
    var isMine, isReplica, isGeneral := IsMine(site), IsReplicaOrphan(site, m), IsGeneralOrphan(site, m);
    var a, b, c := Keep(claimable, isMine), Keep(claimable, isReplica), Keep(claimable, isGeneral);
    assert Candidates(site, m, claimable) == a + b + c;
    forall t
      ensures isMine(t) <==> Eligible(site, m, t) && Priority(site, t) == 0
      ensures isReplica(t) <==> Eligible(site, m, t) && Priority(site, t) == 1
      ensures isGeneral(t) <==> Eligible(site, m, t) && Priority(site, t) == 2
      ensures Priority(site, t) in {0, 1, 2}
    {
      ListsByPriority(site, m, t);
      ThreePriorities(site, t);
    }
    KeepsDifferent(claimable, isMine);
    KeepsDifferent(claimable, isReplica);
    KeepsDifferent(claimable, isGeneral);
    SameTask(claimable);
    JoinDifferent(a, b);
    JoinDifferent(a + b, c);
    KeptHavePriority(claimable, isMine, site, 0);
    KeptHavePriority(claimable, isReplica, site, 1);
    KeptHavePriority(claimable, isGeneral, site, 2);
    OrderedLists(site, a, b, c);
  }

  lemma ThreePriorities(site: Site, t: Task)
    requires site.numShards > 0
    ensures Priority(site, t) in {0, 1, 2}
  {}

  lemma SameTask(tasks: seq<Task>)
    requires DifferentTasks(tasks)
    ensures forall s, t :: s in tasks && t in tasks && s.taskId == t.taskId ==> s == t
  {}

  /** Rescues happen on one side of a partition only, as long as at most one member is wrongly discounted across it. */
  lemma RescueOnOneSideOnly(members: set<Key>, sizing: Sizing, i: Key, pi: map<Key, PeerInfo>, j: Key, pj: map<Key, PeerInfo>,
                            si: Site, ci: seq<Task>, sj: Site, cj: seq<Task>)
    requires |members| >= 2 && Divided(members, i, pi, j, pj) && WrongVerdicts(members, sizing, i, pi, j, pj) <= 1
    requires si.numShards > 0 && sj.numShards > 0 && DifferentTasks(ci) && DifferentTasks(cj)
    ensures (forall t :: t in Candidates(si, Among(pi, SizeSetting(members, sizing)), ci) ==> t.identity.shardId == si.shardId)
         || (forall t :: t in Candidates(sj, Among(pj, SizeSetting(members, sizing)), cj) ==> t.identity.shardId == sj.shardId)
  {
    hide Candidates, Divided, WrongVerdicts, HasQuorum, SizeSetting;
    OneVerdictIsNotEnough(members, sizing, i, pi, j, pj);
    CandidatesExactly(si, Among(pi, SizeSetting(members, sizing)), ci);
    CandidatesExactly(sj, Among(pj, SizeSetting(members, sizing)), cj);
  }

  // What becomes of a payload.

  datatype Reason = NoCollector | ThresholdFailed | HomeOffline | NoKey

  /** The payload to run inference on, a fixed note that completes the task, or a release. */
  datatype Outcome = Infer(payload: Payload) | Note(reason: Reason) | Retry

  /** The branches of the executor; no collected list means no collector is installed. */
  ghost function OutcomeOf(t: Task, own: Option<Key>, collected: Option<seq<Share>>): Outcome {
    var payload := t.identity.payload;
    if t.identity.thresholdT > 0 && payload.Threshold? then
      if collected.None? then Note(NoCollector)
      else if |collected.value| < t.identity.thresholdT then Retry
      else if Opened(payload, collected.value).Some? then Infer(Plain(Opened(payload, collected.value).value))
      else Note(ThresholdFailed)
    else if t.identity.encrypted && payload.Sealed? then
      if own.None? then Note(NoKey)
      else if own.value == payload.target then Infer(Plain(payload.text))
      else Note(HomeOffline)
    else Infer(payload)
  }

  /**
   An executor with gathered shares of a sealed task gives the lease back exactly when it
   has fewer than t, and never runs on anything but the text submitted. With t shares it
   does run, except that beyond 256 keys two labels may agree modulo 256.
   */
  lemma SealedTaskRunsOrRetries(trace: seq<Exchange>, k: nat, g: Gathered, copy: Task, own: Option<Key>,
                                pubkeys: seq<Key>, text: string, t: nat, key: seq<Gf256.Byte>, random: seq<seq<Gf256.Byte>>)
    requires IsExchange(trace) && k < |trace| && g in trace[k].gathered
    requires SubmittedSealed(trace[k].cluster, g.taskId, pubkeys, text, t, key, random)
    requires 1 <= t <= |pubkeys|
    requires Somewhere(trace[k].cluster, copy) && copy.taskId == g.taskId
    ensures OutcomeOf(copy, own, Some(g.shares)) == Retry <==> |g.shares| < t
    ensures OutcomeOf(copy, own, Some(g.shares)) in {Retry, Infer(Plain(text)), Note(ThresholdFailed)}
    ensures |g.shares| >= t && (|pubkeys| <= 256 || Polynomials.Distinct(Labels(g.shares)))
        ==> OutcomeOf(copy, own, Some(g.shares)) == Infer(Plain(text))
  {
    hide IsExchange, Somewhere, SubmittedSealed, Opened, Labels;
    GatheredSharesOpen(trace, k, g, copy, pubkeys, text, t, key, random);
  }

  /** From submission to inference: a collection with enough answers makes the executor run on the text submitted; beyond 256 keys if the labels differ modulo 256. */
  lemma AnsweredTaskRuns(trace: seq<Exchange>, acts: seq<Act>, j: nat, m: nat, k: nat, i: Key, copy: Task, own: Option<Key>,
                         me: Key, identity: Identity, pubkeys: seq<Key>, text: string, t: nat,
                         key: seq<Gf256.Byte>, random: seq<seq<Gf256.Byte>>) returns (g: Gathered)
    requires OpenSince(trace, acts, m, k, i, copy) && k < |acts| && acts[k] == Close(i, copy.taskId) && j <= k
    requires SubmitsSealed(trace[j], trace[j + 1], me, copy.taskId, identity, pubkeys, text, t, key, random)
    requires 1 <= t <= |pubkeys|
    requires |{OwnLabel(trace[m], i, copy)} + ArrivedLabels(acts, m + 1, k, i, copy.taskId)| >= t
    ensures g in trace[k + 1].gathered && g.node == i && g.taskId == copy.taskId
    ensures |pubkeys| <= 256 || Polynomials.Distinct(Labels(g.shares)) ==>
      forall c :: Somewhere(trace[k + 1].cluster, c) && c.taskId == copy.taskId ==>
        OutcomeOf(c, own, Some(g.shares)) == Infer(Plain(text))
  {
    hide OpenSince, SubmitsSealed, Somewhere, OwnLabel, Opened;
    RunOfCollection(trace, acts, m, k, i, copy);
    g := AnsweredCollectionOpens(trace, acts, j, m, k, i, copy, me, identity, pubkeys, text, t, key, random);
    forall c | Somewhere(trace[k + 1].cluster, c) && c.taskId == copy.taskId
      ensures |pubkeys| <= 256 || Polynomials.Distinct(Labels(g.shares)) ==> OutcomeOf(c, own, Some(g.shares)) == Infer(Plain(text))
    {
      if |pubkeys| <= 256 || Polynomials.Distinct(Labels(g.shares)) {
        OpenedIsThreshold(c.identity.payload, g.shares);
      }
    }
  }

  lemma OpenedIsThreshold(payload: Payload, shares: seq<Share>)
    requires Opened(payload, shares).Some?
    ensures payload.Threshold?
  {}

  /** A text sealed to one node runs exactly there; another node says that the home is away, one without a key that it has none. */
  lemma SealedTextRunsAtHomeExactly(t: Task, target: Key, text: string, own: Option<Key>, collected: Option<seq<Share>>)
    requires t.identity.payload == Sealed(target, text) && t.identity.encrypted
    ensures OutcomeOf(t, own, collected) == Infer(Plain(text)) <==> own == Some(target)
    ensures own == None ==> OutcomeOf(t, own, collected) == Note(NoKey)
    ensures own != None && own != Some(target) ==> OutcomeOf(t, own, collected) == Note(HomeOffline)
  {}

  /** A plain text runs everywhere as it is. */
  lemma PlainTextRuns(t: Task, text: string, own: Option<Key>, collected: Option<seq<Share>>)
    requires t.identity.payload == Plain(text)
    ensures OutcomeOf(t, own, collected) == Infer(Plain(text))
  {}

  /** A sealed task given no collector, or shares that do not fit, ends in a note and is never retried. */
  lemma UnopenedTaskEnds(t: Task, own: Option<Key>, collected: Option<seq<Share>>)
    requires t.identity.thresholdT > 0 && t.identity.payload.Threshold?
    ensures collected == None ==> OutcomeOf(t, own, collected) == Note(NoCollector)
    ensures collected.Some? && |collected.value| >= t.identity.thresholdT && Opened(t.identity.payload, collected.value) == None
      ==> OutcomeOf(t, own, collected) == Note(ThresholdFailed)
  {
    hide Opened;
  }

  // What heartbeats and verdicts do to a scan.

  /** The node looks again after a heartbeat from this peer. */
  function AfterHeartbeat(v: View, me: Key, sender: Key, profile: Profile, held: seq<string>, duration: real, known: set<Key>, now: real, size: int): Surroundings {
    Among(Heard(v, me, sender, profile, held, duration, known, now).peers, size)
  }

  /** Hearing from a node of a shard, or with all our capabilities, ends the rescue of what it can run itself. */
  lemma HeartbeatEndsRescue(v: View, me: Key, sender: Key, profile: Profile, held: seq<string>, duration: real, known: set<Key>,
                            now: real, size: int, shard: int, capabilities: set<string>)
    requires sender != "" && sender != me
    ensures profile.shardId == Some(shard) ==> !HomeDead(AfterHeartbeat(v, me, sender, profile, held, duration, known, now, size), shard)
    ensures profile.capabilities.Some? && capabilities <= profile.capabilities.value && capabilities != {}
      ==> !NoCapablePeer(AfterHeartbeat(v, me, sender, profile, held, duration, known, now, size), capabilities)
  {
    var m := AfterHeartbeat(v, me, sender, profile, held, duration, known, now, size);
    assert sender in m.peers && m.peers[sender].status.Alive?;
  }

  /** With nobody of the shard alive its home counts as dead; with nobody capable alive nobody is. */
  lemma NobodyAlive(peers: map<Key, PeerInfo>, size: int, shard: int, capabilities: set<string>)
    ensures (forall p :: p in peers && peers[p].shardId == Some(shard) ==> peers[p].status != Alive)
      <==> HomeDead(Among(peers, size), shard)
    ensures (forall p :: p in peers && capabilities <= peers[p].capabilities ==> peers[p].status != Alive)
      ==> NoCapablePeer(Among(peers, size), capabilities)
    ensures NoCapablePeer(Among(peers, size), {})
  {}

  /** A node without membership may take anything; another needs quorum and a dead home for all but its own shard. */
  lemma EligibleExactly(site: Site, m: Surroundings, t: Task)
    requires site.numShards > 0
    ensures t.identity.shardId == site.shardId || m.Alone? ==> Eligible(site, m, t)
    ensures t.identity.shardId != site.shardId && m.Among? ==>
      (Eligible(site, m, t) <==>
        && HasQuorum(m.peers, m.clusterSize)
        && (forall p :: p in m.peers && m.peers[p].shardId == Some(t.identity.shardId) ==> m.peers[p].status != Alive)
        && (t.identity.shardId == ReplicaShardFor(site.shardId, site.numShards) || site.capabilities == {}
            || forall p :: p in m.peers && m.peers[p].status == Alive ==> !(site.capabilities <= m.peers[p].capabilities)))
  {
    hide HasQuorum, ReplicaShardFor;
  }

  // One node's steps and the cluster's.

  /** What a step needs of its own node. */
  ghost predicate CanDo(n: Node, me: Key, now: real, a: Action) {
    match a
    case ScanClaim(id, _) => id !in n.executing && OwnCopy(n, me, now, a).Some?
    case AwardClaim(_, _) => OwnCopy(n, me, now, a).Some?
    case PassGate(th) => th in n.threads && n.threads[th].phase.AtGate?
    case CheckActive(th) => th in n.threads && n.threads[th].phase.Settling?
    case CallComplete(th, _) => th in n.threads && n.threads[th].phase.Running?
    case CallRelease(th) => th in n.threads && n.threads[th].phase.Running?
    case Leave(th) => th in n.threads && (n.threads[th].phase.Leaving? || n.threads[th].phase.Running?)
    case Deliver(w, relayed) => relayed ==> Receive(Lookup(n.tasks, w.copy.taskId), w.copy).changed
    case Submit(_, _) => true
    case RenewLease(_, _) => true
    case ReleaseAll => true
    case Restart(_) => true
  }

  /** What it needs of the cluster: a submitted id is fresh, a delivered copy was written. */
  ghost predicate Admitted(c: Cluster, a: Action) {
    match a
    case Submit(id, _) => Fresh(id, c.written)
    case Deliver(w, _) => w in c.written
    case _ => true
  }

  ghost function Done(n: Node, me: Key, now: real, a: Action): Node
    requires CanDo(n, me, now, a)
  {
    ExecutorAfter(n, me, now, a).(tasks := TasksAfter(n, me, now, a))
  }

  ghost predicate Did(n: Node, n': Node, me: Key, now: real, a: Action) {
    CanDo(n, me, now, a) && n' == Done(n, me, now, a)
  }

  /** What a node does is what the cluster machine lets that node do. */
  lemma DidIsStep(c: Cluster, n': Node, me: Key, a: Action)
    requires me in c.nodes && Did(c.nodes[me], n', me, c.clock, a) && Admitted(c, a)
    ensures Enabled(c, me, a) && Step(c, me, a).nodes == c.nodes[me := n']
    ensures Next(c, Step(c, me, a))
  {
    hide OwnCopy, TasksAfter, ExecutorAfter, OwnWrites;
    assert StepBy(c, Step(c, me, a), me, a);
  }
}
