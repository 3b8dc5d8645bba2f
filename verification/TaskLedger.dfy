/**
 One node's ledger. Each method states the new ledger by the functions on copies, what it
 hands to the network, and what it leaves alone.

 Task objects are values in the dictionary here; time, message ids and the shuffle of peers
 are inputs or unspecified.
 */
module Ledger {
  import opened Options
  import opened Payloads
  import opened Tasks
  import opened Lists
  import opened Gossip

  /** What the verifier makes of a message: no signature or key, one that checks, one that does not. */
  datatype Signature = Unsigned | Genuine | Forged

  /** Messages without a signature are accepted, for nodes that have no signing key. */
  predicate Verifies(signature: Signature) { !signature.Forged? }

  /** An update message; an empty id means none, no task means the field is missing. The signature does not cover the hops. */
  datatype LedgerUpdate = LedgerUpdate(msgId: string, sender: Key, hops: int, task: Option<Task>, signature: Signature)

  datatype Envelope = Envelope(to: Key, update: LedgerUpdate)

  /** A result pushed to its submitter, or kept for the node's own submitters. */
  datatype Notice = Notice(to: Key, taskId: TaskId, result: string)

  function Addressed(targets: seq<Key>, update: LedgerUpdate): (r: seq<Envelope>)
    ensures |r| == |targets|
    ensures forall i :: 0 <= i < |r| ==> r[i] == Envelope(targets[i], update)
  {
    seq(|targets|, i requires 0 <= i < |targets| => Envelope(targets[i], update))
  }

  /** The update went to the targets of one shuffle of the peers. */
  ghost predicate FannedOut(before: seq<Envelope>, after: seq<Envelope>, update: LedgerUpdate, peers: seq<Key>, mesh: set<Key>) {
    exists targets :: Chosen(targets, peers, mesh) && after == before + Addressed(targets, update)
  }

  /** A fresh update about the copy was fanned out, unsigned or signed so that it verifies. */
  ghost predicate Gossiped(before: seq<Envelope>, after: seq<Envelope>, me: Key, copy: Task, peers: seq<Key>, mesh: set<Key>) {
    exists id, signature ::
      Verifies(signature) && FannedOut(before, after, LedgerUpdate(id, me, HOPS, Some(copy), signature), peers, mesh)
  }

  /** Every new envelope carries one of the copies, and each copy went out once. */
  ghost predicate GossipedAll(before: seq<Envelope>, after: seq<Envelope>, me: Key, copies: seq<Task>, peers: seq<Key>, mesh: set<Key>)
    decreases |copies|
  {
    if |copies| == 0 then after == before
    else exists middle ::
      GossipedAll(before, middle, me, Front(copies), peers, mesh) && Gossiped(middle, after, me, Final(copies), peers, mesh)
  }

  /** The handler passes an update on with one hop less, if it changed something and hops remain. */
  ghost predicate PassedOn(before: seq<Envelope>, after: seq<Envelope>, changed: bool, update: LedgerUpdate, peers: seq<Key>, mesh: set<Key>) {
    if changed && update.hops - 1 > 0
    then FannedOut(before, after, update.(hops := update.hops - 1), peers, mesh)
    else after == before
  }

  /** The envelopes as the dying-out argument sees them. */
  function Packets(sent: seq<Envelope>): (r: seq<Packet>)
    ensures |r| == |sent|
    ensures forall i :: 0 <= i < |r| ==> r[i] == Packet(sent[i].to, sent[i].update.hops)
  {
    seq(|sent|, i requires 0 <= i < |sent| => Packet(sent[i].to, sent[i].update.hops))
  }

  /** An update fanned out is at most three packets of its hop count. */
  lemma FanoutIsPackets(before: seq<Envelope>, after: seq<Envelope>, update: LedgerUpdate, peers: seq<Key>, mesh: set<Key>)
    requires FannedOut(before, after, update, peers, mesh)
    ensures |before| <= |after| && after[..|before|] == before
    ensures var out := Packets(after[|before|..]);
      |out| <= FANOUT && forall p :: p in out ==> p.hops == update.hops
  {
    var targets :| Chosen(targets, peers, mesh) && after == before + Addressed(targets, update);
    assert after[|before|..] == Addressed(targets, update);
  }

  /** What the handler passes on is what the dying-out argument allows. */
  lemma HandlerForwards(before: seq<Envelope>, after: seq<Envelope>, changed: bool, update: LedgerUpdate, me: Key, peers: seq<Key>, mesh: set<Key>)
    requires PassedOn(before, after, changed, update, peers, mesh)
    ensures |before| <= |after| && after[..|before|] == before
    ensures Forwards(Packet(me, update.hops), Packets(after[|before|..]))
  {
    if changed && update.hops - 1 > 0 {
      FanoutIsPackets(before, after, update.(hops := update.hops - 1), peers, mesh);
    }
  }

  /** An update fanned out reaches three peers, or all if there are fewer. */
  lemma FannedOutTells(before: seq<Envelope>, after: seq<Envelope>, update: LedgerUpdate, peers: seq<Key>, mesh: set<Key>)
    requires FannedOut(before, after, update, peers, mesh)
    ensures before <= after && |after| == |before| + if |peers| < 3 then |peers| else 3
    ensures forall i :: |before| <= i < |after| ==> after[i].update == update && after[i].to in peers
    ensures forall i, j :: |before| <= i < j < |after| ==> after[i].to != after[j].to
  {
    var targets :| Chosen(targets, peers, mesh) && after == before + Addressed(targets, update);
    assert forall i :: 0 <= i < |targets| ==> targets[i] in targets;
  }

  /** The envelope brings this copy from this node, with all its hops and no forged signature. */
  predicate Brings(e: Envelope, me: Key, copy: Task) {
    e.update.task == Some(copy) && e.update.sender == me && e.update.hops == HOPS && !e.update.signature.Forged?
  }

  /** A copy gossiped is brought to three peers, or all if there are fewer. */
  lemma GossipedTells(before: seq<Envelope>, after: seq<Envelope>, me: Key, copy: Task, peers: seq<Key>, mesh: set<Key>)
    requires Gossiped(before, after, me, copy, peers, mesh)
    ensures before <= after && |after| == |before| + if |peers| < 3 then |peers| else 3
    ensures forall i :: |before| <= i < |after| ==> Brings(after[i], me, copy)
  {
    hide FannedOut;
    var id, signature :|
      Verifies(signature) && FannedOut(before, after, LedgerUpdate(id, me, HOPS, Some(copy), signature), peers, mesh);
    FannedOutTells(before, after, LedgerUpdate(id, me, HOPS, Some(copy), signature), peers, mesh);
  }

  ghost predicate BringsOneOf(e: Envelope, me: Key, copies: seq<Task>) {
    exists copy :: copy in copies && Brings(e, me, copy)
  }

  /** Copies gossiped one after the other are all brought to somebody, unless the node has no peers. */
  lemma {:induction false} GossipedAllTells(before: seq<Envelope>, after: seq<Envelope>, me: Key, copies: seq<Task>, peers: seq<Key>, mesh: set<Key>)
    requires GossipedAll(before, after, me, copies, peers, mesh) && |peers| > 0
    ensures before <= after
    ensures forall copy :: copy in copies ==> exists i :: |before| <= i < |after| && Brings(after[i], me, copy)
    ensures forall i :: |before| <= i < |after| ==> BringsOneOf(after[i], me, copies)
    decreases |copies|
  {
    hide Gossiped, Brings;
    if |copies| == 0 {
      assert copies == [];
    } else {
      var middle :| GossipedAll(before, middle, me, Front(copies), peers, mesh) && Gossiped(middle, after, me, Final(copies), peers, mesh);
      GossipedAllTells(before, middle, me, Front(copies), peers, mesh);
      GossipedTells(middle, after, me, Final(copies), peers, mesh);
      assert copies == Front(copies) + [Final(copies)];
      forall copy | copy in copies
        ensures exists i :: |before| <= i < |after| && Brings(after[i], me, copy)
      {
        if copy in Front(copies) {
          var i :| |before| <= i < |middle| && Brings(middle[i], me, copy);
          assert after[i] == middle[i];
        } else {
          assert Brings(after[|middle|], me, copy);
        }
      }
      forall i | |before| <= i < |after|
        ensures BringsOneOf(after[i], me, copies)
      {
        if i < |middle| {
          assert after[i] == middle[i] && BringsOneOf(middle[i], me, Front(copies));
          var copy :| copy in Front(copies) && Brings(middle[i], me, copy);
          assert copy in copies;
        } else {
          assert Final(copies) in copies;
        }
      }
    }
  }

  /**
   The handler passes an update on exactly when it made the ledger change, hops remain and there are
   peers; what it sends is the update itself, still in its sender's name and signature, with one hop less.
   */
  lemma PassedOnExactly(before: seq<Envelope>, after: seq<Envelope>, existing: Option<Task>, update: LedgerUpdate, peers: seq<Key>, mesh: set<Key>)
    requires update.task.Some?
    requires PassedOn(before, after, Receive(existing, update.task.value).changed, update, peers, mesh)
    ensures before <= after && |after| <= |before| + 3
    ensures |after| > |before| <==> Some(Receive(existing, update.task.value).kept) != existing && update.hops > 1 && |peers| > 0
    ensures forall i :: |before| <= i < |after| ==> (
      after[i].update == LedgerUpdate(update.msgId, update.sender, update.hops - 1, update.task, update.signature) && after[i].to in peers)
  {
    hide FannedOut;
    if Receive(existing, update.task.value).changed && update.hops > 1 {
      FannedOutTells(before, after, update.(hops := update.hops - 1), peers, mesh);
    }
  }

  function Copies(tasks: map<TaskId, Task>, ids: seq<TaskId>): (r: seq<Task>)
    requires forall id :: id in ids ==> id in tasks
    ensures |r| == |ids|
  {
    seq(|ids|, i requires 0 <= i < |ids| => tasks[ids[i]])
  }

  function RenewalDue(me: Key, now: real, renewThreshold: real): Task -> bool {
    t => NeedsRenewal(t, me, now, renewThreshold)
  }

  /** Whether the handler looks at the task in an update. */
  predicate Accepted(update: LedgerUpdate, seen: seq<string>) {
    update.msgId != "" && update.msgId !in seen && Verifies(update.signature) && update.task.Some?
  }

  class TaskLedger {
    const ourKey: Key
    /** Whether the node has a signing key. */
    const signing: bool
    var tasks: map<TaskId, Task>
    var seenIds: seq<string>
    var tasksRescued: nat
    var leaseDuration: real
    var renewThreshold: real
    var peers: seq<Key>
    var mesh: set<Key>
    var outbox: seq<Envelope>
    var notices: seq<Notice>

    ghost predicate Valid()
      reads this
    {
      && NoRepeats(peers)
      && (forall id :: id in tasks ==> tasks[id].taskId == id)
    }

    constructor (key: Key, withKey: bool, loaded: map<TaskId, Task>, duration: real, threshold: real)
      requires forall id :: id in loaded ==> loaded[id].taskId == id
      ensures Valid() && ourKey == key && signing == withKey && tasks == loaded && seenIds == [] && tasksRescued == 0
      ensures outbox == [] && notices == [] && leaseDuration == duration && renewThreshold == threshold
    {
      ourKey := key;
      signing := withKey;
      tasks := loaded;
      seenIds := [];
      tasksRescued := 0;
      leaseDuration := duration;
      renewThreshold := threshold;
      peers := [];
      mesh := {};
      outbox := [];
      notices := [];
    }

    /** Some permutation of the peers. */
    method Shuffle() returns (shuffled: seq<Key>)
      ensures multiset(shuffled) == multiset(peers)
    {
      shuffled := peers;
    }

    /** Some message id. */
    method NewId() returns (id: string)
    {
      id := "id";
    }

    method FanoutRaw(update: LedgerUpdate)
      requires Valid()
      modifies this`outbox
      ensures FannedOut(old(outbox), outbox, update, peers, mesh)
    {
      var shuffled := Shuffle();
      TargetsChosen(peers, shuffled, mesh);
      var targets := Targets(shuffled, mesh);
      outbox := outbox + Addressed(targets, update);
    }

    method GossipTask(copy: Task)
      requires Valid()
      modifies this`outbox
      ensures Gossiped(old(outbox), outbox, ourKey, copy, peers, mesh)
      ensures old(outbox) <= outbox
      ensures forall i :: |old(outbox)| <= i < |outbox| ==> (
        Brings(outbox[i], ourKey, copy) && outbox[i].update.signature == if signing then Genuine else Unsigned)
    {
      var id := NewId();
      var update := LedgerUpdate(id, ourKey, HOPS, Some(copy), if signing then Genuine else Unsigned);
      FanoutRaw(update);
      FannedOutTells(old(outbox), outbox, update, peers, mesh);
    }

    method SubmitTask(id: TaskId, identity: Identity)
      requires Valid()
      modifies this`tasks, this`outbox
      ensures Valid() && tasks == old(tasks)[id := Submitted(id, identity)]
      ensures tasks[id] == Task(id, identity, Pending, None, 0.0, None, 1, None, None, None, None)
      ensures Gossiped(old(outbox), outbox, ourKey, Submitted(id, identity), peers, mesh)
    {
      var task := Submitted(id, identity);
      tasks := tasks[id := task];
      GossipTask(task);
    }

    method ClaimTask(id: TaskId, now: real) returns (ok: bool)
      requires Valid()
      modifies this`tasks, this`outbox, this`tasksRescued
      ensures Valid()
      ensures ok <==> id in old(tasks) && Claim(old(tasks)[id], ourKey, now, leaseDuration).Some?
      ensures ok <==> id in old(tasks) && (old(tasks)[id].status.Pending?
                                           || (old(tasks)[id].status.InProgress? && old(tasks)[id].leaseExpires < now))
      ensures ok ==> id in tasks && tasks[id] == old(tasks)[id].(
          status := InProgress, leasedBy := Some(ourKey), leaseExpires := now + leaseDuration, claimedAt := Some(now),
          commitment := Some(Commitment(ourKey, id, now)), version := old(tasks)[id].version + 1)
      ensures !ok ==> tasks == old(tasks) && outbox == old(outbox) && tasksRescued == old(tasksRescued)
      ensures ok ==>
        var copy := Claim(old(tasks)[id], ourKey, now, leaseDuration).value;
        && tasks == old(tasks)[id := copy]
        && Gossiped(old(outbox), outbox, ourKey, copy, peers, mesh)
        && tasksRescued == old(tasksRescued) + if Lapsed(old(tasks)[id], now) then 1 else 0
    {
      if id !in tasks || tasks[id].status.Completed? {
        return false;
      }
      var task := tasks[id];
      var wasOrphaned := task.status.InProgress? && task.leaseExpires < now;
      if task.status.InProgress? && !wasOrphaned {
        return false;
      }
      if wasOrphaned {
        tasksRescued := tasksRescued + 1;
      }
      task := task.(status := InProgress, leasedBy := Some(ourKey), leaseExpires := now + leaseDuration,
                    claimedAt := Some(now), commitment := Some(Commitment(ourKey, id, now)), version := task.version + 1);
      tasks := tasks[id := task];
      GossipTask(task);
      ok := true;
    }

    method RenewLease(id: TaskId, now: real) returns (ok: bool)
      requires Valid()
      modifies this`tasks, this`outbox
      ensures Valid()
      ensures ok <==> id in old(tasks) && Active(old(tasks)[id], ourKey)
      ensures ok <==> id in old(tasks) && old(tasks)[id].leasedBy == Some(ourKey) && old(tasks)[id].status.InProgress?
      ensures ok ==> id in tasks && tasks[id] == old(tasks)[id].(leaseExpires := now + leaseDuration, version := old(tasks)[id].version + 1)
      ensures !ok ==> tasks == old(tasks) && outbox == old(outbox)
      ensures ok ==>
        var copy := Refreshed(old(tasks)[id], now, leaseDuration);
        tasks == old(tasks)[id := copy] && Gossiped(old(outbox), outbox, ourKey, copy, peers, mesh)
    {
      if id !in tasks || tasks[id].leasedBy != Some(ourKey) || !tasks[id].status.InProgress? {
        return false;
      }
      var task := tasks[id].(leaseExpires := now + leaseDuration, version := tasks[id].version + 1);
      tasks := tasks[id := task];
      GossipTask(task);
      ok := true;
    }

    method ReleaseLease(id: TaskId) returns (ok: bool)
      requires Valid()
      modifies this`tasks, this`outbox
      ensures Valid()
      ensures ok <==> id in old(tasks) && Release(old(tasks)[id], ourKey).Some?
      ensures ok <==> id in old(tasks) && old(tasks)[id].leasedBy == Some(ourKey)
      ensures ok ==> id in tasks && tasks[id] == old(tasks)[id].(
          status := Pending, leasedBy := None, leaseExpires := 0.0, version := old(tasks)[id].version + 1)
      ensures !ok ==> tasks == old(tasks) && outbox == old(outbox)
      ensures ok ==>
        var copy := Release(old(tasks)[id], ourKey).value;
        tasks == old(tasks)[id := copy] && Gossiped(old(outbox), outbox, ourKey, copy, peers, mesh)
    {
      if id !in tasks || tasks[id].leasedBy != Some(ourKey) {
        return false;
      }
      var task := tasks[id].(status := Pending, leasedBy := None, leaseExpires := 0.0, version := tasks[id].version + 1);
      tasks := tasks[id := task];
      GossipTask(task);
      ok := true;
    }

    method CompleteTask(id: TaskId, result: string, now: real) returns (ok: bool)
      requires Valid()
      modifies this`tasks, this`outbox, this`notices
      ensures Valid()
      ensures ok <==> id in old(tasks) && Complete(old(tasks)[id], ourKey, result, now).Some?
      ensures ok <==> id in old(tasks) && old(tasks)[id].leasedBy == Some(ourKey)
      ensures ok ==> id in tasks && tasks[id] == old(tasks)[id].(
          status := Completed, result := Some(result), completedAt := Some(now), resultHash := Some(ResultHash(result)),
          version := old(tasks)[id].version + 1)
      ensures !ok ==> tasks == old(tasks) && outbox == old(outbox) && notices == old(notices)
      ensures ok ==>
        var copy := Complete(old(tasks)[id], ourKey, result, now).value;
        && tasks == old(tasks)[id := copy]
        && Gossiped(old(outbox), outbox, ourKey, copy, peers, mesh)
        && notices == old(notices) +
             if copy.identity.submitterKey.Some? then [Notice(copy.identity.submitterKey.value, id, result)] else []
    {
      if id !in tasks || tasks[id].leasedBy != Some(ourKey) {
        return false;
      }
      var task := tasks[id].(status := Completed, result := Some(result), completedAt := Some(now),
                             resultHash := Some(ResultHash(result)), version := tasks[id].version + 1);
      tasks := tasks[id := task];
      GossipTask(task);
      if task.identity.submitterKey.Some? {
        notices := notices + [Notice(task.identity.submitterKey.value, id, result)];
      }
      ok := true;
    }

    /** Gossip the current copies of several tasks, one after the other. */
    method GossipEach(ids: seq<TaskId>)
      requires Valid() && forall id :: id in ids ==> id in tasks
      modifies this`outbox
      ensures GossipedAll(old(outbox), outbox, ourKey, Copies(tasks, ids), peers, mesh)
    {
      assert Copies(tasks, ids[..0]) == [];
      for i := 0 to |ids|
        invariant GossipedAll(old(outbox), outbox, ourKey, Copies(tasks, ids[..i]), peers, mesh)
      {
        ghost var middle := outbox;
        GossipTask(tasks[ids[i]]);
        assert Front(Copies(tasks, ids[..i + 1])) == Copies(tasks, ids[..i]);
      }
      assert ids[..|ids|] == ids;
    }

    /** These tasks were gossiped once each, as they stand now, and nothing else. */
    ghost predicate LeasesGossiped(leases: set<TaskId>, sent: seq<Envelope>)
      reads this
    {
      && leases <= tasks.Keys
      && exists ids :: IsListing(ids, leases) && GossipedAll(sent, outbox, ourKey, Copies(tasks, ids), peers, mesh)
    }

    /** The locked part of the method below it. */
    method RefreshLeases(now: real) returns (recovered: seq<TaskId>)
      requires Valid()
      modifies this`tasks
      ensures Valid() && tasks == RecoveredAll(old(tasks), ourKey, now, leaseDuration)
      ensures IsListing(recovered, Leases(old(tasks), ourKey))
    {
      var todo := tasks.Keys;
      ghost var leases := Leases(tasks, ourKey);
      recovered := [];
      while todo != {}
        invariant todo <= old(tasks).Keys == tasks.Keys
        invariant forall id :: id in todo ==> tasks[id] == old(tasks)[id]
        invariant forall id :: id in tasks && id !in todo ==> tasks[id] == Recovered(old(tasks)[id], ourKey, now, leaseDuration)
        invariant IsListing(recovered, leases - todo)
      {
        var id :| id in todo;
        todo := todo - {id};
        assert leases - todo == leases - todo - {id} + if id in leases then {id} else {};
        if tasks[id].leasedBy == Some(ourKey) && tasks[id].status.InProgress? {
          var task := tasks[id].(leaseExpires := now + leaseDuration, version := tasks[id].version + 1);
          tasks := tasks[id := task];
          ListingGrows(recovered, leases - todo - {id}, id);
          recovered := recovered + [id];
        }
      }
      assert leases - todo == leases;
      assert tasks == RecoveredAll(old(tasks), ourKey, now, leaseDuration);
    }

    method RecoverIdentity(now: real) returns (count: nat)
      requires Valid()
      modifies this`tasks, this`outbox
      ensures Valid() && tasks == RecoveredAll(old(tasks), ourKey, now, leaseDuration)
      ensures forall id :: id in old(tasks) ==> (id in tasks && tasks[id] ==
        if old(tasks)[id].leasedBy == Some(ourKey) && old(tasks)[id].status.InProgress?
        then old(tasks)[id].(leaseExpires := now + leaseDuration, version := old(tasks)[id].version + 1)
        else old(tasks)[id])
      ensures count == |Leases(old(tasks), ourKey)|
      ensures LeasesGossiped(Leases(old(tasks), ourKey), old(outbox))
    {
      var recovered := RefreshLeases(now);
      GossipEach(recovered);
      count := |recovered|;
      CountDistinct(recovered, Leases(old(tasks), ourKey));
    }

    /** The locked part of the method below it. */
    method FreeLeases() returns (released: seq<TaskId>)
      requires Valid()
      modifies this`tasks
      ensures Valid() && tasks == ShutDownAll(old(tasks), ourKey)
      ensures IsListing(released, Leases(old(tasks), ourKey))
    {
      var todo := tasks.Keys;
      ghost var leases := Leases(tasks, ourKey);
      released := [];
      while todo != {}
        invariant todo <= old(tasks).Keys == tasks.Keys
        invariant forall id :: id in todo ==> tasks[id] == old(tasks)[id]
        invariant forall id :: id in tasks && id !in todo ==> tasks[id] == ShutDown(old(tasks)[id], ourKey)
        invariant IsListing(released, leases - todo)
      {
        var id :| id in todo;
        todo := todo - {id};
        assert leases - todo == leases - todo - {id} + if id in leases then {id} else {};
        if tasks[id].leasedBy == Some(ourKey) && tasks[id].status.InProgress? {
          var task := tasks[id].(status := Pending, leasedBy := None, leaseExpires := 0.0, version := tasks[id].version + 1);
          tasks := tasks[id := task];
          ListingGrows(released, leases - todo - {id}, id);
          released := released + [id];
        }
      }
      assert leases - todo == leases;
      assert tasks == ShutDownAll(old(tasks), ourKey);
    }

    method ReleaseAllLeases() returns (count: nat)
      requires Valid()
      modifies this`tasks, this`outbox
      ensures Valid() && tasks == ShutDownAll(old(tasks), ourKey)
      ensures forall id :: id in old(tasks) ==> (id in tasks && tasks[id] ==
        if old(tasks)[id].leasedBy == Some(ourKey) && old(tasks)[id].status.InProgress?
        then old(tasks)[id].(status := Pending, leasedBy := None, leaseExpires := 0.0, version := old(tasks)[id].version + 1)
        else old(tasks)[id])
      ensures count == |Leases(old(tasks), ourKey)|
      ensures LeasesGossiped(Leases(old(tasks), ourKey), old(outbox))
    {
      var released := FreeLeases();
      GossipEach(released);
      count := |released|;
      CountDistinct(released, Leases(old(tasks), ourKey));
    }

    /** The tasks passing a test, each once. */
    ghost predicate Selects(out: seq<Task>, test: Task -> bool)
      reads this
    {
      && (forall i, j :: 0 <= i < j < |out| ==> out[i].taskId != out[j].taskId)
      && (forall t :: t in out <==> t.taskId in tasks && tasks[t.taskId] == t && test(t))
    }

    method GetClaimableTasks(now: real) returns (out: seq<Task>)
      requires Valid()
      ensures Selects(out, t => Claimable(t, ourKey, now))
      ensures forall t :: t in out <==> (t.taskId in tasks && tasks[t.taskId] == t
        && (t.status.Pending? || (t.status.InProgress? && t.leaseExpires < now && t.leasedBy != Some(ourKey))))
    {
      out := [];
      var todo := tasks.Keys;
      while todo != {}
        invariant todo <= tasks.Keys
        invariant forall t :: t in out <==> t.taskId in tasks && t.taskId !in todo && tasks[t.taskId] == t && Claimable(t, ourKey, now)
        invariant forall i, j :: 0 <= i < j < |out| ==> out[i].taskId != out[j].taskId
      {
        var id :| id in todo;
        todo := todo - {id};
        var t := tasks[id];
        if t.status.Pending? {
          out := out + [t];
        } else if t.status.InProgress? && t.leaseExpires < now && t.leasedBy != Some(ourKey) {
          out := out + [t];
        }
      }
    }

    method GetTasksNeedingRenewal(now: real) returns (out: seq<Task>)
      requires Valid()
      ensures Selects(out, RenewalDue(ourKey, now, renewThreshold))
      ensures forall t :: t in out <==> (t.taskId in tasks && tasks[t.taskId] == t
        && t.status.InProgress? && t.leasedBy == Some(ourKey) && t.leaseExpires - now < renewThreshold)
    {
      out := [];
      var todo := tasks.Keys;
      while todo != {}
        invariant todo <= tasks.Keys
        invariant forall t :: t in out <==>
          t.taskId in tasks && t.taskId !in todo && tasks[t.taskId] == t && NeedsRenewal(t, ourKey, now, renewThreshold)
        invariant forall i, j :: 0 <= i < j < |out| ==> out[i].taskId != out[j].taskId
      {
        var id :| id in todo;
        todo := todo - {id};
        var t := tasks[id];
        if t.status.InProgress? && t.leasedBy == Some(ourKey) && t.leaseExpires - now < renewThreshold {
          out := out + [t];
        }
      }
    }

    method GetMyActiveTasks() returns (out: seq<Task>)
      requires Valid()
      ensures Selects(out, t => Active(t, ourKey))
      ensures forall t :: t in out <==> (t.taskId in tasks && tasks[t.taskId] == t
        && t.leasedBy == Some(ourKey) && t.status.InProgress?)
    {
      out := [];
      var todo := tasks.Keys;
      while todo != {}
        invariant todo <= tasks.Keys
        invariant forall t :: t in out <==> t.taskId in tasks && t.taskId !in todo && tasks[t.taskId] == t && Active(t, ourKey)
        invariant forall i, j :: 0 <= i < j < |out| ==> out[i].taskId != out[j].taskId
      {
        var id :| id in todo;
        todo := todo - {id};
        var t := tasks[id];
        if t.leasedBy == Some(ourKey) && t.status.InProgress? {
          out := out + [t];
        }
      }
    }

    method HandleLedgerUpdate(update: LedgerUpdate)
      requires Valid()
      modifies this`tasks, this`outbox, this`seenIds
      ensures Valid()
      ensures seenIds == if update.msgId == "" || update.msgId in old(seenIds) then old(seenIds)
                         else Remember(old(seenIds), update.msgId)
      ensures tasks == if Accepted(update, old(seenIds)) then Absorb(old(tasks), update.task.value) else old(tasks)
      ensures var changed := Accepted(update, old(seenIds))
            && Receive(Lookup(old(tasks), update.task.value.taskId), update.task.value).changed;
        PassedOn(old(outbox), outbox, changed, update, peers, mesh)
      ensures update.signature.Forged? || update.msgId == "" || update.msgId in old(seenIds) || update.task.None?
        ==> tasks == old(tasks) && outbox == old(outbox)
      ensures !update.signature.Forged? && update.msgId != "" && update.msgId !in old(seenIds) && update.task.Some?
        ==> tasks == old(tasks)[update.task.value.taskId :=
                       Receive(Lookup(old(tasks), update.task.value.taskId), update.task.value).kept]
    {
      if update.msgId == "" || update.msgId in seenIds {
        return;
      }
      seenIds := Remember(seenIds, update.msgId);
      if !Verifies(update.signature) || update.task.None? {
        return;
      }
      var incoming := update.task.value;
      var changed := false;
      if incoming.taskId !in tasks {
        tasks := tasks[incoming.taskId := incoming];
        changed := true;
      } else {
        var existing := tasks[incoming.taskId];
        if existing.status.Completed? {
        } else if incoming.version > existing.version {
          tasks := tasks[incoming.taskId := incoming];
          changed := true;
        } else if incoming.status.Completed? && !existing.status.Completed? {
          tasks := tasks[incoming.taskId := incoming];
          changed := true;
        }
      }
      if changed {
        var hops := update.hops - 1;
        if hops > 0 {
          FanoutRaw(update.(hops := hops));
        }
      }
    }
  }
}
