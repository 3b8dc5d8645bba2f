/**
 The runtime object of one node. Every step that the program takes under a lock, or
 between two pauses, is a method shown to be one step of the cluster machine; the scan as
 a whole is described for the case that nothing interleaves with it, and as a series of
 such steps.
 */
module Executor {
  import opened Options
  import opened Payloads
  import opened Shamir
  import opened Tasks
  import opened Lists
  import opened Ledger
  import opened ThresholdCipher
  import opened Cluster
  import opened Runtime

  /** These copies refreshed. */
  function RefreshedSome(tasks: map<TaskId, Task>, ids: set<TaskId>, now: real, duration: real): map<TaskId, Task> {
    map id | id in tasks :: if id in ids then Refreshed(tasks[id], now, duration) else tasks[id]
  }

  function DueForRenewal(tasks: map<TaskId, Task>, me: Key, now: real, renewThreshold: real): set<TaskId> {
    set id | id in tasks && NeedsRenewal(tasks[id], me, now, renewThreshold)
  }

  function ClaimedOr(t: Task, me: Key, now: real, duration: real): Task {
    var r := Claim(t, me, now, duration);
    if r.Some? then r.value else t
  }

  /** These copies claimed. */
  function ClaimedSome(tasks: map<TaskId, Task>, ids: set<TaskId>, me: Key, now: real, duration: real): map<TaskId, Task> {
    map id | id in tasks :: if id in ids then ClaimedOr(tasks[id], me, now, duration) else tasks[id]
  }

  /** What a scan claims: the claimable, eligible tasks not already executing. */
  function Taken(tasks: map<TaskId, Task>, executing: set<TaskId>, site: Site, m: Surroundings, me: Key, now: real): set<TaskId>
    requires site.numShards > 0
  {
    set id | id in tasks && id !in executing && Claimable(tasks[id], me, now) && Eligible(site, m, tasks[id])
  }

  ghost function IdSet(ids: seq<TaskId>): set<TaskId> {
    set id | id in ids
  }

  /** One new thread per task, in this order, each marked as executing. */
  ghost predicate Started(n: Node, n': Node, ids: seq<TaskId>) {
    && n'.executing == n.executing + IdSet(ids)
    && n'.spawned == n.spawned + |ids|
    && (forall th :: th in n'.threads <==> th in n.threads || n.spawned <= th < n'.spawned)
    && (forall th :: th in n.threads && th < n.spawned ==> n'.threads[th] == n.threads[th])
    && (forall th :: n.spawned <= th < n'.spawned ==> n'.threads[th] == Thread(ids[th - n.spawned], Settling))
  }

  ghost function TaskIds(tasks: seq<Task>): set<TaskId> {
    set t | t in tasks :: t.taskId
  }

  /** The ids of the tasks not in the set, in order. */
  function Skipping(tasks: seq<Task>, executing: set<TaskId>): seq<TaskId> {
    if |tasks| == 0 then []
    else
      var last := tasks[|tasks| - 1].taskId;
      Skipping(tasks[..|tasks| - 1], executing) + if last in executing then [] else [last]
  }

  lemma NextId(tasks: seq<Task>, i: nat)
    requires i < |tasks| && DifferentTasks(tasks)
    ensures tasks[i].taskId !in TaskIds(tasks[..i])
    ensures TaskIds(tasks[..i + 1]) == TaskIds(tasks[..i]) + {tasks[i].taskId}
  {
    assert tasks[..i + 1] == tasks[..i] + [tasks[i]];
    assert tasks[i] in tasks[..i + 1];
  }

  lemma RefreshNone(tasks: map<TaskId, Task>, now: real, duration: real)
    ensures RefreshedSome(tasks, TaskIds([]), now, duration) == tasks
  {}

  lemma RefreshOneMore(tasks: map<TaskId, Task>, ids: set<TaskId>, id: TaskId, now: real, duration: real)
    requires id in tasks && id !in ids
    ensures RefreshedSome(tasks, ids + {id}, now, duration)
         == RefreshedSome(tasks, ids, now, duration)[id := Refreshed(tasks[id], now, duration)]
    ensures id in RefreshedSome(tasks, ids, now, duration) && RefreshedSome(tasks, ids, now, duration)[id] == tasks[id]
  {}

  lemma ClaimOneMore(tasks: map<TaskId, Task>, ids: set<TaskId>, id: TaskId, me: Key, now: real, duration: real)
    requires id in tasks && id !in ids
    ensures ClaimedSome(tasks, ids + {id}, me, now, duration)
         == ClaimedSome(tasks, ids, me, now, duration)[id := ClaimedOr(tasks[id], me, now, duration)]
    ensures ClaimedSome(tasks, ids, me, now, duration).Keys == tasks.Keys
    ensures ClaimedSome(tasks, ids, me, now, duration)[id] == tasks[id]
  {
    hide ClaimedOr;
  }

  /** The due tasks as they were, each once. */
  ghost predicate IsDue(due: seq<Task>, tasks: map<TaskId, Task>, me: Key, now: real, renewThreshold: real) {
    && DifferentTasks(due)
    && forall t :: t in due <==> t.taskId in tasks && tasks[t.taskId] == t && NeedsRenewal(t, me, now, renewThreshold)
  }

  ghost function RefreshedEach(tasks: seq<Task>, now: real, duration: real): (r: seq<Task>)
    ensures |r| == |tasks|
  {
    seq(|tasks|, i requires 0 <= i < |tasks| => Refreshed(tasks[i], now, duration))
  }

  /** The claimed copies of these tasks, in this order. */
  ghost function ClaimedEach(tasks: map<TaskId, Task>, ids: seq<TaskId>, me: Key, now: real, duration: real): (r: seq<Task>)
    requires forall id :: id in ids ==> id in tasks
    ensures |r| == |ids|
  {
    seq(|ids|, i requires 0 <= i < |ids| => ClaimedOr(tasks[ids[i]], me, now, duration))
  }

  lemma NextRefreshed(tasks: seq<Task>, i: nat, now: real, duration: real)
    requires i < |tasks|
    ensures RefreshedEach(tasks[..i + 1], now, duration) == RefreshedEach(tasks[..i], now, duration) + [Refreshed(tasks[i], now, duration)]
  {}

  lemma NextClaimed(tasks: map<TaskId, Task>, ids: seq<TaskId>, id: TaskId, me: Key, now: real, duration: real)
    requires (forall x :: x in ids ==> x in tasks) && id in tasks
    ensures ClaimedEach(tasks, ids + [id], me, now, duration) == ClaimedEach(tasks, ids, me, now, duration) + [ClaimedOr(tasks[id], me, now, duration)]
  {
    hide ClaimedOr;
  }

  lemma NothingGossiped(sent: seq<Envelope>, me: Key, now: real, duration: real, peers: seq<Key>, mesh: set<Key>)
    ensures GossipedAll(sent, sent, me, [], peers, mesh) && RefreshedEach([], now, duration) == []
  {}

  lemma OneMoreGossiped(before: seq<Envelope>, middle: seq<Envelope>, after: seq<Envelope>, me: Key, copies: seq<Task>, copy: Task,
                        peers: seq<Key>, mesh: set<Key>)
    requires GossipedAll(before, middle, me, copies, peers, mesh) && Gossiped(middle, after, me, copy, peers, mesh)
    ensures GossipedAll(before, after, me, copies + [copy], peers, mesh)
  {
    hide Gossiped;
    assert Front(copies + [copy]) == copies && Final(copies + [copy]) == copy;
  }

  lemma NothingStarted(n: Node, me: Key, now: real, duration: real)
    ensures Skipping([], n.executing) == [] && Started(n, n, [])
    ensures ClaimedSome(n.tasks, IdSet([]), me, now, duration) == n.tasks
  {}

  lemma {:induction false} SkippedIds(tasks: seq<Task>, executing: set<TaskId>)
    ensures IdSet(Skipping(tasks, executing)) == TaskIds(tasks) - executing
  {
    if |tasks| > 0 {
      var front, last := tasks[..|tasks| - 1], tasks[|tasks| - 1];
      SkippedIds(front, executing);
      assert tasks == front + [last];
      IdSetGrows(Skipping(front, executing), last.taskId);
      TaskIdsGrow(front, last);
    }
  }

  lemma IdSetGrows(ids: seq<TaskId>, id: TaskId)
    ensures IdSet(ids + [id]) == IdSet(ids) + {id} && ids + [] == ids
  {
    assert forall x :: x in ids + [id] <==> x in ids || x == id;
  }

  lemma TaskIdsGrow(tasks: seq<Task>, t: Task)
    ensures TaskIds(tasks + [t]) == TaskIds(tasks) + {t.taskId}
  {
    assert forall x :: x in tasks + [t] <==> x in tasks || x == t;
  }

  /** The next candidate is untouched so far. */
  lemma NextCandidate(was: Node, before: Node, candidates: seq<Task>, i: nat, started: seq<TaskId>, me: Key, now: real, duration: real)
    requires i < |candidates| && DifferentTasks(candidates) && candidates[i].taskId in was.tasks
    requires started == Skipping(candidates[..i], was.executing) && Started(was, before, started)
    requires before.tasks == ClaimedSome(was.tasks, IdSet(started), me, now, duration)
    ensures var id := candidates[i].taskId;
      && id !in IdSet(started)
      && (id in before.executing <==> id in was.executing)
      && id in before.tasks && before.tasks[id] == was.tasks[id]
      && Skipping(candidates[..i + 1], was.executing) == started + if id in was.executing then [] else [id]
  {
    hide ClaimedOr, IdSet, TaskIds;
    NextId(candidates, i);
    SkippedIds(candidates[..i], was.executing);
    assert candidates[..i + 1][..i] == candidates[..i];
    ClaimOneMore(was.tasks, IdSet(started), candidates[i].taskId, me, now, duration);
  }

  lemma AfterDispatch(was: Node, before: Node, after: Node, started: seq<TaskId>, id: TaskId, me: Key, now: real, duration: real)
    requires Started(was, before, started) && Did(before, after, me, now, ScanClaim(id, duration))
    requires before.tasks == ClaimedSome(was.tasks, IdSet(started), me, now, duration)
    requires id in was.tasks && id !in IdSet(started) && before.tasks[id] == was.tasks[id] && was.tasks[id].taskId == id
    ensures Started(was, after, started + [id])
    ensures after.tasks == ClaimedSome(was.tasks, IdSet(started + [id]), me, now, duration)
    ensures id in after.tasks && after.tasks[id] == ClaimedOr(was.tasks[id], me, now, duration)
  {
    hide ClaimedSome, IdSet;
    IdSetGrows(started, id);
    ClaimOneMore(was.tasks, IdSet(started), id, me, now, duration);
  }

  ghost predicate PriorityOrdered(site: Site, tasks: seq<Task>)
    requires site.numShards > 0
  {
    forall i, j :: 0 <= i < j < |tasks| ==> Priority(site, tasks[i]) <= Priority(site, tasks[j])
  }

  /** Home tasks, then backups, then the rest. */
  ghost predicate InOrder(site: Site, tasks: map<TaskId, Task>, ids: seq<TaskId>)
    requires site.numShards > 0
  {
    && (forall id :: id in ids ==> id in tasks)
    && (forall i, j :: 0 <= i < j < |ids| ==> Priority(site, tasks[ids[i]]) <= Priority(site, tasks[ids[j]]))
  }

  lemma {:induction false} SkippingOrdered(site: Site, tasks: map<TaskId, Task>, candidates: seq<Task>, executing: set<TaskId>)
    requires site.numShards > 0 && DifferentTasks(candidates) && PriorityOrdered(site, candidates)
    requires forall t :: t in candidates ==> t.taskId in tasks && tasks[t.taskId] == t
    ensures NoRepeats(Skipping(candidates, executing)) && InOrder(site, tasks, Skipping(candidates, executing))
  {
    hide Priority;
    if |candidates| > 0 {
      var front, last := candidates[..|candidates| - 1], candidates[|candidates| - 1];
      SkippingOrdered(site, tasks, front, executing);
      var ids := Skipping(front, executing);
      SkippedIds(front, executing);
      forall i | 0 <= i < |ids|
        ensures ids[i] != last.taskId && Priority(site, tasks[ids[i]]) <= Priority(site, last)
      {
        assert ids[i] in IdSet(ids);
        var t :| t in front && t.taskId == ids[i];
        assert last in candidates;
      }
    }
  }

  lemma ListedIds(ids: seq<TaskId>)
    requires NoRepeats(ids)
    ensures IsListing(ids, IdSet(ids))
  {}

  lemma RefreshKeepsEligible(site: Site, m: Surroundings, t: Task, now: real, duration: real)
    requires site.numShards > 0
    ensures Eligible(site, m, Refreshed(t, now, duration)) <==> Eligible(site, m, t)
    ensures Priority(site, Refreshed(t, now, duration)) == Priority(site, t)
  {}

  lemma SameOrder(site: Site, earlier: map<TaskId, Task>, renewed: map<TaskId, Task>, ids: seq<TaskId>, due: set<TaskId>, now: real, duration: real)
    requires site.numShards > 0 && renewed == RefreshedSome(earlier, due, now, duration) && InOrder(site, renewed, ids)
    ensures InOrder(site, earlier, ids)
  {
    forall id | id in earlier
      ensures id in renewed && Priority(site, renewed[id]) == Priority(site, earlier[id])
    {
      RefreshKeepsEligible(site, Alone, earlier[id], now, duration);
    }
    assert forall id :: id in ids ==> id in earlier;
    hide Priority, RefreshedSome;
    forall i, j | 0 <= i < j < |ids|
      ensures Priority(site, earlier[ids[i]]) <= Priority(site, earlier[ids[j]])
    {
      assert ids[i] in ids && ids[j] in ids;
      assert Priority(site, renewed[ids[i]]) <= Priority(site, renewed[ids[j]]);
    }
  }

  /** The node took these steps, one after the other. */
  ghost predicate Took(n: Node, n': Node, me: Key, now: real, actions: seq<Action>)
    decreases |actions|
  {
    if |actions| == 0 then n' == n
    else exists middle :: Took(n, middle, me, now, Front(actions)) && Did(middle, n', me, now, Final(actions))
  }

  lemma TookOneMore(n: Node, middle: Node, n': Node, me: Key, now: real, actions: seq<Action>, a: Action)
    requires Took(n, middle, me, now, actions) && Did(middle, n', me, now, a)
    ensures Took(n, n', me, now, actions + [a])
  {
    hide Did;
    assert Front(actions + [a]) == actions && Final(actions + [a]) == a;
  }

  lemma {:induction false} TookBoth(n: Node, middle: Node, n': Node, me: Key, now: real, first: seq<Action>, second: seq<Action>)
    requires Took(n, middle, me, now, first) && Took(middle, n', me, now, second)
    ensures Took(n, n', me, now, first + second)
    decreases |second|
  {
    hide Did;
    if |second| == 0 {
      assert first + second == first;
    } else {
      var before :| Took(middle, before, me, now, Front(second)) && Did(before, n', me, now, Final(second));
      TookBoth(n, middle, before, me, now, first, Front(second));
      TookOneMore(n, before, n', me, now, first + Front(second), Final(second));
      assert first + Front(second) + [Final(second)] == first + second;
    }
  }

  lemma TookNothing(n: Node, me: Key, now: real, duration: real)
    ensures Took(n, n, me, now, []) && Renewals([], duration) == [] && Claims([], duration) == []
  {}

  /** The steps of a scan: the renewals, then the claims. */
  function Renewals(due: seq<Task>, duration: real): (r: seq<Action>)
    ensures |r| == |due|
  {
    seq(|due|, i requires 0 <= i < |due| => RenewLease(due[i].taskId, duration))
  }

  function Claims(ids: seq<TaskId>, duration: real): (r: seq<Action>)
    ensures |r| == |ids|
  {
    seq(|ids|, i requires 0 <= i < |ids| => ScanClaim(ids[i], duration))
  }

  lemma NextRenewal(due: seq<Task>, i: nat, duration: real)
    requires i < |due|
    ensures Renewals(due[..i + 1], duration) == Renewals(due[..i], duration) + [RenewLease(due[i].taskId, duration)]
  {}

  lemma NextClaim(ids: seq<TaskId>, id: TaskId, duration: real)
    ensures Claims(ids + [id], duration) == Claims(ids, duration) + [ScanClaim(id, duration)]
  {}

  ghost predicate NewThread(threads: map<nat, Thread>, id: TaskId, before: nat, th: nat) {
    th in threads && th >= before && threads[th].taskId == id
  }

  /** Exactly one of the new threads is for the task, and it is settling. */
  ghost predicate OneThread(threads: map<nat, Thread>, id: TaskId, before: nat) {
    && (exists th :: NewThread(threads, id, before, th) && threads[th].phase.Settling?)
    && (forall t1, t2 :: NewThread(threads, id, before, t1) && NewThread(threads, id, before, t2) ==> t1 == t2)
  }

  lemma StartedThread(was: Node, after: Node, ids: seq<TaskId>, id: TaskId)
    requires Started(was, after, ids) && NoRepeats(ids) && id in ids
    requires forall th :: th in was.threads ==> th < was.spawned
    ensures OneThread(after.threads, id, was.spawned)
  {
    var i :| 0 <= i < |ids| && ids[i] == id;
    var th := was.spawned + i;
    assert NewThread(after.threads, id, was.spawned, th);
  }

  lemma StartedLease(earlier: map<TaskId, Task>, due: set<TaskId>, after: map<TaskId, Task>, ids: set<TaskId>, id: TaskId, me: Key, now: real, duration: real)
    requires id in earlier && id !in due && id in ids && Claim(earlier[id], me, now, duration).Some?
    requires after == ClaimedSome(RefreshedSome(earlier, due, now, duration), ids, me, now, duration)
    ensures id in after && after[id].leasedBy == Some(me) && after[id].status.InProgress? && after[id].leaseExpires == now + duration
  {}

  /** The copy after execution: back to pending for a retry, otherwise completed with the answer. */
  predicate Ended(t: Task, t': Task, outcome: Outcome, answer: Outcome -> string, now: real) {
    if outcome.Retry? then
      t' == t.(status := Pending, leasedBy := None, leaseExpires := 0.0, version := t.version + 1)
    else
      t' == t.(status := Completed, result := Some(answer(outcome)), completedAt := Some(now),
               resultHash := Some(ResultHash(answer(outcome))), version := t.version + 1)
  }

  class AgentRuntime {
    const site: Site
    const ledger: TaskLedger
    var executing: set<TaskId>
    var threads: map<nat, Thread>
    var spawned: nat

    ghost predicate Valid()
      reads this, ledger
    {
      && site.numShards > 0 && ledger.Valid()
      && forall th :: th in threads ==> th < spawned
    }

    function Here(): Node
      reads this, ledger
    {
      Node(ledger.tasks, executing, threads, spawned)
    }

    constructor (where: Site, tasks: TaskLedger)
      requires where.numShards > 0 && tasks.Valid()
      ensures Valid() && site == where && ledger == tasks && Here() == Node(tasks.tasks, {}, map[], 0)
    {
      site, ledger := where, tasks;
      executing, threads, spawned := {}, map[], 0;
    }

    /** The copy as it stands was gossiped, if it was written; otherwise nothing was sent. */
    ghost predicate Announced(sent: seq<Envelope>, id: TaskId, wrote: bool)
      reads ledger
    {
      if wrote then
        id in ledger.tasks && Gossiped(sent, ledger.outbox, ledger.ourKey, ledger.tasks[id], ledger.peers, ledger.mesh)
      else ledger.outbox == sent
    }

    /** The task is ours from now on, for a full lease. */
    ghost predicate ClaimedNow(t: Task, id: TaskId, now: real)
      reads ledger
    {
      id in ledger.tasks && ledger.tasks[id] == t.(
        status := InProgress, leasedBy := Some(ledger.ourKey), leaseExpires := now + ledger.leaseDuration, claimedAt := Some(now),
        commitment := Some(Commitment(ledger.ourKey, id, now)), version := t.version + 1)
    }

    method SpawnThread(id: TaskId, phase: Phase)
      requires Valid()
      modifies this`threads, this`spawned
      ensures Valid() && Here() == Spawn(old(Here()), id, phase)
    {
      threads := threads[spawned := Thread(id, phase)];
      spawned := spawned + 1;
    }

    /** The scan's check, claim and mark for one task. */
    method Dispatch(id: TaskId, now: real) returns (started: bool)
      requires Valid()
      modifies this`executing, this`threads, this`spawned, ledger`tasks, ledger`outbox, ledger`tasksRescued
      ensures Valid()
      ensures started <==> CanDo(old(Here()), ledger.ourKey, now, ScanClaim(id, ledger.leaseDuration))
      ensures if started then Did(old(Here()), Here(), ledger.ourKey, now, ScanClaim(id, ledger.leaseDuration))
              else Here() == old(Here())
      ensures Announced(old(ledger.outbox), id, started)
      ensures started ==> id in old(ledger.tasks) && id !in old(executing) && ClaimedNow(old(ledger.tasks)[id], id, now)
      ensures started ==> executing == old(executing) + {id} && threads == old(threads)[old(spawned) := Thread(id, Settling)]
    {
      if id in executing {
        return false;
      }
      var claimed := ledger.ClaimTask(id, now);
      if !claimed {
        return false;
      }
      executing := executing + {id};
      SpawnThread(id, Settling);
      started := true;
    }

    /** An award from an auction; the thread it starts has yet to pass the gate. */
    method HandleTaskAward(winner: Key, id: TaskId, now: real) returns (started: bool)
      requires Valid()
      modifies this`threads, this`spawned, ledger`tasks, ledger`outbox, ledger`tasksRescued
      ensures Valid()
      ensures started <==> id != "" && winner == ledger.ourKey
                           && CanDo(old(Here()), ledger.ourKey, now, AwardClaim(id, ledger.leaseDuration))
      ensures if started then Did(old(Here()), Here(), ledger.ourKey, now, AwardClaim(id, ledger.leaseDuration))
              else Here() == old(Here())
      ensures Announced(old(ledger.outbox), id, started)
      ensures started ==> id in old(ledger.tasks) && ClaimedNow(old(ledger.tasks)[id], id, now)
      ensures started ==> threads == old(threads)[old(spawned) := Thread(id, AtGate)]
    {
      if id == "" || winner != ledger.ourKey {
        return false;
      }
      started := ledger.ClaimTask(id, now);
      if started {
        SpawnThread(id, AtGate);
      }
    }

    /** An awarded thread enters unless the task is already executing. */
    method PassGate(th: nat, now: real)
      requires Valid() && th in threads && threads[th].phase.AtGate?
      modifies this`executing, this`threads
      ensures Valid() && Did(old(Here()), Here(), ledger.ourKey, now, Action.PassGate(th))
      ensures var id := old(threads)[th].taskId;
        if id in old(executing) then th !in threads && executing == old(executing)
        else threads == old(threads)[th := Thread(id, Settling)] && executing == old(executing) + {id}
    {
      var id := threads[th].taskId;
      if id in executing {
        threads := threads - {th};
        return;
      }
      executing := executing + {id};
      threads := threads[th := Thread(id, Settling)];
    }

    /** After the settling pause: run only if the lease is still ours. */
    method CheckActive(th: nat, now: real) returns (task: Option<Task>)
      requires Valid() && th in threads && threads[th].phase.Settling?
      modifies this`executing, this`threads
      ensures Valid() && Did(old(Here()), Here(), ledger.ourKey, now, Action.CheckActive(th))
      ensures var id := old(threads)[th].taskId;
        if id in ledger.tasks && ledger.tasks[id].leasedBy == Some(ledger.ourKey) && ledger.tasks[id].status.InProgress?
        then task == Some(ledger.tasks[id]) && threads == old(threads)[th := Thread(id, Running)] && executing == old(executing)
        else task == None && threads == old(threads) - {th} && executing == old(executing) - {id}
      ensures var id := old(threads)[th].taskId;
        task == if id in ledger.tasks && Active(ledger.tasks[id], ledger.ourKey) then Some(ledger.tasks[id]) else None
    {
      var id := threads[th].taskId;
      var mine := ledger.GetMyActiveTasks();
      task := None;
      for i := 0 to |mine|
        invariant task.None? ==> forall k :: 0 <= k < i ==> mine[k].taskId != id
        invariant task.Some? ==> task.value in mine && task.value.taskId == id
      {
        if task.None? && mine[i].taskId == id {
          task := Some(mine[i]);
        }
      }
      if id in ledger.tasks && Active(ledger.tasks[id], ledger.ourKey) {
        assert ledger.tasks[id] in mine;
      }
      if task.None? {
        Finish(th);
      } else {
        threads := threads[th := Thread(id, Running)];
      }
    }

    /** The thread ends and clears its mark. */
    method Finish(th: nat)
      requires Valid() && th in threads
      modifies this`executing, this`threads
      ensures Valid() && Here() == End(old(Here()), th)
      ensures threads == old(threads) - {th} && executing == old(executing) - {old(threads)[th].taskId}
    {
      executing := executing - {threads[th].taskId};
      threads := threads - {th};
    }

    /** The last thing a thread does, on every path out of execution. */
    method LeaveThread(th: nat, now: real)
      requires Valid() && th in threads && (threads[th].phase.Leaving? || threads[th].phase.Running?)
      modifies this`executing, this`threads
      ensures Valid() && Did(old(Here()), Here(), ledger.ourKey, now, Leave(th))
      ensures threads == old(threads) - {th} && executing == old(executing) - {old(threads)[th].taskId}
    {
      Finish(th);
    }

    /** What the executor finds in the payload. */
    method Inspect(task: Task, own: Option<Key>, collected: Option<seq<Share>>) returns (outcome: Outcome)
      ensures outcome == OutcomeOf(task, own, collected)
    {
      hide Opened;
      var payload := task.identity.payload;
      if task.identity.thresholdT > 0 && payload.Threshold? {
        if collected.None? {
          return Note(NoCollector);
        }
        var shares := collected.value;
        if |shares| < task.identity.thresholdT {
          return Retry;
        }
        var text := ReconstructAndDecrypt(payload, shares);
        if text.None? {
          return Note(ThresholdFailed);
        }
        payload := Plain(text.value);
      } else if task.identity.encrypted && payload.Sealed? {
        if own.None? {
          return Note(NoKey);
        }
        if own.value != payload.target {
          return Note(HomeOffline);
        }
        payload := Plain(payload.text);
      }
      outcome := Infer(payload);
    }

    /** Runs the task and completes it, or gives the lease back when shares are missing. */
    method ExecuteOne(th: nat, task: Task, own: Option<Key>, collected: Option<seq<Share>>, answer: Outcome -> string, now: real)
      requires Valid() && th in threads && threads[th].phase.Running? && threads[th].taskId == task.taskId
      modifies this`threads, ledger`tasks, ledger`outbox, ledger`notices
      ensures Valid()
      ensures var o := OutcomeOf(task, own, collected);
        Did(old(Here()), Here(), ledger.ourKey, now, if o.Retry? then CallRelease(th) else CallComplete(th, answer(o)))
      ensures Announced(old(ledger.outbox), task.taskId,
                        task.taskId in old(ledger.tasks) && HeldBy(old(ledger.tasks)[task.taskId], ledger.ourKey))
      ensures var id := task.taskId;
        if id in old(ledger.tasks) && old(ledger.tasks)[id].leasedBy == Some(ledger.ourKey) then
          id in ledger.tasks && Ended(old(ledger.tasks)[id], ledger.tasks[id], OutcomeOf(task, own, collected), answer, now)
        else ledger.tasks == old(ledger.tasks)
    {
      hide OutcomeOf;
      var outcome := Inspect(task, own, collected);
      if outcome.Retry? {
        var released := ledger.ReleaseLease(task.taskId);
      } else {
        var completed := ledger.CompleteTask(task.taskId, answer(outcome), now);
      }
      threads := threads[th := Thread(task.taskId, Leaving)];
    }

    // Ledger steps.

    method Submit(id: TaskId, identity: Identity, now: real)
      requires Valid()
      modifies ledger`tasks, ledger`outbox
      ensures Valid() && Did(old(Here()), Here(), ledger.ourKey, now, Action.Submit(id, identity))
      ensures ledger.tasks == old(ledger.tasks)[id := Task(id, identity, Pending, None, 0.0, None, 1, None, None, None, None)]
      ensures Announced(old(ledger.outbox), id, true)
    {
      ledger.SubmitTask(id, identity);
    }

    method Renew(id: TaskId, now: real)
      requires Valid()
      modifies ledger`tasks, ledger`outbox
      ensures Valid() && Did(old(Here()), Here(), ledger.ourKey, now, RenewLease(id, ledger.leaseDuration))
      ensures var ours := id in old(ledger.tasks) && Active(old(ledger.tasks)[id], ledger.ourKey);
        && Announced(old(ledger.outbox), id, ours)
        && (ours ==> ledger.tasks == old(ledger.tasks)[id := Refreshed(old(ledger.tasks)[id], now, ledger.leaseDuration)])
    {
      var renewed := ledger.RenewLease(id, now);
    }

    /** An update about a copy that some node wrote; without effect if it is a duplicate or forged. */
    method Receive(update: LedgerUpdate, ghost w: Write, now: real)
      requires Valid() && update.task == Some(w.copy)
      modifies ledger`tasks, ledger`outbox, ledger`seenIds
      ensures Valid()
      ensures if Accepted(update, old(ledger.seenIds))
              then Did(old(Here()), Here(), ledger.ourKey, now,
                       Deliver(w, Tasks.Receive(Lookup(old(ledger.tasks), w.copy.taskId), w.copy).changed && update.hops - 1 > 0))
              else Here() == old(Here())
    {
      ledger.HandleLedgerUpdate(update);
    }

    /** A graceful shutdown gives every lease back; the threads are not told. */
    method ShutDown(now: real) returns (released: nat)
      requires Valid()
      modifies ledger`tasks, ledger`outbox
      ensures Valid() && Did(old(Here()), Here(), ledger.ourKey, now, ReleaseAll)
      ensures released == |Leases(old(ledger.tasks), ledger.ourKey)|
    {
      released := ledger.ReleaseAllLeases();
    }

    /** A restart: the threads and marks of the previous run are gone, its leases are taken up again. */
    method Recover(now: real) returns (recovered: nat)
      requires Valid()
      modifies this`executing, this`threads, ledger`tasks, ledger`outbox
      ensures Valid() && Did(old(Here()), Here(), ledger.ourKey, now, Restart(ledger.leaseDuration))
      ensures recovered == |Leases(old(ledger.tasks), ledger.ourKey)|
    {
      executing, threads := {}, map[];
      recovered := ledger.RecoverIdentity(now);
    }

    // The scan.

    /** Every lease of ours with too little time left is renewed, and each renewal gossiped. */
    method RenewDue(now: real) returns (ghost due: seq<Task>)
      requires Valid()
      modifies ledger`tasks, ledger`outbox
      ensures Valid()
      ensures ledger.tasks == RefreshedSome(old(ledger.tasks), DueForRenewal(old(ledger.tasks), ledger.ourKey, now, ledger.renewThreshold),
                                            now, ledger.leaseDuration)
      ensures IsDue(due, old(ledger.tasks), ledger.ourKey, now, ledger.renewThreshold)
      ensures GossipedAll(old(ledger.outbox), ledger.outbox, ledger.ourKey, RefreshedEach(due, now, ledger.leaseDuration),
                          ledger.peers, ledger.mesh)
      ensures Took(old(Here()), Here(), ledger.ourKey, now, Renewals(due, ledger.leaseDuration))
    {
      hide RefreshedSome, TaskIds, Gossiped, GossipedAll, DueForRenewal, RefreshedEach, Took, Did, Renewals;
      TookNothing(Here(), ledger.ourKey, now, ledger.leaseDuration);
      var tasks := ledger.GetTasksNeedingRenewal(now);
      due := tasks;
      DueIds(due, now);
      RefreshNone(ledger.tasks, now, ledger.leaseDuration);
      NothingGossiped(ledger.outbox, ledger.ourKey, now, ledger.leaseDuration, ledger.peers, ledger.mesh);
      for i := 0 to |tasks|
        invariant Valid()
        invariant ledger.tasks == RefreshedSome(old(ledger.tasks), TaskIds(due[..i]), now, ledger.leaseDuration)
        invariant GossipedAll(old(ledger.outbox), ledger.outbox, ledger.ourKey, RefreshedEach(due[..i], now, ledger.leaseDuration),
                              ledger.peers, ledger.mesh)
        invariant Took(old(Here()), Here(), ledger.ourKey, now, Renewals(due[..i], ledger.leaseDuration))
      {
        NextId(due, i);
        RefreshOneMore(old(ledger.tasks), TaskIds(due[..i]), due[i].taskId, now, ledger.leaseDuration);
        assert due[i] in due && Active(ledger.tasks[due[i].taskId], ledger.ourKey);
        ghost var middle, before := ledger.outbox, Here();
        Renew(tasks[i].taskId, now);
        NextRenewal(due, i, ledger.leaseDuration);
        TookOneMore(old(Here()), before, Here(), ledger.ourKey, now, Renewals(due[..i], ledger.leaseDuration),
                    RenewLease(due[i].taskId, ledger.leaseDuration));
        NextRefreshed(due, i, now, ledger.leaseDuration);
        OneMoreGossiped(old(ledger.outbox), middle, ledger.outbox, ledger.ourKey, RefreshedEach(due[..i], now, ledger.leaseDuration),
                        Refreshed(due[i], now, ledger.leaseDuration), ledger.peers, ledger.mesh);
      }
      assert due[..|due|] == due;
    }

    lemma DueIds(due: seq<Task>, now: real)
      requires ledger.Selects(due, RenewalDue(ledger.ourKey, now, ledger.renewThreshold)) && ledger.Valid()
      ensures TaskIds(due) == DueForRenewal(ledger.tasks, ledger.ourKey, now, ledger.renewThreshold)
      ensures DifferentTasks(due)
      ensures forall t :: t in due ==> t.taskId in ledger.tasks && ledger.tasks[t.taskId] == t && Active(t, ledger.ourKey)
      ensures IsDue(due, ledger.tasks, ledger.ourKey, now, ledger.renewThreshold)
    {
      forall id | id in DueForRenewal(ledger.tasks, ledger.ourKey, now, ledger.renewThreshold)
        ensures id in TaskIds(due)
      {
        assert ledger.tasks[id] in due;
      }
    }

    /** Claims the candidates in their order, skipping what already executes, and gossips each claim. */
    method DispatchAll(candidates: seq<Task>, now: real) returns (ghost started: seq<TaskId>)
      requires Valid() && DifferentTasks(candidates)
      requires forall t :: t in candidates ==> t.taskId in ledger.tasks && Claim(ledger.tasks[t.taskId], ledger.ourKey, now, ledger.leaseDuration).Some?
      modifies this`executing, this`threads, this`spawned, ledger`tasks, ledger`outbox, ledger`tasksRescued
      ensures Valid()
      ensures started == Skipping(candidates, old(executing)) && forall id :: id in started ==> id in old(ledger.tasks)
      ensures ledger.tasks == ClaimedSome(old(ledger.tasks), IdSet(started), ledger.ourKey, now, ledger.leaseDuration)
      ensures Started(old(Here()), Here(), started)
      ensures GossipedAll(old(ledger.outbox), ledger.outbox, ledger.ourKey,
                          ClaimedEach(old(ledger.tasks), started, ledger.ourKey, now, ledger.leaseDuration), ledger.peers, ledger.mesh)
      ensures Took(old(Here()), Here(), ledger.ourKey, now, Claims(started, ledger.leaseDuration))
    {
      hide ClaimedSome, IdSet, Skipping, Started, ClaimedOr, ClaimedEach, Gossiped, GossipedAll, Took, Did, Claims;
      TookNothing(Here(), ledger.ourKey, now, ledger.leaseDuration);
      started := [];
      ghost var was := Here();
      NothingStarted(was, ledger.ourKey, now, ledger.leaseDuration);
      NothingGossiped(ledger.outbox, ledger.ourKey, now, ledger.leaseDuration, ledger.peers, ledger.mesh);
      assert ClaimedEach(was.tasks, started, ledger.ourKey, now, ledger.leaseDuration) == [];
      for i := 0 to |candidates|
        invariant Valid()
        invariant started == Skipping(candidates[..i], was.executing) && forall id :: id in started ==> id in was.tasks
        invariant ledger.tasks == ClaimedSome(was.tasks, IdSet(started), ledger.ourKey, now, ledger.leaseDuration)
        invariant Started(was, Here(), started)
        invariant GossipedAll(old(ledger.outbox), ledger.outbox, ledger.ourKey,
                              ClaimedEach(was.tasks, started, ledger.ourKey, now, ledger.leaseDuration), ledger.peers, ledger.mesh)
        invariant Took(was, Here(), ledger.ourKey, now, Claims(started, ledger.leaseDuration))
      {
        ghost var before, middle := Here(), ledger.outbox;
        var id := candidates[i].taskId;
        assert candidates[i] in candidates;
        NextCandidate(was, before, candidates, i, started, ledger.ourKey, now, ledger.leaseDuration);
        var ok := Dispatch(id, now);
        if ok {
          AfterDispatch(was, before, Here(), started, id, ledger.ourKey, now, ledger.leaseDuration);
          NextClaimed(was.tasks, started, id, ledger.ourKey, now, ledger.leaseDuration);
          OneMoreGossiped(old(ledger.outbox), middle, ledger.outbox, ledger.ourKey,
                          ClaimedEach(was.tasks, started, ledger.ourKey, now, ledger.leaseDuration), ledger.tasks[id], ledger.peers, ledger.mesh);
          NextClaim(started, id, ledger.leaseDuration);
          TookOneMore(was, before, Here(), ledger.ourKey, now, Claims(started, ledger.leaseDuration), ScanClaim(id, ledger.leaseDuration));
          started := started + [id];
        }
      }
      assert candidates[..|candidates|] == candidates;
    }

    /** The claimable tasks, picked and ordered; renewing leases does not change the pick. */
    method PickCandidates(m: Surroundings, now: real, ghost earlier: map<TaskId, Task>) returns (candidates: seq<Task>)
      requires Valid()
      requires ledger.tasks == RefreshedSome(earlier, DueForRenewal(earlier, ledger.ourKey, now, ledger.renewThreshold), now, ledger.leaseDuration)
      ensures DifferentTasks(candidates) && PriorityOrdered(site, candidates)
      ensures forall t :: t in candidates ==> t.taskId in ledger.tasks && ledger.tasks[t.taskId] == t && Claimable(t, ledger.ourKey, now)
      ensures TaskIds(candidates) - executing == Taken(earlier, executing, site, m, ledger.ourKey, now)
    {
      hide Candidates, Eligible, TaskIds;
      var claimable := ledger.GetClaimableTasks(now);
      candidates := Candidates(site, m, claimable);
      CandidatesExactly(site, m, claimable);
      forall id
        ensures id in TaskIds(candidates) - executing <==> id in Taken(earlier, executing, site, m, ledger.ourKey, now)
      {
        PickedExactly(candidates, m, now, earlier, id);
      }
    }

    lemma PickedExactly(candidates: seq<Task>, m: Surroundings, now: real, earlier: map<TaskId, Task>, id: TaskId)
      requires Valid()
      requires ledger.tasks == RefreshedSome(earlier, DueForRenewal(earlier, ledger.ourKey, now, ledger.renewThreshold), now, ledger.leaseDuration)
      requires forall t :: t in candidates <==>
        t.taskId in ledger.tasks && ledger.tasks[t.taskId] == t && Claimable(t, ledger.ourKey, now) && Eligible(site, m, t)
      ensures id in TaskIds(candidates) <==>
        id in earlier && Claimable(earlier[id], ledger.ourKey, now) && Eligible(site, m, earlier[id])
    {
      hide Quorate, HomeDead, NoCapablePeer, ReplicaShardFor;
      if id in earlier {
        RefreshKeepsEligible(site, m, earlier[id], now, ledger.leaseDuration);
        if ledger.tasks[id] in candidates {
          assert id in TaskIds(candidates);
        }
      }
    }

    /** The renewals went out first, then the claims, each once. */
    ghost predicate ScanSent(before: seq<Envelope>, due: seq<Task>, renewed: map<TaskId, Task>, started: seq<TaskId>, now: real)
      requires forall id :: id in started ==> id in renewed
      reads ledger
    {
      exists middle ::
        && GossipedAll(before, middle, ledger.ourKey, RefreshedEach(due, now, ledger.leaseDuration), ledger.peers, ledger.mesh)
        && GossipedAll(middle, ledger.outbox, ledger.ourKey,
                       ClaimedEach(renewed, started, ledger.ourKey, now, ledger.leaseDuration), ledger.peers, ledger.mesh)
    }

    /** A claim would be accepted, it is not our own running lease, nothing executes it, and the scan may take it. */
    ghost predicate ToStart(id: TaskId, tasks: map<TaskId, Task>, busy: set<TaskId>, m: Surroundings, now: real)
      requires site.numShards > 0
      reads ledger
    {
      && id in tasks && id !in busy && Claim(tasks[id], ledger.ourKey, now, ledger.leaseDuration).Some?
      && !(tasks[id].leasedBy == Some(ledger.ourKey) && tasks[id].status.InProgress?) && Eligible(site, m, tasks[id])
    }

    /** A task of our own shard that is pending, or whose lease at another node has run out, and that nothing executes. */
    ghost predicate HomeTaskOpen(id: TaskId, tasks: map<TaskId, Task>, busy: set<TaskId>, now: real)
      reads ledger
    {
      && id in tasks && id !in busy && tasks[id].identity.shardId == site.shardId
      && (tasks[id].status.Pending?
          || (tasks[id].status.InProgress? && tasks[id].leaseExpires < now && tasks[id].leasedBy != Some(ledger.ourKey)))
    }

    /** The task is now leased to us for a full lease, and exactly one new thread is settling on it. */
    ghost predicate StartedOnce(id: TaskId, before: nat, now: real)
      reads this, ledger
    {
      && id in ledger.tasks && ledger.tasks[id].leasedBy == Some(ledger.ourKey) && ledger.tasks[id].status.InProgress?
      && ledger.tasks[id].leaseExpires == now + ledger.leaseDuration
      && OneThread(threads, id, before)
    }

    lemma NotDue(tasks: map<TaskId, Task>, id: TaskId, m: Surroundings, busy: set<TaskId>, now: real)
      requires site.numShards > 0 && ToStart(id, tasks, busy, m, now)
      ensures id in tasks && Claim(tasks[id], ledger.ourKey, now, ledger.leaseDuration).Some?
      ensures id !in DueForRenewal(tasks, ledger.ourKey, now, ledger.renewThreshold)
    {
      hide Eligible;
    }

    /** What being taken by the scan means without the functions it is stated by. */
    lemma TakenMeans(m: Surroundings, tasks: map<TaskId, Task>, busy: set<TaskId>, now: real, id: TaskId)
      requires site.numShards > 0
      ensures id in Taken(tasks, busy, site, m, ledger.ourKey, now) <==> ToStart(id, tasks, busy, m, now)
      ensures HomeTaskOpen(id, tasks, busy, now) ==> ToStart(id, tasks, busy, m, now)
    {
      hide Quorate, HomeDead, NoCapablePeer, ReplicaShardFor;
      if id in tasks {
        ClaimableExactly(tasks[id], ledger.ourKey, now, ledger.leaseDuration);
      }
    }

    /** One scan with nothing in between: due leases are renewed, then every task it may take is claimed and gets a thread, home tasks first. */
    method Scan(m: Surroundings, now: real) returns (ghost due: seq<Task>, ghost started: seq<TaskId>)
      requires Valid()
      modifies this`executing, this`threads, this`spawned, ledger`tasks, ledger`outbox, ledger`tasksRescued
      ensures Valid()
      ensures IsDue(due, old(ledger.tasks), ledger.ourKey, now, ledger.renewThreshold)
      ensures IsListing(started, Taken(old(ledger.tasks), old(executing), site, m, ledger.ourKey, now))
      ensures InOrder(site, old(ledger.tasks), started)
      ensures forall id :: id in started <==> ToStart(id, old(ledger.tasks), old(executing), m, now)
      ensures forall id :: HomeTaskOpen(id, old(ledger.tasks), old(executing), now) ==> StartedOnce(id, old(spawned), now)
      ensures var renewed := RefreshedSome(old(ledger.tasks), DueForRenewal(old(ledger.tasks), ledger.ourKey, now, ledger.renewThreshold),
                                           now, ledger.leaseDuration);
        && ledger.tasks == ClaimedSome(renewed, IdSet(started), ledger.ourKey, now, ledger.leaseDuration)
        && Started(old(Here()).(tasks := renewed), Here(), started)
        && (forall id :: id in started ==> id in renewed) && ScanSent(old(ledger.outbox), due, renewed, started, now)
      ensures Took(old(Here()), Here(), ledger.ourKey, now, Renewals(due, ledger.leaseDuration) + Claims(started, ledger.leaseDuration))
    {
      hide Took, Renewals, Claims, HomeTaskOpen, ToStart, OneThread, RefreshedSome, DueForRenewal, ClaimedSome, Skipping, Started, Taken, TaskIds, IdSet, RefreshedEach, ClaimedEach, GossipedAll, IsDue;
      ghost var earlier := ledger.tasks;
      due := RenewDue(now);
      ghost var renewed, middle, rested := ledger.tasks, ledger.outbox, Here();
      var candidates := PickCandidates(m, now, earlier);
      started := DispatchAll(candidates, now);
      SkippedIds(candidates, old(executing));
      SkippingOrdered(site, renewed, candidates, old(executing));
      ListedIds(started);
      forall id
        ensures id in Taken(earlier, old(executing), site, m, ledger.ourKey, now) <==> ToStart(id, earlier, old(executing), m, now)
        ensures HomeTaskOpen(id, earlier, old(executing), now) ==> ToStart(id, earlier, old(executing), m, now)
      {
        TakenMeans(m, earlier, old(executing), now, id);
      }
      forall id | HomeTaskOpen(id, earlier, old(executing), now)
        ensures StartedOnce(id, old(spawned), now)
      {
        StartedThread(rested, Here(), started, id);
        NotDue(earlier, id, m, old(executing), now);
        StartedLease(earlier, DueForRenewal(earlier, ledger.ourKey, now, ledger.renewThreshold), ledger.tasks, IdSet(started), id,
                     ledger.ourKey, now, ledger.leaseDuration);
      }
      SameOrder(site, earlier, renewed, started, DueForRenewal(earlier, ledger.ourKey, now, ledger.renewThreshold), now, ledger.leaseDuration);
      assert ScanSent(old(ledger.outbox), due, renewed, started, now);
      TookBoth(old(Here()), rested, Here(), ledger.ourKey, now, Renewals(due, ledger.leaseDuration), Claims(started, ledger.leaseDuration));
    }
  }
}
