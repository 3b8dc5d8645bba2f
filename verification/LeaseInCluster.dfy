/**
 Timed exclusivity in the cluster machine. A run of the whole cluster is watched for one
 task: the watch records the holder's lease and renewals, and the clock moves only as far
 as the timing assumptions allow. Everything else the cluster does is unrestricted.
 */
module LeaseInCluster {
  import opened Options
  import opened Payloads
  import opened Tasks
  import opened Cluster
  import opened ClusterInvariant
  import opened ExecutorDiscipline
  import Timing = LeaseTiming

  /** A cluster and the watch on one task in it. */
  datatype Watched = Watched(cluster: Cluster, watch: Timing.State)

  function Held(c: Cluster, id: TaskId): map<Key, Task> {
    map i | i in c.nodes && id in c.nodes[i].tasks :: c.nodes[i].tasks[id]
  }

  ghost predicate InTransit(s: Timing.State, t: Task) {
    Timing.OnChain(s, t) || t in s.stale
  }

  /** Every node has the task, and the watch knows every copy held or in flight. */
  ghost predicate Shows(x: Watched, id: TaskId) {
    && (forall i :: i in x.cluster.nodes ==> id in x.cluster.nodes[i].tasks)
    && x.watch.copies == Held(x.cluster, id) && x.watch.now == x.cluster.clock
    && forall w :: w in x.cluster.written && w.copy.taskId == id ==> InTransit(x.watch, w.copy)
  }

  /** The holder keeps running and neither completes nor releases the task; its renewals are its scans. */
  predicate Undisturbed(n: Node, me: Key, a: Action, h: Key, id: TaskId) {
    match a
    case RenewLease(i, _) => me != h || i != id
    case CallComplete(th, _) => me != h || (th in n.threads && n.threads[th].taskId != id)
    case CallRelease(th) => me != h || (th in n.threads && n.threads[th].taskId != id)
    case ReleaseAll => me != h
    case Restart(_) => me != h
    case _ => true
  }

  ghost predicate Scans(x: Watched, x': Watched, h: Key, id: TaskId, b: Timing.Bounds) {
    && h in x.cluster.nodes && id in x.cluster.nodes[h].tasks && h in x.watch.copies
    && (if NeedsRenewal(x.cluster.nodes[h].tasks[id], h, x.cluster.clock, b.renewThreshold)
        then StepBy(x.cluster, x'.cluster, h, RenewLease(id, b.duration))
        else x'.cluster == x.cluster)
    && x'.watch == Timing.Scan(x.watch, h, b)
  }

  ghost predicate Ticks(x: Watched, x': Watched, h: Key, b: Timing.Bounds, dt: real) {
    && Timing.Enabled(x.watch, h, b, Timing.Elapse(dt))
    && x'.cluster == x.cluster.(clock := x.cluster.clock + dt)
    && x'.watch == x.watch.(now := x.watch.now + dt)
  }

  ghost predicate Acts(x: Watched, x': Watched, me: Key, a: Action, h: Key, id: TaskId) {
    && StepBy(x.cluster, x'.cluster, me, a) && Undisturbed(x.cluster.nodes[me], me, a, h, id)
    && x'.watch == x.watch.(copies := Held(x'.cluster, id))
  }

  ghost predicate WatchedNext(x: Watched, x': Watched, h: Key, id: TaskId, b: Timing.Bounds) {
    || Scans(x, x', h, id, b)
    || (exists dt :: Ticks(x, x', h, b, dt))
    || (exists me, a :: Acts(x, x', me, a, h, id))
  }

  ghost predicate Reachable(c: Cluster) {
    exists trace :: |trace| > 0 && IsRun(trace) && c == trace[|trace| - 1]
  }

  lemma ReachableInvariant(c: Cluster)
    requires Reachable(c)
    ensures Invariant(c)
  {
    hide IsRun;
    var trace :| |trace| > 0 && IsRun(trace) && c == trace[|trace| - 1];
    RunKeepsInvariant(trace, |trace| - 1);
  }

  lemma ReachableNext(c: Cluster, c': Cluster)
    requires Reachable(c) && Next(c, c')
    ensures Reachable(c')
  {
    hide Next, Init;
    var trace :| |trace| > 0 && IsRun(trace) && c == trace[|trace| - 1];
    var longer := trace + [c'];
    assert IsRun(longer);
  }

  lemma ReachableStep(c: Cluster, me: Key, a: Action)
    requires Reachable(c) && me in c.nodes && Enabled(c, me, a)
    ensures Reachable(Step(c, me, a))
  {
    hide Reachable, Enabled, Step;
    assert StepBy(c, Step(c, me, a), me, a);
    ReachableNext(c, Step(c, me, a));
  }

  /** From any state the cluster can reach in which all ledgers hold the lease and nothing in flight outranks it. */
  ghost predicate WatchedStart(x: Watched, h: Key, id: TaskId, b: Timing.Bounds) {
    Reachable(x.cluster) && Shows(x, id) && Timing.Start(x.watch, h, b)
  }

  ghost predicate IsWatchedRun(run: seq<Watched>, h: Key, id: TaskId, b: Timing.Bounds) {
    && |run| > 0 && WatchedStart(run[0], h, id, b)
    && forall k :: 0 <= k < |run| - 1 ==> WatchedNext(run[k], run[k + 1], h, id, b)
  }

  // One action.

  /** What the timing invariant says of a node's copy. */
  predicate Kept(t: Task, h: Key, now: real) { Active(t, h) && t.leaseExpires >= now }

  ghost predicate Keyed(tasks: map<TaskId, Task>) {
    forall i :: i in tasks ==> tasks[i].taskId == i
  }

  /** On a kept lease no undisturbed action but a delivery writes. */
  lemma NothingWritten(n: Node, me: Key, now: real, a: Action, h: Key, id: TaskId)
    requires Keyed(n.tasks) && id in n.tasks && Kept(n.tasks[id], h, now) && Undisturbed(n, me, a, h, id)
    requires !a.Deliver? && (a.Submit? ==> a.id != id)
    requires a.CallComplete? || a.CallRelease? ==> a.thread in n.threads
    ensures id !in OwnWrites(n, me, now, a)
    ensures id in TasksAfter(n, me, now, a) && TasksAfter(n, me, now, a)[id] == n.tasks[id]
  {
    if a.CallComplete? || a.CallRelease? {
      var th := n.threads[a.thread];
    }
  }

  lemma Delivered(n: Node, me: Key, now: real, w: Write, relayed: bool, id: TaskId)
    requires Keyed(n.tasks) && id in n.tasks
    ensures OwnWrites(n, me, now, Deliver(w, relayed)) == {}
    ensures id in TasksAfter(n, me, now, Deliver(w, relayed))
    ensures TasksAfter(n, me, now, Deliver(w, relayed))[id] ==
      if w.copy.taskId == id then Receive(Some(n.tasks[id]), w.copy).kept else n.tasks[id]
  {}

  lemma LedgersKeyed(c: Cluster, i: Key)
    requires Invariant(c) && i in c.nodes
    ensures Keyed(c.nodes[i].tasks)
    ensures forall id :: id in c.nodes[i].tasks ==> !Fresh(id, c.written)
  {
    hide Disciplined, WellFormed;
    forall id | id in c.nodes[i].tasks
      ensures c.nodes[i].tasks[id].taskId == id && !Fresh(id, c.written)
    {
      LedgerWellFormed(c, i, id);
      var w :| w in c.written && w.copy == c.nodes[i].tasks[id];
    }
  }

  /** What a step writes: copies of the tasks it names, by the acting node. */
  lemma StepWrites(c: Cluster, me: Key, a: Action, w: Write)
    requires me in c.nodes && Enabled(c, me, a) && w in Step(c, me, a).written - c.written
    requires Keyed(Step(c, me, a).nodes[me].tasks)
    ensures w.copy.taskId in OwnWrites(c.nodes[me], me, c.clock, a)
  {
    hide OwnWrites, TasksAfter, ExecutorAfter;
  }

  lemma CopiesAfter(c: Cluster, me: Key, a: Action, id: TaskId)
    requires me in c.nodes && Enabled(c, me, a)
    requires (forall i :: i in c.nodes ==> id in c.nodes[i].tasks) && id in TasksAfter(c.nodes[me], me, c.clock, a)
    ensures Held(Step(c, me, a), id) == Held(c, id)[me := TasksAfter(c.nodes[me], me, c.clock, a)[id]]
    ensures forall i :: i in Step(c, me, a).nodes ==> id in Step(c, me, a).nodes[i].tasks
  {
    hide OwnWrites, TasksAfter, ExecutorAfter;
  }

  /** What the watched step needs to know about the state before it. */
  ghost predicate Safe(x: Watched, h: Key, id: TaskId, b: Timing.Bounds) {
    Invariant(x.cluster) && Shows(x, id) && Timing.Invariant(x.watch, h, b)
  }

  lemma CopyIsKept(x: Watched, h: Key, id: TaskId, b: Timing.Bounds, i: Key)
    requires Timing.Sensible(b) && Timing.Suitable(b) && Safe(x, h, id, b) && i in x.cluster.nodes
    ensures id in x.cluster.nodes[i].tasks && Kept(x.cluster.nodes[i].tasks[id], h, x.cluster.clock)
  {
    hide Invariant, Timing.Invariant;
    Timing.NothingLapsed(x.watch, h, b, i);
  }

  /** A delivery is an arrival of a link or of a stale copy; any other undisturbed action leaves the watch as it is. */
  lemma ActIsTimed(x: Watched, x': Watched, me: Key, a: Action, h: Key, id: TaskId, b: Timing.Bounds)
    requires Timing.Sensible(b) && Timing.Suitable(b) && Safe(x, h, id, b) && Acts(x, x', me, a, h, id)
    ensures x'.watch == x.watch || Timing.Next(x.watch, x'.watch, h, b)
    ensures id !in OwnWrites(x.cluster.nodes[me], me, x.cluster.clock, a)
    ensures forall i :: i in x'.cluster.nodes ==> id in x'.cluster.nodes[i].tasks
  {
    hide Invariant, Timing.Invariant, OwnWrites, TasksAfter, Step;
    var c, n := x.cluster, x.cluster.nodes[me];
    LedgersKeyed(c, me);
    CopyIsKept(x, h, id, b, me);
    assert h in x.watch.copies by {
      HolderThere(x.watch, h, b);
    }
    if a.Deliver? {
      Delivered(n, me, c.clock, a.write, a.relayed, id);
      CopiesAfter(c, me, a, id);
      if a.write.copy.taskId == id {
        ArrivalIsTimed(x, x', me, a.write, h, id, b);
      } else {
        assert x'.watch.copies == x.watch.copies;
      }
    } else {
      NothingWritten(n, me, c.clock, a, h, id);
      CopiesAfter(c, me, a, id);
      assert x'.watch.copies == x.watch.copies;
    }
  }

  lemma HolderThere(s: Timing.State, h: Key, b: Timing.Bounds)
    requires Timing.Invariant(s, h, b)
    ensures h in s.copies
  {}

  lemma ArrivalIsTimed(x: Watched, x': Watched, me: Key, w: Write, h: Key, id: TaskId, b: Timing.Bounds)
    requires Shows(x, id) && me in x.cluster.nodes && h in x.watch.copies
    requires w in x.cluster.written && w.copy.taskId == id
    requires x'.watch == x.watch.(copies := Held(x.cluster, id)[me := Receive(Some(x.cluster.nodes[me].tasks[id]), w.copy).kept])
    ensures Timing.Next(x.watch, x'.watch, h, b)
  {
    hide Receive;
    if w.copy in x.watch.stale {
      var e := Timing.ArriveStale(me, w.copy);
      assert Timing.Enabled(x.watch, h, b, e) && x'.watch == Timing.After(x.watch, h, b, e);
    } else {
      assert Timing.OnChain(x.watch, w.copy);
      var k :| 0 <= k < |x.watch.chain| && x.watch.chain[k].copy == w.copy;
      var e := Timing.Arrive(me, k);
      assert Timing.Enabled(x.watch, h, b, e) && x'.watch == Timing.After(x.watch, h, b, e);
    }
  }

  lemma ActKeepsShown(x: Watched, x': Watched, me: Key, a: Action, h: Key, id: TaskId, b: Timing.Bounds)
    requires Timing.Sensible(b) && Timing.Suitable(b) && Safe(x, h, id, b) && Acts(x, x', me, a, h, id)
    ensures Safe(x', h, id, b)
  {
    hide Invariant, Timing.Invariant, Step, InTransit, Undisturbed, Enabled;
    ActIsTimed(x, x', me, a, h, id, b);
    if x'.watch != x.watch {
      Timing.NextKeeps(x.watch, x'.watch, h, b);
    }
    KeepsInvariant(x.cluster, x'.cluster);
    ClockStays(x.cluster, me, a);
    LedgersKeyed(x'.cluster, me);
    forall w | w in x'.cluster.written && w.copy.taskId == id
      ensures InTransit(x'.watch, w.copy)
    {
      if w !in x.cluster.written {
        StepWrites(x.cluster, me, a, w);
      }
      SameTransit(x.watch, x'.watch, w.copy);
    }
  }

  lemma ClockStays(c: Cluster, me: Key, a: Action)
    requires me in c.nodes && Enabled(c, me, a)
    ensures Step(c, me, a).clock == c.clock && me in Step(c, me, a).nodes
  {
    hide OwnWrites, TasksAfter, ExecutorAfter;
  }

  lemma SameTransit(s: Timing.State, s': Timing.State, t: Task)
    requires s' == s.(copies := s'.copies)
    ensures InTransit(s', t) <==> InTransit(s, t)
  {}

  // The holder's scan.

  lemma ScanShown(x: Watched, x': Watched, h: Key, id: TaskId, b: Timing.Bounds)
    requires Invariant(x.cluster) && Shows(x, id) && Scans(x, x', h, id, b)
    ensures Invariant(x'.cluster) && Shows(x', id)
  {
    hide Invariant;
    if NeedsRenewal(x.cluster.nodes[h].tasks[id], h, x.cluster.clock, b.renewThreshold) {
      RenewalShown(x, x', h, id, b);
    } else {
      forall w | w in x'.cluster.written && w.copy.taskId == id
        ensures InTransit(x'.watch, w.copy)
      {
        SameLinks(x.watch, x'.watch, w.copy);
      }
    }
  }

  lemma ScanKeepsShown(x: Watched, x': Watched, h: Key, id: TaskId, b: Timing.Bounds)
    requires Timing.Sensible(b) && Safe(x, h, id, b) && Scans(x, x', h, id, b)
    ensures Safe(x', h, id, b)
  {
    hide Invariant, Timing.Invariant, Shows;
    Timing.ScanKeeps(x.watch, h, b);
    ScanShown(x, x', h, id, b);
  }

  lemma SameLinks(s: Timing.State, s': Timing.State, t: Task)
    requires InTransit(s, t) && s.chain <= s'.chain && s.stale == s'.stale
    ensures InTransit(s', t)
  {
    if t !in s.stale {
      Timing.OnChainStays(s, s', t);
    }
  }

  lemma RenewalWrites(n: Node, h: Key, now: real, id: TaskId, duration: real)
    requires Keyed(n.tasks) && id in n.tasks && Active(n.tasks[id], h)
    ensures var a := RenewLease(id, duration);
      && OwnWrites(n, h, now, a) == {id}
      && TasksAfter(n, h, now, a) == n.tasks[id := Refreshed(n.tasks[id], now, duration)]
  {}

  lemma RenewalShown(x: Watched, x': Watched, h: Key, id: TaskId, b: Timing.Bounds)
    requires Invariant(x.cluster) && Shows(x, id) && Scans(x, x', h, id, b) && StepBy(x.cluster, x'.cluster, h, RenewLease(id, b.duration))
    requires NeedsRenewal(x.cluster.nodes[h].tasks[id], h, x.cluster.clock, b.renewThreshold)
    ensures Invariant(x'.cluster) && Shows(x', id)
  {
    hide Invariant, Step, InTransit, Enabled, OwnWrites, TasksAfter;
    var c, a := x.cluster, RenewLease(id, b.duration);
    LedgersKeyed(c, h);
    RenewalWrites(c.nodes[h], h, c.clock, id, b.duration);
    CopiesAfter(c, h, a, id);
    KeepsInvariant(c, x'.cluster);
    ClockStays(c, h, a);
    LedgersKeyed(x'.cluster, h);
    var renewed := Refreshed(c.nodes[h].tasks[id], c.clock, b.duration);
    assert x'.watch.copies == Held(x'.cluster, id);
    forall w | w in x'.cluster.written && w.copy.taskId == id
      ensures InTransit(x'.watch, w.copy)
    {
      if w in c.written {
        SameLinks(x.watch, x'.watch, w.copy);
      } else {
        NewWriteIsLedgerCopy(c, h, a, w);
        NewLink(x'.watch, renewed);
      }
    }
  }

  lemma NewWriteIsLedgerCopy(c: Cluster, me: Key, a: Action, w: Write)
    requires me in c.nodes && Enabled(c, me, a) && w in Step(c, me, a).written - c.written
    requires Keyed(Step(c, me, a).nodes[me].tasks)
    ensures w.copy.taskId in TasksAfter(c.nodes[me], me, c.clock, a)
    ensures w.copy == TasksAfter(c.nodes[me], me, c.clock, a)[w.copy.taskId]
  {
    hide OwnWrites, TasksAfter, ExecutorAfter;
  }

  lemma NewLink(s: Timing.State, t: Task)
    requires |s.chain| > 0 && Timing.Last(s).copy == t
    ensures InTransit(s, t)
  {}

  lemma TickShown(x: Watched, x': Watched, h: Key, id: TaskId, b: Timing.Bounds, dt: real)
    requires Invariant(x.cluster) && Shows(x, id) && Ticks(x, x', h, b, dt)
    ensures Invariant(x'.cluster) && Shows(x', id)
  {
    hide Invariant, Next;
    TickIsNext(x.cluster, dt);
    KeepsInvariant(x.cluster, x'.cluster);
    forall w | w in x'.cluster.written && w.copy.taskId == id
      ensures InTransit(x'.watch, w.copy)
    {
      SameLinks(x.watch, x'.watch, w.copy);
    }
  }

  lemma TickKeepsShown(x: Watched, x': Watched, h: Key, id: TaskId, b: Timing.Bounds, dt: real)
    requires Safe(x, h, id, b) && Ticks(x, x', h, b, dt)
    ensures Safe(x', h, id, b)
  {
    hide Invariant, Timing.Invariant, Shows;
    Timing.ElapseKeeps(x.watch, h, b, dt);
    TickShown(x, x', h, id, b, dt);
  }

  lemma TickIsNext(c: Cluster, dt: real)
    requires dt >= 0.0
    ensures Next(c, c.(clock := c.clock + dt))
  {}

  // The run.

  lemma {:induction false} WatchedRunIsSafe(run: seq<Watched>, h: Key, id: TaskId, b: Timing.Bounds, k: nat)
    requires Timing.Sensible(b) && Timing.Suitable(b) && IsWatchedRun(run, h, id, b) && k < |run|
    ensures Safe(run[k], h, id, b)
  {
    hide Invariant, Timing.Invariant, Shows, Timing.Start, Scans, Ticks, Acts, Reachable;
    if k == 0 {
      ReachableInvariant(run[0].cluster);
      Timing.StartInvariant(run[0].watch, h, b);
    } else {
      WatchedRunIsSafe(run, h, id, b, k - 1);
      var x, x' := run[k - 1], run[k];
      assert WatchedNext(x, x', h, id, b);
      if Scans(x, x', h, id, b) {
        ScanKeepsShown(x, x', h, id, b);
      } else if dt :| Ticks(x, x', h, b, dt) {
        TickKeepsShown(x, x', h, id, b, dt);
      } else {
        var me, a :| Acts(x, x', me, a, h, id);
        ActKeepsShown(x, x', me, a, h, id, b);
      }
    }
  }

  /**
   If scan gap and delay fit in the renewal threshold, every node's copy of the task stays
   the holder's lease and no node's claim succeeds, whatever else the cluster does.
   */
  lemma ClusterLeaseExclusive(run: seq<Watched>, h: Key, id: TaskId, b: Timing.Bounds, k: nat, i: Key, duration: real)
    requires Timing.Sensible(b) && Timing.Suitable(b) && IsWatchedRun(run, h, id, b) && k < |run|
    requires i in run[k].cluster.nodes
    ensures id in run[k].cluster.nodes[i].tasks && HeldBy(run[k].cluster.nodes[i].tasks[id], h)
    ensures OwnCopy(run[k].cluster.nodes[i], i, run[k].cluster.clock, ScanClaim(id, duration)).None?
    ensures OwnCopy(run[k].cluster.nodes[i], i, run[k].cluster.clock, AwardClaim(id, duration)).None?
  {
    hide IsWatchedRun, Safe;
    WatchedRunIsSafe(run, h, id, b, k);
    CopyIsKept(run[k], h, id, b, i);
  }

  // The bound is exact here too.

  /** A quiet step of the one-lease machine is a step of the watched cluster. */
  lemma QuietIsWatched(x: Watched, s': Timing.State, h: Key, id: TaskId, b: Timing.Bounds) returns (x': Watched)
    requires Invariant(x.cluster) && Shows(x, id) && Timing.QuietNext(x.watch, s', h, b)
    ensures x'.watch == s' && WatchedNext(x, x', h, id, b) && Invariant(x'.cluster) && Shows(x', id)
    ensures x'.cluster.nodes.Keys == x.cluster.nodes.Keys
  {
    hide Invariant, Step, InTransit;
    var e: Timing.Event :| (e.Elapse? || e.HolderScans?) && Timing.Enabled(x.watch, h, b, e) && s' == Timing.After(x.watch, h, b, e);
    if e.Elapse? {
      x' := Watched(x.cluster.(clock := x.cluster.clock + e.dt), s');
      assert Ticks(x, x', h, b, e.dt);
      TickShown(x, x', h, id, b, e.dt);
    } else {
      var c := x.cluster;
      x' := Watched(if NeedsRenewal(c.nodes[h].tasks[id], h, c.clock, b.renewThreshold)
                    then Step(c, h, RenewLease(id, b.duration)) else c, s');
      OthersUnchanged(c, h, RenewLease(id, b.duration));
      assert Scans(x, x', h, id, b);
      ScanShown(x, x', h, id, b);
    }
  }

  lemma {:induction false} QuietRunIsWatched(x: Watched, trace: seq<Timing.State>, h: Key, id: TaskId, b: Timing.Bounds)
    returns (run: seq<Watched>)
    requires Invariant(x.cluster) && Shows(x, id) && Timing.Steps(trace, h, b) && trace[0] == x.watch
    ensures |run| == |trace| && run[0] == x
    ensures forall k :: 0 <= k < |run| - 1 ==> WatchedNext(run[k], run[k + 1], h, id, b)
    ensures var last := run[|run| - 1];
      last.watch == trace[|trace| - 1] && Shows(last, id) && last.cluster.nodes.Keys == x.cluster.nodes.Keys
    decreases |trace|
  {
    hide Invariant, Shows, WatchedNext, Timing.QuietNext;
    if |trace| == 1 {
      run := [x];
    } else {
      assert Timing.QuietNext(trace[0], trace[1], h, b);
      var x' := QuietIsWatched(x, trace[1], h, id, b);
      assert Timing.Steps(trace[1..], h, b) by {
        RestSteps(trace, h, b);
      }
      var rest := QuietRunIsWatched(x', trace[1..], h, id, b);
      run := [x] + rest;
    }
  }

  lemma RestSteps(trace: seq<Timing.State>, h: Key, b: Timing.Bounds)
    requires Timing.Steps(trace, h, b) && |trace| > 1
    ensures Timing.Steps(trace[1..], h, b)
  {
    hide Timing.QuietNext;
    forall k | 0 <= k < |trace[1..]| - 1
      ensures Timing.QuietNext(trace[1..][k], trace[1..][k + 1], h, b)
    {
      assert Timing.QuietNext(trace[k + 1], trace[k + 2], h, b);
    }
  }

  /** Two nodes: one submits, claims, and its claim arrives at the other. */
  ghost function Empty(h: Key, other: Key): Cluster {
    var n := Node(map[], {}, map[], 0);
    Cluster(map[h := n, other := n], {}, [], [], 0.0)
  }

  lemma SubmitStep(h: Key, other: Key, id: TaskId) returns (c: Cluster)
    requires h != other
    ensures Reachable(c) && c.clock == 0.0 && c.nodes.Keys == {h, other}
    ensures c.nodes[h] == Node(map[id := Timing.TightSubmission(id)], {}, map[], 0)
    ensures c.nodes[other] == Node(map[], {}, map[], 0)
    ensures c.written == {Write(h, Timing.TightSubmission(id))}
  {
    var c0 := Empty(h, other);
    assert IsRun([c0]);
    var a := Submit(id, Timing.TightSubmission(id).identity);
    ReachableStep(c0, h, a);
    c := Step(c0, h, a);
  }

  lemma ClaimStep(c: Cluster, h: Key, other: Key, id: TaskId, b: Timing.Bounds) returns (c': Cluster)
    requires h != other && Reachable(c) && c.clock == 0.0 && c.nodes.Keys == {h, other}
    requires c.nodes[h] == Node(map[id := Timing.TightSubmission(id)], {}, map[], 0)
    requires c.nodes[other] == Node(map[], {}, map[], 0)
    requires c.written == {Write(h, Timing.TightSubmission(id))}
    ensures Reachable(c') && c'.clock == 0.0 && c'.nodes.Keys == {h, other}
    ensures c'.nodes[h].tasks == map[id := Timing.TightLease(h, id, b)] && c'.nodes[other].tasks == map[]
    ensures c'.written == {Write(h, Timing.TightSubmission(id)), Write(h, Timing.TightLease(h, id, b))}
  {
    hide Reachable, IsRun, Claim;
    var a := ScanClaim(id, b.renewThreshold);
    var lease := Timing.TightLease(h, id, b);
    assert OwnCopy(c.nodes[h], h, 0.0, a) == Some(lease);
    assert lease.taskId == id by {
      LeaseNamed(h, id, b);
    }
    ReachableStep(c, h, a);
    c' := Step(c, h, a);
    assert TasksAfter(c.nodes[h], h, 0.0, a) == map[id := lease];
    assert OwnWrites(c.nodes[h], h, 0.0, a) == {id};
  }

  lemma LeaseNamed(h: Key, id: TaskId, b: Timing.Bounds)
    ensures Timing.TightLease(h, id, b).taskId == id && Timing.TightSubmission(id).taskId == id
  {}

  lemma TightStart(h: Key, other: Key, id: TaskId, b: Timing.Bounds) returns (x: Watched)
    requires h != other
    ensures Reachable(x.cluster) && Shows(x, id) && x.watch == Timing.Tight(h, other, id, b)
    ensures x.cluster.nodes.Keys == {h, other}
  {
    hide Reachable, IsRun, Claim;
    var submitted := SubmitStep(h, other, id);
    var claimed := ClaimStep(submitted, h, other, id, b);
    var lease := Timing.TightLease(h, id, b);
    LeaseNamed(h, id, b);
    var a := Deliver(Write(h, lease), false);
    ReachableStep(claimed, other, a);
    x := Watched(Step(claimed, other, a), Timing.Tight(h, other, id, b));
    assert x.cluster.nodes[other].tasks == map[id := lease];
    assert x.watch.copies == Held(x.cluster, id);
    assert x.watch.chain[0].copy == lease;
    assert x.cluster.written == claimed.written;
  }

  /** In no timed run of the cluster does any scan claim the task. */
  ghost predicate AlwaysExclusive(h: Key, id: TaskId, b: Timing.Bounds) {
    forall run: seq<Watched>, k: nat, i: Key, duration: real :: IsWatchedRun(run, h, id, b) && k < |run| && i in run[k].cluster.nodes
      ==> ClaimFails(run[k].cluster, i, id, duration)
  }

  ghost predicate ClaimFails(c: Cluster, i: Key, id: TaskId, duration: real)
    requires i in c.nodes
  {
    OwnCopy(c.nodes[i], i, c.clock, ScanClaim(id, duration)).None?
  }

  /** Leases are exclusive in the cluster exactly when a scan gap plus a delivery fits in the renewal threshold. */
  lemma ClusterExclusiveExactly(h: Key, id: TaskId, b: Timing.Bounds)
    requires Timing.Sensible(b)
    ensures AlwaysExclusive(h, id, b) <==> Timing.Suitable(b)
  {
    hide IsWatchedRun, Timing.Suitable, Timing.Sensible;
    if Timing.Suitable(b) {
      forall run: seq<Watched>, k: nat, i: Key, duration: real | IsWatchedRun(run, h, id, b) && k < |run| && i in run[k].cluster.nodes
        ensures ClaimFails(run[k].cluster, i, id, duration)
      {
        ClusterLeaseExclusive(run, h, id, b, k, i, duration);
      }
    } else {
      var other := h + "'";
      var run := LapsingRun(h, other, id, b);
      assert !ClaimFails(run[|run| - 1].cluster, other, id, 0.0);
    }
  }

  lemma LapsingRun(h: Key, other: Key, id: TaskId, b: Timing.Bounds) returns (run: seq<Watched>)
    requires Timing.Sensible(b) && !Timing.Suitable(b) && h != other
    ensures IsWatchedRun(run, h, id, b) && |run| > 0
    ensures other in run[|run| - 1].cluster.nodes
    ensures OwnCopy(run[|run| - 1].cluster.nodes[other], other, run[|run| - 1].cluster.clock, ScanClaim(id, 0.0)).Some?
  {
    hide Reachable, Invariant, Timing.Suitable, Timing.Sensible, Timing.Start, Timing.Tight, Timing.QuietNext, WatchedNext;
    var x := TightStart(h, other, id, b);
    ReachableInvariant(x.cluster);
    var trace := Timing.LeaseLapses(h, other, id, b);
    run := QuietRunIsWatched(x, trace, h, id, b);
    assert WatchedStart(run[0], h, id, b);
    assert IsWatchedRun(run, h, id, b);
  }
}
