/**
 What holds over every run of the cluster.
 */
module ClusterSafety {
  import opened Lists
  import opened Options
  import opened Payloads
  import opened Tasks
  import opened Cluster
  import opened ClusterInvariant
  import opened ExecutorDiscipline

  /** The node holds a copy at least as advanced as t, and a completed one if t is completed. */
  ghost predicate Holds(c: Cluster, i: Key, t: Task) {
    && i in c.nodes && t.taskId in c.nodes[i].tasks
    && !Outranks(t, c.nodes[i].tasks[t.taskId])
  }

  /** One step changes an entry only to a copy of higher rank. */
  lemma StepRaisesRank(c: Cluster, c': Cluster, i: Key, id: TaskId)
    requires Invariant(c) && Next(c, c') && i in c.nodes && id in c.nodes[i].tasks
    ensures i in c'.nodes && id in c'.nodes[i].tasks
    ensures c'.nodes[i].tasks[id] == c.nodes[i].tasks[id] || Outranks(c'.nodes[i].tasks[id], c.nodes[i].tasks[id])
  {
    hide Step, LocalStep, CopiesInvariant, Disciplined, Enabled, WellFormed;
    if c' != c.(clock := c'.clock) {
      var me, a :| StepBy(c, c', me, a);
      OthersUnchanged(c, me, a);
      var own := OwnWrites(c.nodes[me], me, c.clock, a);
      StepIsLocal(c, me, a);
      if i == me {
        EntryStepOf(c, c', me, own, id);
      }
    }
  }

  lemma EntryStepOf(c: Cluster, c': Cluster, me: Key, own: set<TaskId>, id: TaskId)
    requires LocalStep(c, c', me, own)
    ensures EntryStep(Lookup(c.nodes[me].tasks, id), Lookup(c'.nodes[me].tasks, id), id in own, id, me, c.written)
  {}

  lemma {:induction false} RankNeverFalls(trace: seq<Cluster>, j: nat, k: nat, i: Key, id: TaskId)
    requires IsRun(trace) && j <= k < |trace|
    requires i in trace[j].nodes && id in trace[j].nodes[i].tasks
    ensures i in trace[k].nodes && id in trace[k].nodes[i].tasks
    ensures trace[k].nodes[i].tasks[id] == trace[j].nodes[i].tasks[id]
         || Outranks(trace[k].nodes[i].tasks[id], trace[j].nodes[i].tasks[id])
    decreases k - j
  {
    hide Init, Next, Invariant;
    if j < k {
      RankNeverFalls(trace, j, k - 1, i, id);
      RunKeepsInvariant(trace, k - 1);
      assert Next(trace[k - 1], trace[k]);
      StepRaisesRank(trace[k - 1], trace[k], i, id);
    }
  }

  /** Completion is sticky: a completed copy stays exactly as it is, in every field. */
  lemma CompletionIsSticky(trace: seq<Cluster>, j: nat, k: nat, i: Key, id: TaskId)
    requires IsRun(trace) && j <= k < |trace|
    requires i in trace[j].nodes && id in trace[j].nodes[i].tasks
    requires trace[j].nodes[i].tasks[id].status.Completed?
    ensures i in trace[k].nodes && id in trace[k].nodes[i].tasks
    ensures trace[k].nodes[i].tasks[id] == trace[j].nodes[i].tasks[id]
  {
    hide IsRun;
    RankNeverFalls(trace, j, k, i, id);
  }

  // No forked writes.

  /** A step's writes are newer than all earlier writes of the same node to the same task. */
  lemma StepWritesNewer(c: Cluster, c': Cluster, earlier: Write, later: Write)
    requires Invariant(c) && Next(c, c')
    requires earlier in c.written && later in c'.written - c.written
    requires earlier.writer == later.writer && earlier.copy.taskId == later.copy.taskId
    ensures earlier.copy.version < later.copy.version && !earlier.copy.status.Completed?
  {
    hide Step, LocalStep, Disciplined, WellFormed, Enabled, CopiesInvariant;
    var me, a :| StepBy(c, c', me, a);
    StepIsLocal(c, me, a);
    OwnWriteIsNewer(c, c', me, OwnWrites(c.nodes[me], me, c.clock, a), earlier, later);
  }

  lemma WritesOnlyGrow(c: Cluster, c': Cluster)
    requires Next(c, c')
    ensures c.written <= c'.written
  {
    if c' != c.(clock := c'.clock) {
      var me, a :| StepBy(c, c', me, a);
    }
  }

  lemma {:induction false} WrittenStaysWritten(trace: seq<Cluster>, j: nat, k: nat)
    requires IsRun(trace) && j <= k < |trace|
    ensures trace[j].written <= trace[k].written
    decreases k - j
  {
    hide Init, Next;
    if j < k {
      WrittenStaysWritten(trace, j, k - 1);
      assert Next(trace[k - 1], trace[k]);
      WritesOnlyGrow(trace[k - 1], trace[k]);
    }
  }

  /** Over a whole run, crashes included, a node's writes to a task have rising versions, and none follows its completion. */
  lemma {:induction false} WritesRise(trace: seq<Cluster>, j: nat, k: nat, earlier: Write, later: Write)
    requires IsRun(trace) && j <= k < |trace|
    requires earlier in trace[j].written && later in trace[k].written - trace[j].written
    requires earlier.writer == later.writer && earlier.copy.taskId == later.copy.taskId
    ensures earlier.copy.version < later.copy.version && !earlier.copy.status.Completed?
    decreases k - j
  {
    hide Init, Next, Invariant;
    if j < k {
      if later in trace[k - 1].written {
        WritesRise(trace, j, k - 1, earlier, later);
      } else {
        WrittenStaysWritten(trace, j, k - 1);
        RunKeepsInvariant(trace, k - 1);
        assert Next(trace[k - 1], trace[k]);
        StepWritesNewer(trace[k - 1], trace[k], earlier, later);
      }
    }
  }

  /** Task, version and writer determine the copy. */
  lemma VersionAndWriterDetermineCopy(trace: seq<Cluster>, k: nat, w1: Write, w2: Write)
    requires IsRun(trace) && k < |trace| && w1 in trace[k].written && w2 in trace[k].written
    requires w1.writer == w2.writer && w1.copy.taskId == w2.copy.taskId && w1.copy.version == w2.copy.version
    ensures w1.copy == w2.copy
  {
    hide IsRun, Disciplined, WellFormed;
    RunKeepsInvariant(trace, k);
    assert Clash(w1, w2);
  }

  /** A copy some node holds or some message carries. */
  ghost predicate Somewhere(c: Cluster, t: Task) {
    WrittenCopy(t, c.written) || exists i, id :: i in c.nodes && id in c.nodes[i].tasks && c.nodes[i].tasks[id] == t
  }

  lemma SomewhereIsWritten(c: Cluster, t: Task) returns (w: Write)
    requires Invariant(c) && Somewhere(c, t)
    ensures w in c.written && w.copy == t && WellFormed(t) && Followed(w, c.nodes)
  {
    hide WellFormed, Disciplined;
    forall i, id | i in c.nodes && id in c.nodes[i].tasks
      ensures WrittenCopy(c.nodes[i].tasks[id], c.written)
    {
      LedgerWellFormed(c, i, id);
    }
    w :| w in c.written && w.copy == t;
  }

  /** Completed copies of a task by the same holder are the same copy, wherever they are. */
  lemma CompletedCopiesAgree(trace: seq<Cluster>, k: nat, t1: Task, t2: Task)
    requires IsRun(trace) && k < |trace| && Somewhere(trace[k], t1) && Somewhere(trace[k], t2)
    requires t1.taskId == t2.taskId && t1.leasedBy == t2.leasedBy && t1.status.Completed? && t2.status.Completed?
    ensures t1 == t2
  {
    hide IsRun, Disciplined, WellFormed, Somewhere;
    RunKeepsInvariant(trace, k);
    var w1 := SomewhereIsWritten(trace[k], t1);
    var w2 := SomewhereIsWritten(trace[k], t2);
    assert Clash(w1, w2);
  }

  /** Every copy anywhere is well formed, and all copies of a task have one identity. */
  lemma CopiesWellFormed(trace: seq<Cluster>, k: nat, t1: Task, t2: Task)
    requires IsRun(trace) && k < |trace| && Somewhere(trace[k], t1) && Somewhere(trace[k], t2)
    ensures WellFormed(t1)
    ensures t1.taskId == t2.taskId ==> t1.identity == t2.identity
  {
    hide IsRun, Disciplined, WellFormed, Somewhere;
    RunKeepsInvariant(trace, k);
    var w1 := SomewhereIsWritten(trace[k], t1);
    var w2 := SomewhereIsWritten(trace[k], t2);
  }

  // Gossip.

  ghost predicate ForwardsHeld(c: Cluster) {
    forall f :: f in c.forwarded ==> Holds(c, f.node, f.copy)
  }

  lemma StepForwardsOnce(c: Cluster, c': Cluster)
    requires Invariant(c) && Next(c, c') && ForwardsHeld(c) && NoRepeats(c.forwarded)
    ensures ForwardsHeld(c') && NoRepeats(c'.forwarded)
  {
    hide Invariant;
    var me, a: Option<Action>, extra := "", None, [];
    if c' != c.(clock := c'.clock) {
      var m, x :| StepBy(c, c', m, x);
      ForwardedAfter(c, m, x);
      me, a := m, Some(x);
      extra := if x.Deliver? && x.relayed then [Forward(m, x.write.copy)] else [];
    }
    assert c'.forwarded == c.forwarded + extra;
    hide StepBy, Next;
    forall f | f in c'.forwarded
      ensures Holds(c', f.node, f.copy)
    {
      if f in c.forwarded {
        StepRaisesRank(c, c', f.node, f.copy.taskId);
      }
    }
  }

  lemma ForwardedAfter(c: Cluster, me: Key, a: Action)
    requires me in c.nodes && Enabled(c, me, a)
    ensures var c' := Step(c, me, a);
      var extra := if a.Deliver? && a.relayed then [Forward(me, a.write.copy)] else [];
      && c'.forwarded == c.forwarded + extra
      && forall f :: f in extra ==> Holds(c', f.node, f.copy) && !Holds(c, f.node, f.copy)
  {}

  /** A node passes on a given copy at most once in a run, however often it arrives. */
  lemma {:induction false} ForwardedOnce(trace: seq<Cluster>, k: nat)
    requires IsRun(trace) && k < |trace|
    ensures ForwardsHeld(trace[k]) && NoRepeats(trace[k].forwarded)
  {
    hide Next, Invariant;
    if k > 0 {
      ForwardedOnce(trace, k - 1);
      RunKeepsInvariant(trace, k - 1);
      assert Next(trace[k - 1], trace[k]);
      StepForwardsOnce(trace[k - 1], trace[k]);
    }
  }

  /** What a node passed on it never wrote. */
  ghost predicate ForwardsForeign(c: Cluster) {
    forall f :: f in c.forwarded ==> Write(f.node, f.copy) !in c.written
  }

  /** A node's own write, coming back, changes nothing. */
  lemma OwnWriteIgnored(c: Cluster, me: Key, t: Task)
    requires CopiesInvariant(c) && me in c.nodes && Write(me, t) in c.written
    ensures !Receive(Lookup(c.nodes[me].tasks, t.taskId), t).changed
  {
    hide WellFormed, LedgersWritten, NoForks, OneIdentity;
    assert Followed(Write(me, t), c.nodes);
  }

  /** What a node writes outranks whatever it held. */
  lemma OwnWriteIsNotHeld(c: Cluster, c': Cluster, me: Key, own: set<TaskId>, w: Write, t: Task)
    requires CopiesInvariant(c) && LocalStep(c, c', me, own) && w in c'.written - c.written && Holds(c, w.writer, t)
    ensures w.copy != t
  {
    hide WellFormed;
    var id := w.copy.taskId;
    assert EntryStep(Lookup(c.nodes[me].tasks, id), Lookup(c'.nodes[me].tasks, id), id in own, id, me, c.written);
  }

  lemma StepForwardsForeign(c: Cluster, c': Cluster)
    requires Invariant(c) && Next(c, c') && ForwardsHeld(c) && ForwardsForeign(c)
    ensures ForwardsForeign(c')
  {
    hide WellFormed, Disciplined, LocalStep, OwnWrites, TasksAfter, CopiesInvariant, Step, Holds, Receive;
    if c' != c.(clock := c'.clock) {
      var me, a :| StepBy(c, c', me, a);
      StepIsLocal(c, me, a);
      ForwardedAfter(c, me, a);
      forall f | f in c'.forwarded
        ensures Write(f.node, f.copy) !in c'.written
      {
        if f in c.forwarded {
          if Write(f.node, f.copy) in c'.written {
            OwnWriteIsNotHeld(c, c', me, OwnWrites(c.nodes[me], me, c.clock, a), Write(f.node, f.copy), f.copy);
          }
        } else {
          DeliveryWritesNothing(c, me, a);
          if Write(me, f.copy) in c.written {
            OwnWriteIgnored(c, me, f.copy);
          }
        }
      }
    }
  }

  lemma DeliveryWritesNothing(c: Cluster, me: Key, a: Action)
    requires me in c.nodes && Enabled(c, me, a) && a.Deliver?
    ensures Step(c, me, a).written == c.written
  {}

  /** A node never passes on a copy of its own, so it gossips each copy at most once in a run, its own first gossip included. */
  lemma {:induction false} NeverForwardsOwn(trace: seq<Cluster>, k: nat)
    requires IsRun(trace) && k < |trace|
    ensures ForwardsForeign(trace[k])
  {
    hide Next, Invariant, ForwardsForeign, ForwardsHeld;
    if k > 0 {
      NeverForwardsOwn(trace, k - 1);
      ForwardedOnce(trace, k - 1);
      RunKeepsInvariant(trace, k - 1);
      assert Next(trace[k - 1], trace[k]);
      StepForwardsForeign(trace[k - 1], trace[k]);
    } else {
      assert ForwardsForeign(trace[0]) by {
        NothingForwarded(trace[0]);
      }
    }
  }

  lemma NothingForwarded(c: Cluster)
    requires Init(c)
    ensures ForwardsForeign(c)
  {}

  // Executors.

  /** At most one executor per task and node past the gate, however it got there. */
  lemma OneExecutor(trace: seq<Cluster>, k: nat, i: Key, t1: nat, t2: nat)
    requires IsRun(trace) && k < |trace| && i in trace[k].nodes
    requires t1 in trace[k].nodes[i].threads && t2 in trace[k].nodes[i].threads
    requires Rivals(trace[k].nodes[i].threads[t1], trace[k].nodes[i].threads[t2])
    ensures t1 == t2
  {
    hide IsRun, CopiesInvariant, RunningSafe;
    RunKeepsInvariant(trace, k);
    assert Disciplined(trace[k].nodes[i], i);
  }

  /** A recorded call belongs to a thread that has left or is leaving. */
  ghost predicate CallsDone(c: Cluster) {
    forall call :: call in c.calls ==>
      && call.node in c.nodes && call.thread < c.nodes[call.node].spawned
      && (call.thread in c.nodes[call.node].threads ==> c.nodes[call.node].threads[call.thread].phase.Leaving?)
  }

  lemma StepCallsOnce(c: Cluster, c': Cluster)
    requires Invariant(c) && Next(c, c') && CallsDone(c) && NoRepeats(c.calls)
    ensures CallsDone(c') && NoRepeats(c'.calls)
  {
    hide CopiesInvariant, RunningSafe;
    if c' != c.(clock := c'.clock) {
      var me, a :| StepBy(c, c', me, a);
      assert Disciplined(c.nodes[me], me);
      CallsAfter(c, me, a);
    }
  }

  lemma CallsAfter(c: Cluster, me: Key, a: Action)
    requires me in c.nodes && Enabled(c, me, a) && CallsDone(c) && Gated(c.nodes[me])
    ensures CallsDone(Step(c, me, a))
    ensures NoRepeats(c.calls) ==> NoRepeats(Step(c, me, a).calls)
  {
    hide OwnCopy, TasksAfter, OwnWrites;
  }

  /** Each executor thread calls complete or release at most once. */
  lemma {:induction false} CalledOnce(trace: seq<Cluster>, k: nat)
    requires IsRun(trace) && k < |trace|
    ensures CallsDone(trace[k]) && NoRepeats(trace[k].calls)
  {
    hide Next, Invariant;
    if k > 0 {
      CalledOnce(trace, k - 1);
      RunKeepsInvariant(trace, k - 1);
      assert Next(trace[k - 1], trace[k]);
      StepCallsOnce(trace[k - 1], trace[k]);
    }
  }

  // Why the assumptions are there.

  ghost predicate KeepsCompleted(before: map<TaskId, Task>, after: map<TaskId, Task>) {
    forall id :: id in before && before[id].status.Completed? ==> id in after && after[id] == before[id]
  }

  /** Submitting a task id again destroys a result exactly when the node holds it completed. */
  lemma SubmitKeepsCompletedExactly(n: Node, me: Key, now: real, id: TaskId, identity: Identity)
    ensures KeepsCompleted(n.tasks, TasksAfter(n, me, now, Submit(id, identity)))
      <==> !(id in n.tasks && n.tasks[id].status.Completed?)
  {}

  /** The release call alone destroys a result exactly when made on a copy the node completed. */
  lemma ReleaseKeepsCompletedExactly(n: Node, me: Key, now: real, th: nat)
    requires th in n.threads && forall id :: id in n.tasks ==> n.tasks[id].taskId == id
    ensures var id := n.threads[th].taskId;
      KeepsCompleted(n.tasks, TasksAfter(n, me, now, CallRelease(th)))
      <==> !(id in n.tasks && n.tasks[id].status.Completed? && HeldBy(n.tasks[id], me))
  {}

  /** So does the completion call, which would replace the result. */
  lemma CompleteKeepsCompletedExactly(n: Node, me: Key, now: real, th: nat, result: string)
    requires th in n.threads && forall id :: id in n.tasks ==> n.tasks[id].taskId == id
    ensures var id := n.threads[th].taskId;
      KeepsCompleted(n.tasks, TasksAfter(n, me, now, CallComplete(th, result)))
      <==> !(id in n.tasks && n.tasks[id].status.Completed? && HeldBy(n.tasks[id], me))
  {}
}
