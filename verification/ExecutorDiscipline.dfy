/**
 Every step keeps at most one executor per task and node past the gate, and never lets a
 running executor face a copy its own node has completed.
 */
module ExecutorDiscipline {
  import opened Options
  import opened Payloads
  import opened Tasks
  import opened Cluster
  import opened ClusterInvariant

  lemma MarkedHasThread(n: Node, id: TaskId) returns (th: nat)
    requires Gated(n) && id in n.executing
    ensures th in n.threads && PastGate(n.threads[th]) && n.threads[th].taskId == id
  {
    th :| th in n.threads && PastGate(n.threads[th]) && n.threads[th].taskId == id;
  }

  lemma SpawnKeepsGated(n: Node, id: TaskId, phase: Phase)
    requires Gated(n) && (phase.AtGate? || id !in n.executing)
    ensures Gated(Spawn(if phase.AtGate? then n else n.(executing := n.executing + {id}), id, phase))
  {
    var n' := Spawn(if phase.AtGate? then n else n.(executing := n.executing + {id}), id, phase);
    forall k | k in n'.executing
      ensures exists th :: th in n'.threads && PastGate(n'.threads[th]) && n'.threads[th].taskId == k
    {
      if k in n.executing {
        var th := MarkedHasThread(n, k);
        assert th in n'.threads && PastGate(n'.threads[th]) && n'.threads[th].taskId == k;
      } else {
        assert n.spawned in n'.threads && PastGate(n'.threads[n.spawned]) && n'.threads[n.spawned].taskId == k;
      }
    }
  }

  lemma EndKeepsGated(n: Node, th: nat)
    requires Gated(n) && th in n.threads && PastGate(n.threads[th])
    ensures Gated(End(n, th))
  {
    var n' := End(n, th);
    forall k | k in n'.executing
      ensures exists t :: t in n'.threads && PastGate(n'.threads[t]) && n'.threads[t].taskId == k
    {
      var t := MarkedHasThread(n, k);
      assert t in n'.threads && PastGate(n'.threads[t]) && n'.threads[t].taskId == k;
    }
  }

  lemma MoveKeepsGated(n: Node, th: nat, phase: Phase)
    requires Gated(n) && th in n.threads && PastGate(n.threads[th]) && !phase.AtGate?
    ensures Gated(Move(n, th, phase))
  {
    var n' := Move(n, th, phase);
    forall k | k in n'.executing
      ensures exists t :: t in n'.threads && PastGate(n'.threads[t]) && n'.threads[t].taskId == k
    {
      var t := MarkedHasThread(n, k);
      assert t in n'.threads && PastGate(n'.threads[t]) && n'.threads[t].taskId == k;
    }
  }

  lemma PassKeepsGated(n: Node, th: nat)
    requires Gated(n) && th in n.threads && n.threads[th].phase.AtGate? && n.threads[th].taskId !in n.executing
    ensures Gated(Move(n.(executing := n.executing + {n.threads[th].taskId}), th, Settling))
  {
    var n' := Move(n.(executing := n.executing + {n.threads[th].taskId}), th, Settling);
    forall k | k in n'.executing
      ensures exists t :: t in n'.threads && PastGate(n'.threads[t]) && n'.threads[t].taskId == k
    {
      if k in n.executing {
        var t := MarkedHasThread(n, k);
        assert t in n'.threads && PastGate(n'.threads[t]) && n'.threads[t].taskId == k;
      } else {
        assert th in n'.threads && PastGate(n'.threads[th]) && n'.threads[th].taskId == k;
      }
    }
  }

  lemma TurnBackKeepsGated(n: Node, th: nat)
    requires Gated(n) && th in n.threads && n.threads[th].phase.AtGate?
    ensures Gated(n.(threads := n.threads - {th}))
  {
    var n' := n.(threads := n.threads - {th});
    forall k | k in n'.executing
      ensures exists t :: t in n'.threads && PastGate(n'.threads[t]) && n'.threads[t].taskId == k
    {
      var t := MarkedHasThread(n, k);
      assert t in n'.threads && PastGate(n'.threads[t]) && n'.threads[t].taskId == k;
    }
  }

  lemma ActionKeepsGated(c: Cluster, me: Key, a: Action)
    requires me in c.nodes && Enabled(c, me, a) && Gated(c.nodes[me])
    ensures Gated(ExecutorAfter(c.nodes[me], me, c.clock, a))
  {
    hide Gated, Spawn, Move, End, OwnCopy;
    var n := c.nodes[me];
    match a
    case ScanClaim(id, _) => SpawnKeepsGated(n, id, Settling);
    case AwardClaim(id, _) => SpawnKeepsGated(n, id, AtGate);
    case PassGate(th) =>
      TurnBackKeepsGated(n, th);
      if n.threads[th].taskId !in n.executing {
        PassKeepsGated(n, th);
      }
    case CheckActive(th) =>
      EndKeepsGated(n, th);
      MoveKeepsGated(n, th, Running);
    case CallComplete(th, _) => MoveKeepsGated(n, th, Leaving);
    case CallRelease(th) => MoveKeepsGated(n, th, Leaving);
    case Leave(th) => EndKeepsGated(n, th);
    case Restart(_) => NoThreadsGated(n);
    case _ =>
  }

  lemma NoThreadsGated(n: Node)
    ensures Gated(n.(executing := {}, threads := map[]))
  {}

  // Running threads.

  /** A copy completed with this result at this time, otherwise as it was. */
  predicate CompletedFrom(t: Task, copy: Task, result: string, at: real) {
    && copy.status.Completed? && copy.result == Some(result) && copy.resultHash == Some(ResultHash(result))
    && copy.completedAt == Some(at) && copy.leasedBy == t.leasedBy && copy.identity == t.identity && copy.taskId == t.taskId
    && copy.version == t.version + 1
  }

  /** Only a running thread's own call completes a copy, and with the result of the call. */
  lemma OwnCompletionIsCall(c: Cluster, me: Key, a: Action, id: TaskId)
    requires Invariant(c) && me in c.nodes && Enabled(c, me, a)
    requires id in OwnWrites(c.nodes[me], me, c.clock, a) && id in TasksAfter(c.nodes[me], me, c.clock, a)
    requires TasksAfter(c.nodes[me], me, c.clock, a)[id].status.Completed?
    ensures a.CallComplete? && c.nodes[me].threads[a.thread].taskId == id
    ensures id in c.nodes[me].tasks && HeldBy(c.nodes[me].tasks[id], me)
    ensures CompletedFrom(c.nodes[me].tasks[id], TasksAfter(c.nodes[me], me, c.clock, a)[id], a.result, c.clock)
  {
    hide CopiesInvariant;
    if a.CallComplete? {
      CallIsEntryStep(c, me, a.thread, a.result);
      CallCompletes(c.nodes[me], me, c.clock, a.thread, a.result, id);
    }
  }

  /** A completion call on a task the node holds completes it with the result given. */
  lemma CallCompletes(n: Node, me: Key, now: real, th: nat, result: string, id: TaskId)
    requires th in n.threads && n.threads[th].taskId == id && id in n.tasks && n.tasks[id].taskId == id && HeldBy(n.tasks[id], me)
    ensures id in TasksAfter(n, me, now, CallComplete(th, result))
    ensures CompletedFrom(n.tasks[id], TasksAfter(n, me, now, CallComplete(th, result))[id], result, now)
  {}

  /** A copy the node had not completed is not completed by it through a delivery. */
  lemma ReceivedNotOurs(c: Cluster, me: Key, id: TaskId, t: Task)
    requires CopiesInvariant(c) && me in c.nodes && id in c.nodes[me].tasks
    requires !c.nodes[me].tasks[id].status.Completed?
    requires t.taskId == id && WrittenCopy(t, c.written) && t.status.Completed?
    ensures !HeldBy(t, me)
  {
    hide WellFormed, LedgersWritten, NoForks, OneIdentity;
    var w :| w in c.written && w.copy == t;
    assert Followed(w, c.nodes);
  }

  lemma KeepsNotDone(c: Cluster, me: Key, a: Action, id: TaskId)
    requires me in c.nodes && NotDoneBy(c.nodes[me], id, me)
    requires a.CallComplete? ==> a.thread in c.nodes[me].threads && c.nodes[me].threads[a.thread].taskId != id
    requires Invariant(c) && Enabled(c, me, a)
    ensures NotDoneBy(c.nodes[me].(tasks := TasksAfter(c.nodes[me], me, c.clock, a)), id, me)
  {
    hide CopiesInvariant, WellFormed, WrittenCopy, TasksAfter, OwnWrites, Disciplined, Enabled;
    var n := c.nodes[me];
    ActionIsEntryStep(c, me, a, id);
    var after := TasksAfter(n, me, c.clock, a);
    if id in OwnWrites(n, me, c.clock, a) {
      if after[id].status.Completed? {
        OwnCompletionIsCall(c, me, a, id);
      }
    } else if Lookup(after, id) != Lookup(n.tasks, id) && after[id].status.Completed? {
      ReceivedNotOurs(c, me, id, after[id]);
    }
  }

  /** The threads running after an action were running before, except one that just checked its lease. */
  lemma RunningBefore(c: Cluster, me: Key, a: Action, th: nat)
    requires me in c.nodes && Enabled(c, me, a) && Gated(c.nodes[me])
    requires var n' := ExecutorAfter(c.nodes[me], me, c.clock, a); th in n'.threads && n'.threads[th].phase.Running?
    ensures th in c.nodes[me].threads
    ensures ExecutorAfter(c.nodes[me], me, c.clock, a).threads[th].taskId == c.nodes[me].threads[th].taskId
    ensures
      || (c.nodes[me].threads[th].phase.Running?
          && (a.CallComplete? ==> c.nodes[me].threads[a.thread].taskId != c.nodes[me].threads[th].taskId))
      || (a == CheckActive(th) && c.nodes[me].threads[th].taskId in c.nodes[me].tasks
          && Active(c.nodes[me].tasks[c.nodes[me].threads[th].taskId], me))
  {
    hide OwnCopy;
    if a.CallComplete? {
      assert a.thread != th;
    }
  }

  lemma KeepsRunningSafe(c: Cluster, me: Key, a: Action)
    requires Invariant(c) && me in c.nodes && Enabled(c, me, a)
    ensures RunningSafe(ExecutorAfter(c.nodes[me], me, c.clock, a).(tasks := TasksAfter(c.nodes[me], me, c.clock, a)), me)
  {
    hide CopiesInvariant, TasksAfter, ExecutorAfter, Gated;
    var n := c.nodes[me];
    var executor := ExecutorAfter(n, me, c.clock, a);
    var n' := executor.(tasks := TasksAfter(n, me, c.clock, a));
    forall th | th in n'.threads && n'.threads[th].phase.Running?
      ensures NotDoneBy(n', n'.threads[th].taskId, me)
    {
      RunningBefore(c, me, a, th);
      KeepsNotDone(c, me, a, n.threads[th].taskId);
    }
  }

  lemma KeepsDisciplined(c: Cluster, me: Key, a: Action)
    requires Invariant(c) && me in c.nodes && Enabled(c, me, a)
    ensures Disciplined(Step(c, me, a).nodes[me], me)
  {
    hide CopiesInvariant, TasksAfter, OwnWrites, ExecutorAfter, Gated, RunningSafe;
    var n := c.nodes[me];
    ActionKeepsGated(c, me, a);
    GatedIgnoresTasks(ExecutorAfter(n, me, c.clock, a), TasksAfter(n, me, c.clock, a));
    KeepsRunningSafe(c, me, a);
  }

  lemma GatedIgnoresTasks(n: Node, tasks: map<TaskId, Task>)
    requires Gated(n)
    ensures Gated(n.(tasks := tasks))
  {
    var n' := n.(tasks := tasks);
    forall id | id in n'.executing
      ensures exists th :: th in n'.threads && PastGate(n'.threads[th]) && n'.threads[th].taskId == id
    {
      var th := MarkedHasThread(n, id);
      assert th in n'.threads && PastGate(n'.threads[th]) && n'.threads[th].taskId == id;
    }
  }

  lemma KeepsInvariant(c: Cluster, c': Cluster)
    requires Invariant(c) && Next(c, c')
    ensures Invariant(c')
  {
    hide CopiesInvariant, Disciplined, Step, LocalStep;
    if c' == c.(clock := c'.clock) {
      ClockKeepsCopies(c, c');
    } else {
      var me, a :| StepBy(c, c', me, a);
      StepIsLocal(c, me, a);
      KeepsCopies(c, c', me, OwnWrites(c.nodes[me], me, c.clock, a));
      KeepsDisciplined(c, me, a);
      OthersUnchanged(c, me, a);
    }
  }

  lemma ClockKeepsCopies(c: Cluster, c': Cluster)
    requires c' == c.(clock := c'.clock) && CopiesInvariant(c)
    ensures CopiesInvariant(c')
  {
    hide WellFormed;
  }

  lemma OthersUnchanged(c: Cluster, me: Key, a: Action)
    requires me in c.nodes && Enabled(c, me, a)
    ensures Step(c, me, a).nodes.Keys == c.nodes.Keys
    ensures forall i :: i in c.nodes && i != me ==> Step(c, me, a).nodes[i] == c.nodes[i]
  {}

  lemma InitInvariant(c: Cluster)
    requires Init(c)
    ensures Invariant(c)
  {}

  lemma {:induction false} RunKeepsInvariant(trace: seq<Cluster>, k: nat)
    requires IsRun(trace) && k < |trace|
    ensures Invariant(trace[k])
  {
    hide Init, Next, Invariant;
    if k == 0 {
      InitInvariant(trace[0]);
    } else {
      RunKeepsInvariant(trace, k - 1);
      KeepsInvariant(trace[k - 1], trace[k]);
    }
  }
}
