/**
 Where copies come from: every copy anywhere goes back to one submission, which its payload
 and other fixed fields are taken from, and every result to one executor's call.
 */
module Provenance {
  import opened Options
  import opened Payloads
  import opened Tasks
  import opened Cluster
  import opened ClusterInvariant
  import opened ExecutorDiscipline
  import opened ClusterSafety

  // Submissions.

  /** In this step the node submitted the task. */
  ghost predicate SubmittedIn(c: Cluster, c': Cluster, me: Key, id: TaskId, identity: Identity) {
    StepBy(c, c', me, Submit(id, identity))
  }

  /** The submitter holds and sends the task as it was submitted: pending, in its first version. */
  lemma SubmissionIsStored(c: Cluster, c': Cluster, me: Key, id: TaskId, identity: Identity)
    requires SubmittedIn(c, c', me, id, identity)
    ensures me in c'.nodes && id in c'.nodes[me].tasks
    ensures var copy := c'.nodes[me].tasks[id];
      && copy == Task(id, identity, Pending, None, 0.0, None, 1, None, None, None, None)
      && Write(me, copy) in c'.written
  {}

  /** From the submission on, every copy of the task anywhere has the payload and the other fields submitted. */
  lemma SubmissionPersists(trace: seq<Cluster>, j: nat, k: nat, me: Key, id: TaskId, identity: Identity, t: Task)
    requires IsRun(trace) && j < k < |trace| && SubmittedIn(trace[j], trace[j + 1], me, id, identity)
    requires Somewhere(trace[k], t) && t.taskId == id
    ensures t.identity == identity
  {
    hide IsRun, Invariant, Somewhere, SubmittedIn;
    SubmissionIsStored(trace[j], trace[j + 1], me, id, identity);
    WrittenStaysWritten(trace, j + 1, k);
    RunKeepsInvariant(trace, k);
    var w := SomewhereIsWritten(trace[k], t);
    SameTaskSameFields(trace[k], Write(me, trace[j + 1].nodes[me].tasks[id]), w);
  }

  lemma SameTaskSameFields(c: Cluster, w1: Write, w2: Write)
    requires Invariant(c) && w1 in c.written && w2 in c.written && w1.copy.taskId == w2.copy.taskId
    ensures w1.copy.identity == w2.copy.identity
  {
    hide Disciplined, WellFormed;
  }

  /** A first entry that a node writes itself is a submission. */
  lemma FirstWriteIsSubmit(n: Node, me: Key, now: real, a: Action, id: TaskId)
    requires id in OwnWrites(n, me, now, a) && id !in n.tasks && id in TasksAfter(n, me, now, a)
    requires forall i :: i in n.tasks ==> n.tasks[i].taskId == i
    ensures a.Submit? && a.id == id && TasksAfter(n, me, now, a)[id].identity == a.identity
  {}

  /** The step in which a copy was written. */
  lemma {:induction false} WrittenInStep(trace: seq<Cluster>, k: nat, w: Write) returns (j: nat)
    requires IsRun(trace) && k < |trace| && w in trace[k].written
    ensures j < k && w !in trace[j].written && w in trace[j + 1].written
  {
    hide Next;
    if k > 0 {
      if w in trace[k - 1].written {
        j := WrittenInStep(trace, k - 1, w);
      } else {
        j := k - 1;
      }
    }
  }

  /** What the step that writes a copy looks like. */
  lemma WritingStep(c: Cluster, c': Cluster, w: Write) returns (a: Action)
    requires Invariant(c) && Next(c, c') && w in c'.written - c.written
    ensures w.writer in c.nodes && StepBy(c, c', w.writer, a)
    ensures var n := c.nodes[w.writer];
      && w.copy.taskId in OwnWrites(n, w.writer, c.clock, a)
      && w.copy.taskId in TasksAfter(n, w.writer, c.clock, a)
      && w.copy == TasksAfter(n, w.writer, c.clock, a)[w.copy.taskId]
      && w.copy == c'.nodes[w.writer].tasks[w.copy.taskId]
      && OwnWrite(Lookup(n.tasks, w.copy.taskId), w.copy, w.copy.taskId, w.writer)
  {
    hide Invariant, Enabled, OwnWrites, TasksAfter, ExecutorAfter, OwnWrite;
    var me, b :| StepBy(c, c', me, b);
    a := b;
    StepIsLocal(c, me, a);
    assert w.writer == me;
    WriteIsEntry(c, c', me, OwnWrites(c.nodes[me], me, c.clock, a), w);
  }

  lemma WriteIsEntry(c: Cluster, c': Cluster, me: Key, own: set<TaskId>, w: Write)
    requires LocalStep(c, c', me, own) && w in c'.written - c.written
    ensures w.copy.taskId in own && w.copy.taskId in c'.nodes[me].tasks && w.copy == c'.nodes[me].tasks[w.copy.taskId]
    ensures OwnWrite(Lookup(c.nodes[me].tasks, w.copy.taskId), w.copy, w.copy.taskId, me)
  {
    hide OwnWrite;
    var id := w.copy.taskId;
    assert EntryStep(Lookup(c.nodes[me].tasks, id), Lookup(c'.nodes[me].tasks, id), id in own, id, me, c.written);
  }

  lemma LedgerKeys(c: Cluster, i: Key)
    requires Invariant(c) && i in c.nodes
    ensures forall id :: id in c.nodes[i].tasks ==> c.nodes[i].tasks[id].taskId == id
  {
    hide Disciplined;
  }

  /** Every copy written goes back to a submission of its task with the same fields. */
  lemma {:induction false} WriteHasSubmission(trace: seq<Cluster>, k: nat, w: Write) returns (j: nat, me: Key)
    requires IsRun(trace) && k < |trace| && w in trace[k].written
    ensures j < k && SubmittedIn(trace[j], trace[j + 1], me, w.copy.taskId, w.copy.identity)
    decreases k
  {
    hide Next, Invariant, StepBy, OwnWrites, TasksAfter, WellFormed;
    var m := WrittenInStep(trace, k, w);
    RunKeepsInvariant(trace, m);
    assert Next(trace[m], trace[m + 1]);
    var a := WritingStep(trace[m], trace[m + 1], w);
    var n, id := trace[m].nodes[w.writer], w.copy.taskId;
    if id in n.tasks {
      var earlier := EntryWrite(trace[m], w.writer, id);
      j, me := WriteHasSubmission(trace, m, earlier);
    } else {
      LedgerKeys(trace[m], w.writer);
      FirstWriteIsSubmit(n, w.writer, trace[m].clock, a, id);
      j, me := m, w.writer;
    }
  }

  lemma EntryWrite(c: Cluster, i: Key, id: TaskId) returns (w: Write)
    requires Invariant(c) && i in c.nodes && id in c.nodes[i].tasks
    ensures w in c.written && w.copy == c.nodes[i].tasks[id] && w.copy.taskId == id
  {
    hide Disciplined, WellFormed;
    LedgerWellFormed(c, i, id);
    w :| w in c.written && w.copy == c.nodes[i].tasks[id];
  }

  /** Every copy anywhere was submitted with its payload and other fixed fields. */
  lemma CopiesWereSubmitted(trace: seq<Cluster>, k: nat, t: Task) returns (j: nat, me: Key)
    requires IsRun(trace) && k < |trace| && Somewhere(trace[k], t)
    ensures j < k && SubmittedIn(trace[j], trace[j + 1], me, t.taskId, t.identity)
  {
    hide IsRun, Invariant, Somewhere, SubmittedIn, WellFormed, Followed;
    RunKeepsInvariant(trace, k);
    var w := SomewhereIsWritten(trace[k], t);
    j, me := WriteHasSubmission(trace, k, w);
  }

  // Results.

  /** In this step a running thread of the holder completed the task with this result. */
  ghost predicate CompletedIn(c: Cluster, c': Cluster, me: Key, th: nat, result: string, t: Task) {
    && StepBy(c, c', me, CallComplete(th, result))
    && th in c.nodes[me].threads && c.nodes[me].threads[th] == Thread(t.taskId, Running)
    && t.taskId in c.nodes[me].tasks && HeldBy(c.nodes[me].tasks[t.taskId], me)
    && CompletedFrom(c.nodes[me].tasks[t.taskId], t, result, c.clock)
  }

  lemma CompletionInStep(c: Cluster, c': Cluster, w: Write) returns (th: nat, result: string)
    requires Invariant(c) && Next(c, c') && w in c'.written - c.written && w.copy.status.Completed?
    ensures CompletedIn(c, c', w.writer, th, result, w.copy)
  {
    hide Invariant, OwnWrites, TasksAfter, ExecutorAfter, WellFormed, CompletedFrom, OwnWrite;
    var a := WritingStep(c, c', w);
    OwnCompletionIsCall(c, w.writer, a, w.copy.taskId);
    th, result := a.thread, a.result;
  }

  /**
   Every completed copy anywhere carries the result of an earlier completion call, made by a
   running thread of its holder for this task, and the time of that call.
   */
  lemma ResultsComeFromCalls(trace: seq<Cluster>, k: nat, t: Task) returns (j: nat, me: Key, th: nat, result: string)
    requires IsRun(trace) && k < |trace| && Somewhere(trace[k], t) && t.status.Completed?
    ensures j < k && CompletedIn(trace[j], trace[j + 1], me, th, result, t)
    ensures t.result == Some(result) && t.leasedBy == Some(me) && t.completedAt == Some(trace[j].clock)
  {
    hide Invariant, Somewhere, Next, WellFormed, Followed, StepBy;
    RunKeepsInvariant(trace, k);
    var w := SomewhereIsWritten(trace[k], t);
    j := WrittenInStep(trace, k, w);
    RunKeepsInvariant(trace, j);
    assert Next(trace[j], trace[j + 1]);
    th, result := CompletionInStep(trace[j], trace[j + 1], w);
    me := w.writer;
  }
}
