/**
 What every step of the cluster keeps: well-formed copies, one writer per version, copies
 completed only by their holder, and at most one executor per task past the gate.
 */
module ClusterInvariant {
  import opened Options
  import opened Payloads
  import opened Tasks
  import opened Cluster

  /** A well-formed copy. */
  predicate WellFormed(t: Task) {
    && (t.status.Pending? <==> t.leasedBy.None?)
    && (t.status.Pending? ==> t.leaseExpires == 0.0)
    && t.version >= 1
    && (t.status.InProgress? ==> t.version >= 2)
    && (t.status.Completed? ==> t.version >= 3)
    && (!t.status.Pending? ==>
      && t.claimedAt.Some?
      && t.commitment == Some(Commitment(t.leasedBy.value, t.taskId, t.claimedAt.value)))
    && (t.result.Some? <==> t.status.Completed?)
    && (t.completedAt.Some? <==> t.status.Completed?)
    && t.resultHash == (if t.result.Some? then Some(ResultHash(t.result.value)) else None)
  }

  /** What a node may write over its own copy. */
  predicate OwnWrite(before: Option<Task>, after: Task, id: TaskId, me: Key) {
    && after.taskId == id && WellFormed(after)
    && (after.status.Completed? ==> HeldBy(after, me))
    && (if before.None? then after.version == 1 && !after.status.Completed?
        else !before.value.status.Completed? && after.version == before.value.version + 1 && after.identity == before.value.identity)
  }

  ghost predicate WrittenCopy(t: Task, written: set<Write>) {
    exists w :: w in written && w.copy == t
  }

  /** What may become of one entry of a node's ledger in one step. */
  ghost predicate EntryStep(before: Option<Task>, after: Option<Task>, own: bool, id: TaskId, me: Key, written: set<Write>) {
    if own then
      after.Some? && OwnWrite(before, after.value, id, me) && (before.None? ==> Fresh(id, written))
    else
      || after == before
      || (after.Some? && after.value.taskId == id && WrittenCopy(after.value, written) && (before.None? || Outranks(after.value, before.value)))
  }

  // The invariant, in parts.

  ghost predicate LedgersWritten(c: Cluster) {
    forall i, id :: i in c.nodes && id in c.nodes[i].tasks ==>
      c.nodes[i].tasks[id].taskId == id && WrittenCopy(c.nodes[i].tasks[id], c.written)
  }

  /** The writer of a copy holds one at least as advanced. */
  ghost predicate Followed(w: Write, nodes: map<Key, Node>) {
    && w.writer in nodes && w.copy.taskId in nodes[w.writer].tasks
    && var current := nodes[w.writer].tasks[w.copy.taskId];
      && (current.status.Completed? || w.copy.version <= current.version)
      && (w.copy.status.Completed? ==> current.status.Completed? && HeldBy(w.copy, w.writer))
  }

  ghost predicate WritesFollowed(c: Cluster) {
    forall w :: w in c.written ==> WellFormed(w.copy) && Followed(w, c.nodes)
  }

  /** One node's writes to one task with the same version, or both completing it. */
  predicate Clash(w1: Write, w2: Write) {
    && w1.writer == w2.writer && w1.copy.taskId == w2.copy.taskId
    && (w1.copy.version == w2.copy.version || (w1.copy.status.Completed? && w2.copy.status.Completed?))
  }

  ghost predicate NoForks(written: set<Write>) {
    forall w1, w2 :: w1 in written && w2 in written && Clash(w1, w2) ==> w1 == w2
  }

  ghost predicate OneIdentity(written: set<Write>) {
    forall w1, w2 :: w1 in written && w2 in written && w1.copy.taskId == w2.copy.taskId
      ==> w1.copy.identity == w2.copy.identity
  }

  predicate PastGate(t: Thread) { !t.phase.AtGate? }

  /** Both past the gate for one task. */
  predicate Rivals(t1: Thread, t2: Thread) { PastGate(t1) && PastGate(t2) && t1.taskId == t2.taskId }

  /** Past the gate there is exactly one thread per task marked as executing. */
  ghost predicate Gated(n: Node) {
    && (forall th :: th in n.threads ==> th < n.spawned)
    && (forall th :: th in n.threads && PastGate(n.threads[th]) ==> n.threads[th].taskId in n.executing)
    && (forall id :: id in n.executing ==> exists th :: th in n.threads && PastGate(n.threads[th]) && n.threads[th].taskId == id)
    && (forall t1, t2 :: t1 in n.threads && t2 in n.threads && Rivals(n.threads[t1], n.threads[t2]) ==> t1 == t2)
  }

  /** No running thread faces a copy its own node completed. */
  ghost predicate RunningSafe(n: Node, me: Key) {
    forall th :: th in n.threads && n.threads[th].phase.Running? ==> NotDoneBy(n, n.threads[th].taskId, me)
  }

  ghost predicate Disciplined(n: Node, me: Key) { Gated(n) && RunningSafe(n, me) }

  /** The node's copy is there and was not completed by the node itself. */
  predicate NotDoneBy(n: Node, id: TaskId, me: Key) {
    id in n.tasks && !(n.tasks[id].status.Completed? && HeldBy(n.tasks[id], me))
  }

  ghost predicate CopiesInvariant(c: Cluster) {
    LedgersWritten(c) && WritesFollowed(c) && NoForks(c.written) && OneIdentity(c.written)
  }

  ghost predicate Invariant(c: Cluster) {
    && CopiesInvariant(c)
    && forall i :: i in c.nodes ==> Disciplined(c.nodes[i], i)
  }

  // One entry.

  lemma ClaimIsOwnWrite(t: Task, id: TaskId, me: Key, now: real, duration: real)
    requires t.taskId == id && WellFormed(t) && Claim(t, me, now, duration).Some?
    ensures OwnWrite(Some(t), Claim(t, me, now, duration).value, id, me)
  {}

  lemma RefreshIsOwnWrite(t: Task, id: TaskId, me: Key, now: real, duration: real)
    requires t.taskId == id && WellFormed(t) && Active(t, me)
    ensures OwnWrite(Some(t), Refreshed(t, now, duration), id, me)
    ensures OwnWrite(Some(t), Freed(t), id, me)
  {}

  lemma ExecutorCallIsOwnWrite(t: Task, id: TaskId, me: Key, result: string, now: real)
    requires t.taskId == id && WellFormed(t) && HeldBy(t, me) && !t.status.Completed?
    ensures OwnWrite(Some(t), Complete(t, me, result, now).value, id, me)
    ensures OwnWrite(Some(t), Release(t, me).value, id, me)
  {}

  lemma LedgerWellFormed(c: Cluster, i: Key, id: TaskId)
    requires CopiesInvariant(c) && i in c.nodes && id in c.nodes[i].tasks
    ensures c.nodes[i].tasks[id].taskId == id && WellFormed(c.nodes[i].tasks[id])
    ensures c.nodes[i].tasks[id].taskId == id && WrittenCopy(c.nodes[i].tasks[id], c.written)
  {
    var t := c.nodes[i].tasks[id];
    assert WrittenCopy(t, c.written);
    var w :| w in c.written && w.copy == t;
  }

  lemma FreshNotWritten(id: TaskId, t: Task, written: set<Write>)
    requires Fresh(id, written) && t.taskId == id
    ensures !WrittenCopy(t, written)
  {}

  lemma SubmittedIsOwnWrite(c: Cluster, me: Key, id: TaskId, identity: Identity)
    requires Invariant(c) && me in c.nodes && Fresh(id, c.written)
    ensures OwnWrite(None, Submitted(id, identity), id, me) && id !in c.nodes[me].tasks
  {
    if id in c.nodes[me].tasks {
      LedgerWellFormed(c, me, id);
      FreshNotWritten(id, c.nodes[me].tasks[id], c.written);
    }
  }

  /** The copy a single-task action writes continues the copy it replaces. */
  lemma OwnCopyIsOwnWrite(c: Cluster, me: Key, a: Action)
    requires Invariant(c) && me in c.nodes && Enabled(c, me, a)
    requires OwnCopy(c.nodes[me], me, c.clock, a).Some?
    ensures var n := c.nodes[me]; var t := OwnCopy(n, me, c.clock, a).value;
      && OwnWrite(Lookup(n.tasks, t.taskId), t, t.taskId, me)
      && (t.taskId !in n.tasks ==> Fresh(t.taskId, c.written))
  {
    hide WellFormed, OwnWrite, CopiesInvariant;
    var n := c.nodes[me];
    match a
    case Submit(k, identity) =>
      SubmittedIsOwnWrite(c, me, k, identity);
    case ScanClaim(k, d) =>
      LedgerWellFormed(c, me, k);
      ClaimIsOwnWrite(n.tasks[k], k, me, c.clock, d);
    case AwardClaim(k, d) =>
      LedgerWellFormed(c, me, k);
      ClaimIsOwnWrite(n.tasks[k], k, me, c.clock, d);
    case RenewLease(k, d) =>
      LedgerWellFormed(c, me, k);
      RefreshIsOwnWrite(n.tasks[k], k, me, c.clock, d);
    case CallComplete(th, result) =>
      CallIsEntryStep(c, me, th, result);
    case CallRelease(th) =>
      CallIsEntryStep(c, me, th, "");
  }

  /** Shutdown and restart treat every entry alone. */
  lemma SweepIsEntryStep(c: Cluster, me: Key, a: Action, id: TaskId)
    requires CopiesInvariant(c) && me in c.nodes && (a.ReleaseAll? || a.Restart?)
    ensures var n := c.nodes[me];
      EntryStep(Lookup(n.tasks, id), Lookup(TasksAfter(n, me, c.clock, a), id),
                id in OwnWrites(n, me, c.clock, a), id, me, c.written)
  {
    hide WellFormed, OwnWrite, CopiesInvariant, WrittenCopy;
    var n := c.nodes[me];
    if id in n.tasks && Active(n.tasks[id], me) {
      LedgerWellFormed(c, me, id);
      RefreshIsOwnWrite(n.tasks[id], id, me, c.clock, if a.Restart? then a.duration else 0.0);
    }
  }

  lemma DeliverIsEntryStep(before: Option<Task>, w: Write, written: set<Write>, me: Key)
    requires w in written
    ensures EntryStep(before, Some(Receive(before, w.copy).kept), false, w.copy.taskId, me, written)
  {
    assert WrittenCopy(w.copy, written);
  }

  /** Every action changes each entry of the ledger in one of the two ways. */
  lemma ActionIsEntryStep(c: Cluster, me: Key, a: Action, id: TaskId)
    requires Invariant(c) && me in c.nodes && Enabled(c, me, a)
    ensures var n := c.nodes[me];
      EntryStep(Lookup(n.tasks, id), Lookup(TasksAfter(n, me, c.clock, a), id),
                id in OwnWrites(n, me, c.clock, a), id, me, c.written)
  {
    hide WellFormed, OwnWrite, CopiesInvariant, WrittenCopy, Disciplined, OwnCopy, Receive;
    var n := c.nodes[me];
    if a.ReleaseAll? || a.Restart? {
      SweepIsEntryStep(c, me, a, id);
    } else if a.Deliver? {
      DeliverIsEntryStep(Lookup(n.tasks, a.write.copy.taskId), a.write, c.written, me);
      NoOwnCopy(n, me, c.clock, a);
    } else if OwnCopy(n, me, c.clock, a).Some? {
      OwnCopyIsOwnWrite(c, me, a);
    }
  }

  lemma NoOwnCopy(n: Node, me: Key, now: real, a: Action)
    requires a.Deliver?
    ensures OwnCopy(n, me, now, a).None?
  {}

  /** Here the executor discipline is needed: neither call looks at the status. */
  lemma CallIsEntryStep(c: Cluster, me: Key, th: nat, result: string)
    requires Invariant(c) && me in c.nodes
    requires th in c.nodes[me].threads && c.nodes[me].threads[th].phase.Running?
    ensures var n := c.nodes[me]; var id := n.threads[th].taskId;
      && id in n.tasks && n.tasks[id].taskId == id
      && (HeldBy(n.tasks[id], me) ==>
        && OwnWrite(Some(n.tasks[id]), Complete(n.tasks[id], me, result, c.clock).value, id, me)
        && OwnWrite(Some(n.tasks[id]), Release(n.tasks[id], me).value, id, me))
  {
    var n := c.nodes[me];
    var id := n.threads[th].taskId;
    assert Disciplined(n, me);
    LedgerWellFormed(c, me, id);
    if HeldBy(n.tasks[id], me) {
      ExecutorCallIsOwnWrite(n.tasks[id], id, me, result, c.clock);
    }
  }

  // The copies part is kept by any step that changes one ledger entry by entry.

  ghost predicate LocalStep(c: Cluster, c': Cluster, me: Key, own: set<TaskId>) {
    && me in c.nodes && c'.nodes.Keys == c.nodes.Keys
    && (forall i :: i in c.nodes && i != me ==> c'.nodes[i] == c.nodes[i])
    && (forall id :: EntryStep(Lookup(c.nodes[me].tasks, id), Lookup(c'.nodes[me].tasks, id), id in own, id, me, c.written))
    && c.written <= c'.written
    && (forall id :: id in own ==> id in c'.nodes[me].tasks && Write(me, c'.nodes[me].tasks[id]) in c'.written)
    && (forall w :: w in c'.written - c.written ==>
          w.writer == me && w.copy.taskId in own && w.copy == c'.nodes[me].tasks[w.copy.taskId])
  }

  lemma KeepsLedgersWritten(c: Cluster, c': Cluster, me: Key, own: set<TaskId>)
    requires CopiesInvariant(c) && LocalStep(c, c', me, own)
    ensures LedgersWritten(c')
  {
    hide WellFormed;
    forall i, id | i in c'.nodes && id in c'.nodes[i].tasks
      ensures c'.nodes[i].tasks[id].taskId == id && WrittenCopy(c'.nodes[i].tasks[id], c'.written)
    {
      if i == me {
        var before, after := Lookup(c.nodes[me].tasks, id), Lookup(c'.nodes[me].tasks, id);
        assert EntryStep(before, after, id in own, id, me, c.written);
        if id !in own && after != before {
          WrittenStays(after.value, c.written, c'.written);
        }
      }
      if id in c.nodes[i].tasks {
        LedgerWellFormed(c, i, id);
        WrittenStays(c.nodes[i].tasks[id], c.written, c'.written);
      }
    }
  }

  lemma WrittenStays(t: Task, written: set<Write>, written': set<Write>)
    requires WrittenCopy(t, written) && written <= written'
    ensures WrittenCopy(t, written')
  {
    var w :| w in written && w.copy == t;
    assert w in written';
  }

  /** The entry stays at least as advanced as an earlier write w. */
  lemma EntryStaysAhead(before: Task, after: Option<Task>, own: bool, w: Write, written: set<Write>)
    requires EntryStep(Some(before), after, own, w.copy.taskId, w.writer, written)
    requires before.status.Completed? || w.copy.version <= before.version
    requires w.copy.status.Completed? ==> before.status.Completed?
    ensures after.Some?
    ensures after.value.status.Completed? || w.copy.version <= after.value.version
    ensures w.copy.status.Completed? ==> after.value.status.Completed?
  {
    hide WellFormed, WrittenCopy;
  }

  lemma KeepsOldFollowed(c: Cluster, c': Cluster, me: Key, own: set<TaskId>, w: Write)
    requires CopiesInvariant(c) && LocalStep(c, c', me, own) && w in c.written
    ensures WellFormed(w.copy) && Followed(w, c'.nodes)
  {
    hide WellFormed, EntryStep, NoForks, OneIdentity, LedgersWritten;
    var id := w.copy.taskId;
    assert Followed(w, c.nodes);
    if w.writer == me {
      var after := Lookup(c'.nodes[me].tasks, id);
      EntryStaysAhead(c.nodes[me].tasks[id], after, id in own, w, c.written);
    }
  }

  lemma KeepsNewFollowed(c: Cluster, c': Cluster, me: Key, own: set<TaskId>, w: Write)
    requires LocalStep(c, c', me, own) && w in c'.written - c.written
    ensures WellFormed(w.copy) && Followed(w, c'.nodes)
  {
    hide WellFormed, WrittenCopy;
    var id := w.copy.taskId;
    assert EntryStep(Lookup(c.nodes[me].tasks, id), Lookup(c'.nodes[me].tasks, id), id in own, id, me, c.written);
  }

  /** A node's own write has a higher version than every earlier write of that node to the task. */
  lemma OwnWriteIsNewer(c: Cluster, c': Cluster, me: Key, own: set<TaskId>, earlier: Write, later: Write)
    requires CopiesInvariant(c) && LocalStep(c, c', me, own)
    requires earlier in c.written && later in c'.written - c.written
    requires earlier.writer == later.writer && earlier.copy.taskId == later.copy.taskId
    ensures earlier.copy.version < later.copy.version
    ensures !earlier.copy.status.Completed?
  {
    hide WellFormed;
    var id := later.copy.taskId;
    assert EntryStep(Lookup(c.nodes[me].tasks, id), Lookup(c'.nodes[me].tasks, id), id in own, id, me, c.written);
    assert Followed(earlier, c.nodes);
  }

  lemma KeepsNoForks(c: Cluster, c': Cluster, me: Key, own: set<TaskId>)
    requires CopiesInvariant(c) && LocalStep(c, c', me, own)
    ensures NoForks(c'.written)
  {
    hide WellFormed, EntryStep;
    forall w1, w2 | w1 in c'.written && w2 in c'.written && Clash(w1, w2)
      ensures w1 == w2
    {
      if w1 in c.written && w2 !in c.written {
        OwnWriteIsNewer(c, c', me, own, w1, w2);
      } else if w2 in c.written && w1 !in c.written {
        OwnWriteIsNewer(c, c', me, own, w2, w1);
      }
    }
  }

  lemma KeepsOneIdentity(c: Cluster, c': Cluster, me: Key, own: set<TaskId>)
    requires CopiesInvariant(c) && LocalStep(c, c', me, own)
    ensures OneIdentity(c'.written)
  {
    hide WellFormed, EntryStep;
    forall w1, w2 | w1 in c'.written && w2 in c'.written && w1.copy.taskId == w2.copy.taskId
      ensures w1.copy.identity == w2.copy.identity
    {
      if w1 in c.written && w2 !in c.written {
        SameIdentity(c, c', me, own, w1, w2);
      } else if w2 in c.written && w1 !in c.written {
        SameIdentity(c, c', me, own, w2, w1);
      }
    }
  }

  lemma SameIdentity(c: Cluster, c': Cluster, me: Key, own: set<TaskId>, earlier: Write, later: Write)
    requires CopiesInvariant(c) && LocalStep(c, c', me, own)
    requires earlier in c.written && later in c'.written - c.written && earlier.copy.taskId == later.copy.taskId
    ensures earlier.copy.identity == later.copy.identity
  {
    hide WellFormed;
    var id := later.copy.taskId;
    assert EntryStep(Lookup(c.nodes[me].tasks, id), Lookup(c'.nodes[me].tasks, id), id in own, id, me, c.written);
    if id in c.nodes[me].tasks {
      LedgerWellFormed(c, me, id);
      var w :| w in c.written && w.copy == c.nodes[me].tasks[id];
    }
  }

  lemma KeepsCopies(c: Cluster, c': Cluster, me: Key, own: set<TaskId>)
    requires CopiesInvariant(c) && LocalStep(c, c', me, own)
    ensures CopiesInvariant(c')
  {
    hide WellFormed, EntryStep, LocalStep, Followed;
    KeepsLedgersWritten(c, c', me, own);
    forall w | w in c'.written
      ensures WellFormed(w.copy) && Followed(w, c'.nodes)
    {
      if w in c.written {
        KeepsOldFollowed(c, c', me, own, w);
      } else {
        KeepsNewFollowed(c, c', me, own, w);
      }
    }
    KeepsNoForks(c, c', me, own);
    KeepsOneIdentity(c, c', me, own);
  }

  lemma StepIsLocal(c: Cluster, me: Key, a: Action)
    requires Invariant(c) && me in c.nodes && Enabled(c, me, a)
    ensures LocalStep(c, Step(c, me, a), me, OwnWrites(c.nodes[me], me, c.clock, a))
  {
    hide WellFormed, EntryStep, Invariant, OwnWrites, TasksAfter, ExecutorAfter, Enabled;
    var n := c.nodes[me];
    var c' := Step(c, me, a);
    var own := OwnWrites(n, me, c.clock, a);
    forall id
      ensures EntryStep(Lookup(n.tasks, id), Lookup(c'.nodes[me].tasks, id), id in own, id, me, c.written)
    {
      ActionIsEntryStep(c, me, a, id);
    }
    forall id | id in own
      ensures id in c'.nodes[me].tasks && c'.nodes[me].tasks[id].taskId == id
    {
      OwnEntryNamed(Lookup(n.tasks, id), Lookup(c'.nodes[me].tasks, id), id, me, c.written);
    }
  }

  lemma OwnEntryNamed(before: Option<Task>, after: Option<Task>, id: TaskId, me: Key, written: set<Write>)
    requires EntryStep(before, after, true, id, me, written)
    ensures after.Some? && after.value.taskId == id
  {}
}
