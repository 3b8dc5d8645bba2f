/**
 The whole cluster as a state machine: every node's ledger and executor threads, and the
 copies in flight.

 The network may lose, repeat and reorder: any copy ever written may arrive anywhere at any
 later time, any number of times, or never. A crash keeps the ledger, which is on disk
 after every step, and loses the threads.
 */
module Cluster {
  import opened Options
  import opened Payloads
  import opened Tasks

  /** Where an executor thread stands. Only the auction path starts at the gate. */
  datatype Phase = AtGate | Settling | Running | Leaving

  datatype Thread = Thread(taskId: TaskId, phase: Phase)

  datatype Node = Node(
    tasks: map<TaskId, Task>,
    executing: set<TaskId>,
    threads: map<nat, Thread>,
    spawned: nat)

  /** A copy together with the node that wrote it. */
  datatype Write = Write(writer: Key, copy: Task)

  /** A copy that a node passed on after adopting it. */
  datatype Forward = Forward(node: Key, copy: Task)

  /** A call of complete or release by an executor thread. */
  datatype Call = Call(node: Key, thread: nat)

  datatype Cluster = Cluster(
    nodes: map<Key, Node>,
    written: set<Write>,
    forwarded: seq<Forward>,
    calls: seq<Call>,
    clock: real)

  datatype Action =
    | Submit(id: TaskId, identity: Identity)
    | ScanClaim(id: TaskId, duration: real)
    | AwardClaim(id: TaskId, duration: real)
    | PassGate(thread: nat)
    | CheckActive(thread: nat)
    | CallComplete(thread: nat, result: string)
    | CallRelease(thread: nat)
    | Leave(thread: nat)
    | RenewLease(id: TaskId, duration: real)
    | ReleaseAll
    | Restart(duration: real)
    | Deliver(write: Write, relayed: bool)

  /** The copy an action on one task writes, if the ledger accepts it. */
  function OwnCopy(n: Node, me: Key, now: real, a: Action): Option<Task> {
    match a
    case Submit(id, identity) => Some(Submitted(id, identity))
    case ScanClaim(id, duration) => if id in n.tasks then Claim(n.tasks[id], me, now, duration) else None
    case AwardClaim(id, duration) => if id in n.tasks then Claim(n.tasks[id], me, now, duration) else None
    case RenewLease(id, duration) => if id in n.tasks then Renew(n.tasks[id], me, now, duration) else None
    case CallComplete(th, result) =>
      if th in n.threads && n.threads[th].taskId in n.tasks
      then Complete(n.tasks[n.threads[th].taskId], me, result, now) else None
    case CallRelease(th) =>
      if th in n.threads && n.threads[th].taskId in n.tasks
      then Release(n.tasks[n.threads[th].taskId], me) else None
    case _ => None
  }

  /** The ledger after an action. */
  function TasksAfter(n: Node, me: Key, now: real, a: Action): map<TaskId, Task> {
    match a
    case ReleaseAll => ShutDownAll(n.tasks, me)
    case Restart(duration) => RecoveredAll(n.tasks, me, now, duration)
    case Deliver(w, _) => Absorb(n.tasks, w.copy)
    case _ =>
      var own := OwnCopy(n, me, now, a);
      if own.Some? then n.tasks[own.value.taskId := own.value] else n.tasks
  }

  /** The tasks whose copy the node itself wrote in an action. */
  function OwnWrites(n: Node, me: Key, now: real, a: Action): set<TaskId> {
    match a
    case ReleaseAll => Leases(n.tasks, me)
    case Restart(_) => Leases(n.tasks, me)
    case _ =>
      var own := OwnCopy(n, me, now, a);
      if own.Some? then {own.value.taskId} else {}
  }

  function Spawn(n: Node, id: TaskId, phase: Phase): Node {
    n.(threads := n.threads[n.spawned := Thread(id, phase)], spawned := n.spawned + 1)
  }

  function Move(n: Node, th: nat, phase: Phase): Node
    requires th in n.threads
  {
    n.(threads := n.threads[th := Thread(n.threads[th].taskId, phase)])
  }

  /** A thread past the gate ends and clears its mark. */
  function End(n: Node, th: nat): Node
    requires th in n.threads
  {
    n.(threads := n.threads - {th}, executing := n.executing - {n.threads[th].taskId})
  }

  /** The executor side of an action. */
  function ExecutorAfter(n: Node, me: Key, now: real, a: Action): Node
    requires a.ScanClaim? || a.AwardClaim? ==> OwnCopy(n, me, now, a).Some?
    requires a.PassGate? || a.CheckActive? || a.CallComplete? || a.CallRelease? || a.Leave? ==> a.thread in n.threads
  {
    match a
    case ScanClaim(id, _) => Spawn(n.(executing := n.executing + {id}), id, Settling)
    case AwardClaim(id, _) => Spawn(n, id, AtGate)
    case PassGate(th) =>
      var id := n.threads[th].taskId;
      if id in n.executing then n.(threads := n.threads - {th})
      else Move(n.(executing := n.executing + {id}), th, Settling)
    case CheckActive(th) =>
      var id := n.threads[th].taskId;
      if id in n.tasks && Active(n.tasks[id], me) then Move(n, th, Running) else End(n, th)
    case CallComplete(th, _) => Move(n, th, Leaving)
    case CallRelease(th) => Move(n, th, Leaving)
    case Leave(th) => End(n, th)
    case Restart(_) => n.(executing := {}, threads := map[])
    case _ => n
  }

  ghost predicate Fresh(id: TaskId, written: set<Write>) {
    forall w :: w in written ==> w.copy.taskId != id
  }

  ghost predicate Enabled(c: Cluster, me: Key, a: Action)
    requires me in c.nodes
  {
    var n := c.nodes[me];
    match a
    case Submit(id, _) => Fresh(id, c.written)
    case ScanClaim(id, _) => id !in n.executing && OwnCopy(n, me, c.clock, a).Some?
    case AwardClaim(id, _) => OwnCopy(n, me, c.clock, a).Some?
    case PassGate(th) => th in n.threads && n.threads[th].phase.AtGate?
    case CheckActive(th) => th in n.threads && n.threads[th].phase.Settling?
    case CallComplete(th, _) => th in n.threads && n.threads[th].phase.Running?
    case CallRelease(th) => th in n.threads && n.threads[th].phase.Running?
    case Leave(th) => th in n.threads && (n.threads[th].phase.Leaving? || n.threads[th].phase.Running?)
    case Deliver(w, relayed) =>
      && w in c.written
      && (relayed ==> Receive(Lookup(n.tasks, w.copy.taskId), w.copy).changed)
    case _ => true
  }

  ghost function Step(c: Cluster, me: Key, a: Action): Cluster
    requires me in c.nodes && Enabled(c, me, a)
  {
    var n := c.nodes[me];
    var tasks := TasksAfter(n, me, c.clock, a);
    var own := OwnWrites(n, me, c.clock, a);
    c.(nodes := c.nodes[me := ExecutorAfter(n, me, c.clock, a).(tasks := tasks)],
       written := c.written + set id | id in own && id in tasks :: Write(me, tasks[id]),
       forwarded := if a.Deliver? && a.relayed then c.forwarded + [Forward(me, a.write.copy)] else c.forwarded,
       calls := if a.CallComplete? || a.CallRelease? then c.calls + [Call(me, a.thread)] else c.calls)
  }

  ghost predicate Init(c: Cluster) {
    && c.written == {} && c.forwarded == [] && c.calls == []
    && forall i :: i in c.nodes ==> c.nodes[i] == Node(map[], {}, map[], 0)
  }

  ghost predicate Next(c: Cluster, c': Cluster) {
    || (c.clock <= c'.clock && c' == c.(clock := c'.clock))
    || exists me, a :: StepBy(c, c', me, a)
  }

  ghost predicate StepBy(c: Cluster, c': Cluster, me: Key, a: Action) {
    me in c.nodes && Enabled(c, me, a) && c' == Step(c, me, a)
  }

  ghost predicate IsRun(trace: seq<Cluster>) {
    && |trace| > 0 && Init(trace[0])
    && forall k :: 0 <= k < |trace| - 1 ==> Next(trace[k], trace[k + 1])
  }
}
