/**
 Ledger copies of a task and the operations on one copy. An operation the ledger refuses
 yields None; otherwise it yields the copy written in place of the old one.

 Hashes are ideal: a commitment or result hash is the value it was computed from.
 */
module Tasks {
  import opened Options
  import opened Payloads

  type TaskId = string

  datatype Status = Pending | InProgress | Completed

  datatype Commitment = Commitment(key: Key, taskId: TaskId, at: real)

  datatype ResultHash = ResultHash(result: string)

  /** What never changes after submission. */
  datatype Identity = Identity(
    payload: Payload,
    shardId: int,
    createdAt: real,
    submitterKey: Option<Key>,
    encrypted: bool,
    thresholdT: nat)

  datatype Task = Task(
    taskId: TaskId,
    identity: Identity,
    status: Status,
    leasedBy: Option<Key>,
    leaseExpires: real,
    result: Option<string>,
    version: nat,
    completedAt: Option<real>,
    claimedAt: Option<real>,
    commitment: Option<Commitment>,
    resultHash: Option<ResultHash>)

  function Submitted(id: TaskId, identity: Identity): Task {
    Task(id, identity, Pending, None, 0.0, None, 1, None, None, None, None)
  }

  predicate HeldBy(t: Task, me: Key) { t.leasedBy == Some(me) }

  predicate Active(t: Task, me: Key) { HeldBy(t, me) && t.status.InProgress? }

  predicate Lapsed(t: Task, now: real) { t.status.InProgress? && t.leaseExpires < now }

  function Claim(t: Task, me: Key, now: real, duration: real): Option<Task> {
    if t.status.Completed? then None
    else if t.status.InProgress? && !Lapsed(t, now) then None
    else Some(t.(status := InProgress,
                 leasedBy := Some(me),
                 leaseExpires := now + duration,
                 claimedAt := Some(now),
                 commitment := Some(Commitment(me, t.taskId, now)),
                 version := t.version + 1))
  }

  function Refreshed(t: Task, now: real, duration: real): Task {
    t.(leaseExpires := now + duration, version := t.version + 1)
  }

  function Renew(t: Task, me: Key, now: real, duration: real): Option<Task> {
    if Active(t, me) then Some(Refreshed(t, now, duration)) else None
  }

  function Freed(t: Task): Task {
    t.(status := Pending, leasedBy := None, leaseExpires := 0.0, version := t.version + 1)
  }

  /** Giving up one lease: the holder is checked, the status is not. */
  function Release(t: Task, me: Key): Option<Task> {
    if HeldBy(t, me) then Some(Freed(t)) else None
  }

  /** Completing: the holder is checked, the status is not. */
  function Complete(t: Task, me: Key, result: string, now: real): Option<Task> {
    if HeldBy(t, me) then
      Some(t.(status := Completed,
              result := Some(result),
              completedAt := Some(now),
              resultHash := Some(ResultHash(result)),
              version := t.version + 1))
    else None
  }

  /** What a restart writes over one copy. */
  function Recovered(t: Task, me: Key, now: real, duration: real): Task {
    if Active(t, me) then Refreshed(t, now, duration) else t
  }

  /** What a graceful shutdown writes over one copy. */
  function ShutDown(t: Task, me: Key): Task {
    if Active(t, me) then Freed(t) else t
  }

  predicate Claimable(t: Task, me: Key, now: real) {
    t.status.Pending? || (Lapsed(t, now) && !HeldBy(t, me))
  }

  predicate NeedsRenewal(t: Task, me: Key, now: real, renewThreshold: real) {
    Active(t, me) && t.leaseExpires - now < renewThreshold
  }

  // Merging.

  datatype Receipt = Receipt(kept: Task, changed: bool)

  /** The branches of the update handler, in its order. */
  function Receive(existing: Option<Task>, incoming: Task): Receipt {
    if existing.None? then Receipt(incoming, true)
    else if existing.value.status.Completed? then Receipt(existing.value, false)
    else if incoming.version > existing.value.version then Receipt(incoming, true)
    else if incoming.status.Completed? && !existing.value.status.Completed? then Receipt(incoming, true)
    else Receipt(existing.value, false)
  }

  /** Completed copies are on top, the others are ordered by version. */
  predicate Outranks(a: Task, b: Task) {
    !b.status.Completed? && (a.status.Completed? || a.version > b.version)
  }

  // Whole ledgers.

  function Lookup(tasks: map<TaskId, Task>, id: TaskId): Option<Task> {
    if id in tasks then Some(tasks[id]) else None
  }

  /** The ledger after an update arrives. */
  function Absorb(tasks: map<TaskId, Task>, incoming: Task): map<TaskId, Task> {
    tasks[incoming.taskId := Receive(Lookup(tasks, incoming.taskId), incoming).kept]
  }

  /** The leases a node holds. */
  function Leases(tasks: map<TaskId, Task>, me: Key): set<TaskId> {
    set id | id in tasks && Active(tasks[id], me)
  }

  /** The ledger after a restart. */
  function RecoveredAll(tasks: map<TaskId, Task>, me: Key, now: real, duration: real): map<TaskId, Task> {
    map id | id in tasks :: Recovered(tasks[id], me, now, duration)
  }

  /** The ledger after a graceful shutdown. */
  function ShutDownAll(tasks: map<TaskId, Task>, me: Key): map<TaskId, Task> {
    map id | id in tasks :: ShutDown(tasks[id], me)
  }

  // What leases mean to others.

  /** A task is listed as claimable exactly when a claim would succeed and it is not our own running lease. */
  lemma ClaimableExactly(t: Task, me: Key, now: real, duration: real)
    ensures Claimable(t, me, now) <==> Claim(t, me, now, duration).Some? && !Active(t, me)
  {}

  /** A claim shuts everyone out until its lease runs out, and no longer. */
  lemma ClaimLasts(t: Task, me: Key, now: real, duration: real, other: Key, later: real, d: real)
    requires Claim(t, me, now, duration).Some?
    ensures var copy := Claim(t, me, now, duration).value;
      && Active(copy, me) && copy.identity == t.identity
      && (Claim(copy, other, later, d).Some? <==> now + duration < later)
  {}

  /** So does a renewal, and so does taking a lease up again after a restart. */
  lemma RenewalLasts(t: Task, me: Key, now: real, duration: real, other: Key, later: real, d: real)
    requires Active(t, me)
    ensures Renew(t, me, now, duration) == Some(Recovered(t, me, now, duration))
    ensures var copy := Recovered(t, me, now, duration);
      && Active(copy, me) && copy.identity == t.identity
      && (Claim(copy, other, later, d).Some? <==> now + duration < later)
  {}

  /** A lease given up, alone or at shutdown, can be claimed by anyone at once. */
  lemma ReleasedIsFree(t: Task, me: Key, other: Key, now: real, d: real)
    requires Active(t, me)
    ensures Release(t, me) == Some(ShutDown(t, me))
    ensures var copy := ShutDown(t, me);
      Claimable(copy, other, now) && Claim(copy, other, now, d).Some? && copy.identity == t.identity
  {}

  /** Nobody can claim a completed task. */
  lemma CompletedIsFinal(t: Task, me: Key, result: string, at: real, other: Key, now: real, d: real)
    requires HeldBy(t, me)
    ensures Complete(t, me, result, at).Some?
    ensures var copy := Complete(t, me, result, at).value;
      copy.result == Some(result) && copy.identity == t.identity && Claim(copy, other, now, d).None? && !Claimable(copy, other, now)
  {}
}
