/**
 Timed exclusivity of one lease. While the holder keeps running and neither completes nor
 releases, its renewals reach everyone before anyone sees the lease lapse, so no claim of
 the task succeeds.

 Assumed: the holder scans at least every S, each renewal reaches every node within d,
 clocks agree, and nothing in flight at the start outranks the lease.
 */
module LeaseTiming {
  import opened Options
  import opened Payloads
  import opened Tasks

  datatype Bounds = Bounds(scanGap: real, delay: real, renewThreshold: real, duration: real)

  ghost predicate Sensible(b: Bounds) {
    0.0 < b.scanGap && 0.0 <= b.delay && 0.0 <= b.renewThreshold <= b.duration
  }

  /** A renewal must have time to spread before the lease it replaces runs out. */
  ghost predicate Suitable(b: Bounds) { b.scanGap + b.delay <= b.renewThreshold }

  /** A copy the holder published, and when. */
  datatype Published = Published(copy: Task, at: real)

  /** Every node's copy of the task, the holder's lease and its renewals so far, stale messages, and the clock. */
  datatype State = State(
    copies: map<Key, Task>,
    chain: seq<Published>,
    stale: set<Task>,
    lastScan: real,
    now: real)

  /** Anything a node may try on its own copy besides the holder's scan. */
  datatype Attempt =
    | TryClaim(duration: real)
    | TryRenew(duration: real)
    | TryComplete(result: string)
    | TryRelease
    | TryRestart(duration: real)
    | TryShutDown

  function Attempted(t: Task, me: Key, now: real, a: Attempt): Task {
    match a
    case TryClaim(d) => var r := Claim(t, me, now, d); if r.Some? then r.value else t
    case TryRenew(d) => var r := Renew(t, me, now, d); if r.Some? then r.value else t
    case TryComplete(result) => var r := Complete(t, me, result, now); if r.Some? then r.value else t
    case TryRelease => var r := Release(t, me); if r.Some? then r.value else t
    case TryRestart(d) => Recovered(t, me, now, d)
    case TryShutDown => ShutDown(t, me)
  }

  datatype Event =
    | Elapse(dt: real)
    | HolderScans
    | Arrive(node: Key, index: nat)
    | ArriveStale(node: Key, copy: Task)
    | OtherTries(node: Key, attempt: Attempt)
    | HolderClaims(duration: real)

  function Last(s: State): Published
    requires |s.chain| > 0
  {
    s.chain[|s.chain| - 1]
  }

  /** The scan renews the holder's own copy when little of it remains. */
  function Scan(s: State, h: Key, b: Bounds): State
    requires h in s.copies
  {
    var t := s.copies[h];
    if NeedsRenewal(t, h, s.now, b.renewThreshold) then
      var renewed := Refreshed(t, s.now, b.duration);
      s.(copies := s.copies[h := renewed], chain := s.chain + [Published(renewed, s.now)], lastScan := s.now)
    else s.(lastScan := s.now)
  }

  /** Every published copy older than the delay has arrived everywhere. */
  ghost predicate Timely(s: State, b: Bounds) {
    forall k, n :: 0 <= k < |s.chain| && n in s.copies && s.chain[k].at + b.delay < s.now
      ==> !Outranks(s.chain[k].copy, s.copies[n])
  }

  ghost predicate Enabled(s: State, h: Key, b: Bounds, e: Event) {
    match e
    case Elapse(dt) =>
      && 0.0 <= dt && s.now + dt <= s.lastScan + b.scanGap
      && Timely(s.(now := s.now + dt), b)
    case HolderScans => h in s.copies
    case Arrive(n, k) => n in s.copies && k < |s.chain|
    case ArriveStale(n, t) => n in s.copies && t in s.stale
    case OtherTries(n, _) => n in s.copies && n != h
    case HolderClaims(_) => h in s.copies
  }

  function After(s: State, h: Key, b: Bounds, e: Event): State
    requires h in s.copies
    requires e.Arrive? ==> e.node in s.copies && e.index < |s.chain|
    requires e.ArriveStale? || e.OtherTries? ==> e.node in s.copies
  {
    match e
    case Elapse(dt) => s.(now := s.now + dt)
    case HolderScans => Scan(s, h, b)
    case Arrive(n, k) => s.(copies := s.copies[n := Receive(Some(s.copies[n]), s.chain[k].copy).kept])
    case ArriveStale(n, t) => s.(copies := s.copies[n := Receive(Some(s.copies[n]), t).kept])
    case OtherTries(n, a) => s.(copies := s.copies[n := Attempted(s.copies[n], n, s.now, a)])
    case HolderClaims(d) => s.(copies := s.copies[h := Attempted(s.copies[h], h, s.now, TryClaim(d))])
  }

  /** Everyone holds the holder's lease, fresh as of its last scan, and nothing stale outranks it. */
  ghost predicate Start(s: State, h: Key, b: Bounds) {
    && h in s.copies && |s.chain| == 1
    && var lease := s.chain[0].copy;
      && Active(lease, h)
      && (forall n :: n in s.copies ==> s.copies[n] == lease)
      && (forall t :: t in s.stale ==> !Outranks(t, lease))
      && s.lastScan <= s.now <= s.lastScan + b.scanGap
      && lease.leaseExpires >= s.lastScan + b.renewThreshold
  }

  ghost predicate IsRun(trace: seq<State>, h: Key, b: Bounds) {
    && |trace| > 0 && Start(trace[0], h, b)
    && forall k :: 0 <= k < |trace| - 1 ==> Next(trace[k], trace[k + 1], h, b)
  }

  ghost predicate Next(s: State, s': State, h: Key, b: Bounds) {
    h in s.copies && exists e :: Enabled(s, h, b, e) && s' == After(s, h, b, e)
  }

  // The invariant.

  /** Each link renews the one before it; the versions count up. */
  ghost predicate Chained(s: State, h: Key, b: Bounds) {
    && |s.chain| > 0
    && (forall k :: 0 <= k < |s.chain| ==> Active(s.chain[k].copy, h))
    && (forall k :: 0 <= k < |s.chain| ==> s.chain[k].copy.version == s.chain[0].copy.version + k)
  }

  /** A replaced lease had its margin left when it was replaced, the current one since the last scan. */
  ghost predicate Margins(s: State, b: Bounds)
    requires |s.chain| > 0
  {
    && (forall k :: 0 <= k < |s.chain| - 1 ==>
          s.chain[k].copy.leaseExpires >= s.chain[k + 1].at - b.scanGap + b.renewThreshold)
    && Last(s).copy.leaseExpires >= s.lastScan + b.renewThreshold
    && s.lastScan <= s.now <= s.lastScan + b.scanGap
  }

  ghost predicate OnChain(s: State, t: Task) {
    exists k :: 0 <= k < |s.chain| && s.chain[k].copy == t
  }

  ghost predicate Invariant(s: State, h: Key, b: Bounds) {
    && h in s.copies && Chained(s, h, b) && Margins(s, b)
    && s.copies[h] == Last(s).copy
    && (forall n :: n in s.copies ==> OnChain(s, s.copies[n]))
    && (forall t :: t in s.stale ==> !Outranks(t, s.chain[0].copy))
    && Timely(s, b)
  }

  // What the invariant gives.

  /** No copy anywhere has lapsed. */
  lemma NothingLapsed(s: State, h: Key, b: Bounds, n: Key)
    requires Sensible(b) && Suitable(b) && Invariant(s, h, b) && n in s.copies
    ensures Active(s.copies[n], h) && s.copies[n].leaseExpires >= s.now
  {
    assert OnChain(s, s.copies[n]);
    var k :| 0 <= k < |s.chain| && s.chain[k].copy == s.copies[n];
    if k < |s.chain| - 1 {
      assert Outranks(s.chain[k + 1].copy, s.copies[n]);
    }
  }

  /** So nothing a node tries changes its copy, except the holder's own renewal. */
  lemma AttemptsFail(s: State, h: Key, b: Bounds, n: Key, a: Attempt)
    requires Sensible(b) && Suitable(b) && Invariant(s, h, b) && n in s.copies
    requires n != h || a.TryClaim?
    ensures Attempted(s.copies[n], n, s.now, a) == s.copies[n]
    ensures a.TryClaim? ==> Claim(s.copies[n], n, s.now, a.duration).None?
  {
    NothingLapsed(s, h, b, n);
  }

  lemma StaleIgnored(s: State, h: Key, b: Bounds, n: Key, t: Task)
    requires Invariant(s, h, b) && n in s.copies && t in s.stale
    ensures Receive(Some(s.copies[n]), t).kept == s.copies[n]
  {
    var k :| 0 <= k < |s.chain| && s.chain[k].copy == s.copies[n];
  }

  lemma KeepsTimely(s: State, s': State, b: Bounds)
    requires 0.0 <= b.delay && Timely(s, b) && s'.now == s.now && s'.copies.Keys == s.copies.Keys
    requires s.chain <= s'.chain
    requires forall k :: |s.chain| <= k < |s'.chain| ==> s'.chain[k].at == s.now
    requires forall n :: n in s.copies ==> s'.copies[n] == s.copies[n] || Outranks(s'.copies[n], s.copies[n])
    ensures Timely(s', b)
  {
    forall k, n | 0 <= k < |s'.chain| && n in s'.copies && s'.chain[k].at + b.delay < s'.now
      ensures !Outranks(s'.chain[k].copy, s'.copies[n])
    {
      if k < |s.chain| {
        assert s'.chain[k] == s.chain[k];
        assert !Outranks(s.chain[k].copy, s.copies[n]);
      }
    }
  }

  lemma OnChainStays(s: State, s': State, t: Task)
    requires OnChain(s, t) && s.chain <= s'.chain
    ensures OnChain(s', t)
  {
    var k :| 0 <= k < |s.chain| && s.chain[k].copy == t;
    assert s'.chain[k].copy == t;
  }

  lemma ScanKeepsCopies(s: State, h: Key, b: Bounds)
    requires Invariant(s, h, b)
    ensures var s' := Scan(s, h, b); forall n :: n in s'.copies ==> OnChain(s', s'.copies[n])
  {
    var s' := Scan(s, h, b);
    hide Timely, Margins, Chained, Claim;
    forall n | n in s'.copies
      ensures OnChain(s', s'.copies[n])
    {
      if s'.copies[n] == s.copies[n] {
        OnChainStays(s, s', s.copies[n]);
      } else {
        assert s'.chain[|s.chain|].copy == s'.copies[n];
      }
    }
  }

  lemma ScanKeepsChain(s: State, h: Key, b: Bounds)
    requires Sensible(b) && h in s.copies && Chained(s, h, b) && Margins(s, b) && s.copies[h] == Last(s).copy
    ensures var s' := Scan(s, h, b);
      Chained(s', h, b) && Margins(s', b) && s'.copies[h] == Last(s').copy && s'.chain[0] == s.chain[0]
  {}

  lemma ScanOutranks(s: State, h: Key, b: Bounds)
    requires h in s.copies
    ensures var s' := Scan(s, h, b);
      && s.chain <= s'.chain
      && (forall k :: |s.chain| <= k < |s'.chain| ==> s'.chain[k].at == s.now)
      && (forall n :: n in s.copies ==> s'.copies[n] == s.copies[n] || Outranks(s'.copies[n], s.copies[n]))
  {}

  lemma ScanKeeps(s: State, h: Key, b: Bounds)
    requires Sensible(b) && Invariant(s, h, b)
    ensures Invariant(Scan(s, h, b), h, b)
  {
    hide OnChain, Timely, Chained, Margins, Outranks;
    ScanOutranks(s, h, b);
    ScanKeepsCopies(s, h, b);
    KeepsTimely(s, Scan(s, h, b), b);
    ScanKeepsChain(s, h, b);
  }

  lemma LastOutranked(s: State, h: Key, b: Bounds, k: nat)
    requires Chained(s, h, b) && k < |s.chain|
    ensures !Outranks(s.chain[k].copy, Last(s).copy)
  {}

  /** Some copies were replaced by a link of higher rank, the holder's was not. */
  ghost predicate Replaced(s: State, s': State, h: Key, k: nat)
    requires k < |s.chain|
  {
    && s' == s.(copies := s'.copies) && s'.copies.Keys == s.copies.Keys
    && h in s.copies && s'.copies[h] == s.copies[h]
    && (forall m :: m in s.copies && s'.copies[m] != s.copies[m] ==>
          s'.copies[m] == s.chain[k].copy && Outranks(s'.copies[m], s.copies[m]))
  }

  lemma ArriveReplaces(s: State, h: Key, b: Bounds, n: Key, k: nat)
    requires Invariant(s, h, b) && n in s.copies && k < |s.chain|
    ensures Replaced(s, After(s, h, b, Arrive(n, k)), h, k)
  {
    LastOutranked(s, h, b, k);
    hide Chained, Margins, Timely, OnChain;
  }

  lemma ReplacedOnChain(s: State, s': State, h: Key, k: nat)
    requires k < |s.chain| && Replaced(s, s', h, k)
    requires forall m :: m in s.copies ==> OnChain(s, s.copies[m])
    ensures forall m :: m in s'.copies ==> OnChain(s', s'.copies[m])
  {
    hide OnChain, Outranks;
    forall m | m in s'.copies
      ensures OnChain(s', s'.copies[m])
    {
      if s'.copies[m] == s.copies[m] {
        OnChainStays(s, s', s.copies[m]);
      } else {
        LinkOnChain(s', k);
      }
    }
  }

  lemma ArriveKeeps(s: State, h: Key, b: Bounds, n: Key, k: nat)
    requires Sensible(b) && Invariant(s, h, b) && n in s.copies && k < |s.chain|
    ensures Invariant(After(s, h, b, Arrive(n, k)), h, b)
  {
    hide Timely, OnChain, After, Chained, Margins, Outranks;
    var s' := After(s, h, b, Arrive(n, k));
    ArriveReplaces(s, h, b, n, k);
    KeepsTimely(s, s', b);
    ChainOnly(s, s', h, b);
    ReplacedOnChain(s, s', h, k);
  }

  lemma LinkOnChain(s: State, k: nat)
    requires k < |s.chain|
    ensures OnChain(s, s.chain[k].copy)
  {}

  lemma ChainOnly(s: State, s': State, h: Key, b: Bounds)
    requires Chained(s, h, b) && Margins(s, b) && s' == s.(copies := s'.copies)
    ensures Chained(s', h, b) && Margins(s', b)
  {}

  lemma ElapseKeeps(s: State, h: Key, b: Bounds, dt: real)
    requires Invariant(s, h, b) && Enabled(s, h, b, Elapse(dt))
    ensures Invariant(s.(now := s.now + dt), h, b)
  {
    var s' := s.(now := s.now + dt);
    hide Timely;
    forall n | n in s'.copies
      ensures OnChain(s', s'.copies[n])
    {
      OnChainStays(s, s', s.copies[n]);
    }
  }

  lemma NextKeeps(s: State, s': State, h: Key, b: Bounds)
    requires Sensible(b) && Suitable(b) && Invariant(s, h, b) && Next(s, s', h, b)
    ensures Invariant(s', h, b)
  {
    hide Invariant, Suitable, Sensible, Claim, Renew, Complete, Release, Recovered, ShutDown;
    var e :| Enabled(s, h, b, e) && s' == After(s, h, b, e);
    match e
    case Elapse(dt) => ElapseKeeps(s, h, b, dt);
    case HolderScans => ScanKeeps(s, h, b);
    case Arrive(n, k) => ArriveKeeps(s, h, b, n, k);
    case ArriveStale(n, t) =>
      StaleIgnored(s, h, b, n, t);
      assert s' == s;
    case OtherTries(n, a) =>
      AttemptsFail(s, h, b, n, a);
      assert s' == s;
    case HolderClaims(d) =>
      AttemptsFail(s, h, b, h, TryClaim(d));
      assert s' == s;
  }

  lemma StartInvariant(s: State, h: Key, b: Bounds)
    requires Start(s, h, b)
    ensures Invariant(s, h, b)
  {
    forall n | n in s.copies
      ensures OnChain(s, s.copies[n])
    {
      assert s.chain[0].copy == s.copies[n];
    }
  }

  lemma {:induction false} RunKeeps(trace: seq<State>, h: Key, b: Bounds, k: nat)
    requires Sensible(b) && Suitable(b) && IsRun(trace, h, b) && k < |trace|
    ensures Invariant(trace[k], h, b)
  {
    hide Invariant, Start, Next;
    if k == 0 {
      StartInvariant(trace[0], h, b);
    } else {
      RunKeeps(trace, h, b, k - 1);
      NextKeeps(trace[k - 1], trace[k], h, b);
    }
  }

  /** Every copy is the holder's lease, and every claim by any node fails. */
  ghost predicate Exclusive(s: State, h: Key) {
    forall n :: n in s.copies ==> HeldBy(s.copies[n], h) && NoClaim(s.copies[n], n, s.now)
  }

  ghost predicate NoClaim(t: Task, n: Key, now: real) {
    forall d: real :: Claim(t, n, now, d).None?
  }

  lemma SuitableBoundsExclude(trace: seq<State>, h: Key, b: Bounds, k: nat)
    requires Sensible(b) && Suitable(b) && IsRun(trace, h, b) && k < |trace|
    ensures Exclusive(trace[k], h)
  {
    hide IsRun, Invariant;
    RunKeeps(trace, h, b, k);
    forall n | n in trace[k].copies
      ensures HeldBy(trace[k].copies[n], h) && NoClaim(trace[k].copies[n], n, trace[k].now)
    {
      NothingLapsed(trace[k], h, b, n);
    }
  }

  // The bound is exact: with less time to spread, some run lets another node in.

  /** Time passes or the holder scans, and nothing else happens. */
  ghost predicate QuietNext(s: State, s': State, h: Key, b: Bounds) {
    h in s.copies && exists e: Event :: (e.Elapse? || e.HolderScans?) && Enabled(s, h, b, e) && s' == After(s, h, b, e)
  }

  /** A run in which nothing else happens. */
  ghost predicate IsQuietRun(trace: seq<State>, h: Key, b: Bounds) {
    Steps(trace, h, b) && Start(trace[0], h, b)
  }

  lemma QuietRunIsRun(trace: seq<State>, h: Key, b: Bounds)
    requires IsQuietRun(trace, h, b)
    ensures IsRun(trace, h, b)
  {
    hide Start;
    forall k | 0 <= k < |trace| - 1
      ensures Next(trace[k], trace[k + 1], h, b)
    {
      QuietIsNext(trace[k], trace[k + 1], h, b);
    }
  }

  lemma QuietIsNext(s: State, s': State, h: Key, b: Bounds)
    requires QuietNext(s, s', h, b)
    ensures Next(s, s', h, b)
  {
    hide Enabled;
  }

  ghost predicate AlwaysExclusive(h: Key, b: Bounds) {
    forall trace, k :: IsRun(trace, h, b) && 0 <= k < |trace| ==> Exclusive(trace[k], h)
  }

  /** Just scanned, with one node that still holds the first lease and no deadline before the target time. */
  ghost predicate Waiting(s: State, h: Key, other: Key, b: Bounds, target: real) {
    && h != other && s.copies.Keys == {h, other} && |s.chain| > 0
    && s.copies[other] == s.chain[0].copy
    && Active(s.copies[h], h)
    && (forall k :: 0 <= k < |s.chain| ==> !Outranks(s.chain[k].copy, s.copies[h]))
    && (forall k :: 1 <= k < |s.chain| ==> s.chain[k].at + b.delay >= target)
    && s.lastScan == s.now <= target <= s.now + b.delay
  }

  lemma WaitOnce(s: State, h: Key, other: Key, b: Bounds, target: real, dt: real)
    requires Sensible(b) && Waiting(s, h, other, b, target)
    requires 0.0 <= dt <= b.scanGap && s.now + dt <= target
    ensures var s' := s.(now := s.now + dt);
      && QuietNext(s, s', h, b) && QuietNext(s', Scan(s', h, b), h, b)
      && Waiting(Scan(s', h, b), h, other, b, target)
      && Scan(s', h, b).copies[other] == s.copies[other]
  {
    var s' := s.(now := s.now + dt);
    assert Timely(s', b);
    assert Enabled(s, h, b, Elapse(dt)) && s' == After(s, h, b, Elapse(dt));
    assert Enabled(s', h, b, HolderScans) && Scan(s', h, b) == After(s', h, b, HolderScans);
  }

  ghost predicate Steps(trace: seq<State>, h: Key, b: Bounds) {
    |trace| > 0 && forall k :: 0 <= k < |trace| - 1 ==> QuietNext(trace[k], trace[k + 1], h, b)
  }

  /** Keep scanning until the target time; the other node hears nothing. */
  lemma {:induction false} WaitUntil(s: State, h: Key, other: Key, b: Bounds, target: real, scans: nat)
    returns (trace: seq<State>)
    requires Sensible(b) && Waiting(s, h, other, b, target)
    requires target - s.now <= scans as real * b.scanGap
    ensures Steps(trace, h, b) && trace[0] == s
    ensures var last := trace[|trace| - 1];
      last.now == target && other in last.copies && last.copies[other] == s.copies[other]
    decreases scans
  {
    hide QuietNext, Waiting;
    WaitingFacts(s, h, other, b, target);
    if target == s.now {
      trace := [s];
    } else {
      var dt := if target - s.now <= b.scanGap then target - s.now else b.scanGap;
      WaitOnce(s, h, other, b, target, dt);
      var s' := s.(now := s.now + dt);
      var scanned := Scan(s', h, b);
      var rest := WaitUntil(scanned, h, other, b, target, scans - 1);
      trace := [s, s'] + rest;
    }
  }

  lemma WaitingFacts(s: State, h: Key, other: Key, b: Bounds, target: real)
    requires Waiting(s, h, other, b, target)
    ensures other in s.copies && h in s.copies && s.now <= target
    ensures Scan(s, h, b).now == s.now
  {}

  lemma EnoughScans(time: real, gap: real) returns (scans: nat)
    requires 0.0 <= time && 0.0 < gap
    ensures time <= scans as real * gap
  {
    var ratio := time / gap;
    scans := ratio.Floor + 1;
    assert ratio <= scans as real;
    assert ratio * gap <= scans as real * gap;
  }

  /** Started at time zero with exactly the renewal threshold left; the submission is still in flight. */
  ghost function Tight(h: Key, other: Key, id: TaskId, b: Bounds): State {
    State(map[h := TightLease(h, id, b), other := TightLease(h, id, b)], [Published(TightLease(h, id, b), 0.0)],
          {TightSubmission(id)}, 0.0, 0.0)
  }

  function TightSubmission(id: TaskId): Task {
    Submitted(id, Identity(Plain(""), 1, 0.0, None, false, 0))
  }

  function TightLease(h: Key, id: TaskId, b: Bounds): (t: Task)
    ensures Claim(TightSubmission(id), h, 0.0, b.renewThreshold) == Some(t)
  {
    Claim(TightSubmission(id), h, 0.0, b.renewThreshold).value
  }

  lemma TightWait(h: Key, other: Key, id: TaskId, b: Bounds) returns (trace: seq<State>)
    requires Sensible(b) && h != other && b.scanGap <= b.renewThreshold < b.scanGap + b.delay
    ensures IsQuietRun(trace, h, b) && trace[0] == Tight(h, other, id, b)
    ensures var last := trace[|trace| - 1];
      last.now == b.scanGap + b.delay && other in last.copies && last.copies[other] == TightLease(h, id, b)
  {
    var s := Tight(h, other, id, b);
    var s1 := s.(now := b.scanGap);
    var s2 := Scan(s1, h, b);
    assert Start(s, h, b);
    assert Timely(s1, b);
    assert Enabled(s, h, b, Elapse(b.scanGap)) && s1 == After(s, h, b, Elapse(b.scanGap));
    assert Enabled(s1, h, b, HolderScans) && s2 == After(s1, h, b, HolderScans);
    assert QuietNext(s, s1, h, b) && QuietNext(s1, s2, h, b);
    assert Waiting(s2, h, other, b, b.scanGap + b.delay);
    hide QuietNext, Waiting, Start;
    var scans := EnoughScans(b.delay, b.scanGap);
    var rest := WaitUntil(s2, h, other, b, b.scanGap + b.delay, scans);
    trace := [s, s1] + rest;
  }

  lemma ShortThreshold(h: Key, other: Key, id: TaskId, b: Bounds) returns (trace: seq<State>)
    requires Sensible(b) && h != other && b.renewThreshold < b.scanGap
    ensures IsQuietRun(trace, h, b) && trace[0] == Tight(h, other, id, b)
    ensures var last := trace[|trace| - 1];
      last.now == b.scanGap && other in last.copies && last.copies[other] == TightLease(h, id, b)
  {
    var s := Tight(h, other, id, b);
    var s1 := s.(now := b.scanGap);
    assert Timely(s1, b);
    assert Enabled(s, h, b, Elapse(b.scanGap)) && s1 == After(s, h, b, Elapse(b.scanGap));
    trace := [s, s1];
  }

  /** Without room for a scan gap and a delivery, waiting alone lets the lease lapse at another node. */
  lemma LeaseLapses(h: Key, other: Key, id: TaskId, b: Bounds) returns (trace: seq<State>)
    requires Sensible(b) && !Suitable(b) && h != other
    ensures IsQuietRun(trace, h, b) && trace[0] == Tight(h, other, id, b)
    ensures var last := trace[|trace| - 1]; other in last.copies && Lapsed(last.copies[other], last.now)
  {
    hide IsQuietRun;
    if b.renewThreshold < b.scanGap {
      trace := ShortThreshold(h, other, id, b);
    } else {
      trace := TightWait(h, other, id, b);
    }
  }

  /** Exclusivity is guaranteed exactly when a scan gap plus a delivery fits in the renewal threshold. */
  lemma ExclusiveExactly(h: Key, b: Bounds)
    requires Sensible(b)
    ensures AlwaysExclusive(h, b) <==> Suitable(b)
  {
    hide IsRun, Exclusive;
    if Suitable(b) {
      forall trace, k | IsRun(trace, h, b) && 0 <= k < |trace|
        ensures Exclusive(trace[k], h)
      {
        SuitableBoundsExclude(trace, h, b, k);
      }
    } else {
      var other := h + "'";
      var trace := LeaseLapses(h, other, "t", b);
      QuietRunIsRun(trace, h, b);
      RunNonempty(trace, h, b);
      var k := |trace| - 1;
      LapsedNotExclusive(trace[k], h, other);
    }
  }

  lemma RunNonempty(trace: seq<State>, h: Key, b: Bounds)
    requires IsRun(trace, h, b)
    ensures |trace| > 0
  {}

  lemma LapsedNotExclusive(s: State, h: Key, other: Key)
    requires other in s.copies && Lapsed(s.copies[other], s.now)
    ensures !Exclusive(s, h)
  {
    assert Claim(s.copies[other], other, s.now, 0.0).Some?;
  }
}
