/**
 Failure detection across the cluster: every node's view, and the suspicion reports in
 flight. Heartbeats and joins may claim anything and arrive any time; a report once sent
 may be relayed to any node any number of times, always under its originator's name. A
 restart forgets the view.
 */
module FailureDetection {
  import opened Payloads
  import opened PeerViews

  /** A node's view, the mesh peers it last saw, and suspects it has not yet reported. */
  datatype Member = Member(view: View, mesh: set<Key>, pending: set<Key>, suspectAfter: real)

  datatype Suspicion = Suspicion(origin: Key, suspect: Key, timestamp: real)

  datatype System = System(members: map<Key, Member>, sent: set<Suspicion>, clock: real)

  datatype Event =
    | HearHeartbeat(sender: Key, profile: Profile, tasksHeld: seq<string>, duration: real, knownPeers: set<Key>)
    | HearJoin(sender: Key, profile: Profile)
    | HearSuspicion(suspicion: Suspicion)
    | Meet(key: Key)
    | Check
    | SyncMesh(connected: set<Key>)
    | Report(suspect: Key)
    | Restart

  function ViewAfter(m: Member, me: Key, now: real, e: Event): View {
    match e
    case HearHeartbeat(sender, profile, held, duration, known) => Heard(m.view, me, sender, profile, held, duration, known, now)
    case HearJoin(sender, profile) => Joined(m.view, me, sender, profile, now)
    case HearSuspicion(s) => Reported(m.view, me, s.suspect, s.origin, s.timestamp)
    case Meet(key) => m.view.(peers := Discovered(m.view.peers, {key}, me, now))
    case Check => Swept(m.view, now, m.suspectAfter)
    case SyncMesh(connected) => Synced(m.view, m.mesh, connected, me, now, m.suspectAfter)
    case Report(_) => m.view
    case Restart => View(map[], map[])
  }

  /** The peers an event moves from alive to suspected. */
  function Suspects(m: Member, me: Key, now: real, e: Event): set<Key> {
    match e
    case Check => Silent(m.view.peers, now, m.suspectAfter)
    case SyncMesh(connected) => Dropped(m.view, m.mesh, connected, me, now, m.suspectAfter)
    case _ => {}
  }

  function PendingAfter(m: Member, me: Key, now: real, e: Event): set<Key> {
    match e
    case Report(p) => m.pending - {p}
    case Restart => {}
    case _ => m.pending + Suspects(m, me, now, e)
  }

  function MeshAfter(m: Member, e: Event): set<Key> {
    match e
    case SyncMesh(connected) => connected
    case Restart => {}
    case _ => m.mesh
  }

  ghost predicate Enabled(s: System, me: Key, e: Event) {
    && me in s.members
    && (e.HearSuspicion? ==> e.suspicion in s.sent)
    && (e.Report? ==> e.suspect in s.members[me].pending)
  }

  function Step(s: System, me: Key, e: Event): System
    requires me in s.members
  {
    var m := s.members[me];
    s.(members := s.members[me := Member(ViewAfter(m, me, s.clock, e), MeshAfter(m, e), PendingAfter(m, me, s.clock, e), m.suspectAfter)],
       sent := if e.Report? then s.sent + {Suspicion(me, e.suspect, s.clock)} else s.sent)
  }

  ghost predicate Init(s: System) {
    && s.sent == {}
    && forall i :: i in s.members ==>
         s.members[i] == Member(View(map[], map[]), {}, {}, s.members[i].suspectAfter) && s.members[i].suspectAfter >= 0.0
  }

  ghost predicate StepBy(s: System, s': System, me: Key, e: Event) {
    Enabled(s, me, e) && s' == Step(s, me, e)
  }

  ghost predicate Next(s: System, s': System) {
    || (s.clock <= s'.clock && s' == s.(clock := s'.clock))
    || exists me, e :: StepBy(s, s', me, e)
  }

  ghost predicate IsRun(trace: seq<System>) {
    && |trace| > 0 && Init(trace[0])
    && forall k :: 0 <= k < |trace| - 1 ==> Next(trace[k], trace[k + 1])
  }

  // Witnesses.

  ghost predicate Status(s: System, i: Key, p: Key, status: PeerStatus) {
    i in s.members && p in s.members[i].view.peers && s.members[i].view.peers[p].status == status
  }

  /** In this step the node itself moved the peer from alive to suspected, having not heard it for over half its limit. */
  ghost predicate Moved(s: System, s': System, r: Key, p: Key) {
    && Status(s, r, p, Alive) && Status(s', r, p, Suspected)
    && s.clock - s.members[r].view.peers[p].lastSeen > s.members[r].suspectAfter / 2.0
  }

  /** It did so at some earlier step, no later than this time. */
  ghost predicate Witnessed(trace: seq<System>, k: nat, r: Key, p: Key, until: real)
    requires k < |trace|
  {
    exists m :: 0 <= m < k && Moved(trace[m], trace[m + 1], r, p) && trace[m].clock <= until
  }

  ghost predicate PendingWitnessed(trace: seq<System>, k: nat)
    requires k < |trace|
  {
    forall r, p :: r in trace[k].members && p in trace[k].members[r].pending ==> Witnessed(trace, k, r, p, trace[k].clock)
  }

  ghost predicate SentWitnessed(trace: seq<System>, k: nat)
    requires k < |trace|
  {
    forall s :: s in trace[k].sent ==> Witnessed(trace, k, s.origin, s.suspect, s.timestamp) && s.timestamp <= trace[k].clock
  }

  ghost predicate ReportersWitnessed(trace: seq<System>, k: nat)
    requires k < |trace|
  {
    forall i, p, r :: i in trace[k].members && r in Reporters(trace[k].members[i].view, p)
      ==> Witnessed(trace, k, r, p, trace[k].clock)
  }

  ghost predicate AllSound(s: System) {
    forall i :: i in s.members ==> Sound(s.members[i].view, i) && s.members[i].suspectAfter >= 0.0
  }

  ghost predicate Invariant(trace: seq<System>, k: nat)
    requires k < |trace|
  {
    AllSound(trace[k]) && PendingWitnessed(trace, k) && SentWitnessed(trace, k) && ReportersWitnessed(trace, k)
  }

  lemma WitnessStays(trace: seq<System>, k: nat, r: Key, p: Key, until: real, later: real)
    requires k + 1 < |trace| && Witnessed(trace, k, r, p, until) && until <= later
    ensures Witnessed(trace, k + 1, r, p, later)
  {
    hide Moved;
  }

  lemma ViewStaysSound(m: Member, me: Key, now: real, e: Event)
    requires Sound(m.view, me)
    ensures Sound(ViewAfter(m, me, now, e), me)
  {
    hide Sound, Heard, Joined, Reported, Swept, Synced;
    match e
    case HearHeartbeat(sender, profile, held, duration, known) => HeardSound(m.view, me, sender, profile, held, duration, known, now);
    case HearJoin(sender, profile) => JoinedSound(m.view, me, sender, profile, now);
    case HearSuspicion(s) => ReportedSound(m.view, me, s.suspect, s.origin, s.timestamp);
    case Meet(key) => MetSound(m.view, me, key, now);
    case Check => SweptSound(m.view, me, now, m.suspectAfter);
    case SyncMesh(connected) => SyncedSound(m.view, m.mesh, connected, me, now, m.suspectAfter);
    case Report(_) =>
    case Restart => NothingSound(me);
  }

  lemma MetSound(v: View, me: Key, key: Key, now: real)
    requires Sound(v, me)
    ensures Sound(v.(peers := Discovered(v.peers, {key}, me, now)), me)
  {}

  lemma NothingSound(me: Key)
    ensures Sound(View(map[], map[]), me)
  {}

  /** Only a report adds a reporter, and it adds its originator. */
  lemma NewReporter(m: Member, me: Key, now: real, e: Event, p: Key, r: Key)
    requires r in Reporters(ViewAfter(m, me, now, e), p)
    ensures r in Reporters(m.view, p) || (e.HearSuspicion? && e.suspicion.origin == r && e.suspicion.suspect == p)
  {}

  /** Whoever an event makes a suspect was silent for more than half the limit. */
  lemma SuspectsWereSilent(m: Member, me: Key, now: real, e: Event, p: Key)
    requires p in Suspects(m, me, now, e) && m.suspectAfter >= 0.0
    ensures p in m.view.peers && m.view.peers[p].status.Alive?
    ensures now - m.view.peers[p].lastSeen > m.suspectAfter / 2.0
    ensures p in ViewAfter(m, me, now, e).peers && ViewAfter(m, me, now, e).peers[p].status.Suspected?
  {}

  lemma SuspectsMoved(s: System, me: Key, e: Event, p: Key)
    requires me in s.members && s.members[me].suspectAfter >= 0.0 && p in Suspects(s.members[me], me, s.clock, e)
    ensures Moved(s, Step(s, me, e), me, p)
  {
    hide Suspects, ViewAfter;
    SuspectsWereSilent(s.members[me], me, s.clock, e, p);
  }

  lemma StepKeepsPending(trace: seq<System>, k: nat, me: Key, e: Event)
    requires k + 1 < |trace| && AllSound(trace[k]) && StepBy(trace[k], trace[k + 1], me, e) && PendingWitnessed(trace, k)
    ensures PendingWitnessed(trace, k + 1)
  {
    hide Sound, Witnessed, ViewAfter, Suspects, Moved;
    var s, s' := trace[k], trace[k + 1];
    forall r, p | r in s'.members && p in s'.members[r].pending
      ensures Witnessed(trace, k + 1, r, p, s'.clock)
    {
      if p in s.members[r].pending {
        WitnessStays(trace, k, r, p, s.clock, s'.clock);
      } else {
        SuspectsMoved(s, me, e, p);
        WitnessHere(trace, k, me, p);
      }
    }
  }

  lemma WitnessHere(trace: seq<System>, k: nat, r: Key, p: Key)
    requires k + 1 < |trace| && Moved(trace[k], trace[k + 1], r, p) && trace[k].clock <= trace[k + 1].clock
    ensures Witnessed(trace, k + 1, r, p, trace[k + 1].clock)
  {}

  lemma StepKeepsSent(trace: seq<System>, k: nat, me: Key, e: Event)
    requires k + 1 < |trace| && StepBy(trace[k], trace[k + 1], me, e) && PendingWitnessed(trace, k) && SentWitnessed(trace, k)
    ensures SentWitnessed(trace, k + 1)
  {
    hide Witnessed, ViewAfter, MeshAfter, PendingAfter;
    var s, s' := trace[k], trace[k + 1];
    forall x | x in s'.sent
      ensures Witnessed(trace, k + 1, x.origin, x.suspect, x.timestamp) && x.timestamp <= s'.clock
    {
      WitnessStays(trace, k, x.origin, x.suspect, x.timestamp, x.timestamp);
    }
  }

  lemma StepKeepsReporters(trace: seq<System>, k: nat, me: Key, e: Event)
    requires k + 1 < |trace| && StepBy(trace[k], trace[k + 1], me, e) && SentWitnessed(trace, k) && ReportersWitnessed(trace, k)
    ensures ReportersWitnessed(trace, k + 1)
  {
    hide Witnessed, ViewAfter, MeshAfter, PendingAfter, Reporters;
    var s, s' := trace[k], trace[k + 1];
    forall i, p, r | i in s'.members && r in Reporters(s'.members[i].view, p)
      ensures Witnessed(trace, k + 1, r, p, s'.clock)
    {
      if i == me {
        NewReporter(s.members[me], me, s.clock, e, p, r);
      }
      if r in Reporters(s.members[i].view, p) {
        WitnessStays(trace, k, r, p, s.clock, s'.clock);
      } else {
        WitnessStays(trace, k, r, p, e.suspicion.timestamp, s'.clock);
      }
    }
  }

  lemma TickKeeps(trace: seq<System>, k: nat)
    requires k + 1 < |trace| && Invariant(trace, k)
    requires trace[k].clock <= trace[k + 1].clock && trace[k + 1] == trace[k].(clock := trace[k + 1].clock)
    ensures Invariant(trace, k + 1)
  {
    hide Witnessed, Reporters, Sound;
    var s, s' := trace[k], trace[k + 1];
    forall r, p | r in s'.members && p in s'.members[r].pending
      ensures Witnessed(trace, k + 1, r, p, s'.clock)
    {
      WitnessStays(trace, k, r, p, s.clock, s'.clock);
    }
    forall x | x in s'.sent
      ensures Witnessed(trace, k + 1, x.origin, x.suspect, x.timestamp) && x.timestamp <= s'.clock
    {
      WitnessStays(trace, k, x.origin, x.suspect, x.timestamp, x.timestamp);
    }
    forall i, p, r | i in s'.members && r in Reporters(s'.members[i].view, p)
      ensures Witnessed(trace, k + 1, r, p, s'.clock)
    {
      WitnessStays(trace, k, r, p, s.clock, s'.clock);
    }
  }

  lemma StepKeepsSound(s: System, me: Key, e: Event)
    requires AllSound(s) && me in s.members
    ensures AllSound(Step(s, me, e))
  {
    hide Sound, ViewAfter;
    ViewStaysSound(s.members[me], me, s.clock, e);
  }

  lemma {:induction false} RunKeepsInvariant(trace: seq<System>, k: nat)
    requires IsRun(trace) && k < |trace|
    ensures Invariant(trace, k)
  {
    hide Witnessed, StepBy, Sound;
    if k == 0 {
      StartHolds(trace);
    } else {
      RunKeepsInvariant(trace, k - 1);
      var s, s' := trace[k - 1], trace[k];
      assert Next(s, s');
      if s.clock <= s'.clock && s' == s.(clock := s'.clock) {
        TickKeeps(trace, k - 1);
      } else {
        var me, e :| StepBy(s, s', me, e);
        StepKeeps(trace, k - 1, me, e);
      }
    }
  }

  lemma StepKeeps(trace: seq<System>, k: nat, me: Key, e: Event)
    requires k + 1 < |trace| && StepBy(trace[k], trace[k + 1], me, e) && Invariant(trace, k)
    ensures Invariant(trace, k + 1)
  {
    hide PendingWitnessed, SentWitnessed, ReportersWitnessed, AllSound, Step;
    StepKeepsSound(trace[k], me, e);
    StepKeepsPending(trace, k, me, e);
    StepKeepsSent(trace, k, me, e);
    StepKeepsReporters(trace, k, me, e);
  }

  lemma StartHolds(trace: seq<System>)
    requires |trace| > 0 && Init(trace[0])
    ensures Invariant(trace, 0)
  {
    hide Witnessed;
    forall i | i in trace[0].members
      ensures Sound(trace[0].members[i].view, i)
    {
      NothingSound(i);
    }
  }

  // What a death verdict means.

  /** Two different nodes, neither the peer itself, each once stopped hearing the peer. */
  lemma DeadHasTwoWitnesses(trace: seq<System>, k: nat, i: Key, p: Key) returns (r1: Key, r2: Key)
    requires IsRun(trace) && k < |trace| && Status(trace[k], i, p, Dead)
    ensures r1 != r2 && r1 != p && r2 != p
    ensures {r1, r2} <= Reporters(trace[k].members[i].view, p)
    ensures Witnessed(trace, k, r1, p, trace[k].clock) && Witnessed(trace, k, r2, p, trace[k].clock)
  {
    hide IsRun, Witnessed;
    RunKeepsInvariant(trace, k);
    var reporters := Reporters(trace[k].members[i].view, p);
    assert |reporters| >= 2;
    r1, r2 := TwoOf(reporters);
    WitnessIsAnother(trace, k, r1, p, trace[k].clock);
    WitnessIsAnother(trace, k, r2, p, trace[k].clock);
  }

  lemma TwoOf(keys: set<Key>) returns (a: Key, b: Key)
    requires |keys| >= 2
    ensures a in keys && b in keys && a != b
  {
    a :| a in keys;
    assert |keys - {a}| == |keys| - 1;
    b :| b in keys - {a};
  }

  lemma WitnessIsAnother(trace: seq<System>, k: nat, r: Key, p: Key, until: real)
    requires IsRun(trace) && k < |trace| && Witnessed(trace, k, r, p, until)
    ensures r != p
  {
    hide Next, Init;
    var m :| 0 <= m < k && Moved(trace[m], trace[m + 1], r, p) && trace[m].clock <= until;
    RunKeepsInvariant(trace, m);
    assert Sound(trace[m].members[r].view, r);
  }

  /** The report that completes a verdict is no older than the last time the peer was heard, and its originator is a witness. */
  lemma VerdictIsFresh(trace: seq<System>, k: nat, i: Key, p: Key) returns (report: Suspicion)
    requires IsRun(trace) && k + 1 < |trace|
    requires i in trace[k].members && !Status(trace[k], i, p, Dead) && Status(trace[k + 1], i, p, Dead)
    ensures p in trace[k].members[i].view.peers
    ensures report in trace[k].sent && report.suspect == p
    ensures report.timestamp >= trace[k].members[i].view.peers[p].lastSeen
    ensures Witnessed(trace, k, report.origin, p, report.timestamp)
  {
    hide Witnessed;
    RunKeepsInvariant(trace, k);
    var s, s' := trace[k], trace[k + 1];
    assert Next(s, s');
    var me, e :| StepBy(s, s', me, e);
    assert me == i;
    OnlyReportsKill(s.members[i], i, s.clock, e, p);
    report := e.suspicion;
  }

  lemma OnlyReportsKill(m: Member, me: Key, now: real, e: Event, p: Key)
    requires p in ViewAfter(m, me, now, e).peers && ViewAfter(m, me, now, e).peers[p].status.Dead?
    requires !(p in m.view.peers && m.view.peers[p].status.Dead?)
    ensures p in m.view.peers && e.HearSuspicion? && e.suspicion.suspect == p
    ensures e.suspicion.timestamp >= m.view.peers[p].lastSeen
  {}

  // Silence is noticed.

  /** How long the node has not heard the peer. */
  function Silence(s: System, i: Key, p: Key): real {
    if i in s.members && p in s.members[i].view.peers then s.clock - s.members[i].view.peers[p].lastSeen else 0.0
  }

  /** A check suspects a live peer exactly when it was silent for longer than the limit, and then means to report it. */
  lemma CheckSuspectsExactly(s: System, me: Key, p: Key)
    requires Status(s, me, p, Alive)
    ensures var s' := Step(s, me, Check);
      && (Status(s', me, p, Suspected) <==> Silence(s, me, p) > s.members[me].suspectAfter)
      && (Status(s', me, p, Alive) <==> Silence(s, me, p) <= s.members[me].suspectAfter)
      && (Status(s', me, p, Suspected) ==> p in s'.members[me].pending)
  {}

  /** A look at the mesh suspects a live peer exactly when it has left the mesh and was silent for longer than half the limit. */
  lemma SyncSuspectsExactly(s: System, me: Key, p: Key, connected: set<Key>)
    requires Status(s, me, p, Alive)
    ensures var s' := Step(s, me, SyncMesh(connected));
      && (Status(s', me, p, Suspected) <==>
            p in s.members[me].mesh && p !in connected && Silence(s, me, p) > s.members[me].suspectAfter / 2.0)
      && (Status(s', me, p, Suspected) ==> p in s'.members[me].pending)
      && s'.members[me].mesh == connected
  {}

  /** A report in the node's own name, with the time of sending, is then in flight. */
  lemma ReportIsSent(s: System, me: Key, p: Key)
    requires me in s.members && p in s.members[me].pending
    ensures Enabled(s, me, Report(p))
    ensures var s' := Step(s, me, Report(p));
      && s'.sent == s.sent + {Suspicion(me, p, s.clock)} && p !in s'.members[me].pending
      && s'.members[me].view == s.members[me].view
  {}

  /** Check and report: what another node sees of it. */
  lemma NoticedAndReported(s: System, a: Key, p: Key) returns (s': System)
    requires Status(s, a, p, Alive) && Silence(s, a, p) > s.members[a].suspectAfter
    ensures Leads(s, s') && Suspicion(a, p, s.clock) in s'.sent && s.sent <= s'.sent && s'.clock == s.clock
    ensures s'.members.Keys == s.members.Keys && forall i :: i in s.members && i != a ==> s'.members[i] == s.members[i]
  {
    hide ViewAfter, Suspects, MeshAfter;
    CheckSuspectsExactly(s, a, p);
    var checked := Step(s, a, Check);
    CheckSuspects(s, a, p);
    ReportIsSent(checked, a, p);
    s' := Step(checked, a, Report(p));
    assert StepBy(s, checked, a, Check) && StepBy(checked, s', a, Report(p));
    LeadsByStep(s, checked);
    LeadsByStep(checked, s');
    LeadsOn(s, checked, s');
  }

  lemma CheckSuspects(s: System, a: Key, p: Key)
    requires Status(s, a, p, Alive) && Silence(s, a, p) > s.members[a].suspectAfter
    ensures a in Step(s, a, Check).members && p in Step(s, a, Check).members[a].pending
  {
    CheckSuspectsExactly(s, a, p);
  }

  /** The system can get from one state to the other. */
  ghost predicate Leads(s: System, s': System) {
    exists trace :: Path(trace, s, s')
  }

  ghost predicate Path(trace: seq<System>, s: System, s': System) {
    && |trace| > 0 && trace[0] == s && trace[|trace| - 1] == s'
    && forall k :: 0 <= k < |trace| - 1 ==> Next(trace[k], trace[k + 1])
  }

  lemma LeadsByStep(s: System, s': System)
    requires Next(s, s')
    ensures Leads(s, s')
  {
    hide Next;
    assert Path([s, s'], s, s');
  }

  lemma LeadsOn(s: System, middle: System, s': System)
    requires Leads(s, middle) && Leads(middle, s')
    ensures Leads(s, s')
  {
    hide Next;
    var first, second :| Path(first, s, middle) && Path(second, middle, s');
    var whole := first + second[1..];
    forall k | 0 <= k < |whole| - 1
      ensures Next(whole[k], whole[k + 1])
    {
      if k >= |first| - 1 {
        assert whole[k] == second[k - (|first| - 1)];
        assert whole[k + 1] == second[k + 1 - (|first| - 1)];
      }
    }
    assert Path(whole, s, s');
  }

  /**
   A peer that two nodes have not heard for longer than their limits can be confirmed dead
   at any third node that knows it, by nothing but their checks and reports.
   */
  lemma SilenceCanBeConfirmed(s: System, a: Key, b: Key, i: Key, p: Key) returns (s': System)
    requires a != b && a != i && b != i && i != p && p != ""
    requires Status(s, a, p, Alive) && Silence(s, a, p) > s.members[a].suspectAfter
    requires Status(s, b, p, Alive) && Silence(s, b, p) > s.members[b].suspectAfter
    requires i in s.members && p in s.members[i].view.peers && Silence(s, i, p) >= 0.0
    ensures Leads(s, s') && Status(s', i, p, Dead)
    ensures {a, b} <= Reporters(s'.members[i].view, p)
  {
    hide Leads, Suspects, MeshAfter, PendingAfter, Reported, Reporters, Next;
    var s1 := NoticedAndReported(s, a, p);
    var s2 := NoticedAndReported(s1, b, p);
    LeadsOn(s, s1, s2);
    var e1, e2 := HearSuspicion(Suspicion(a, p, s.clock)), HearSuspicion(Suspicion(b, p, s.clock));
    var s3 := Step(s2, i, e1);
    s' := Step(s3, i, e2);
    HeardStep(s2, i, e1);
    HeardStep(s3, i, e2);
    LeadsOn(s, s2, s3);
    LeadsOn(s, s3, s');
    TwoReportsKill(s.members[i].view, i, p, a, b, s.clock, s.clock);
  }

  lemma HeardStep(s: System, i: Key, e: Event)
    requires i in s.members && Enabled(s, i, e)
    ensures Leads(s, Step(s, i, e))
  {
    hide Step, Enabled;
    assert StepBy(s, Step(s, i, e), i, e);
    LeadsByStep(s, Step(s, i, e));
  }
}
