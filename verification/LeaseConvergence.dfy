/**
 Agreement on the lease duration: each node advertises its value in heartbeats and now and
 then adopts the smallest one reported by peers it does not hold dead.

 A heartbeat carries whatever value its sender had when it was sent, and may arrive at any later
 time, repeatedly or never. Death verdicts come and go arbitrarily; nodes do not restart.
 */
module LeaseConvergence {
  import opened Lists
  import opened Options
  import opened Payloads
  import LeaseTiming

  /** A peer's last reported duration, if any. */
  datatype Peer = Peer(reported: Option<real>, dead: bool)

  datatype Lease = Lease(duration: real, renewThreshold: real, peers: map<Key, Peer>)

  /** A heartbeat's sender and the duration in it. */
  datatype Beat = Beat(sender: Key, duration: real)

  datatype Cluster = Cluster(nodes: map<Key, Lease>, beats: set<Beat>)

  // The rule.

  predicate Counts(n: Lease, p: Key) {
    p in n.peers && !n.peers[p].dead && n.peers[p].reported.Some?
  }

  /** The smallest of the node's own value and the reports that count. */
  ghost predicate IsConsensus(n: Lease, c: real) {
    && c <= n.duration
    && (forall p :: Counts(n, p) ==> c <= n.peers[p].reported.value)
    && (c == n.duration || exists p :: Counts(n, p) && c == n.peers[p].reported.value)
  }

  /** A peer held dead has no say: the consensus is the same as without it. */
  lemma DeadHaveNoSay(n: Lease, p: Key, c: real)
    requires p in n.peers && n.peers[p].dead
    ensures IsConsensus(n, c) <==> IsConsensus(n.(peers := n.peers - {p}), c)
  {
    var without := n.(peers := n.peers - {p});
    assert forall q :: Counts(n, q) <==> Counts(without, q);
    assert forall q :: Counts(without, q) ==> without.peers[q] == n.peers[q];
    if q :| Counts(n, q) && c == n.peers[q].reported.value {
      assert Counts(without, q);
    }
  }

  /** Every other report counts: the consensus is the one without it, unless the report is smaller. */
  lemma LiveHaveASay(n: Lease, p: Key, rest: real)
    requires p in n.peers && !n.peers[p].dead && n.peers[p].reported.Some?
    requires IsConsensus(n.(peers := n.peers - {p}), rest)
    ensures IsConsensus(n, if n.peers[p].reported.value < rest then n.peers[p].reported.value else rest)
  {
    var without := n.(peers := n.peers - {p});
    assert forall q :: q != p ==> (Counts(n, q) <==> Counts(without, q));
    assert forall q :: Counts(without, q) ==> without.peers[q] == n.peers[q];
    assert Counts(n, p);
  }

  /** There is one consensus. */
  lemma OneConsensus(n: Lease, c: real, d: real)
    requires IsConsensus(n, c) && IsConsensus(n, d)
    ensures c == d
  {}

  function Abs(x: real): real { if x < 0.0 then -x else x }

  function AtLeastATenth(x: real): (r: real)
    ensures r > 0.0
  {
    if x > 0.1 then x else 0.1
  }

  /** The consensus is off by more than a tenth. */
  predicate TooFar(consensus: real, current: real) {
    Abs(consensus - current) / AtLeastATenth(current) > 0.10
  }

  function Adopted(n: Lease, c: real): Lease {
    n.(duration := c, renewThreshold := c * 0.4)
  }

  // The machine.

  datatype Event =
    | Send
    | Hear(beat: Beat)
    | Judge(peer: Key, dead: bool)
    | Adopt(consensus: real)

  ghost predicate Allowed(c: Cluster, me: Key, e: Event)
    requires me in c.nodes
  {
    match e
    case Send => true
    case Hear(b) => b in c.beats && b.sender != me
    case Judge(p, _) => p in c.nodes[me].peers
    case Adopt(v) => IsConsensus(c.nodes[me], v) && TooFar(v, c.nodes[me].duration)
  }

  ghost predicate Enabled(c: Cluster, me: Key, e: Event) {
    me in c.nodes && Allowed(c, me, e)
  }

  function PeerOf(n: Lease, p: Key): Peer {
    if p in n.peers then n.peers[p] else Peer(None, false)
  }

  /** A duration of zero counts as missing; any heartbeat shows its sender alive. */
  function Noted(n: Lease, b: Beat): Lease {
    var peer := PeerOf(n, b.sender).(dead := false);
    n.(peers := n.peers[b.sender := if b.duration != 0.0 then peer.(reported := Some(b.duration)) else peer])
  }

  function NodeAfter(n: Lease, e: Event): Lease {
    match e
    case Hear(b) => Noted(n, b)
    case Judge(p, dead) => n.(peers := n.peers[p := PeerOf(n, p).(dead := dead)])
    case Adopt(v) => Adopted(n, v)
    case Send => n
  }

  function Step(c: Cluster, me: Key, e: Event): Cluster
    requires me in c.nodes
  {
    Cluster(c.nodes[me := NodeAfter(c.nodes[me], e)],
            if e.Send? then c.beats + {Beat(me, c.nodes[me].duration)} else c.beats)
  }

  ghost predicate Init(c: Cluster) {
    c.beats == {} && forall i :: i in c.nodes ==> c.nodes[i].peers == map[]
  }

  ghost predicate Next(c: Cluster, c': Cluster) {
    exists me, e :: Enabled(c, me, e) && c' == Step(c, me, e)
  }

  ghost predicate IsRun(trace: seq<Cluster>) {
    && |trace| > 0 && Init(trace[0])
    && forall k :: 0 <= k < |trace| - 1 ==> Next(trace[k], trace[k + 1])
  }

  // Where values come from.

  /** The durations the nodes were started with. */
  ghost function Initial(c: Cluster): set<real> {
    set i | i in c.nodes :: c.nodes[i].duration
  }

  ghost predicate FromInitial(c: Cluster, initial: set<real>) {
    && (forall i :: i in c.nodes ==> c.nodes[i].duration in initial)
    && (forall b :: b in c.beats ==> b.duration in initial)
    && (forall i, p :: i in c.nodes && p in c.nodes[i].peers && c.nodes[i].peers[p].reported.Some?
          ==> c.nodes[i].peers[p].reported.value in initial)
  }

  lemma StepFromInitial(c: Cluster, me: Key, e: Event, initial: set<real>)
    requires FromInitial(c, initial) && Enabled(c, me, e)
    ensures FromInitial(Step(c, me, e), initial)
  {
    hide TooFar;
  }

  /** Every value in use, in a heartbeat or in a report is some node's initial value. */
  lemma {:induction false} ValuesAreInitial(trace: seq<Cluster>, k: nat)
    requires IsRun(trace) && k < |trace|
    ensures FromInitial(trace[k], Initial(trace[0]))
    ensures trace[k].nodes.Keys == trace[0].nodes.Keys
  {
    hide FromInitial, Allowed, NodeAfter;
    if k == 0 {
      StartFromInitial(trace[0]);
    } else {
      ValuesAreInitial(trace, k - 1);
      assert Next(trace[k - 1], trace[k]);
      var me, e :| Enabled(trace[k - 1], me, e) && trace[k] == Step(trace[k - 1], me, e);
      StepFromInitial(trace[k - 1], me, e, Initial(trace[0]));
    }
  }

  lemma StartFromInitial(c: Cluster)
    requires Init(c)
    ensures FromInitial(c, Initial(c))
  {}

  // Values only fall.

  lemma TooFarDiffers(consensus: real, current: real)
    requires TooFar(consensus, current)
    ensures consensus != current
  {}

  lemma StepOnlyLowers(c: Cluster, me: Key, e: Event, i: Key)
    requires Enabled(c, me, e) && i in c.nodes
    ensures i in Step(c, me, e).nodes && Step(c, me, e).nodes[i].duration <= c.nodes[i].duration
    ensures e.Adopt? && i == me ==> Step(c, me, e).nodes[i].duration < c.nodes[i].duration
  {
    hide TooFar;
    if e.Adopt? {
      TooFarDiffers(e.consensus, c.nodes[me].duration);
    }
  }

  lemma {:induction false} ValuesNeverRise(trace: seq<Cluster>, j: nat, k: nat, i: Key)
    requires IsRun(trace) && j <= k < |trace| && i in trace[j].nodes
    ensures i in trace[k].nodes && trace[k].nodes[i].duration <= trace[j].nodes[i].duration
    decreases k - j
  {
    hide Allowed, NodeAfter, Init;
    if j < k {
      ValuesNeverRise(trace, j, k - 1, i);
      assert Next(trace[k - 1], trace[k]);
      var me, e :| Enabled(trace[k - 1], me, e) && trace[k] == Step(trace[k - 1], me, e);
      StepOnlyLowers(trace[k - 1], me, e, i);
    }
  }

  ghost predicate IsLeast(m: real, values: set<real>) {
    m in values && forall v :: v in values ==> m <= v
  }

  /** The cluster minimum is never undercut, and a node that starts with it keeps it. */
  lemma MinimumStays(trace: seq<Cluster>, k: nat, m: real, i: Key)
    requires IsRun(trace) && k < |trace| && IsLeast(m, Initial(trace[0])) && i in trace[0].nodes
    ensures i in trace[k].nodes && trace[k].nodes[i].duration >= m
    ensures trace[0].nodes[i].duration == m ==> trace[k].nodes[i].duration == m
  {
    hide IsRun;
    ValuesAreInitial(trace, k);
    ValuesNeverRise(trace, 0, k, i);
  }

  // Adoptions end.

  ghost predicate Lowered(c: Cluster, c': Cluster, i: Key) {
    i in c.nodes && i in c'.nodes && c.nodes[i].duration != c'.nodes[i].duration
  }

  /** How often the node changed its value in the first k steps. */
  ghost function Changes(trace: seq<Cluster>, k: nat, i: Key): nat
    requires k < |trace|
  {
    if k == 0 then 0 else Changes(trace, k - 1, i) + if Lowered(trace[k - 1], trace[k], i) then 1 else 0
  }

  function Between(values: set<real>, low: real, high: real): set<real> {
    set v | v in values && low <= v < high
  }

  lemma BetweenGrows(values: set<real>, low: real, middle: real, high: real)
    requires low < middle <= high && low in values
    ensures |Between(values, low, high)| >= |Between(values, middle, high)| + 1
  {
    var wide, narrow := Between(values, low, high), Between(values, middle, high);
    assert low in wide && low !in narrow && narrow <= wide - {low};
    assert |wide - {low}| == |wide| - 1;
    SizeOfPart(narrow, wide - {low});
  }

  /** A node changes its value at most once for each initial value below its own start. */
  lemma {:induction false} ChangesBounded(trace: seq<Cluster>, k: nat, i: Key)
    requires IsRun(trace) && k < |trace| && i in trace[0].nodes
    ensures i in trace[k].nodes
    ensures Changes(trace, k, i) <= |Between(Initial(trace[0]), trace[k].nodes[i].duration, trace[0].nodes[i].duration)|
  {
    hide IsRun, Initial, Between;
    ValuesNeverRise(trace, 0, k, i);
    if k > 0 {
      ChangesBounded(trace, k - 1, i);
      if Lowered(trace[k - 1], trace[k], i) {
        ValuesNeverRise(trace, 0, k - 1, i);
        ValuesNeverRise(trace, k - 1, k, i);
        ValuesAreInitial(trace, k);
        BetweenGrows(Initial(trace[0]), trace[k].nodes[i].duration, trace[k - 1].nodes[i].duration, trace[0].nodes[i].duration);
      }
    }
  }

  // Where it settles.

  /** Every node holds every other node's current value, and holds nobody dead. */
  ghost predicate ReportsCurrent(c: Cluster) {
    forall i, p :: i in c.nodes && p in c.nodes && i != p ==>
      Counts(c.nodes[i], p) && c.nodes[i].peers[p].reported.value == c.nodes[p].duration
  }

  /** Reports come from nodes of the cluster. */
  ghost predicate PeersAreNodes(c: Cluster) {
    forall i, p :: i in c.nodes && p in c.nodes[i].peers ==> p in c.nodes && p != i
  }

  ghost predicate Settled(c: Cluster) {
    forall i, v :: i in c.nodes && IsConsensus(c.nodes[i], v) ==> !TooFar(v, c.nodes[i].duration)
  }

  /** Within a tenth, of the value itself or of 0.1 for values below that. */
  predicate Near(v: real, m: real) {
    if v >= 0.1 then 9.0 * v <= 10.0 * m else v - m <= 0.01
  }

  lemma NearExactly(v: real, m: real)
    requires m <= v
    ensures !TooFar(m, v) <==> Near(v, m)
  {
    var d := AtLeastATenth(v);
    Quotient(v - m, d);
  }

  lemma Quotient(x: real, d: real)
    requires d > 0.0
    ensures x / d > 0.10 <==> x > 0.10 * d
  {
    assert x == x / d * d;
    if x / d > 0.10 {
      Scaled(x / d, 0.10, d);
    } else {
      ScaledWeakly(x / d, 0.10, d);
    }
  }

  lemma Scaled(a: real, b: real, d: real)
    requires a > b && d > 0.0
    ensures a * d > b * d
  {}

  lemma ScaledWeakly(a: real, b: real, d: real)
    requires a <= b && d > 0.0
    ensures a * d <= b * d
  {}

  lemma ConsensusIsMinimum(c: Cluster, m: real, i: Key, v: real)
    requires ReportsCurrent(c) && PeersAreNodes(c) && IsLeast(m, Initial(c)) && i in c.nodes
    ensures IsConsensus(c.nodes[i], v) <==> v == m
  {
    var n := c.nodes[i];
    var least :| least in c.nodes && c.nodes[least].duration == m;
    assert n.duration in Initial(c);
    forall p | Counts(n, p)
      ensures n.peers[p].reported.value in Initial(c)
    {
      assert p in c.nodes && p != i;
      assert n.peers[p].reported.value == c.nodes[p].duration;
    }
    if least != i {
      assert Counts(n, least) && n.peers[least].reported.value == m;
    }
  }

  /** With current reports and nobody held dead, nothing is left to adopt exactly when every value is near the minimum. */
  lemma SettledExactly(c: Cluster, m: real)
    requires ReportsCurrent(c) && PeersAreNodes(c) && IsLeast(m, Initial(c))
    ensures Settled(c) <==> forall i :: i in c.nodes ==> Near(c.nodes[i].duration, m)
  {
    hide ReportsCurrent, PeersAreNodes, TooFar, Near, IsConsensus;
    forall i, v | i in c.nodes
      ensures IsConsensus(c.nodes[i], v) <==> v == m
      ensures m <= c.nodes[i].duration
      ensures !TooFar(m, c.nodes[i].duration) <==> Near(c.nodes[i].duration, m)
    {
      assert c.nodes[i].duration in Initial(c);
      ConsensusIsMinimum(c, m, i, v);
      NearExactly(c.nodes[i].duration, m);
    }
    forall i | i in c.nodes && Settled(c)
      ensures Near(c.nodes[i].duration, m)
    {
      assert IsConsensus(c.nodes[i], m);
    }
  }

  lemma StepKeepsPeersNodes(c: Cluster, me: Key, e: Event)
    requires PeersAreNodes(c) && Enabled(c, me, e) && (e.Hear? ==> e.beat.sender in c.nodes)
    ensures PeersAreNodes(Step(c, me, e))
  {
    hide TooFar, IsConsensus;
  }

  ghost predicate SendersAreNodes(c: Cluster) {
    forall b :: b in c.beats ==> b.sender in c.nodes
  }

  lemma {:induction false} PeersStayNodes(trace: seq<Cluster>, k: nat)
    requires IsRun(trace) && k < |trace|
    ensures PeersAreNodes(trace[k]) && SendersAreNodes(trace[k])
  {
    hide TooFar, IsConsensus, NodeAfter, PeersAreNodes;
    if k == 0 {
      NobodyKnown(trace[0]);
    } else {
      PeersStayNodes(trace, k - 1);
      assert Next(trace[k - 1], trace[k]);
      var me, e :| Enabled(trace[k - 1], me, e) && trace[k] == Step(trace[k - 1], me, e);
      StepKeepsPeersNodes(trace[k - 1], me, e);
    }
  }

  lemma NobodyKnown(c: Cluster)
    requires Init(c)
    ensures PeersAreNodes(c)
  {}

  /** Once a run has settled with current reports, every value of at least 0.1 is at most the initial minimum over 0.9. */
  lemma RunsSettleNearMinimum(trace: seq<Cluster>, k: nat, m: real, i: Key)
    requires IsRun(trace) && k < |trace| && IsLeast(m, Initial(trace[0]))
    requires ReportsCurrent(trace[k]) && i in trace[k].nodes
    requires Settled(trace[k])
    ensures m <= trace[k].nodes[i].duration
    ensures trace[k].nodes[i].duration >= 0.1 ==> trace[k].nodes[i].duration <= m / 0.9
  {
    hide IsRun, ReportsCurrent, Settled;
    ValuesAreInitial(trace, k);
    PeersStayNodes(trace, k);
    MinimumIsHeld(trace, k, m);
    MinimumStays(trace, k, m, i);
    SettledExactly(trace[k], m);
    assert Near(trace[k].nodes[i].duration, m);
  }

  lemma MinimumIsHeld(trace: seq<Cluster>, k: nat, m: real)
    requires IsRun(trace) && k < |trace| && IsLeast(m, Initial(trace[0]))
    ensures IsLeast(m, Initial(trace[k]))
  {
    hide IsRun;
    ValuesAreInitial(trace, k);
    var least :| least in trace[0].nodes && trace[0].nodes[least].duration == m;
    MinimumStays(trace, k, m, least);
    assert m in Initial(trace[k]);
    forall v | v in Initial(trace[k])
      ensures m <= v
    {
      var i :| i in trace[k].nodes && trace[k].nodes[i].duration == v;
      MinimumStays(trace, k, m, i);
    }
  }

  /** An adopted duration protects leases exactly when it is at least two and a half times the scan gap and the delay together. */
  lemma AdoptedLeaseExclusiveExactly(h: Key, n: Lease, v: real, scanGap: real, delay: real)
    requires v >= 0.0 && scanGap > 0.0 && delay >= 0.0
    ensures LeaseTiming.AlwaysExclusive(h, LeaseTiming.Bounds(scanGap, delay, Adopted(n, v).renewThreshold, Adopted(n, v).duration))
       <==> 2.5 * (scanGap + delay) <= v
  {
    hide LeaseTiming.AlwaysExclusive;
    LeaseTiming.ExclusiveExactly(h, LeaseTiming.Bounds(scanGap, delay, Adopted(n, v).renewThreshold, Adopted(n, v).duration));
  }
}
