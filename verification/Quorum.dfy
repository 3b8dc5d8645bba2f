/**
 The quorum test, and when it keeps two sides of a partition from acting at once.

 Dead peers are subtracted from the cluster, and without a configured size unknown members
 are not counted at all, so the test is no plain majority. It excludes two disjoint sides
 exactly as long as the two nodes together discount at most one member of the other side.
 */
module Quorum {
  import opened Lists
  import opened Payloads
  import opened PeerViews

  function WithStatus(peers: map<Key, PeerInfo>, status: PeerStatus): set<Key> {
    set p | p in peers && peers[p].status == status
  }

  /** The configured size, or else everyone known and the node itself. */
  function EffectiveSize(peers: map<Key, PeerInfo>, configured: int): int {
    if configured > 0 then configured else |peers| + 1
  }

  predicate HasQuorum(peers: map<Key, PeerInfo>, configured: int) {
    var cluster := EffectiveSize(peers, configured);
    cluster <= 1 || 2 * (|WithStatus(peers, Alive)| + 1) > cluster - |WithStatus(peers, Dead)|
  }

  /** The node's peers are members of the cluster other than itself. */
  ghost predicate SeenFrom(i: Key, peers: map<Key, PeerInfo>, members: set<Key>) {
    i in members && peers.Keys <= members - {i}
  }

  /** The node and the peers it holds alive. */
  function Side(i: Key, peers: map<Key, PeerInfo>): set<Key> {
    WithStatus(peers, Alive) + {i}
  }

  /** How nodes learn the size of the cluster. */
  datatype Sizing = Configured | Inferred

  /** The size as the nodes are given it, 0 for none. */
  function SizeSetting(members: set<Key>, sizing: Sizing): int {
    if sizing.Configured? then |members| else 0
  }

  /** The members that do not count against the node: the dead, and with an inferred size the unknown. */
  function Discounted(members: set<Key>, sizing: Sizing, i: Key, peers: map<Key, PeerInfo>): set<Key> {
    WithStatus(peers, Dead) + if sizing.Inferred? then members - {i} - peers.Keys else {}
  }

  /** Members one node discounts although the other counts them on its own side. */
  function WrongVerdicts(members: set<Key>, sizing: Sizing, i: Key, pi: map<Key, PeerInfo>, j: Key, pj: map<Key, PeerInfo>): nat {
    |Discounted(members, sizing, i, pi) * Side(j, pj)| + |Discounted(members, sizing, j, pj) * Side(i, pi)|
  }

  ghost predicate Divided(members: set<Key>, i: Key, pi: map<Key, PeerInfo>, j: Key, pj: map<Key, PeerInfo>) {
    SeenFrom(i, pi, members) && SeenFrom(j, pj, members) && Side(i, pi) !! Side(j, pj)
  }

  /** No two divided nodes with so few wrong verdicts both have quorum. */
  ghost predicate Exclusive(members: set<Key>, sizing: Sizing, wrong: nat) {
    forall i, pi, j, pj :: Divided(members, i, pi, j, pj) && WrongVerdicts(members, sizing, i, pi, j, pj) <= wrong
      ==> !BothHaveQuorum(members, sizing, pi, pj)
  }

  predicate BothHaveQuorum(members: set<Key>, sizing: Sizing, pi: map<Key, PeerInfo>, pj: map<Key, PeerInfo>) {
    HasQuorum(pi, SizeSetting(members, sizing)) && HasQuorum(pj, SizeSetting(members, sizing))
  }

  lemma ThreeParts(a: set<Key>, b: set<Key>, c: set<Key>, all: set<Key>)
    requires a !! b !! c && a <= all && b <= all && c <= all
    ensures |a| + |b| + |c| <= |all|
  {
    SizeOfUnion(a, b);
    SizeOfUnion(a + b, c);
    SizeOfPart(a + b + c, all);
  }

  lemma SplitBy(x: set<Key>, y: set<Key>)
    ensures |x| == |x * y| + |x - y|
  {
    assert x == x * y + (x - y);
  }

  /** Two disjoint sides cannot both outnumber half of what they do not discount. */
  lemma SidesExclude(members: set<Key>, a: set<Key>, b: set<Key>, goneA: set<Key>, goneB: set<Key>)
    requires a <= members && b <= members && goneA <= members && goneB <= members
    requires a !! b && a !! goneA && b !! goneB && |goneA * b| + |goneB * a| <= 1
    ensures !(2 * |a| > |members| - |goneA| && 2 * |b| > |members| - |goneB|)
  {
    var rest := (goneA - b) + (goneB - a);
    ThreeParts(a, b, rest, members);
    SplitBy(goneA, b);
    SplitBy(goneB, a);
    SizeOfPart(goneA - b, rest);
    SizeOfPart(goneB - a, rest);
  }

  lemma SideFacts(members: set<Key>, sizing: Sizing, i: Key, peers: map<Key, PeerInfo>)
    requires SeenFrom(i, peers, members)
    ensures Side(i, peers) <= members && Discounted(members, sizing, i, peers) <= members
    ensures Side(i, peers) !! Discounted(members, sizing, i, peers)
    ensures |Side(i, peers)| == |WithStatus(peers, Alive)| + 1
  {
    assert i !in WithStatus(peers, Alive);
  }

  lemma UncountedSize(members: set<Key>, i: Key, peers: map<Key, PeerInfo>)
    requires SeenFrom(i, peers, members)
    ensures |members| - |Discounted(members, Inferred, i, peers)| == |peers| + 1 - |WithStatus(peers, Dead)|
    ensures |WithStatus(peers, Dead)| <= |peers|
  {
    SizeOfPart(WithStatus(peers, Dead), peers.Keys);
    var unknown := members - {i} - peers.Keys;
    assert members == {i} + peers.Keys + unknown;
    assert |peers| == |peers.Keys|;
    SizeOfUnion(WithStatus(peers, Dead), unknown);
    assert WithStatus(peers, Dead) * unknown == {};
  }

  /** In either mode: the side outnumbers half of the members not discounted. */
  lemma QuorumMeans(members: set<Key>, sizing: Sizing, i: Key, peers: map<Key, PeerInfo>)
    requires |members| >= 2 && SeenFrom(i, peers, members)
    ensures HasQuorum(peers, SizeSetting(members, sizing))
       <==> 2 * |Side(i, peers)| > |members| - |Discounted(members, sizing, i, peers)|
  {
    hide Side, WithStatus, Discounted, SeenFrom;
    SideFacts(members, sizing, i, peers);
    if sizing.Inferred? {
      UncountedSize(members, i, peers);
    } else {
      OnlyDeadDiscounted(members, i, peers);
    }
  }

  lemma OnlyDeadDiscounted(members: set<Key>, i: Key, peers: map<Key, PeerInfo>)
    ensures Discounted(members, Configured, i, peers) == WithStatus(peers, Dead)
  {}

  lemma OneVerdictIsNotEnough(members: set<Key>, sizing: Sizing, i: Key, pi: map<Key, PeerInfo>, j: Key, pj: map<Key, PeerInfo>)
    requires |members| >= 2 && Divided(members, i, pi, j, pj) && WrongVerdicts(members, sizing, i, pi, j, pj) <= 1
    ensures !BothHaveQuorum(members, sizing, pi, pj)
  {
    hide WithStatus, Side, HasQuorum, Discounted, SizeSetting;
    SideFacts(members, sizing, i, pi);
    SideFacts(members, sizing, j, pj);
    SidesExclude(members, Side(i, pi), Side(j, pj), Discounted(members, sizing, i, pi), Discounted(members, sizing, j, pj));
    QuorumMeans(members, sizing, i, pi);
    QuorumMeans(members, sizing, j, pj);
  }

  // Two wrong verdicts are enough.

  lemma {:induction false} PartOfSize(all: set<Key>, size: nat) returns (part: set<Key>)
    requires size <= |all|
    ensures part <= all && |part| == size
  {
    if size == |all| {
      part := all;
    } else {
      var k :| k in all;
      part := PartOfSize(all - {k}, size);
    }
  }

  /** One side alive, some of the others dead, the rest suspected. */
  function HalfView(i: Key, members: set<Key>, side: set<Key>, dead: set<Key>): map<Key, PeerInfo> {
    map p | p in members - {i} ::
      NewPeer(0.0).(status := if p in side then Alive else if p in dead then Dead else Suspected)
  }

  lemma HalfViewCounts(i: Key, members: set<Key>, side: set<Key>, dead: set<Key>)
    requires i in side && side <= members && dead <= members - side
    ensures SeenFrom(i, HalfView(i, members, side, dead), members)
    ensures Side(i, HalfView(i, members, side, dead)) == side
    ensures forall sizing :: Discounted(members, sizing, i, HalfView(i, members, side, dead)) == dead
  {
    assert WithStatus(HalfView(i, members, side, dead), Alive) == side - {i};
  }

  /** Sides, and the verdicts of one on the other, that leave both with quorum. */
  ghost predicate Balanced(members: set<Key>, a: set<Key>, b: set<Key>, deadForA: set<Key>, deadForB: set<Key>) {
    && a + b == members && a !! b && a != {} && b != {}
    && deadForA <= b && deadForB <= a && |deadForA| + |deadForB| == 2
    && 2 * |a| > |members| - |deadForA| && 2 * |b| > |members| - |deadForB|
  }

  /** Split down the middle; the smaller half needs both verdicts. */
  lemma BalancedSplit(members: set<Key>) returns (a: set<Key>, b: set<Key>, deadForA: set<Key>, deadForB: set<Key>)
    requires |members| >= 2
    ensures Balanced(members, a, b, deadForA, deadForB)
  {
    a := PartOfSize(members, |members| / 2);
    b := members - a;
    SizeOfUnion(a, b);
    var even := |members| % 2 == 0;
    deadForA := PartOfSize(b, if even then 1 else 2);
    deadForB := PartOfSize(a, if even then 1 else 0);
  }

  lemma SplitBrain(members: set<Key>, sizing: Sizing) returns (i: Key, pi: map<Key, PeerInfo>, j: Key, pj: map<Key, PeerInfo>)
    requires |members| >= 2
    ensures Divided(members, i, pi, j, pj) && WrongVerdicts(members, sizing, i, pi, j, pj) == 2
    ensures BothHaveQuorum(members, sizing, pi, pj)
  {
    hide HasQuorum, WithStatus, Side, HalfView, Discounted, SizeSetting;
    var a, b, deadForA, deadForB := BalancedSplit(members);
    i :| i in a;
    j :| j in b;
    HalfViewCounts(i, members, a, deadForA);
    HalfViewCounts(j, members, b, deadForB);
    pi := HalfView(i, members, a, deadForA);
    pj := HalfView(j, members, b, deadForB);
    assert deadForA * b == deadForA && deadForB * a == deadForB;
    QuorumMeans(members, sizing, i, pi);
    QuorumMeans(members, sizing, j, pj);
  }

  lemma ExclusiveExactly(members: set<Key>, sizing: Sizing, wrong: nat)
    requires |members| >= 2
    ensures Exclusive(members, sizing, wrong) <==> wrong <= 1
  {
    hide BothHaveQuorum, Divided, WrongVerdicts;
    if wrong <= 1 {
      forall i, pi, j, pj | Divided(members, i, pi, j, pj) && WrongVerdicts(members, sizing, i, pi, j, pj) <= wrong
        ensures !BothHaveQuorum(members, sizing, pi, pj)
      {
        OneVerdictIsNotEnough(members, sizing, i, pi, j, pj);
      }
    } else {
      var i, pi, j, pj := SplitBrain(members, sizing);
      assert Divided(members, i, pi, j, pj) && WrongVerdicts(members, sizing, i, pi, j, pj) <= wrong;
    }
  }

  /** Two nodes that know nobody both have quorum without a configured size, though neither holds anyone dead. */
  lemma StrangersBothHaveQuorum(i: Key, j: Key)
    requires i != j
    ensures var members: set<Key> := {i, j};
      && Divided(members, i, map[], j, map[]) && BothHaveQuorum(members, Inferred, map[], map[])
      && WrongVerdicts(members, Inferred, i, map[], j, map[]) == 2
  {
    var nobody: map<Key, PeerInfo> := map[];
    var members: set<Key> := {i, j};
    assert Discounted(members, Inferred, i, nobody) * Side(j, nobody) == {j};
    assert Discounted(members, Inferred, j, nobody) * Side(i, nobody) == {i};
  }

  /** Without a configured size, a node that knows every other member counts the members. */
  lemma InferredSize(i: Key, peers: map<Key, PeerInfo>, members: set<Key>)
    requires i in members && peers.Keys == members - {i}
    ensures EffectiveSize(peers, 0) == |members|
  {
    assert |peers| == |peers.Keys|;
  }
}
