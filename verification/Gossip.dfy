/**
 Hop-limited gossip: whom a node sends to, and why every message dies out.
 */
module Gossip {
  import opened Lists
  import opened Payloads

  const FANOUT: nat := 3
  const HOPS: int := 8
  const SEEN_CACHE_SIZE: nat := 1000

  // Choosing targets.

  function Where(keys: seq<Key>, mesh: set<Key>, inMesh: bool): (r: seq<Key>)
    ensures forall k :: k in r <==> k in keys && (k in mesh) == inMesh
    ensures |r| <= |keys|
  {
    if |keys| == 0 then []
    else if (keys[0] in mesh) == inMesh then [keys[0]] + Where(keys[1..], mesh, inMesh)
    else Where(keys[1..], mesh, inMesh)
  }

  /** Peers connected in the mesh first, then the others, each group in shuffled order; at most three. */
  function Targets(shuffled: seq<Key>, mesh: set<Key>): seq<Key> {
    var ranked := Ranked(shuffled, mesh);
    ranked[..if |ranked| < FANOUT then |ranked| else FANOUT]
  }

  lemma {:induction false} WhereSplits(keys: seq<Key>, mesh: set<Key>, inMesh: bool)
    ensures |Where(keys, mesh, true)| + |Where(keys, mesh, false)| == |keys|
    ensures NoRepeats(keys) ==> NoRepeats(Where(keys, mesh, inMesh))
  {
    if |keys| > 0 {
      WhereSplits(keys[1..], mesh, inMesh);
    }
  }

  /** The mesh group comes first. */
  function Ranked(shuffled: seq<Key>, mesh: set<Key>): seq<Key> {
    Where(shuffled, mesh, true) + Where(shuffled, mesh, false)
  }

  lemma RankedIsShuffle(shuffled: seq<Key>, mesh: set<Key>)
    requires NoRepeats(shuffled)
    ensures |Ranked(shuffled, mesh)| == |shuffled| && NoRepeats(Ranked(shuffled, mesh))
    ensures forall k :: k in Ranked(shuffled, mesh) <==> k in shuffled
  {
    WhereSplits(shuffled, mesh, true);
    WhereSplits(shuffled, mesh, false);
    hide Where;
    var near, far := Where(shuffled, mesh, true), Where(shuffled, mesh, false);
    forall i, j | 0 <= i < j < |near + far|
      ensures (near + far)[i] != (near + far)[j]
    {
      if i < |near| <= j {
        assert near[i] in near && far[j - |near|] in far;
      }
    }
  }

  /** An outsider's position is after every mesh peer's. */
  lemma MeshFirst(shuffled: seq<Key>, mesh: set<Key>, j: nat, m: Key) returns (i: nat)
    requires j < |Ranked(shuffled, mesh)| && Ranked(shuffled, mesh)[j] !in mesh
    requires m in shuffled && m in mesh
    ensures i < j && Ranked(shuffled, mesh)[i] == m
  {
    hide Where;
    var near := Where(shuffled, mesh, true);
    assert forall q :: 0 <= q < |near| ==> near[q] in near;
    i :| 0 <= i < |near| && near[i] == m;
  }

  /** Three different peers, or all of them, and no outsider while a mesh peer is left out. */
  ghost predicate Chosen(targets: seq<Key>, peers: seq<Key>, mesh: set<Key>) {
    && |targets| == (if |peers| < FANOUT then |peers| else FANOUT)
    && NoRepeats(targets)
    && (forall k :: k in targets ==> k in peers)
    && (forall k, m :: k in targets && k !in mesh && m in peers && m in mesh ==> m in targets)
  }

  lemma TargetsChosen(peers: seq<Key>, shuffled: seq<Key>, mesh: set<Key>)
    requires multiset(shuffled) == multiset(peers) && NoRepeats(peers)
    ensures Chosen(Targets(shuffled, mesh), peers, mesh)
  {
    Shuffled(peers, shuffled);
    RankedIsShuffle(shuffled, mesh);
    SameMembers(peers, shuffled);
    hide Ranked, Where;
    var ranked, targets := Ranked(shuffled, mesh), Targets(shuffled, mesh);
    forall k, m | k in targets && k !in mesh && m in peers && m in mesh
      ensures m in targets
    {
      var j :| 0 <= j < |targets| && targets[j] == k;
      var i := MeshFirst(shuffled, mesh, j, m);
      assert targets[i] == m;
    }
  }

  lemma SameMembers(peers: seq<Key>, shuffled: seq<Key>)
    requires multiset(shuffled) == multiset(peers)
    ensures forall k :: k in shuffled <==> k in peers
  {
    forall k
      ensures k in shuffled <==> k in peers
    {
      assert k in shuffled <==> k in multiset(shuffled);
      assert k in peers <==> k in multiset(peers);
    }
  }

  lemma Shuffled(peers: seq<Key>, shuffled: seq<Key>)
    requires multiset(shuffled) == multiset(peers) && NoRepeats(peers)
    ensures |shuffled| == |peers| && NoRepeats(shuffled)
  {
    assert |multiset(shuffled)| == |multiset(peers)|;
    forall i, j | 0 <= i < j < |shuffled|
      ensures shuffled[i] != shuffled[j]
    {
      if shuffled[i] == shuffled[j] {
        TwiceInMultiset(shuffled, i, j);
        OnceInMultiset(peers, shuffled[i]);
      }
    }
  }

  lemma TwiceInMultiset(s: seq<Key>, i: nat, j: nat)
    requires i < j < |s| && s[i] == s[j]
    ensures multiset(s)[s[i]] >= 2
  {
    assert s == s[..j] + s[j..];
    assert s[..j][i] == s[i] && s[j..][0] == s[j];
  }

  lemma {:induction false} OnceInMultiset(s: seq<Key>, k: Key)
    requires NoRepeats(s)
    ensures multiset(s)[k] <= 1
  {
    if |s| > 0 {
      assert s == [s[0]] + s[1..];
      OnceInMultiset(s[1..], k);
      if s[0] == k {
        assert k !in s[1..];
        assert k !in multiset(s[1..]);
      }
    }
  }

  // The cache of seen ids.

  /** The seen ids after one more, the oldest dropped when full. */
  function Remember(seen: seq<string>, id: string): seq<string> {
    if |seen| < SEEN_CACHE_SIZE then seen + [id] else seen[1..] + [id]
  }

  /** The cache after messages with these ids, in this order. */
  function RememberAll(ids: seq<string>): seq<string> {
    if |ids| == 0 then [] else Remember(RememberAll(ids[..|ids| - 1]), ids[|ids| - 1])
  }

  /** The cache holds exactly the latest thousand ids. */
  lemma {:induction false} CacheHoldsLatest(ids: seq<string>)
    ensures RememberAll(ids) == ids[if |ids| <= 1000 then 0 else |ids| - 1000..]
  {
    if |ids| > 0 {
      var front, last := ids[..|ids| - 1], ids[|ids| - 1];
      CacheHoldsLatest(front);
      assert ids == front + [last];
    }
  }

  // Dying out.

  /** A copy of a message on its way to one node. */
  datatype Packet = Packet(to: Key, hops: int)

  /** What one packet can cause at most: itself and three times what each forwarded packet can. */
  function Weight(hops: int): (w: nat)
    ensures w >= 1
    decreases if hops > 1 then hops else 0
  {
    if hops <= 1 then 1 else 1 + FANOUT * Weight(hops - 1)
  }

  function TotalWeight(flight: seq<Packet>): (w: nat)
    ensures w >= |flight|
  {
    if |flight| == 0 then 0 else Weight(flight[0].hops) + TotalWeight(flight[1..])
  }

  datatype Net = Net(flight: seq<Packet>, sent: nat, delivered: nat)

  /** What a handler may send on: nothing, or at most three packets with one hop less while hops remain. */
  predicate Forwards(p: Packet, out: seq<Packet>) {
    && |out| <= FANOUT
    && (p.hops - 1 <= 0 ==> out == [])
    && forall q :: q in out ==> q.hops == p.hops - 1
  }

  datatype Event = Deliver(index: nat, out: seq<Packet>) | Lose(index: nat)

  predicate Possible(n: Net, e: Event) {
    && e.index < |n.flight|
    && (e.Deliver? ==> Forwards(n.flight[e.index], e.out))
  }

  function Without(flight: seq<Packet>, i: nat): (rest: seq<Packet>)
    requires i < |flight|
    ensures |rest| == |flight| - 1
  {
    if i == 0 then flight[1..] else [flight[0]] + Without(flight[1..], i - 1)
  }

  function After(n: Net, e: Event): Net
    requires Possible(n, e)
  {
    var rest := Without(n.flight, e.index);
    match e
    case Deliver(_, out) => Net(rest + out, n.sent + |out|, n.delivered + 1)
    case Lose(_) => n.(flight := rest)
  }

  ghost predicate IsRun(trace: seq<Net>, start: seq<Packet>) {
    && |trace| > 0 && trace[0] == Net(start, |start|, 0)
    && forall k :: 0 <= k < |trace| - 1 ==> Next(trace[k], trace[k + 1])
  }

  ghost predicate Next(n: Net, n': Net) {
    exists e :: Possible(n, e) && n' == After(n, e)
  }

  lemma {:induction false} TotalWeightConcat(a: seq<Packet>, b: seq<Packet>)
    ensures TotalWeight(a + b) == TotalWeight(a) + TotalWeight(b)
  {
    if |a| == 0 {
      assert a + b == b;
    } else {
      assert (a + b)[1..] == a[1..] + b;
      TotalWeightConcat(a[1..], b);
    }
  }

  lemma {:induction false} TotalWeightUniform(flight: seq<Packet>, hops: int)
    requires forall p :: p in flight ==> p.hops == hops
    ensures TotalWeight(flight) == |flight| * Weight(hops)
  {
    hide Weight;
    if |flight| > 0 {
      assert flight[0] in flight;
      UniformTail(flight, hops);
      TotalWeightUniform(flight[1..], hops);
      OneMore(|flight| - 1, Weight(hops));
    }
  }

  lemma UniformTail(flight: seq<Packet>, hops: int)
    requires |flight| > 0 && forall p :: p in flight ==> p.hops == hops
    ensures forall p :: p in flight[1..] ==> p.hops == hops
  {
    assert forall p :: p in flight[1..] ==> p in flight;
  }

  lemma OneMore(n: nat, w: nat)
    ensures (n + 1) * w == n * w + w
  {}

  lemma AtMostThree(n: nat, w: nat)
    requires n <= FANOUT
    ensures n * w <= FANOUT * w
  {}

  lemma {:induction false} TakeOut(flight: seq<Packet>, i: nat)
    requires i < |flight|
    ensures TotalWeight(Without(flight, i)) + Weight(flight[i].hops) == TotalWeight(flight)
  {
    hide Weight;
    if i > 0 {
      TakeOut(flight[1..], i - 1);
      assert Without(flight, i)[1..] == Without(flight[1..], i - 1);
    }
  }

  /** Every delivery strictly lowers the weight in flight, and pays for what it sends. */
  lemma DeliveryLowersWeight(n: Net, e: Event)
    requires Possible(n, e)
    ensures TotalWeight(After(n, e).flight) < TotalWeight(n.flight)
    ensures After(n, e).sent - |After(n, e).flight| + TotalWeight(After(n, e).flight)
         <= n.sent - |n.flight| + TotalWeight(n.flight)
  {
    var p := n.flight[e.index];
    var rest := Without(n.flight, e.index);
    TakeOut(n.flight, e.index);
    if e.Deliver? {
      TotalWeightConcat(rest, e.out);
      TotalWeightUniform(e.out, p.hops - 1);
      if p.hops > 1 {
        AtMostThree(|e.out|, Weight(p.hops - 1));
      }
    }
  }

  /** Whatever the nodes forward and the network loses, all sends of a run fit in the starting weight. */
  lemma {:induction false} SendsBounded(trace: seq<Net>, start: seq<Packet>, k: nat)
    requires IsRun(trace, start) && k < |trace|
    ensures trace[k].sent - |trace[k].flight| + TotalWeight(trace[k].flight) <= TotalWeight(start)
    ensures trace[k].sent <= TotalWeight(start)
    ensures trace[k].delivered + |trace[k].flight| <= trace[k].sent
  {
    if k > 0 {
      SendsBounded(trace, start, k - 1);
      assert Next(trace[k - 1], trace[k]);
      var e :| Possible(trace[k - 1], e) && trace[k] == After(trace[k - 1], e);
      DeliveryLowersWeight(trace[k - 1], e);
    }
  }

  lemma WeightOfFreshMessage()
    ensures Weight(HOPS) == 3280
  {
    assert Weight(1) == 1;
    assert Weight(2) == 4;
    assert Weight(3) == 13;
    assert Weight(4) == 40;
    assert Weight(5) == 121;
    assert Weight(6) == 364;
    assert Weight(7) == 1093;
  }

  /** Something can happen exactly as long as something is in flight. */
  lemma QuietExactly(n: Net)
    ensures (exists n' :: Next(n, n')) <==> n.flight != []
  {
    if n.flight != [] {
      assert Possible(n, Lose(0));
      assert Next(n, After(n, Lose(0)));
    }
  }

  /**
   A ledger update, suspicion or join fanned out to three peers causes at most 9840 sends; a
   heartbeat to n peers at most 3280 n. A run goes on as long as anything is in flight, and
   after that many events nothing is.
   */
  lemma FreshMessagesDieOut(trace: seq<Net>, start: seq<Packet>, k: nat)
    requires IsRun(trace, start) && k < |trace| && forall p :: p in start ==> p.hops == HOPS
    ensures trace[k].sent <= 3280 * |start|
    ensures |start| <= FANOUT ==> trace[k].sent <= 9840
    ensures |trace| - 1 <= 3280 * |start|
    ensures (exists n :: Next(trace[k], n)) <==> trace[k].flight != []
    ensures k == 3280 * |start| ==> trace[k].flight == []
  {
    QuietExactly(trace[k]);
    RunLength(trace, start, k);
    SendsBounded(trace, start, k);
    TotalWeightUniform(start, HOPS);
    WeightOfFreshMessage();
    RunLength(trace, start, |trace| - 1);
  }

  /** Each event removes a packet, so a run has no more events than sends. */
  lemma {:induction false} RunLength(trace: seq<Net>, start: seq<Packet>, k: nat)
    requires IsRun(trace, start) && k < |trace|
    ensures k + TotalWeight(trace[k].flight) <= TotalWeight(start)
  {
    if k > 0 {
      RunLength(trace, start, k - 1);
      assert Next(trace[k - 1], trace[k]);
      var e :| Possible(trace[k - 1], e) && trace[k] == After(trace[k - 1], e);
      DeliveryLowersWeight(trace[k - 1], e);
    }
  }
}
