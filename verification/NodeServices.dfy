/**
 What ties a node's parts together: sealing a submitted payload, collecting shares, and
 the lease convergence loop.
 */
module NodeServices {
  import opened Options
  import opened Gf256
  import opened Shamir
  import opened Payloads
  import opened Tasks
  import opened Ledger
  import opened ThresholdCipher
  import opened ShareExchange
  import opened Membership
  import opened Runtime
  import opened Executor
  import Cluster
  import LeaseConvergence

  // Submitting.

  /** A payload as it enters the ledger. */
  datatype SealedText = SealedText(payload: Payload, encrypted: bool, thresholdT: nat)

  /** Enough coefficients for whatever threshold the known keys give. */
  ghost predicate EnoughRandom(own: Option<Key>, peerKeys: seq<Key>, key: seq<Byte>, random: seq<seq<Byte>>) {
    var p := ThresholdParams(own, peerKeys);
    p.Some? ==> CoefficientsFor(random, |key|, p.value.t)
  }

  /**
   Threshold encryption to half of the known keys when there are three, else encryption to the
   shard's home node when its key is known, else the plain text.
   */
  method SealForSubmit(own: Option<Key>, peerKeys: seq<Key>, homeKey: Option<Key>, text: string, key: seq<Byte>, random: seq<seq<Byte>>)
    returns (r: SealedText)
    requires EnoughRandom(own, peerKeys, key, random)
    ensures var p := ThresholdParams(own, peerKeys);
      if p.Some? then
        && r.thresholdT == p.value.t && !r.encrypted && 1 <= p.value.t <= |p.value.pubkeys|
        && |random| == |key| && SealsTo(r.payload, p.value.pubkeys, text, p.value.t, key, random)
      else if own.Some? && homeKey.Some? then r == SealedText(Sealed(homeKey.value, text), true, 0)
      else r == SealedText(Plain(text), false, 0)
  {
    hide ThresholdParams;
    r := SealedText(Plain(text), false, 0);
    var params := ThresholdParams(own, peerKeys);
    if params.Some? {
      ThresholdIsHalf(own, peerKeys);
      var payload := Encrypt(params.value.pubkeys, text, params.value.t, key, random);
      r := SealedText(payload, false, params.value.t);
    }
    if r.thresholdT == 0 && own.Some? && homeKey.Some? {
      r := SealedText(Sealed(homeKey.value, text), true, 0);
    }
  }

  /** A text entering the node: sealed, then submitted. */
  method SubmitText(runtime: AgentRuntime, id: TaskId, text: string, shardId: int, submitter: Option<Key>,
                    own: Option<Key>, peerKeys: seq<Key>, homeKey: Option<Key>, key: seq<Byte>, random: seq<seq<Byte>>, now: real)
    returns (identity: Identity)
    requires runtime.Valid() && EnoughRandom(own, peerKeys, key, random)
    modifies runtime.ledger`tasks, runtime.ledger`outbox
    ensures runtime.Valid()
    ensures Did(old(runtime.Here()), runtime.Here(), runtime.ledger.ourKey, now, Cluster.Submit(id, identity))
    ensures id in runtime.ledger.tasks
      && runtime.ledger.tasks[id] == Task(id, identity, Pending, None, 0.0, None, 1, None, None, None, None)
    ensures identity.shardId == shardId && identity.createdAt == now && identity.submitterKey == submitter
    ensures var p := ThresholdParams(own, peerKeys);
      if p.Some? then
        && identity.thresholdT == p.value.t && !identity.encrypted && 1 <= p.value.t <= |p.value.pubkeys|
        && |random| == |key| && SealsTo(identity.payload, p.value.pubkeys, text, p.value.t, key, random)
      else if own.Some? && homeKey.Some? then identity.payload == Sealed(homeKey.value, text) && identity.encrypted && identity.thresholdT == 0
      else identity.payload == Plain(text) && !identity.encrypted && identity.thresholdT == 0
  {
    hide ThresholdParams, SealsTo;
    var r := SealForSubmit(own, peerKeys, homeKey, text, key, random);
    identity := Identity(r.payload, shardId, now, submitter, r.encrypted, r.thresholdT);
    runtime.Submit(id, identity, now);
  }

  // Collecting shares.

  /** What a collection needs: the task's threshold, or one share if it has none. */
  function Needed(t: Task): nat {
    if t.identity.thresholdT == 0 then 1 else t.identity.thresholdT
  }

  class ShareCollector {
    const own: Option<Key>
    var collections: map<TaskId, Collection>
    /** Collections whose wait was ended early. */
    var ready: set<TaskId>

    constructor (key: Option<Key>)
      ensures own == key && collections == map[] && ready == {}
    {
      own, collections, ready := key, map[], {};
    }

    /** The start of a collection, or its result where none is needed. */
    method Open(t: Task) returns (result: Option<seq<Share>>)
      modifies this`collections, this`ready
      ensures var share := OwnShare(t.identity.payload, own);
        if share.None? then result == Some([]) && collections == old(collections) && ready == old(ready)
        else if Needed(t) <= 1 then result == Some([share.value]) && collections == old(collections) && ready == old(ready)
        else result.None? && ready == old(ready) - {t.taskId}
             && collections == old(collections)[t.taskId := Collection(Needed(t), [share.value])]
      ensures result.None? ==>
        t.identity.thresholdT > 1 && t.taskId in collections && collections[t.taskId].needed == t.identity.thresholdT
    {
      if !t.identity.payload.Threshold? {
        return Some([]);
      }
      var share := DecryptOwnShare(t.identity.payload, own);
      if share.None? {
        return Some([]);
      }
      var needed := if t.identity.thresholdT == 0 then 1 else t.identity.thresholdT;
      if needed <= 1 {
        return Some([share.value]);
      }
      collections := collections[t.taskId := Collection(needed, [share.value])];
      ready := ready - {t.taskId};
      result := None;
    }

    /** An answer: kept if its label is new, and the wait ends once enough are there. */
    method HandleShareResponse(id: TaskId, share: Share)
      modifies this`collections, this`ready
      ensures id in old(collections) && (forall i :: 0 <= i < |old(collections)[id].shares| ==> old(collections)[id].shares[i].x != share.x)
        ==> var col := old(collections)[id].(shares := old(collections)[id].shares + [share]);
            && collections == old(collections)[id := col]
            && ready == old(ready) + if |col.shares| >= col.needed then {id} else {}
      ensures !(id in old(collections) && (forall i :: 0 <= i < |old(collections)[id].shares| ==> old(collections)[id].shares[i].x != share.x))
        ==> collections == old(collections) && ready == old(ready)
      ensures id in old(collections) ==>
        collections == old(collections)[id := old(collections)[id].(shares := AddShare(old(collections)[id].shares, share))]
    {
      if id !in collections {
        return;
      }
      var col := collections[id];
      for i := 0 to |col.shares|
        invariant forall k :: 0 <= k < i ==> col.shares[k].x != share.x
      {
        if col.shares[i].x == share.x {
          assert collections == collections[id := col];
          return;
        }
      }
      col := col.(shares := col.shares + [share]);
      collections := collections[id := col];
      if |col.shares| >= col.needed {
        ready := ready + {id};
      }
    }

    /** The end of the wait, for whatever reason: the slot is emptied. */
    method Close(id: TaskId, ownShare: Share) returns (shares: seq<Share>)
      modifies this`collections
      ensures shares == if id in old(collections) then old(collections)[id].shares else [ownShare]
      ensures collections == old(collections) - {id}
    {
      shares := if id in collections then collections[id].shares else [ownShare];
      collections := collections - {id};
    }

    /** A peer asks: our share of our own copy's payload, if there is one. */
    method HandleShareRequest(ledger: TaskLedger, id: TaskId, requester: Key) returns (response: Option<Response>)
      ensures response == if id == "" || requester == "" || id !in ledger.tasks then None
                          else var share := OwnShare(ledger.tasks[id].identity.payload, own);
                               if share.None? then None else Some(Response(requester, id, share.value))
    {
      if id == "" || requester == "" || id !in ledger.tasks {
        return None;
      }
      var share := DecryptOwnShare(ledger.tasks[id].identity.payload, own);
      response := if share.None? then None else Some(Response(requester, id, share.value));
    }
  }

  // Methods and machine.

  /** The node's slice of the exchange. */
  ghost predicate Shows(e: Exchange, me: Key, own: Option<Key>, collections: map<TaskId, Collection>) {
    EncKey(e, me) == own && CollectionsAt(e, me) == collections
  }

  /** Opening, answering and closing change the slots as the exchange machine does. */
  lemma CollectorFollowsExchange(e: Exchange, me: Key, own: Option<Key>, collections: map<TaskId, Collection>, t: Task, r: Response)
    requires Shows(e, me, own, collections) && r.to == me
    ensures var share := OwnShare(t.identity.payload, own);
      CollectionsAt(After(e, Begin(me, t)), me) ==
      if share.Some? && Needed(t) > 1 then collections[t.taskId := Collection(Needed(t), [share.value])] else collections
    ensures r.taskId in collections ==>
      CollectionsAt(After(e, Arrive(r)), me) ==
      collections[r.taskId := collections[r.taskId].(shares := AddShare(collections[r.taskId].shares, r.share))]
    ensures t.taskId in collections ==>
      CollectionsAt(After(e, ShareExchange.Close(me, t.taskId)), me) == collections - {t.taskId}
      && Gathered(me, t.taskId, collections[t.taskId].shares) in After(e, ShareExchange.Close(me, t.taskId)).gathered
  {
    hide OwnShare, AddShare;
  }

  // Lease convergence.

  /** The value in use is kept, or replaced by the consensus when that is too far off. */
  ghost predicate Converged(before: LeaseConvergence.Lease, after: LeaseConvergence.Lease) {
    exists c ::
      LeaseConvergence.IsConsensus(before, c)
      && after == if LeaseConvergence.TooFar(c, before.duration) then LeaseConvergence.Adopted(before, c) else before
  }

  /** One round of the loop. Membership and ledger hold one duration between them. */
  method ConvergeLease(membership: MembershipLayer, ledger: TaskLedger)
    requires membership.ourLeaseDuration == ledger.leaseDuration
    modifies membership`ourLeaseDuration, ledger`leaseDuration, ledger`renewThreshold
    ensures membership.ourLeaseDuration == ledger.leaseDuration
    ensures Converged(LeaseOf(membership.peers, old(ledger.leaseDuration), old(ledger.renewThreshold)),
                      LeaseOf(membership.peers, ledger.leaseDuration, ledger.renewThreshold))
  {
    hide LeaseConvergence.IsConsensus, LeaseConvergence.TooFar;
    var consensus := membership.GetConsensusLeaseDuration();
    var current := ledger.leaseDuration;
    ghost var before := LeaseOf(membership.peers, current, ledger.renewThreshold);
    assert ConsensusOf(membership.peers, current, ledger.renewThreshold, consensus);
    assert LeaseConvergence.IsConsensus(before, consensus);
    if LeaseConvergence.TooFar(consensus, current) {
      ledger.leaseDuration := consensus;
      ledger.renewThreshold := consensus * 0.4;
      membership.ourLeaseDuration := consensus;
      assert LeaseOf(membership.peers, ledger.leaseDuration, ledger.renewThreshold) == LeaseConvergence.Adopted(before, consensus);
    }
  }
}
