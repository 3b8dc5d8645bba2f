/**
 What a collection gathers: our own share and one share for each label that was answered
 while it was open, no more and no fewer.
 */
module ShareGathering {
  import opened Options
  import opened Gf256
  import opened Polynomials
  import opened Shamir
  import opened Payloads
  import opened Tasks
  import opened Cluster
  import opened ClusterInvariant
  import opened ClusterSafety
  import opened ThresholdCipher
  import opened ShareExchange
  import Provenance

  // One answer.

  /** A share with a new label is kept at the end, one with a label already there is dropped. */
  lemma AddShareExactly(shares: seq<Share>, share: Share)
    ensures (forall i :: 0 <= i < |shares| ==> shares[i].x != share.x) ==> AddShare(shares, share) == shares + [share]
    ensures !(forall i :: 0 <= i < |shares| ==> shares[i].x != share.x) ==> AddShare(shares, share) == shares
  {}

  function LabelSet(shares: seq<Share>): set<nat> {
    set s | s in shares :: s.x
  }

  lemma AddedLabel(shares: seq<Share>, share: Share)
    ensures LabelSet(AddShare(shares, share)) == LabelSet(shares) + {share.x}
  {
    var added := AddShare(shares, share);
    forall x
      ensures x in LabelSet(added) <==> x in LabelSet(shares) + {share.x}
    {
      if x == share.x {
        if exists i :: 0 <= i < |shares| && shares[i].x == share.x {
          var i :| 0 <= i < |shares| && shares[i].x == share.x;
          assert shares[i] in added;
        } else {
          assert share in added;
        }
      }
      forall s | s in shares
        ensures s in added
      {
      }
    }
  }

  /** A node answers exactly if its copy is sealed to its key, and it answers with its share. */
  lemma AnswerExactly(e: Exchange, j: Key, id: TaskId, to: Key)
    ensures Possible(e, Answer(j, id, to))
       <==> j in e.cluster.nodes && id in e.cluster.nodes[j].tasks
            && OwnShare(e.cluster.nodes[j].tasks[id].identity.payload, EncKey(e, j)).Some?
    ensures Possible(e, Answer(j, id, to)) ==>
      Response(to, id, OwnShare(e.cluster.nodes[j].tasks[id].identity.payload, EncKey(e, j)).value)
        in After(e, Answer(j, id, to)).responses
  {
    hide OwnShare;
  }

  // A run of a collection.

  /** A run of the exchange together with what happened in it. */
  ghost predicate IsExchangeOf(trace: seq<Exchange>, acts: seq<Act>) {
    && |trace| == |acts| + 1 && Start(trace[0])
    && forall k :: 0 <= k < |acts| ==> Happens(trace[k], acts[k], trace[k + 1])
  }

  ghost predicate Happens(e: Exchange, a: Act, e': Exchange) {
    Possible(e, a) && e' == After(e, a)
  }

  lemma ExchangeOfIsExchange(trace: seq<Exchange>, acts: seq<Act>)
    requires IsExchangeOf(trace, acts)
    ensures IsExchange(trace)
  {
    hide Start, Possible, After;
    forall k | 0 <= k < |trace| - 1
      ensures Moves(trace[k], trace[k + 1])
    {
      assert Happens(trace[k], acts[k], trace[k + 1]);
    }
  }

  /** The act opens, empties or loses the node's slot for the task. */
  predicate Touches(a: Act, i: Key, id: TaskId) {
    match a
    case Begin(node, copy) => node == i && copy.taskId == id
    case Close(node, task) => node == i && task == id
    case Forget(node) => node == i
    case _ => false
  }

  predicate ArrivesAt(a: Act, i: Key, id: TaskId) {
    a.Arrive? && a.response.to == i && a.response.taskId == id
  }

  /** The labels of the answers that arrived from one act up to another. */
  function ArrivedLabels(acts: seq<Act>, m: nat, k: nat, i: Key, id: TaskId): set<nat>
    requires m <= k <= |acts|
  {
    if m == k then {}
    else ArrivedLabels(acts, m, k - 1, i, id) + if ArrivesAt(acts[k - 1], i, id) then {acts[k - 1].response.share.x} else {}
  }

  /** The act at m opened a slot for this copy, and it is still the one open at k. */
  ghost predicate OpenSince(trace: seq<Exchange>, acts: seq<Act>, m: nat, k: nat, i: Key, copy: Task) {
    && IsExchangeOf(trace, acts) && m < k < |trace| && acts[m] == Begin(i, copy)
    && Waits(trace[m], i, copy)
    && forall j :: m < j < k ==> !Touches(acts[j], i, copy.taskId)
  }

  /** The node has a share of its own, and needs more than that. */
  ghost predicate Waits(e: Exchange, i: Key, copy: Task) {
    OwnShare(copy.identity.payload, EncKey(e, i)).Some? && copy.identity.thresholdT > 1
  }

  function OwnLabel(e: Exchange, i: Key, copy: Task): nat {
    var own := OwnShare(copy.identity.payload, EncKey(e, i));
    if own.Some? then own.value.x else 0
  }

  lemma BeginOpens(e: Exchange, e': Exchange, i: Key, copy: Task)
    requires Happens(e, Begin(i, copy), e') && Waits(e, i, copy)
    ensures copy.taskId in CollectionsAt(e', i) && CollectionsAt(e', i)[copy.taskId].needed == copy.identity.thresholdT
    ensures LabelSet(CollectionsAt(e', i)[copy.taskId].shares) == {OwnLabel(e, i, copy)}
  {
    hide OwnShare;
    var share := OwnShare(copy.identity.payload, EncKey(e, i)).value;
    assert CollectionsAt(e', i)[copy.taskId].shares == [share];
    assert share in [share];
  }

  lemma UntouchedStays(e: Exchange, e': Exchange, a: Act, i: Key, id: TaskId)
    requires Happens(e, a, e') && id in CollectionsAt(e, i) && !Touches(a, i, id)
    ensures id in CollectionsAt(e', i)
    ensures LabelSet(CollectionsAt(e', i)[id].shares) ==
      LabelSet(CollectionsAt(e, i)[id].shares) + if ArrivesAt(a, i, id) then {a.response.share.x} else {}
  {
    hide OwnShare, AddShare, LabelSet, Next;
    if ArrivesAt(a, i, id) {
      AddedLabel(CollectionsAt(e, i)[id].shares, a.response.share);
    }
  }

  /** An open collection holds exactly our own label and those of the answers that arrived since it began. */
  lemma {:induction false} CollectionLabels(trace: seq<Exchange>, acts: seq<Act>, m: nat, k: nat, i: Key, copy: Task)
    requires OpenSince(trace, acts, m, k, i, copy)
    ensures copy.taskId in CollectionsAt(trace[k], i)
    ensures LabelSet(CollectionsAt(trace[k], i)[copy.taskId].shares)
         == {OwnLabel(trace[m], i, copy)} + ArrivedLabels(acts, m + 1, k, i, copy.taskId)
    decreases k
  {
    hide Happens, Start, LabelSet, OwnLabel, CollectionsAt;
    assert Happens(trace[k - 1], acts[k - 1], trace[k]);
    if k == m + 1 {
      BeginOpens(trace[m], trace[k], i, copy);
    } else {
      CollectionLabels(trace, acts, m, k - 1, i, copy);
      UntouchedStays(trace[k - 1], trace[k], acts[k - 1], i, copy.taskId);
    }
  }

  lemma {:induction false} CountLabels(shares: seq<Share>)
    requires DifferentLabels(shares)
    ensures |LabelSet(shares)| == |shares|
  {
    if |shares| == 0 {
      assert LabelSet(shares) == {};
    } else {
      var front, last := shares[..|shares| - 1], shares[|shares| - 1];
      CountLabels(front);
      assert shares == front + [last];
      assert LabelSet(shares) == LabelSet(front) + {last.x};
      assert last.x !in LabelSet(front);
    }
  }

  lemma CloseReturns(e: Exchange, e': Exchange, i: Key, id: TaskId)
    requires Happens(e, Close(i, id), e')
    ensures id in CollectionsAt(e, i) && Gathered(i, id, CollectionsAt(e, i)[id].shares) in e'.gathered
  {}

  /** Closing returns a list with one share for our own label and for each label answered, and nothing else. */
  lemma ClosedListIsComplete(trace: seq<Exchange>, acts: seq<Act>, m: nat, k: nat, i: Key, copy: Task) returns (g: Gathered)
    requires OpenSince(trace, acts, m, k, i, copy) && k < |acts| && acts[k] == Close(i, copy.taskId)
    ensures g in trace[k + 1].gathered && g.node == i && g.taskId == copy.taskId
    ensures var labels := {OwnLabel(trace[m], i, copy)} + ArrivedLabels(acts, m + 1, k, i, copy.taskId);
      LabelSet(g.shares) == labels && |g.shares| == |labels|
  {
    hide Happens, Start, LabelSet, OwnLabel, CollectionsAt, ExchangeInvariant;
    CollectionLabels(trace, acts, m, k, i, copy);
    assert Happens(trace[k], acts[k], trace[k + 1]);
    CloseReturns(trace[k], trace[k + 1], i, copy.taskId);
    g := Gathered(i, copy.taskId, CollectionsAt(trace[k], i)[copy.taskId].shares);
    ExchangeOfIsExchange(trace, acts);
    ExchangeKeeps(trace, k + 1);
    GatheredDiffer(trace[k + 1], g);
    CountLabels(g.shares);
  }

  lemma GatheredDiffer(e: Exchange, g: Gathered)
    requires ExchangeInvariant(e) && g in e.gathered
    ensures DifferentLabels(g.shares)
  {
    hide Invariant, Genuine;
  }

  // Submitted and gathered.

  /** A submission of a sealed payload in the run of the exchange. */
  ghost predicate SubmitsSealed(e: Exchange, e': Exchange, me: Key, id: TaskId, identity: Identity,
                                pubkeys: seq<Key>, text: string, t: nat, key: seq<Byte>, random: seq<seq<Byte>>) {
    && Provenance.SubmittedIn(e.cluster, e'.cluster, me, id, identity) && identity.thresholdT == t
    && |random| == |key| && CoefficientsFor(random, |key|, t) && SealsTo(identity.payload, pubkeys, text, t, key, random)
  }

  lemma {:induction false} WritesStay(trace: seq<Exchange>, j: nat, k: nat)
    requires IsExchange(trace) && j <= k < |trace|
    ensures trace[j].cluster.written <= trace[k].cluster.written
    decreases k - j
  {
    hide Start, Possible;
    if j < k {
      WritesStay(trace, j, k - 1);
      assert Moves(trace[k - 1], trace[k]);
      MoveOnlyAddsWrites(trace[k - 1], trace[k]);
    }
  }

  lemma MoveOnlyAddsWrites(e: Exchange, e': Exchange)
    requires Moves(e, e')
    ensures e.cluster.written <= e'.cluster.written
  {
    hide Next, OwnShare;
    var a :| Possible(e, a) && e' == After(e, a);
    if a.ClusterMoves? {
      WritesOnlyGrow(e.cluster, a.next);
    }
  }

  /** After the submission the task counts as submitted sealed, in every later state. */
  lemma SubmissionSeals(trace: seq<Exchange>, j: nat, k: nat, me: Key, id: TaskId, identity: Identity,
                        pubkeys: seq<Key>, text: string, t: nat, key: seq<Byte>, random: seq<seq<Byte>>)
    requires IsExchange(trace) && j < k < |trace|
    requires SubmitsSealed(trace[j], trace[j + 1], me, id, identity, pubkeys, text, t, key, random)
    ensures SubmittedSealed(trace[k].cluster, id, pubkeys, text, t, key, random)
  {
    hide IsExchange, SealsTo, CoefficientsFor, Provenance.SubmittedIn;
    Provenance.SubmissionIsStored(trace[j].cluster, trace[j + 1].cluster, me, id, identity);
    WritesStay(trace, j + 1, k);
    var w := Write(me, trace[j + 1].cluster.nodes[me].tasks[id]);
    assert w in trace[k].cluster.written && w.copy.taskId == id;
  }

  /**
   From submission to plaintext: once answers with enough other labels have arrived while
   the collection is open, closing it gives a list that opens every copy of the task to the
   text submitted; beyond 256 keys if the labels gathered differ modulo 256.
   */
  lemma AnsweredCollectionOpens(trace: seq<Exchange>, acts: seq<Act>, j: nat, m: nat, k: nat, i: Key, copy: Task,
                                me: Key, identity: Identity, pubkeys: seq<Key>, text: string, t: nat,
                                key: seq<Byte>, random: seq<seq<Byte>>) returns (g: Gathered)
    requires OpenSince(trace, acts, m, k, i, copy) && k < |acts| && acts[k] == Close(i, copy.taskId) && j <= k
    requires SubmitsSealed(trace[j], trace[j + 1], me, copy.taskId, identity, pubkeys, text, t, key, random)
    requires 1 <= t <= |pubkeys|
    requires |{OwnLabel(trace[m], i, copy)} + ArrivedLabels(acts, m + 1, k, i, copy.taskId)| >= t
    ensures g in trace[k + 1].gathered && g.node == i && g.taskId == copy.taskId && |g.shares| >= t
    ensures |pubkeys| <= 256 || Distinct(Labels(g.shares)) ==>
      forall c :: Somewhere(trace[k + 1].cluster, c) && c.taskId == copy.taskId ==>
        Opened(c.identity.payload, g.shares) == Some(text) && c.identity.thresholdT == t
  {
    hide OpenSince, SubmitsSealed, SubmittedSealed, IsExchange, Somewhere, OwnLabel, Opened, SealsTo, Labels;
    RunOfCollection(trace, acts, m, k, i, copy);
    g := ClosedListIsComplete(trace, acts, m, k, i, copy);
    SubmissionSeals(trace, j, k + 1, me, copy.taskId, identity, pubkeys, text, t, key, random);
    forall c | Somewhere(trace[k + 1].cluster, c) && c.taskId == copy.taskId
      ensures |pubkeys| <= 256 || Distinct(Labels(g.shares)) ==> Opened(c.identity.payload, g.shares) == Some(text) && c.identity.thresholdT == t
    {
      GatheredSharesOpen(trace, k + 1, g, c, pubkeys, text, t, key, random);
    }
  }

  lemma RunOfCollection(trace: seq<Exchange>, acts: seq<Act>, m: nat, k: nat, i: Key, copy: Task)
    requires OpenSince(trace, acts, m, k, i, copy)
    ensures IsExchange(trace) && |trace| == |acts| + 1
  {
    ExchangeOfIsExchange(trace, acts);
  }
}
