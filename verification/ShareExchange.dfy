/**
 Gathering shares across the cluster: an executor opens a collection with its own share,
 peers answer from their own copies of the task, answers arrive in any order, any number
 of times, or never, and the collection is closed at any moment.
 */
module ShareExchange {
  import opened Options
  import opened Gf256
  import opened Polynomials
  import opened Shamir
  import opened Payloads
  import opened Tasks
  import opened Cluster
  import opened ClusterInvariant
  import opened ExecutorDiscipline
  import opened ClusterSafety
  import opened ThresholdCipher

  datatype Collection = Collection(needed: nat, shares: seq<Share>)

  datatype Response = Response(to: Key, taskId: TaskId, share: Share)

  /** What one call of the collector returned. */
  datatype Gathered = Gathered(node: Key, taskId: TaskId, shares: seq<Share>)

  datatype Exchange = Exchange(
    cluster: Cluster,
    encKeys: map<Key, Key>,
    collections: map<Key, map<TaskId, Collection>>,
    responses: set<Response>,
    gathered: set<Gathered>)

  function EncKey(e: Exchange, i: Key): Option<Key> {
    if i in e.encKeys then Some(e.encKeys[i]) else None
  }

  function CollectionsAt(e: Exchange, i: Key): map<TaskId, Collection> {
    if i in e.collections then e.collections[i] else map[]
  }

  /** The share list after one more answer: a label already there is dropped. */
  function AddShare(shares: seq<Share>, share: Share): seq<Share> {
    if exists i :: 0 <= i < |shares| && shares[i].x == share.x then shares else shares + [share]
  }

  datatype Act =
    | ClusterMoves(next: Cluster)
    | Forget(node: Key)
    | Begin(node: Key, copy: Task)
    | Answer(node: Key, id: TaskId, to: Key)
    | Arrive(response: Response)
    | Close(node: Key, id: TaskId)

  ghost predicate Possible(e: Exchange, a: Act) {
    match a
    case ClusterMoves(next) => Next(e.cluster, next)
    case Forget(_) => true
    case Begin(_, copy) => WrittenCopy(copy, e.cluster.written)
    case Answer(j, id, _) =>
      && j in e.cluster.nodes && id in e.cluster.nodes[j].tasks
      && OwnShare(e.cluster.nodes[j].tasks[id].identity.payload, EncKey(e, j)).Some?
    case Arrive(r) => r in e.responses && r.taskId in CollectionsAt(e, r.to)
    case Close(i, id) => id in CollectionsAt(e, i)
  }

  function After(e: Exchange, a: Act): Exchange
    requires a.Answer? ==> a.node in e.cluster.nodes && a.id in e.cluster.nodes[a.node].tasks
    requires a.Answer? ==> OwnShare(e.cluster.nodes[a.node].tasks[a.id].identity.payload, EncKey(e, a.node)).Some?
    requires a.Arrive? ==> a.response.taskId in CollectionsAt(e, a.response.to)
    requires a.Close? ==> a.id in CollectionsAt(e, a.node)
  {
    match a
    case ClusterMoves(next) => e.(cluster := next)
    case Forget(i) => e.(collections := e.collections[i := map[]])
    case Begin(i, copy) =>
      var own := OwnShare(copy.identity.payload, EncKey(e, i));
      var t := if copy.identity.thresholdT == 0 then 1 else copy.identity.thresholdT;
      if own.None? then e.(gathered := e.gathered + {Gathered(i, copy.taskId, [])})
      else if t <= 1 then e.(gathered := e.gathered + {Gathered(i, copy.taskId, [own.value])})
      else e.(collections := e.collections[i := CollectionsAt(e, i)[copy.taskId := Collection(t, [own.value])]])
    case Answer(j, id, to) =>
      var share := OwnShare(e.cluster.nodes[j].tasks[id].identity.payload, EncKey(e, j)).value;
      e.(responses := e.responses + {Response(to, id, share)})
    case Arrive(r) =>
      var col := CollectionsAt(e, r.to)[r.taskId];
      e.(collections := e.collections[r.to :=
           CollectionsAt(e, r.to)[r.taskId := col.(shares := AddShare(col.shares, r.share))]])
    case Close(i, id) =>
      e.(gathered := e.gathered + {Gathered(i, id, CollectionsAt(e, i)[id].shares)},
         collections := e.collections[i := CollectionsAt(e, i) - {id}])
  }

  ghost predicate Start(e: Exchange) {
    Init(e.cluster) && e.collections == map[] && e.responses == {} && e.gathered == {}
  }

  ghost predicate Moves(e: Exchange, e': Exchange) {
    exists a :: Possible(e, a) && e' == After(e, a)
  }

  ghost predicate IsExchange(trace: seq<Exchange>) {
    && |trace| > 0 && Start(trace[0])
    && forall k :: 0 <= k < |trace| - 1 ==> Moves(trace[k], trace[k + 1])
  }

  // The invariant.

  /** Some key holder's share of the payload of some copy of the task. */
  ghost predicate Genuine(share: Share, id: TaskId, written: set<Write>) {
    exists w, own :: w in written && w.copy.taskId == id && OwnShare(w.copy.identity.payload, Some(own)) == Some(share)
  }

  ghost predicate GoodShares(shares: seq<Share>, id: TaskId, written: set<Write>) {
    && DifferentLabels(shares)
    && forall i :: 0 <= i < |shares| ==> Genuine(shares[i], id, written)
  }

  ghost predicate CollectionsGood(e: Exchange) {
    forall i, id :: i in e.collections && id in e.collections[i] ==>
      GoodShares(e.collections[i][id].shares, id, e.cluster.written)
  }

  ghost predicate ResponsesGood(e: Exchange) {
    forall r :: r in e.responses ==> Genuine(r.share, r.taskId, e.cluster.written)
  }

  ghost predicate GatheredGood(e: Exchange) {
    forall g :: g in e.gathered ==> GoodShares(g.shares, g.taskId, e.cluster.written)
  }

  ghost predicate ExchangeInvariant(e: Exchange) {
    Invariant(e.cluster) && CollectionsGood(e) && ResponsesGood(e) && GatheredGood(e)
  }

  lemma GenuineStays(share: Share, id: TaskId, written: set<Write>, written': set<Write>)
    requires Genuine(share, id, written) && written <= written'
    ensures Genuine(share, id, written')
  {
    hide OwnShare;
    var w, own :| w in written && w.copy.taskId == id && OwnShare(w.copy.identity.payload, Some(own)) == Some(share);
    assert w in written';
  }

  lemma GoodStays(shares: seq<Share>, id: TaskId, written: set<Write>, written': set<Write>)
    requires GoodShares(shares, id, written) && written <= written'
    ensures GoodShares(shares, id, written')
  {
    hide Genuine;
    forall i | 0 <= i < |shares|
      ensures Genuine(shares[i], id, written')
    {
      GenuineStays(shares[i], id, written, written');
    }
  }

  lemma OwnShareGenuine(copy: Task, own: Option<Key>, written: set<Write>)
    requires WrittenCopy(copy, written) && OwnShare(copy.identity.payload, own).Some?
    ensures Genuine(OwnShare(copy.identity.payload, own).value, copy.taskId, written)
  {
    var w :| w in written && w.copy == copy;
    assert OwnShare(w.copy.identity.payload, Some(own.value)) == Some(OwnShare(copy.identity.payload, own).value);
  }

  lemma AddKeepsGood(shares: seq<Share>, share: Share, id: TaskId, written: set<Write>)
    requires GoodShares(shares, id, written) && Genuine(share, id, written)
    ensures GoodShares(AddShare(shares, share), id, written)
  {
    hide Genuine;
  }

  lemma ClusterMoveKeeps(e: Exchange, next: Cluster)
    requires ExchangeInvariant(e) && Next(e.cluster, next)
    ensures ExchangeInvariant(e.(cluster := next))
  {
    hide Invariant, Next, GoodShares, Genuine;
    KeepsInvariant(e.cluster, next);
    WritesOnlyGrow(e.cluster, next);
    var e' := e.(cluster := next);
    forall i, id | i in e'.collections && id in e'.collections[i]
      ensures GoodShares(e'.collections[i][id].shares, id, next.written)
    {
      GoodStays(e.collections[i][id].shares, id, e.cluster.written, next.written);
    }
    forall r | r in e'.responses
      ensures Genuine(r.share, r.taskId, next.written)
    {
      GenuineStays(r.share, r.taskId, e.cluster.written, next.written);
    }
    forall g | g in e'.gathered
      ensures GoodShares(g.shares, g.taskId, next.written)
    {
      GoodStays(g.shares, g.taskId, e.cluster.written, next.written);
    }
  }

  lemma MoveKeeps(e: Exchange, e': Exchange)
    requires ExchangeInvariant(e) && Moves(e, e')
    ensures ExchangeInvariant(e')
  {
    hide Invariant, Next, Genuine, OwnShare, AddShare;
    var a :| Possible(e, a) && e' == After(e, a);
    match a
    case ClusterMoves(next) => ClusterMoveKeeps(e, next);
    case Forget(_) =>
    case Begin(i, copy) =>
      if OwnShare(copy.identity.payload, EncKey(e, i)).Some? {
        OwnShareGenuine(copy, EncKey(e, i), e.cluster.written);
      }
    case Answer(j, id, _) =>
      AnswerGenuine(e, j, id);
    case Arrive(r) =>
      AddKeepsGood(CollectionsAt(e, r.to)[r.taskId].shares, r.share, r.taskId, e.cluster.written);
    case Close(_, _) =>
  }

  lemma AnswerGenuine(e: Exchange, j: Key, id: TaskId)
    requires ExchangeInvariant(e) && Possible(e, Answer(j, id, j))
    ensures Genuine(OwnShare(e.cluster.nodes[j].tasks[id].identity.payload, EncKey(e, j)).value, id, e.cluster.written)
  {
    hide Genuine, OwnShare, WellFormed, Disciplined;
    LedgerWellFormed(e.cluster, j, id);
    OwnShareGenuine(e.cluster.nodes[j].tasks[id], EncKey(e, j), e.cluster.written);
  }

  lemma {:induction false} ExchangeKeeps(trace: seq<Exchange>, k: nat)
    requires IsExchange(trace) && k < |trace|
    ensures ExchangeInvariant(trace[k])
  {
    hide Moves, Invariant, Init;
    if k == 0 {
      InitInvariant(trace[0].cluster);
    } else {
      ExchangeKeeps(trace, k - 1);
      MoveKeeps(trace[k - 1], trace[k]);
    }
  }

  // The round trip.

  /** A copy of the task was submitted sealed to these keys. */
  ghost predicate SubmittedSealed(c: Cluster, id: TaskId, pubkeys: seq<Key>, text: string, t: nat, key: seq<Byte>, random: seq<seq<Byte>>) {
    && |random| == |key| && CoefficientsFor(random, |key|, t)
    && exists w :: w in c.written && w.copy.taskId == id && w.copy.identity.thresholdT == t
         && SealsTo(w.copy.identity.payload, pubkeys, text, t, key, random)
  }

  /**
   The lists collected hold different labels, all genuine. Whatever the list, no copy's
   payload opens to anything but the text submitted, and t shares open it; with more than
   256 keys, if their labels differ modulo 256.
   */
  lemma GatheredSharesOpen(trace: seq<Exchange>, k: nat, g: Gathered, copy: Task,
                           pubkeys: seq<Key>, text: string, t: nat, key: seq<Byte>, random: seq<seq<Byte>>)
    requires IsExchange(trace) && k < |trace| && g in trace[k].gathered
    requires SubmittedSealed(trace[k].cluster, g.taskId, pubkeys, text, t, key, random)
    requires 1 <= t <= |pubkeys|
    requires Somewhere(trace[k].cluster, copy) && copy.taskId == g.taskId
    ensures SealsTo(copy.identity.payload, pubkeys, text, t, key, random) && copy.identity.thresholdT == t
    ensures DifferentLabels(g.shares) && FromSplit(g.shares, key, random, |pubkeys|)
    ensures Opened(copy.identity.payload, g.shares) in {None, Some(text)}
    ensures |g.shares| >= t && (|pubkeys| <= 256 || Distinct(Labels(g.shares)))
        ==> Opened(copy.identity.payload, g.shares) == Some(text)
  {
    hide IsExchange, Disciplined, WellFormed, Followed, Somewhere, SealsTo, Opened, Split, OwnShare, CoefficientsFor, Labels;
    ExchangeKeeps(trace, k);
    var c := trace[k].cluster;
    var sealed :| sealed in c.written && sealed.copy.taskId == g.taskId && sealed.copy.identity.thresholdT == t
      && SealsTo(sealed.copy.identity.payload, pubkeys, text, t, key, random);
    var w := SomewhereIsWritten(c, copy);
    assert w.copy.identity == sealed.copy.identity;
    assert GoodShares(g.shares, g.taskId, c.written);
    forall i | 0 <= i < |g.shares|
      ensures g.shares[i] in Split(key, random, |pubkeys|)
    {
      assert Genuine(g.shares[i], g.taskId, c.written);
      var u, own :| u in c.written && u.copy.taskId == g.taskId
        && OwnShare(u.copy.identity.payload, Some(own)) == Some(g.shares[i]);
      assert u.copy.identity == sealed.copy.identity;
      OwnShareIsGenuine(sealed.copy.identity.payload, pubkeys, text, t, key, random, own);
    }
    OpensOnlyToText(copy.identity.payload, pubkeys, text, t, key, random, g.shares);
    if |g.shares| >= t && (|pubkeys| <= 256 || Distinct(Labels(g.shares))) {
      EnoughGenuineSharesOpen(copy.identity.payload, pubkeys, text, t, key, random, g.shares);
    }
  }
}
