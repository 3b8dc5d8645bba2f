/**
 What replicas hold after receiving updates to one task in any order, with repeats.
 */
module Convergence {
  import opened Options
  import opened Payloads
  import opened Tasks

  /** The copy held after folding a sequence of updates into what was there. */
  function Fold(existing: Option<Task>, updates: seq<Task>): Option<Task>
    decreases |updates|
  {
    if |updates| == 0 then existing
    else Fold(Some(Receive(existing, updates[0]).kept), updates[1..])
  }

  function Merge(a: Task, b: Task): Task { Receive(Some(a), b).kept }

  predicate SameRank(a: Task, b: Task) { !Outranks(a, b) && !Outranks(b, a) }

  /** Nothing among the copies outranks this one. */
  ghost predicate OnTop(t: Task, copies: set<Task>) {
    t in copies && forall c :: c in copies ==> !Outranks(c, t)
  }

  ghost function Seen(existing: Option<Task>, updates: seq<Task>): set<Task> {
    (if existing.Some? then {existing.value} else {}) + set u | u in updates
  }

  /** The handler replaces a copy exactly by one of higher rank. */
  lemma ReceiveByRank(existing: Option<Task>, incoming: Task)
    ensures Receive(existing, incoming).changed <==> existing.None? || Outranks(incoming, existing.value)
    ensures Receive(existing, incoming).kept ==
      if existing.None? || Outranks(incoming, existing.value) then incoming else existing.value
  {}

  lemma MergeIdempotent(a: Task)
    ensures Merge(a, a) == a
  {}

  lemma MergeAssociates(a: Task, b: Task, c: Task)
    ensures Merge(Merge(a, b), c) == Merge(a, Merge(b, c))
  {}

  /** Ranks order the copies: higher, equal and lower are transitive. */
  lemma OutranksTransitive(a: Task, b: Task, c: Task)
    ensures Outranks(a, b) && Outranks(b, c) ==> Outranks(a, c)
    ensures Outranks(a, b) && SameRank(b, c) ==> Outranks(a, c)
    ensures SameRank(a, b) && Outranks(b, c) ==> Outranks(a, c)
    ensures SameRank(a, b) && SameRank(b, c) ==> SameRank(a, c)
  {}

  /** Any order, any repeats: the copy held at the end has the highest rank seen. */
  lemma {:induction false} FoldKeepsTop(existing: Option<Task>, updates: seq<Task>)
    requires existing.Some? || |updates| > 0
    ensures Fold(existing, updates).Some?
    ensures OnTop(Fold(existing, updates).value, Seen(existing, updates))
    decreases |updates|
  {
    if |updates| == 0 {
      assert Fold(existing, updates).value in Seen(existing, updates);
    } else {
      var kept := Receive(existing, updates[0]).kept;
      FoldKeepsTop(Some(kept), updates[1..]);
      var last := Fold(Some(kept), updates[1..]).value;
      assert kept in Seen(Some(kept), updates[1..]);
      forall c | c in Seen(existing, updates)
        ensures !Outranks(c, last)
      {
        if c in updates[1..] {
          assert c in Seen(Some(kept), updates[1..]);
        }
      }
    }
  }

  lemma TopsShareRank(a: Task, b: Task, copies: set<Task>)
    requires OnTop(a, copies) && OnTop(b, copies)
    ensures SameRank(a, b)
  {}

  /** Replicas that saw the same copies hold copies of equal rank. */
  lemma SameUpdatesSameRank(e1: Option<Task>, u1: seq<Task>, e2: Option<Task>, u2: seq<Task>)
    requires Seen(e1, u1) == Seen(e2, u2) != {}
    ensures Fold(e1, u1).Some? && Fold(e2, u2).Some?
    ensures SameRank(Fold(e1, u1).value, Fold(e2, u2).value)
  {
    var t :| t in Seen(e1, u1);
    FoldKeepsTop(e1, u1);
    FoldKeepsTop(e2, u2);
    TopsShareRank(Fold(e1, u1).value, Fold(e2, u2).value, Seen(e1, u1));
  }

  /** The updates are these copies, in some order and with any repeats. */
  ghost predicate Covers(updates: seq<Task>, copies: set<Task>) {
    Seen(None, updates) == copies
  }

  ghost predicate OrderIrrelevant(copies: set<Task>) {
    forall u1, u2 :: Covers(u1, copies) && Covers(u2, copies) ==> Fold(None, u1) == Fold(None, u2)
  }

  ghost predicate SingleTop(copies: set<Task>) {
    forall a, b :: OnTop(a, copies) && OnTop(b, copies) ==> a == b
  }

  lemma {:induction false} Listing(copies: set<Task>) returns (updates: seq<Task>)
    ensures Covers(updates, copies)
    decreases |copies|
  {
    if copies == {} {
      updates := [];
    } else {
      var t :| t in copies;
      var rest := Listing(copies - {t});
      updates := [t] + rest;
      SeenStep(t, rest);
    }
  }

  lemma SeenStep(t: Task, rest: seq<Task>)
    ensures Seen(None, [t] + rest) == {t} + Seen(None, rest)
  {
    var all := [t] + rest;
    assert forall u :: u in all <==> u == t || u in rest;
  }

  lemma {:induction false} TopStays(t: Task, updates: seq<Task>)
    requires forall u :: u in updates ==> !Outranks(u, t)
    ensures Fold(Some(t), updates) == Some(t)
    decreases |updates|
  {
    if |updates| > 0 {
      assert updates[0] in updates;
      TopStays(t, updates[1..]);
    }
  }

  lemma FirstTopWins(t: Task, copies: set<Task>) returns (updates: seq<Task>)
    requires OnTop(t, copies)
    ensures Covers(updates, copies) && Fold(None, updates) == Some(t)
  {
    var rest := Listing(copies);
    updates := [t] + rest;
    SeenStep(t, rest);
    forall u | u in rest
      ensures !Outranks(u, t)
    {
      assert u in Seen(None, rest);
    }
    TopStays(t, rest);
  }

  /** Delivery order is irrelevant exactly when one copy alone has the top rank. */
  lemma OrderIrrelevantExactly(copies: set<Task>)
    requires copies != {}
    ensures OrderIrrelevant(copies) <==> SingleTop(copies)
  {
    if SingleTop(copies) {
      forall u1, u2 | Covers(u1, copies) && Covers(u2, copies)
        ensures Fold(None, u1) == Fold(None, u2)
      {
        FoldKeepsTop(None, u1);
        FoldKeepsTop(None, u2);
      }
    }
    if OrderIrrelevant(copies) {
      forall a, b | OnTop(a, copies) && OnTop(b, copies)
        ensures a == b
      {
        var u1 := FirstTopWins(a, copies);
        var u2 := FirstTopWins(b, copies);
      }
    }
  }

  /** Two claims of equal version: the later expiry does not win, whichever arrived first stays. */
  lemma ExpiryBreaksNoTies(pending: Task, k1: Key, k2: Key, now: real, later: real, duration: real)
    requires pending.status.Pending? && k1 != k2 && now < later
    ensures var first, second := Claim(pending, k1, now, duration), Claim(pending, k2, later, duration);
      first.Some? && second.Some?
      && first.value.leaseExpires < second.value.leaseExpires
      && Merge(first.value, second.value) == first.value
      && Merge(second.value, first.value) == second.value
  {}

  /** Between running leases, the one that expires later wins in either order exactly when it also has the higher version. */
  lemma LaterExpiryWinsExactly(a: Task, b: Task)
    requires a.status.InProgress? && b.status.InProgress? && a.leaseExpires < b.leaseExpires
    ensures Merge(a, b) == b && Merge(b, a) == b <==> b.version > a.version
  {}
}
