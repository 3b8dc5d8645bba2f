/**
 Which groups of key holders can open a sealed payload. A group is sure to open it if its
 pooled shares do so whatever the key and the coefficients drawn.

 The threshold is half of the keys, rounded up. With an even number of keys two groups
 without a common member are each sure to open every payload, so no majority is needed.
 */
module Cooperation {
  import opened Lists
  import opened Options
  import opened Gf256
  import opened Integers
  import opened Polynomials
  import opened Shamir
  import opened LargeClusters
  import opened Payloads
  import opened ThresholdCipher

  const KEY_BYTES: nat := 32

  /** The shares these nodes find in the payload. */
  function Pool(payload: Payload, holders: seq<Key>): seq<Share> {
    if |holders| == 0 then []
    else
      var own := OwnShare(payload, Some(holders[|holders| - 1]));
      Pool(payload, holders[..|holders| - 1]) + if own.Some? then [own.value] else []
  }

  /** A payload of this text, with a key and coefficients as the program draws them. */
  ghost predicate Sealing(payload: Payload, pubkeys: seq<Key>, text: string, t: nat, key: seq<Byte>, random: seq<seq<Byte>>) {
    |key| == KEY_BYTES && CoefficientsFor(random, KEY_BYTES, t) && SealsTo(payload, pubkeys, text, t, key, random)
  }

  ghost predicate SureToOpen(group: set<Key>, pubkeys: seq<Key>, t: nat) {
    forall payload, text, key, random, holders ::
      Sealing(payload, pubkeys, text, t, key, random) && IsListing(holders, group)
      ==> Opened(payload, Pool(payload, holders)) == Some(text)
  }

  ghost function KeySet(pubkeys: seq<Key>): set<Key> {
    set k | k in pubkeys
  }

  // Holders and the numbers of their shares.

  function Position(pubkeys: seq<Key>, k: Key): (i: nat)
    requires k in pubkeys
    ensures i < |pubkeys| && pubkeys[i] == k
  {
    if pubkeys[0] == k then 0 else 1 + Position(pubkeys[1..], k)
  }

  ghost function ShareNumbers(pubkeys: seq<Key>, holders: seq<Key>): (labels: seq<nat>)
    requires forall k :: k in holders ==> k in pubkeys
    ensures |labels| == |holders|
    ensures forall i :: 0 <= i < |holders| ==> labels[i] == Position(pubkeys, holders[i]) + 1
  {
    seq(|holders|, i requires 0 <= i < |holders| => Position(pubkeys, holders[i]) + 1)
  }

  lemma NumbersAreLabels(pubkeys: seq<Key>, holders: seq<Key>)
    requires (forall k :: k in holders ==> k in pubkeys) && NoRepeats(holders)
    ensures LabelsOf(ShareNumbers(pubkeys, holders), |pubkeys|)
  {
    hide Position;
    var labels := ShareNumbers(pubkeys, holders);
    forall i, j | 0 <= i < j < |labels|
      ensures labels[i] != labels[j]
    {
      assert pubkeys[labels[i] - 1] == holders[i] && pubkeys[labels[j] - 1] == holders[j];
    }
  }

  lemma HolderFindsShare(payload: Payload, pubkeys: seq<Key>, text: string, t: nat, key: seq<Byte>, random: seq<seq<Byte>>, i: nat)
    requires |random| == |key| && SealsTo(payload, pubkeys, text, t, key, random) && NoRepeats(pubkeys) && i < |pubkeys|
    ensures OwnShare(payload, Some(pubkeys[i])) == Some(Share(i + 1, ShareBytes(key, random, i + 1)))
  {
    hide ShareBytes;
    FoundShareIsSealed(payload.blob.shares, pubkeys[i], 0);
    assert payload.blob.shares[i].nodePubkey == pubkeys[i];
  }

  /** What a group pools is the pick of its share numbers. */
  lemma {:induction false} PoolIsPick(payload: Payload, pubkeys: seq<Key>, text: string, t: nat, key: seq<Byte>, random: seq<seq<Byte>>, holders: seq<Key>)
    requires |random| == |key| && SealsTo(payload, pubkeys, text, t, key, random) && NoRepeats(pubkeys)
    requires forall k :: k in holders ==> k in pubkeys
    ensures Pool(payload, holders) == Pick(ShareNumbers(pubkeys, holders), key, random)
  {
    hide ShareBytes, OwnShare, SealsTo, Position;
    if |holders| > 0 {
      var front, last := holders[..|holders| - 1], holders[|holders| - 1];
      PoolIsPick(payload, pubkeys, text, t, key, random, front);
      HolderFindsShare(payload, pubkeys, text, t, key, random, Position(pubkeys, last));
      assert ShareNumbers(pubkeys, holders) == ShareNumbers(pubkeys, front) + [Position(pubkeys, last) + 1];
    }
  }

  // Groups that are sure to open.

  /** The group's shares recover the key, whatever key and coefficients. */
  ghost predicate RecoversFrom(labels: seq<nat>, t: nat) {
    forall key, random :: |key| == KEY_BYTES && CoefficientsFor(random, KEY_BYTES, t) ==>
      CanRecombine(Pick(labels, key, random)) && Recombine(Pick(labels, key, random)) == key
  }

  lemma RecoveringGroupOpens(group: set<Key>, pubkeys: seq<Key>, t: nat)
    requires NoRepeats(pubkeys) && group <= KeySet(pubkeys)
    requires forall holders :: IsListing(holders, group) ==> RecoversFrom(ShareNumbers(pubkeys, holders), t)
    ensures SureToOpen(group, pubkeys, t)
  {
    hide CanRecombine, Recombine, SealsTo, ShareNumbers, Pick;
    forall payload, text, key, random, holders
      | Sealing(payload, pubkeys, text, t, key, random) && IsListing(holders, group)
      ensures Opened(payload, Pool(payload, holders)) == Some(text)
    {
      PoolIsPick(payload, pubkeys, text, t, key, random, holders);
      assert RecoversFrom(ShareNumbers(pubkeys, holders), t);
      KeyOpens(payload, pubkeys, text, t, key, random, Pool(payload, holders));
    }
  }

  lemma KeyOpens(payload: Payload, pubkeys: seq<Key>, text: string, t: nat, key: seq<Byte>, random: seq<seq<Byte>>, shares: seq<Share>)
    requires |random| == |key| && SealsTo(payload, pubkeys, text, t, key, random)
    ensures Opened(payload, shares) == Some(text) <==> CanRecombine(shares) && Recombine(shares) == key
  {
    hide CanRecombine, Recombine;
  }

  /** Everyone in the group is among the first 256. */
  ghost predicate Early(group: set<Key>, pubkeys: seq<Key>) {
    forall k :: k in group ==> k in pubkeys && Position(pubkeys, k) < 256
  }

  lemma EnoughEarlyHoldersOpen(group: set<Key>, pubkeys: seq<Key>, t: nat)
    requires NoRepeats(pubkeys) && group <= KeySet(pubkeys) && 1 <= t <= |pubkeys|
    requires |group| >= t && Early(group, pubkeys)
    ensures SureToOpen(group, pubkeys, t)
  {
    hide ShareNumbers, RecoversFrom;
    forall holders | IsListing(holders, group)
      ensures RecoversFrom(ShareNumbers(pubkeys, holders), t)
    {
      CountDistinct(holders, group);
      NumbersAreLabels(pubkeys, holders);
      EarlyLabelsRecover(ShareNumbers(pubkeys, holders), |pubkeys|, t);
    }
    RecoveringGroupOpens(group, pubkeys, t);
  }

  lemma EarlyLabelsRecover(labels: seq<nat>, n: nat, t: nat)
    requires 1 <= t <= n && |labels| >= t && LabelsOf(labels, n)
    requires forall i :: 0 <= i < |labels| ==> labels[i] <= 256
    ensures RecoversFrom(labels, t)
  {
    hide ShareBytes, CanRecombine, Recombine, Labels, FromSplit;
    forall key, random | |key| == KEY_BYTES && CoefficientsFor(random, KEY_BYTES, t)
      ensures CanRecombine(Pick(labels, key, random)) && Recombine(Pick(labels, key, random)) == key
    {
      PickIsFromSplit(labels, key, random, n);
      LabelsDistinct(Pick(labels, key, random));
      AnyEnoughSharesRecover(key, random, n, t, Pick(labels, key, random));
    }
  }

  /** One member at the point of the secret is enough, whoever else joins. */
  lemma ZeroHolderOpens(group: set<Key>, pubkeys: seq<Key>, t: nat, z: Key)
    requires NoRepeats(pubkeys) && group <= KeySet(pubkeys) && z in group && (Position(pubkeys, z) + 1) % 256 == 0
    requires forall k :: k in group && k != z ==> (Position(pubkeys, k) + 1) % 256 != 0
    ensures SureToOpen(group, pubkeys, t)
  {
    hide RecoversFrom, Position;
    forall holders | IsListing(holders, group)
      ensures RecoversFrom(ShareNumbers(pubkeys, holders), t)
    {
      var m :| 0 <= m < |holders| && holders[m] == z;
      NumbersAreLabels(pubkeys, holders);
      var labels := ShareNumbers(pubkeys, holders);
      forall j | 0 <= j < |labels| && j != m
        ensures labels[j] % 256 != 0
      {
        assert holders[j] in group;
      }
      OneZeroLabel(labels, |pubkeys|, t, m);
    }
    RecoveringGroupOpens(group, pubkeys, t);
  }

  lemma OneZeroLabel(labels: seq<nat>, n: nat, t: nat, m: nat)
    requires LabelsOf(labels, n) && m < |labels| && labels[m] % 256 == 0
    requires forall j :: 0 <= j < |labels| && j != m ==> labels[j] % 256 != 0
    ensures RecoversFrom(labels, t)
  {
    hide ShareBytes, CanRecombine, Recombine, FromSplit, LabelsOf, DifferentLabels;
    forall key, random | |key| == KEY_BYTES && CoefficientsFor(random, KEY_BYTES, t)
      ensures CanRecombine(Pick(labels, key, random)) && Recombine(Pick(labels, key, random)) == key
    {
      PickIsFromSplit(labels, key, random, n);
      OneZeroShare(Pick(labels, key, random), key, random, n, t, m);
    }
  }

  lemma OneZeroShare(picked: seq<Share>, key: seq<Byte>, random: seq<seq<Byte>>, n: nat, t: nat, m: nat)
    requires CoefficientsFor(random, |key|, t) && FromSplit(picked, key, random, n) && DifferentLabels(picked)
    requires m < |picked| && picked[m].x % 256 == 0
    requires forall j :: 0 <= j < |picked| && j != m ==> picked[j].x % 256 != 0
    ensures CanRecombine(picked) && Recombine(picked) == key
  {
    hide CanRecombine, Recombine, FromSplit, DifferentLabels;
    ZeroLabelRecovers(key, random, n, t, picked, m);
  }

  // Groups that are not.

  ghost function SealedPayload(pubkeys: seq<Key>, t: nat, key: seq<Byte>, random: seq<seq<Byte>>): Payload
    requires |random| == |key|
  {
    Threshold(Blob(t, |pubkeys|, Ciphertext(key, ""),
                   seq(|pubkeys|, i requires 0 <= i < |pubkeys| => SealedShare(i + 1, pubkeys[i], ShareBytes(key, random, i + 1)))))
  }

  /** Fewer points than the threshold, none the point of the secret: some payload stays closed. */
  lemma FewPointsMayFail(group: set<Key>, holders: seq<Key>, pubkeys: seq<Key>, t: nat, roots: seq<Byte>)
    requires NoRepeats(pubkeys) && group <= KeySet(pubkeys) && IsListing(holders, group)
    requires Distinct(roots) && ZERO !in roots && |roots| < t
    requires forall i :: 0 <= i < |holders| ==> Label(ShareNumbers(pubkeys, holders)[i]) in roots
    ensures !SureToOpen(group, pubkeys, t)
  {
    hide CanRecombine, Recombine, ShareBytes, Label, ShareNumbers, Pool, Opened;
    var labels := ShareNumbers(pubkeys, holders);
    NumbersAreLabels(pubkeys, holders);
    assert IdleLabels(labels, roots);
    var key, random := IdleLabelsFail(labels, |pubkeys|, t, KEY_BYTES, roots);
    var payload := SealedPayload(pubkeys, t, key, random);
    assert Sealing(payload, pubkeys, "", t, key, random);
    PoolIsPick(payload, pubkeys, "", t, key, random, holders);
    KeyOpens(payload, pubkeys, "", t, key, random, Pool(payload, holders));
  }

  lemma SmallGroupMayFail(group: set<Key>, pubkeys: seq<Key>, t: nat)
    requires NoRepeats(pubkeys) && group <= KeySet(pubkeys) && |group| < t
    requires forall k :: k in group ==> Position(pubkeys, k) < 255
    ensures !SureToOpen(group, pubkeys, t)
  {
    hide SureToOpen, Label, Position;
    var holders := ListSet(group);
    CountDistinct(holders, group);
    NumbersAreLabels(pubkeys, holders);
    var labels := ShareNumbers(pubkeys, holders);
    forall i | 0 <= i < |labels|
      ensures 1 <= labels[i] <= 255
    {
      assert holders[i] in group;
    }
    DistinctNonzero(labels, Points(labels));
    FewPointsMayFail(group, holders, pubkeys, t, Points(labels));
  }

  lemma PositionOf(pubkeys: seq<Key>, i: nat)
    requires NoRepeats(pubkeys) && i < |pubkeys|
    ensures Position(pubkeys, pubkeys[i]) == i
  {
    hide Position;
  }

  /** Up to 256 keys: t holders or more are sure to open every payload, and so is holder 256 in any company; others are not. */
  lemma GroupOpensExactly(group: set<Key>, pubkeys: seq<Key>, t: nat)
    requires NoRepeats(pubkeys) && group <= KeySet(pubkeys) && 1 <= t <= |pubkeys| <= 256
    ensures SureToOpen(group, pubkeys, t) <==> |group| >= t || (|pubkeys| == 256 && pubkeys[255] in group)
  {
    hide SureToOpen, Position;
    if |group| >= t {
      EnoughEarlyHoldersOpen(group, pubkeys, t);
    } else if |pubkeys| == 256 && pubkeys[255] in group {
      PositionOf(pubkeys, 255);
      ZeroHolderOpens(group, pubkeys, t, pubkeys[255]);
    } else {
      SmallGroupMayFail(group, pubkeys, t);
    }
  }

  /** All points but that of the secret. */
  lemma AllRoots() returns (roots: seq<Byte>)
    ensures Distinct(roots) && ZERO !in roots && |roots| == 255
    ensures forall x: nat :: x % 256 != 0 ==> Label(x) in roots
  {
    hide Label;
    var labels := UpTo(1, 256);
    roots := Points(labels);
    DistinctNonzero(labels, roots);
    forall x: nat | x % 256 != 0
      ensures Label(x) in roots
    {
      SameLabel(x, labels[x % 256 - 1]);
      assert roots[x % 256 - 1] == Label(x);
    }
  }

  /** With 511 keys, a group without holder 256 is not sure to open, however large. */
  lemma WithoutZeroMayFail(group: set<Key>, pubkeys: seq<Key>)
    requires NoRepeats(pubkeys) && group <= KeySet(pubkeys) && |pubkeys| == 511 && pubkeys[255] !in group
    ensures !SureToOpen(group, pubkeys, 256)
  {
    hide SureToOpen, Label, Position;
    var holders := ListSet(group);
    var roots := AllRoots();
    forall i | 0 <= i < |holders|
      ensures Label(ShareNumbers(pubkeys, holders)[i]) in roots
    {
      assert holders[i] in group;
      assert ShareNumbers(pubkeys, holders)[i] == Position(pubkeys, holders[i]) + 1;
    }
    FewPointsMayFail(group, holders, pubkeys, 256, roots);
  }

  // Two groups at once.

  /** Two groups without a common member, each sure to open. */
  ghost predicate Rivals(a: set<Key>, b: set<Key>, pubkeys: seq<Key>, t: nat) {
    a <= KeySet(pubkeys) && b <= KeySet(pubkeys) && a !! b && SureToOpen(a, pubkeys, t) && SureToOpen(b, pubkeys, t)
  }

  /** The keys from one position up to another. */
  lemma {:induction false} KeysBetween(pubkeys: seq<Key>, low: nat, high: nat) returns (group: set<Key>)
    requires NoRepeats(pubkeys) && low <= high <= |pubkeys|
    ensures group <= KeySet(pubkeys) && |group| == high - low
    ensures forall k :: k in group <==> k in pubkeys && low <= Position(pubkeys, k) < high
    decreases high - low
  {
    hide Position;
    if low == high {
      group := {};
    } else {
      var rest := KeysBetween(pubkeys, low, high - 1);
      PositionOf(pubkeys, high - 1);
      group := rest + {pubkeys[high - 1]};
    }
  }

  lemma KeyCount(pubkeys: seq<Key>)
    requires NoRepeats(pubkeys)
    ensures |KeySet(pubkeys)| == |pubkeys|
  {
    CountDistinct(pubkeys, KeySet(pubkeys));
  }

  lemma HalvesAreRivals(pubkeys: seq<Key>) returns (a: set<Key>, b: set<Key>)
    requires NoRepeats(pubkeys) && 1 <= |pubkeys| <= 255 && |pubkeys| % 2 == 0
    ensures Rivals(a, b, pubkeys, HalfRoundedUp(|pubkeys|))
  {
    hide SureToOpen, Position;
    var t := HalfRoundedUp(|pubkeys|);
    a := KeysBetween(pubkeys, 0, t);
    b := KeysBetween(pubkeys, t, |pubkeys|);
    EnoughEarlyHoldersOpen(a, pubkeys, t);
    EnoughEarlyHoldersOpen(b, pubkeys, t);
  }

  lemma ZeroHolderHasRival(pubkeys: seq<Key>) returns (a: set<Key>, b: set<Key>)
    requires NoRepeats(pubkeys) && |pubkeys| >= 256 && |pubkeys| != 511
    ensures Rivals(a, b, pubkeys, HalfRoundedUp(|pubkeys|))
  {
    hide SureToOpen, Position;
    var t := HalfRoundedUp(|pubkeys|);
    a := {pubkeys[255]};
    PositionOf(pubkeys, 255);
    ZeroHolderOpens(a, pubkeys, t, pubkeys[255]);
    if |pubkeys| >= 512 {
      b := {pubkeys[511]};
      PositionOf(pubkeys, 511);
      ZeroHolderOpens(b, pubkeys, t, pubkeys[511]);
    } else {
      b := KeysBetween(pubkeys, 0, t);
      EnoughEarlyHoldersOpen(b, pubkeys, t);
    }
  }

  lemma NoRivals(pubkeys: seq<Key>, a: set<Key>, b: set<Key>)
    requires NoRepeats(pubkeys) && |pubkeys| % 2 == 1 && (|pubkeys| <= 255 || |pubkeys| == 511)
    requires a <= KeySet(pubkeys) && b <= KeySet(pubkeys) && a !! b
    ensures !(SureToOpen(a, pubkeys, HalfRoundedUp(|pubkeys|)) && SureToOpen(b, pubkeys, HalfRoundedUp(|pubkeys|)))
  {
    hide SureToOpen;
    var t := HalfRoundedUp(|pubkeys|);
    if |pubkeys| == 511 {
      if pubkeys[255] !in a {
        WithoutZeroMayFail(a, pubkeys);
      } else {
        WithoutZeroMayFail(b, pubkeys);
      }
    } else {
      GroupOpensExactly(a, pubkeys, t);
      GroupOpensExactly(b, pubkeys, t);
      KeyCount(pubkeys);
      BothFit(a, b, KeySet(pubkeys));
    }
  }

  lemma BothFit(a: set<Key>, b: set<Key>, all: set<Key>)
    requires a <= all && b <= all && a !! b
    ensures |a| + |b| <= |all|
  {
    assert |a + b| == |a| + |b|;
    assert all == (a + b) + (all - (a + b));
  }

  /**
   With the threshold the program takes, two groups without a common member can each open
   every payload exactly when the number of keys is even, or at least 256 and not 511.
   */
  lemma TwoGroupsOpenExactly(pubkeys: seq<Key>)
    requires NoRepeats(pubkeys) && |pubkeys| >= 1
    ensures (exists a, b :: Rivals(a, b, pubkeys, HalfRoundedUp(|pubkeys|)))
       <==> |pubkeys| % 2 == 0 || (|pubkeys| >= 256 && |pubkeys| != 511)
  {
    hide SureToOpen;
    if |pubkeys| >= 256 && |pubkeys| != 511 {
      var a, b := ZeroHolderHasRival(pubkeys);
    } else if |pubkeys| % 2 == 0 {
      var a, b := HalvesAreRivals(pubkeys);
    } else {
      forall a, b
        ensures !Rivals(a, b, pubkeys, HalfRoundedUp(|pubkeys|))
      {
        if a <= KeySet(pubkeys) && b <= KeySet(pubkeys) && a !! b {
          NoRivals(pubkeys, a, b);
        }
      }
    }
  }
}
