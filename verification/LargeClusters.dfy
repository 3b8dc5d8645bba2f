/**
 Sharing among any number of nodes. Labels that agree modulo 256 are one point of the field,
 and label 256 is the point of the secret, so beyond 256 nodes some picks of enough
 different shares recover something else.
 */
module LargeClusters {
  import opened Gf256
  import opened Integers
  import opened Polynomials
  import opened Shamir

  // Shares at the point of the secret.

  /** A share whose label alone is zero modulo 256 gives the secret, whatever the threshold. */
  lemma ZeroLabelRecovers(secret: seq<Byte>, random: seq<seq<Byte>>, n: nat, t: nat, picked: seq<Share>, m: nat)
    requires CoefficientsFor(random, |secret|, t) && FromSplit(picked, secret, random, n) && DifferentLabels(picked)
    requires m < |picked| && picked[m].x % 256 == 0
    requires forall j :: 0 <= j < |picked| && j != m ==> picked[j].x % 256 != 0
    ensures CanRecombine(picked) && Recombine(picked) == secret
  {
    hide Label, Eval, LagrangeAt, Add, Mul;
    var xs, bytes := Labels(picked), Recombine(picked);
    LabelZero(picked[m].x);
    forall j | 0 <= j < |xs| && j != m
      ensures xs[j] != xs[m]
    {
      LabelZero(picked[j].x);
    }
    forall b | 0 <= b < |secret|
      ensures bytes[b] == secret[b]
    {
      ColumnPasses(secret, random, n, picked, b);
      LagrangeAtPoint(xs, Column(picked, b), |picked|, m);
      EvalAtZero([secret[b]] + random[b]);
    }
  }

  // Coefficients that hide a secret from given points.

  /** A secret byte 1 and coefficients for it. */
  ghost function OneThen(p: Poly, t: nat): (row: seq<Byte>)
    requires 1 <= |p| <= t
    ensures |row| == t - 1
  {
    p[1..] + Zeros(t - |p|)
  }

  lemma OneThenEval(p: Poly, t: nat, x: Byte)
    requires 1 <= |p| <= t && p[0] == ONE
    ensures Eval([ONE] + OneThen(p, t), x) == Eval(p, x)
  {
    assert [ONE] + OneThen(p, t) == p + Zeros(t - |p|);
    EvalPadded(p, t - |p|, x);
  }

  /** A polynomial with constant term 1 that vanishes at these points. */
  lemma Vanishing(roots: seq<Byte>) returns (p: Poly)
    requires Distinct(roots) && ZERO !in roots
    ensures |p| == |roots| + 1 && p[0] == ONE
    ensures forall x :: x in roots ==> Eval(p, x) == ZERO
  {
    hide Eval;
    var zeros := seq(|roots|, i requires 0 <= i < |roots| => ZERO);
    p := ConstantIsFree(roots, zeros, ONE);
  }

  /** A share labelled x makes one labelled y weightless: same point, or the point of the secret. */
  predicate Overshadows(x: nat, y: nat) { Label(x) == Label(y) || Label(x) == ZERO }

  /** Each share of the pick has value zero or, as one of two equal points, weight zero. */
  ghost predicate Idle(picked: seq<Share>, roots: seq<Byte>, i: nat)
    requires i < |picked|
  {
    || Label(picked[i].x) in roots
    || exists m :: 0 <= m < |picked| && m != i && Overshadows(picked[m].x, picked[i].x)
  }

  /** A secret of bytes 1, and the coefficients that vanish at the roots. */
  ghost function Ones(length: nat): (secret: seq<Byte>)
    ensures |secret| == length
  {
    seq(length, i requires 0 <= i < length => ONE)
  }

  ghost function Rows(row: seq<Byte>, length: nat): (random: seq<seq<Byte>>)
    ensures |random| == length
  {
    seq(length, i requires 0 <= i < length => row)
  }

  lemma {:induction false} IdleWeight(picked: seq<Share>, i: nat, m: nat)
    requires i < |picked| && m < |picked| && m != i && Overshadows(picked[m].x, picked[i].x)
    ensures BasisAt(Labels(picked), i, |picked|, ZERO) == ZERO
  {
    hide Label;
    var xs := Labels(picked);
    if xs[m] == xs[i] {
      BasisAtRepeated(xs, i, |xs|, m, ZERO);
    } else {
      BasisAtOtherPoint(xs, i, |xs|, m);
    }
  }

  lemma IdleValue(picked: seq<Share>, n: nat, t: nat, length: nat, p: Poly, i: nat)
    requires 1 <= |p| <= t && p[0] == ONE && length > 0 && i < |picked|
    requires FromSplit(picked, Ones(length), Rows(OneThen(p, t), length), n)
    requires Eval(p, Label(picked[i].x)) == ZERO
    ensures |picked[i].y| == length && picked[i].y[0] == ZERO
  {
    hide Eval, Label, OneThen;
    OneThenEval(p, t, Label(picked[i].x));
    var all := Split(Ones(length), Rows(OneThen(p, t), length), n);
    assert picked[i] in all;
    var k :| 0 <= k < |all| && all[k] == picked[i];
  }

  lemma IdlePickYieldsZero(picked: seq<Share>, n: nat, t: nat, length: nat, roots: seq<Byte>, p: Poly)
    requires 1 <= |p| <= t && p[0] == ONE && length > 0
    requires forall x :: x in roots ==> Eval(p, x) == ZERO
    requires FromSplit(picked, Ones(length), Rows(OneThen(p, t), length), n)
    requires forall i :: 0 <= i < |picked| ==> Idle(picked, roots, i)
    requires AtLeast(picked, 1)
    ensures LagrangeAt(Labels(picked), Column(picked, 0), |picked|, ZERO) == ZERO
  {
    hide Eval, Label, LagrangeAt, BasisAt, OneThen;
    var xs, ys := Labels(picked), Column(picked, 0);
    forall i | 0 <= i < |picked|
      ensures ys[i] == ZERO || BasisAt(xs, i, |xs|, ZERO) == ZERO
    {
      assert Idle(picked, roots, i);
      if Label(picked[i].x) in roots {
        IdleValue(picked, n, t, length, p, i);
      } else {
        var m :| 0 <= m < |picked| && m != i && Overshadows(picked[m].x, picked[i].x);
        IdleWeight(picked, i, m);
      }
    }
    NothingContributes(xs, ys, |xs|, ZERO);
  }

  /** If every share is idle, the pick yields 0 where the secret has 1. */
  lemma IdlePickFails(picked: seq<Share>, n: nat, t: nat, length: nat, roots: seq<Byte>, p: Poly)
    requires 1 <= |p| <= t && p[0] == ONE && length > 0
    requires forall x :: x in roots ==> Eval(p, x) == ZERO
    requires FromSplit(picked, Ones(length), Rows(OneThen(p, t), length), n)
    requires forall i :: 0 <= i < |picked| ==> Idle(picked, roots, i)
    ensures !(CanRecombine(picked) && Recombine(picked) == Ones(length))
  {
    hide Eval, Labels, LagrangeAt, OneThen, FromSplit, Idle;
    if CanRecombine(picked) && |picked[0].y| == length {
      IdlePickYieldsZero(picked, n, t, length, roots, p);
    }
  }

  // When every pick works.

  /** Every pick of t or more different shares gives back every secret. */
  ghost predicate AlwaysRecovers(n: nat, t: nat) {
    forall secret, random, picked ::
      CoefficientsFor(random, |secret|, t) && Picks(picked, secret, random, n, t)
      ==> CanRecombine(picked) && Recombine(picked) == secret
  }

  ghost predicate Picks(picked: seq<Share>, secret: seq<Byte>, random: seq<seq<Byte>>, n: nat, t: nat)
    requires |random| == |secret|
  {
    |picked| >= t && DifferentLabels(picked) && FromSplit(picked, secret, random, n)
  }

  /** The shares with these labels. */
  ghost function Pick(labels: seq<nat>, secret: seq<Byte>, random: seq<seq<Byte>>): (picked: seq<Share>)
    requires |random| == |secret|
    ensures |picked| == |labels|
    ensures forall i :: 0 <= i < |labels| ==> picked[i] == Share(labels[i], ShareBytes(secret, random, labels[i]))
  {
    seq(|labels|, i requires 0 <= i < |labels| => Share(labels[i], ShareBytes(secret, random, labels[i])))
  }

  ghost predicate LabelsOf(labels: seq<nat>, n: nat) {
    && (forall i :: 0 <= i < |labels| ==> 1 <= labels[i] <= n)
    && (forall i, j :: 0 <= i < j < |labels| ==> labels[i] != labels[j])
  }

  lemma PickIsFromSplit(labels: seq<nat>, secret: seq<Byte>, random: seq<seq<Byte>>, n: nat)
    requires |random| == |secret| && LabelsOf(labels, n)
    ensures FromSplit(Pick(labels, secret, random), secret, random, n)
    ensures DifferentLabels(Pick(labels, secret, random))
  {
    hide ShareBytes;
    var picked := Pick(labels, secret, random);
    forall i | 0 <= i < |picked|
      ensures picked[i] in Split(secret, random, n)
    {
      assert Split(secret, random, n)[labels[i] - 1] == picked[i];
    }
  }

  /** Each label of the list is a root, or shares its point with another, or stands beside the point of the secret. */
  ghost predicate IdleLabels(labels: seq<nat>, roots: seq<Byte>) {
    forall i :: 0 <= i < |labels| ==> IdleLabel(labels, roots, i)
  }

  ghost predicate IdleLabel(labels: seq<nat>, roots: seq<Byte>, i: nat)
    requires i < |labels|
  {
    || Label(labels[i]) in roots
    || exists m :: 0 <= m < |labels| && m != i && Overshadows(labels[m], labels[i])
  }

  /** Some secret of this length is not recovered from these labels. */
  lemma IdleLabelsFail(labels: seq<nat>, n: nat, t: nat, length: nat, roots: seq<Byte>)
    returns (secret: seq<Byte>, random: seq<seq<Byte>>)
    requires length > 0 && LabelsOf(labels, n) && Distinct(roots) && ZERO !in roots && |roots| < t
    requires IdleLabels(labels, roots)
    ensures |secret| == length && CoefficientsFor(random, length, t)
    ensures var picked := Pick(labels, secret, random);
      !(CanRecombine(picked) && Recombine(picked) == secret)
  {
    hide Eval, Label, ShareBytes;
    var p := Vanishing(roots);
    secret, random := Ones(length), Rows(OneThen(p, t), length);
    var picked := Pick(labels, secret, random);
    PickIsFromSplit(labels, secret, random, n);
    forall i | 0 <= i < |picked|
      ensures Idle(picked, roots, i)
    {
      assert IdleLabel(labels, roots, i);
      if Label(labels[i]) !in roots {
        var m :| 0 <= m < |labels| && m != i && Overshadows(labels[m], labels[i]);
        assert picked[m].x == labels[m];
      }
    }
    IdlePickFails(picked, n, t, length, roots, p);
  }

  // Labels of a failing pick.

  function UpTo(low: nat, high: nat): (labels: seq<nat>)
    requires low <= high
    ensures |labels| == high - low
    ensures forall i :: 0 <= i < |labels| ==> labels[i] == low + i
  {
    seq(high - low, i requires 0 <= i < high - low => low + i)
  }

  ghost function Points(labels: seq<nat>): (xs: seq<Byte>)
    ensures |xs| == |labels|
    ensures forall i :: 0 <= i < |labels| ==> xs[i] == Label(labels[i])
  {
    seq(|labels|, i requires 0 <= i < |labels| => Label(labels[i]))
  }

  /** The roots 2, 3, ... up to the threshold or 255. */
  lemma SomeRoots(t: nat) returns (roots: seq<Byte>)
    requires t >= 1
    ensures Distinct(roots) && ZERO !in roots && |roots| < t
    ensures forall x: nat :: 2 <= x % 256 < t ==> Label(x) in roots
  {
    hide Label;
    var high := if t < 2 then 2 else if t < 256 then t else 256;
    var labels := UpTo(2, high);
    roots := Points(labels);
    DistinctNonzero(labels, roots);
    forall x: nat | 2 <= x % 256 < t
      ensures Label(x) in roots
    {
      SameLabel(x, labels[x % 256 - 2]);
      assert roots[x % 256 - 2] == Label(x);
    }
  }

  /** With 512 nodes or more: everyone, since 256 and 512 both stand at the point of the secret. */
  lemma EveryoneIsIdle(n: nat, roots: seq<Byte>) returns (labels: seq<nat>)
    requires n >= 512
    ensures |labels| == n && LabelsOf(labels, n) && IdleLabels(labels, roots)
  {
    hide Label;
    labels := UpTo(1, n + 1);
    LabelZero(256);
    LabelZero(512);
    forall i | 0 <= i < |labels|
      ensures IdleLabel(labels, roots, i)
    {
      var m := if i == 255 then 511 else 255;
      assert labels[m] == m + 1;
    }
  }

  /** With 257 to 511 nodes: 1, 257 and others that are roots, but not 256. */
  lemma TwinsAreIdle(n: nat, t: nat, roots: seq<Byte>) returns (labels: seq<nat>)
    requires 257 <= n && t < n
    requires forall x: nat :: 2 <= x % 256 < t ==> Label(x) in roots
    requires n <= 511
    ensures |labels| >= t && LabelsOf(labels, n) && IdleLabels(labels, roots)
  {
    hide Label;
    if t <= 256 {
      labels := [1, 257] + UpTo(2, if t < 2 then 2 else t);
    } else {
      labels := [1, 257] + (UpTo(2, 256) + UpTo(258, n + 1));
    }
    SameLabel(1, 257);
    forall i | 0 <= i < |labels|
      ensures IdleLabel(labels, roots, i)
    {
      if i < 2 {
        assert labels[1 - i] == if i == 0 then 257 else 1;
      } else {
        assert 2 <= labels[i] % 256 < t;
      }
    }
  }

  lemma PickFails(labels: seq<nat>, n: nat, t: nat, roots: seq<Byte>)
    requires |labels| >= t && LabelsOf(labels, n) && IdleLabels(labels, roots)
    requires Distinct(roots) && ZERO !in roots && |roots| < t
    ensures !AlwaysRecovers(n, t)
  {
    hide CanRecombine, Recombine, IdleLabels, Split;
    var secret, random := IdleLabelsFail(labels, n, t, 1, roots);
    PickIsFromSplit(labels, secret, random, n);
    assert Picks(Pick(labels, secret, random), secret, random, n, t);
  }

  /** A pick of all shares contains share 256. */
  lemma AllContain256(picked: seq<Share>, n: nat) returns (m: nat)
    requires 256 <= n <= |picked| && DifferentLabels(picked)
    requires forall i :: 0 <= i < |picked| ==> 1 <= picked[i].x <= n
    ensures m < |picked| && picked[m].x == 256
  {
    if forall i :: 0 <= i < |picked| ==> picked[i].x != 256 {
      var room := Numbers(n) - {256};
      assert |room| == n - 1;
      Crowded(picked, |picked|, room);
      assert false;
    }
    m :| 0 <= m < |picked| && picked[m].x == 256;
  }

  ghost function Numbers(n: nat): (r: set<nat>)
    ensures |r| == n && forall x: nat :: x in r <==> 1 <= x <= n
  {
    if n == 0 then {} else Numbers(n - 1) + {n}
  }

  /** Different labels from a set are no more than its members. */
  lemma {:induction false} Crowded(picked: seq<Share>, k: nat, room: set<nat>)
    requires k <= |picked| && DifferentLabels(picked) && forall i :: 0 <= i < k ==> picked[i].x in room
    ensures k <= |room|
    decreases k
  {
    if k > 0 {
      Crowded(picked, k - 1, room - {picked[k - 1].x});
    }
  }

  lemma AllSharesRecover(secret: seq<Byte>, random: seq<seq<Byte>>, n: nat, t: nat, picked: seq<Share>)
    requires 257 <= n <= 511 && CoefficientsFor(random, |secret|, t) && Picks(picked, secret, random, n, n)
    ensures CanRecombine(picked) && Recombine(picked) == secret
  {
    hide ShareBytes, CanRecombine, Recombine;
    forall i | 0 <= i < |picked|
      ensures 1 <= picked[i].x <= n
    {
      assert picked[i] in Split(secret, random, n);
    }
    var m := AllContain256(picked, n);
    forall j | 0 <= j < |picked| && j != m
      ensures picked[j].x % 256 != 0
    {
      assert picked[j].x != 256;
    }
    ZeroLabelRecovers(secret, random, n, t, picked, m);
  }

  /**
   Every pick of t or more of n shares recovers the secret exactly up to 256 nodes, and
   beyond that up to 511 when all shares are needed.
   */
  lemma RecoversExactly(n: nat, t: nat)
    requires 1 <= t <= n
    ensures AlwaysRecovers(n, t) <==> n <= 256 || (t == n && n <= 511)
  {
    hide CanRecombine, Recombine, IdleLabels;
    if n <= 256 || (t == n && n <= 511) {
      forall secret, random, picked | CoefficientsFor(random, |secret|, t) && Picks(picked, secret, random, n, t)
        ensures CanRecombine(picked) && Recombine(picked) == secret
      {
        if n <= 256 {
          AnyEnoughSharesRecover(secret, random, n, t, picked);
        } else {
          AllSharesRecover(secret, random, n, t, picked);
        }
      }
    } else {
      var roots := SomeRoots(t);
      var labels;
      if n >= 512 {
        labels := EveryoneIsIdle(n, roots);
      } else {
        labels := TwinsAreIdle(n, t, roots);
      }
      PickFails(labels, n, t, roots);
    }
  }
}
