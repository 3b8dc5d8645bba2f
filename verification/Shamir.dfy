/**
 Splitting a byte string into shares and recombining them.

 A share is labelled by a number of any size. The field only sees its low eight bits, while
 the test for repeated labels sees all of it.
 */
module Shamir {
  import opened Gf256
  import opened GfInverse
  import opened GfLoops
  import opened Integers
  import opened Options
  import opened Polynomials

  datatype Share = Share(x: nat, y: seq<Byte>)

  datatype Reconstruction =
    | Secret(bytes: seq<Byte>)
    | NoShares
    | ShortShare
    | RepeatedLabel

  // Splitting.

  /** The bytes of the share with label x: one polynomial value per secret byte. */
  function ShareBytes(secret: seq<Byte>, random: seq<seq<Byte>>, x: nat): (y: seq<Byte>)
    requires |random| == |secret|
    ensures |y| == |secret|
    ensures forall b :: 0 <= b < |y| ==> y[b] == Eval([secret[b]] + random[b], Label(x))
  {
    seq(|secret|, b requires 0 <= b < |secret| => Eval([secret[b]] + random[b], Label(x)))
  }

  /** One row of t - 1 random coefficients per secret byte. */
  ghost predicate CoefficientsFor(random: seq<seq<Byte>>, length: nat, t: nat) {
    |random| == length && forall b :: 0 <= b < length ==> |random[b]| == if t == 0 then 0 else t - 1
  }

  method ShamirSplit(secret: seq<Byte>, n: nat, t: nat, random: seq<seq<Byte>>) returns (shares: seq<Share>)
    requires CoefficientsFor(random, |secret|, t)
    ensures |shares| == n
    ensures forall i :: 0 <= i < n ==> shares[i] == Share(i + 1, ShareBytes(secret, random, i + 1))
  {
    hide Add, Mul, Eval, Label;
    var columns: seq<seq<Byte>> := [];
    for b := 0 to |secret|
      invariant |columns| == b
      invariant forall k :: 0 <= k < b ==> |columns[k]| == n
      invariant forall k, i :: 0 <= k < b && 0 <= i < n ==>
        columns[k][i] == Eval([secret[k]] + random[k], Label(i + 1))
    {
      var coeffs := [secret[b]] + random[b];
      var col: seq<Byte> := [];
      for x := 1 to n + 1
        invariant |col| == x - 1
        invariant forall i :: 0 <= i < x - 1 ==> col[i] == Eval(coeffs, Label(i + 1))
      {
        var val := HornerLoop(coeffs, x);
        col := col + [Label(val)];
      }
      columns := columns + [col];
    }
    shares := [];
    for i := 0 to n
      invariant |shares| == i
      invariant forall k :: 0 <= k < i ==> shares[k] == Share(k + 1, ShareBytes(secret, random, k + 1))
    {
      var bytes := seq(|secret|, b requires 0 <= b < |secret| => columns[b][i]);
      assert bytes == ShareBytes(secret, random, i + 1);
      shares := shares + [Share(i + 1, bytes)];
    }
  }

  lemma HornerStep(product: nat, c: Byte)
    requires product < 256
    ensures Xor(product, Value(c)) < 256 && Label(Xor(product, Value(c))) == Add(Label(product), c)
  {
    hide Xor, Label, Value;
    XorBelow(product, Value(c));
    XorAdds(product, Value(c));
    ValueIsLabel(c);
  }

  /** The value is a byte, however large the label. */
  method HornerLoop(coeffs: Poly, x: nat) returns (val: nat)
    ensures val < 256 && Label(val) == Eval(coeffs, Label(x))
  {
    hide Add, Mul, Label, Xor, Value;
    LabelZero(0);
    val := 0;
    var k := |coeffs|;
    assert coeffs[k..] == [];
    while k > 0
      invariant 0 <= k <= |coeffs| && val < 256
      invariant Label(val) == Eval(coeffs[k..], Label(x))
    {
      k := k - 1;
      assert coeffs[k..][1..] == coeffs[k + 1..];
      var product := GfMul(val, x);
      HornerStep(product, coeffs[k]);
      val := Xor(product, Value(coeffs[k]));
    }
    assert coeffs[0..] == coeffs;
  }

  // Recombining.

  function Labels(shares: seq<Share>): (xs: seq<Byte>)
    ensures |xs| == |shares|
  {
    seq(|shares|, i requires 0 <= i < |shares| => Label(shares[i].x))
  }

  ghost predicate AtLeast(shares: seq<Share>, length: nat) {
    forall i :: 0 <= i < |shares| ==> |shares[i].y| >= length
  }

  function Column(shares: seq<Share>, b: nat): (ys: seq<Byte>)
    requires AtLeast(shares, b + 1)
    ensures |ys| == |shares|
  {
    seq(|shares|, i requires 0 <= i < |shares| => shares[i].y[b])
  }

  /** Byte by byte, the value at zero of the polynomial through the shares. */
  function Recombine(shares: seq<Share>): (bytes: seq<Byte>)
    requires |shares| > 0 && AtLeast(shares, |shares[0].y|)
    ensures |bytes| == |shares[0].y|
    ensures forall b :: 0 <= b < |bytes| ==>
      bytes[b] == LagrangeAt(Labels(shares), Column(shares, b), |shares|, ZERO)
  {
    seq(|shares[0].y|, b requires 0 <= b < |shares[0].y| =>
      LagrangeAt(Labels(shares), Column(shares, b), |shares|, ZERO))
  }

  ghost predicate DifferentLabels(shares: seq<Share>) {
    forall i, j :: 0 <= i < j < |shares| ==> shares[i].x != shares[j].x
  }

  /** When reconstruction succeeds: at least one share, and with bytes to recover, enough in each and no label twice. */
  ghost predicate CanRecombine(shares: seq<Share>) {
    |shares| > 0
    && AtLeast(shares, |shares[0].y|)
    && (|shares[0].y| > 0 ==> DifferentLabels(shares))
  }

  /** The weight of share i, as the inner loop builds it; none when two labels are equal. */
  method LagrangeWeight(shares: seq<Share>, i: nat) returns (weight: nat, ok: bool)
    requires i < |shares|
    ensures ok <==> forall j :: 0 <= j < |shares| && j != i ==> shares[j].x != shares[i].x
    ensures ok ==> weight < 256 && Label(weight) == BasisAt(Labels(shares), i, |shares|, ZERO)
  {
    hide Add, Mul, Inv, Label, Xor;
    var xs := Labels(shares);
    weight := 1;
    ok := true;
    LabelOne();
    for j := 0 to |shares|
      invariant weight < 256 && Label(weight) == BasisAt(xs, i, j, ZERO)
      invariant forall k :: 0 <= k < j && k != i ==> shares[k].x != shares[i].x
    {
      if i != j {
        XorZero(shares[i].x, shares[j].x);
        XorAdds(shares[i].x, shares[j].x);
        var inverse := GfInv(Xor(shares[i].x, shares[j].x));
        if inverse.InverseOfZero? {
          ok := false;
          return;
        }
        AddUnit(xs[j]);
        var factor := GfMul(shares[j].x, inverse.value);
        weight := GfMul(weight, factor);
      }
    }
  }

  method ShamirReconstruct(shares: seq<Share>) returns (r: Reconstruction)
    ensures r.Secret? <==> CanRecombine(shares)
    ensures r.Secret? ==> r.bytes == Recombine(shares)
    ensures r.NoShares? <==> shares == []
    ensures r.ShortShare? ==> !AtLeast(shares, |shares[0].y|)
    ensures r.RepeatedLabel? ==> !DifferentLabels(shares)
  {
    hide Add, Mul, Inv, Label, LagrangeAt, BasisAt, Labels;
    if |shares| == 0 {
      return NoShares;
    }
    var length := |shares[0].y|;
    var result := new Byte[length];
    for b := 0 to length
      invariant AtLeast(shares, b)
      invariant b > 0 ==> DifferentLabels(shares)
      invariant forall k :: 0 <= k < b && AtLeast(shares, k + 1) ==>
        result[k] == LagrangeAt(Labels(shares), Column(shares, k), |shares|, ZERO)
    {
      var s, failure := ReconstructByte(shares, b);
      if failure.Some? {
        return failure.value;
      }
      result[b] := Label(s);
    }
    r := Secret(result[..]);
  }

  lemma TermAdded(s: nat, term: nat, y: Byte, weight: nat)
    requires s < 256 && term < 256 && Label(term) == Mul(Label(Value(y)), Label(weight))
    ensures Xor(s, term) < 256 && Label(Xor(s, term)) == Add(Label(s), Mul(y, Label(weight)))
  {
    hide Xor, Label, Value, Mul;
    XorBelow(s, term);
    XorAdds(s, term);
    ValueIsLabel(y);
  }

  /** The sum is a byte, so that it fits in the result. */
  method ReconstructByte(shares: seq<Share>, b: nat) returns (s: nat, failure: Option<Reconstruction>)
    ensures failure.None? <==> AtLeast(shares, b + 1) && DifferentLabels(shares)
    ensures failure.None? ==> s < 256 && Label(s) == LagrangeAt(Labels(shares), Column(shares, b), |shares|, ZERO)
    ensures failure.Some? ==>
      || (failure.value == ShortShare && !AtLeast(shares, b + 1))
      || (failure.value == RepeatedLabel && !DifferentLabels(shares))
  {
    hide Add, Mul, Inv, Label, BasisAt, Labels, Xor, Value;
    s := 0;
    LabelZero(0);
    for i := 0 to |shares|
      invariant s < 256
      invariant forall k :: 0 <= k < i ==> |shares[k].y| > b
      invariant forall k, j :: 0 <= k < i && 0 <= j < |shares| && j != k ==> shares[j].x != shares[k].x
      invariant AtLeast(shares, b + 1) ==> Label(s) == LagrangeAt(Labels(shares), Column(shares, b), i, ZERO)
    {
      if |shares[i].y| <= b {
        return 0, Some(ShortShare);
      }
      var weight, ok := LagrangeWeight(shares, i);
      if !ok {
        return 0, Some(RepeatedLabel);
      }
      var term := GfMul(Value(shares[i].y[b]), weight);
      TermAdded(s, term, shares[i].y[b], weight);
      s := Xor(s, term);
    }
    failure := None;
  }

  // What sharing promises.

  /** The shares of a secret among n nodes. */
  ghost function Split(secret: seq<Byte>, random: seq<seq<Byte>>, n: nat): seq<Share>
    requires |random| == |secret|
  {
    seq(n, i requires 0 <= i < n => Share(i + 1, ShareBytes(secret, random, i + 1)))
  }

  /** Shares of one split. */
  ghost predicate FromSplit(picked: seq<Share>, secret: seq<Byte>, random: seq<seq<Byte>>, n: nat)
    requires |random| == |secret|
  {
    forall i :: 0 <= i < |picked| ==> picked[i] in Split(secret, random, n)
  }

  /** Different labels up to 256 are different field elements. */
  lemma LabelsDistinct(shares: seq<Share>)
    requires DifferentLabels(shares) && forall i :: 0 <= i < |shares| ==> 1 <= shares[i].x <= 256
    ensures Distinct(Labels(shares))
  {
    hide Label;
    var xs := Labels(shares);
    forall i, j | 0 <= i < j < |xs|
      ensures xs[i] != xs[j]
    {
      SameLabel(shares[i].x, shares[j].x);
    }
  }

  /** Any t or more shares with labels that differ modulo 256, in any order, give back exactly the secret. */
  lemma AnyEnoughSharesRecover(secret: seq<Byte>, random: seq<seq<Byte>>, n: nat, t: nat, picked: seq<Share>)
    requires 1 <= t <= n && CoefficientsFor(random, |secret|, t)
    requires |picked| >= t && DifferentLabels(picked) && FromSplit(picked, secret, random, n)
    requires n <= 256 || Distinct(Labels(picked))
    ensures CanRecombine(picked) && Recombine(picked) == secret
  {
    hide Add, Mul, Label, Eval, LagrangeAt, Labels;
    if n <= 256 {
      LabelsDistinct(picked);
    }
    var bytes := Recombine(picked);
    forall b | 0 <= b < |secret|
      ensures bytes[b] == secret[b]
    {
      var p := [secret[b]] + random[b];
      ColumnPasses(secret, random, n, picked, b);
      LagrangeRecovers(p, Labels(picked), Column(picked, b), ZERO);
      EvalAtZero(p);
    }
  }

  lemma ColumnPasses(secret: seq<Byte>, random: seq<seq<Byte>>, n: nat, picked: seq<Share>, b: nat)
    requires |random| == |secret| && FromSplit(picked, secret, random, n) && b < |secret|
    ensures AtLeast(picked, |secret|) && Passes([secret[b]] + random[b], Labels(picked), Column(picked, b))
  {
    hide Eval, Label;
  }

  /** The rows of coefficients under which the secret yields the given bytes at the given labels. */
  ghost predicate Explains(random: seq<seq<Byte>>, secret: seq<Byte>, t: nat, labels: seq<nat>, seen: seq<seq<Byte>>)
    requires |labels| == |seen|
  {
    CoefficientsFor(random, |secret|, t)
    && forall i :: 0 <= i < |labels| ==> ShareBytes(secret, random, labels[i]) == seen[i]
  }

  /** One row of coefficients puts the given bytes at the given points above one secret byte. */
  ghost predicate Fits(row: seq<Byte>, secretByte: Byte, t: nat, xs: seq<Byte>, ys: seq<Byte>)
    requires |xs| == |ys|
  {
    |row| == t - 1 && Passes([secretByte] + row, xs, ys)
  }

  lemma OneRowFits(secretByte: Byte, t: nat, xs: seq<Byte>, ys: seq<Byte>) returns (row: seq<Byte>)
    requires |xs| == |ys| == t - 1 && Distinct(xs) && ZERO !in xs
    ensures Fits(row, secretByte, t, xs, ys)
    ensures forall other :: Fits(other, secretByte, t, xs, ys) ==> other == row
  {
    hide Eval;
    var p := ConstantIsFree(xs, ys, secretByte);
    assert p == [secretByte] + p[1..];
    row := p[1..];
    forall other | Fits(other, secretByte, t, xs, ys)
      ensures other == row
    {
      assert [secretByte] + other == p;
    }
  }

  lemma ExplainsByRows(random: seq<seq<Byte>>, secret: seq<Byte>, t: nat, labels: seq<nat>, seen: seq<seq<Byte>>, xs: seq<Byte>)
    requires t >= 1 && |labels| == |seen| == |xs|
    requires forall i :: 0 <= i < |labels| ==> xs[i] == Label(labels[i]) && |seen[i]| == |secret|
    ensures Explains(random, secret, t, labels, seen)
      <==> |random| == |secret| && forall b :: 0 <= b < |secret| ==> Fits(random[b], secret[b], t, xs, Row(seen, b))
  {
    hide Eval, Label;
    if |random| == |secret| && forall b :: 0 <= b < |secret| ==> Fits(random[b], secret[b], t, xs, Row(seen, b)) {
      forall i | 0 <= i < |labels|
        ensures ShareBytes(secret, random, labels[i]) == seen[i]
      {
        forall b | 0 <= b < |secret|
          ensures ShareBytes(secret, random, labels[i])[b] == seen[i][b]
        {
          assert Fits(random[b], secret[b], t, xs, Row(seen, b));
        }
      }
    }
    if Explains(random, secret, t, labels, seen) {
      forall b | 0 <= b < |secret|
        ensures Fits(random[b], secret[b], t, xs, Row(seen, b))
      {
        forall i | 0 <= i < |xs|
          ensures Eval([secret[b]] + random[b], xs[i]) == Row(seen, b)[i]
        {
          assert ShareBytes(secret, random, labels[i])[b] == seen[i][b];
        }
      }
    }
  }

  /** Fewer than t shares say nothing: every secret explains them, by exactly one choice of coefficients. */
  lemma FewSharesFitEverySecret(t: nat, labels: seq<nat>, seen: seq<seq<Byte>>, secret: seq<Byte>)
    returns (random: seq<seq<Byte>>)
    requires t >= 1 && |labels| == |seen| == t - 1
    requires forall i :: 0 <= i < |labels| ==> 1 <= labels[i] <= 255 && |seen[i]| == |secret|
    requires forall i, j :: 0 <= i < j < |labels| ==> labels[i] != labels[j]
    ensures Explains(random, secret, t, labels, seen)
    ensures forall other :: Explains(other, secret, t, labels, seen) ==> other == random
  {
    hide Eval, Label, Fits, Explains;
    var xs := seq(|labels|, i requires 0 <= i < |labels| => Label(labels[i]));
    DistinctNonzero(labels, xs);
    random := [];
    for b := 0 to |secret|
      invariant |random| == b
      invariant forall k :: 0 <= k < b ==> Fits(random[k], secret[k], t, xs, Row(seen, k))
      invariant forall k, row :: 0 <= k < b && Fits(row, secret[k], t, xs, Row(seen, k)) ==> row == random[k]
    {
      var row := OneRowFits(secret[b], t, xs, Row(seen, b));
      random := random + [row];
    }
    ExplainsByRows(random, secret, t, labels, seen, xs);
    forall other | Explains(other, secret, t, labels, seen)
      ensures other == random
    {
      ExplainsByRows(other, secret, t, labels, seen, xs);
    }
  }

  ghost function Row(seen: seq<seq<Byte>>, b: nat): (ys: seq<Byte>)
    requires forall i :: 0 <= i < |seen| ==> |seen[i]| > b
    ensures |ys| == |seen|
  {
    seq(|seen|, i requires 0 <= i < |seen| => seen[i][b])
  }

  lemma DistinctNonzero(labels: seq<nat>, xs: seq<Byte>)
    requires |xs| == |labels| && forall i :: 0 <= i < |labels| ==> xs[i] == Label(labels[i])
    requires forall i :: 0 <= i < |labels| ==> 1 <= labels[i] <= 255
    requires forall i, j :: 0 <= i < j < |labels| ==> labels[i] != labels[j]
    ensures Distinct(xs) && ZERO !in xs
  {
    hide Label;
    forall i, j | 0 <= i < j < |xs|
      ensures xs[i] != xs[j]
    {
      SameLabel(labels[i], labels[j]);
    }
    forall i | 0 <= i < |xs|
      ensures xs[i] != ZERO
    {
      LabelZero(labels[i]);
    }
  }

  /** The share with this label is the secret itself, whatever the coefficients. */
  ghost predicate RevealsSecret(x: nat, t: nat) {
    forall secret, random :: CoefficientsFor(random, |secret|, t) ==> ShareBytes(secret, random, x) == secret
  }

  /** Some node's share is the secret itself exactly when there are 256 nodes or more, or each share is. */
  lemma SomeShareIsTheSecret(n: nat, t: nat)
    ensures (exists x :: 1 <= x <= n && RevealsSecret(x, t)) <==> n >= 256 || (t <= 1 && n >= 1)
  {
    hide RevealsSecret;
    if n >= 256 {
      LabelZero(256);
      ConstantRevealed(256, t);
    } else if t <= 1 && n >= 1 {
      ConstantRevealed(1, t);
    } else {
      forall x | 1 <= x <= n
        ensures !RevealsSecret(x, t)
      {
        HidesSomething(x, t);
      }
    }
  }

  lemma ConstantRevealed(x: nat, t: nat)
    requires t <= 1 || Label(x) == ZERO
    ensures RevealsSecret(x, t)
  {
    hide Label, Eval;
    forall secret, random | CoefficientsFor(random, |secret|, t)
      ensures ShareBytes(secret, random, x) == secret
    {
      forall b | 0 <= b < |secret|
        ensures ShareBytes(secret, random, x)[b] == secret[b]
      {
        EvalAtZero([secret[b]] + random[b]);
        if t <= 1 {
          assert random[b] == [];
          EvalConstant(secret[b], Label(x));
        }
      }
    }
  }

  lemma EvalConstant(c: Byte, x: Byte)
    ensures Eval([c] + [], x) == c
  {
    hide Mul, Add;
    EvalStep(c, [], x);
    MulZero(x);
    AddUnit(c);
  }

  /** One share with a label below 256 differs from some secret it belongs to. */
  lemma HidesSomething(x: nat, t: nat)
    requires t >= 2 && 1 <= x <= 255
    ensures !RevealsSecret(x, t)
  {
    hide Label, Eval, Mul, Add;
    var random := FirstCoefficientOne(t);
    var p := [ZERO] + random;
    LabelZero(x);
    EvalStep(ZERO, random, Label(x));
    EvalStep(ONE, Zeros(t - 2), Label(x));
    EvalZeros(t - 2, Label(x));
    MulZero(Label(x));
    MulUnit(Label(x));
    AddUnit(ONE);
    AddUnit(Label(x));
    assert Eval(p, Label(x)) == Label(x);
    assert ShareBytes([ZERO], [random], x)[0] == Label(x);
    assert CoefficientsFor([random], |[ZERO]|, t);
  }

  ghost function FirstCoefficientOne(t: nat): (row: seq<Byte>)
    requires t >= 2
    ensures |row| == t - 1
  {
    [ONE] + Zeros(t - 2)
  }
}
