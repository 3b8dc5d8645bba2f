/**
 Polynomials over GF(2^8), lowest coefficient first: evaluation, division by a linear
 factor, interpolation, and uniqueness of the polynomial through given points.
 */
module Polynomials {
  import opened Gf256
  import opened GfInverse

  type Poly = seq<Byte>

  /** Horner's rule. */
  function Eval(p: Poly, x: Byte): Byte {
    if |p| == 0 then ZERO else Add(Mul(Eval(p[1..], x), x), p[0])
  }

  ghost predicate Distinct(xs: seq<Byte>) {
    forall i, j :: 0 <= i < j < |xs| ==> xs[i] != xs[j]
  }

  ghost predicate Passes(p: Poly, xs: seq<Byte>, ys: seq<Byte>)
    requires |xs| == |ys|
  {
    forall i :: 0 <= i < |xs| ==> Eval(p, xs[i]) == ys[i]
  }

  function Sum(p: Poly, q: Poly): (s: Poly)
    requires |p| == |q|
    ensures |s| == |p|
  {
    if |p| == 0 then [] else [Add(p[0], q[0])] + Sum(p[1..], q[1..])
  }

  function Scale(c: Byte, p: Poly): (s: Poly)
    ensures |s| == |p|
  {
    if |p| == 0 then [] else [Mul(c, p[0])] + Scale(c, p[1..])
  }

  /** (x + r) * q + c. */
  function TimesRoot(q: Poly, r: Byte, c: Byte): (p: Poly)
    ensures |p| == |q| + 1
  {
    if |q| == 0 then [c] else [Add(Mul(q[0], r), c)] + TimesRoot(q[1..], r, q[0])
  }

  /** Synthetic division: the quotient of p by (x + r). */
  function Quotient(p: Poly, r: Byte): (q: Poly)
    requires |p| > 0
    ensures |q| == |p| - 1
  {
    if |p| == 1 then [] else [Eval(p[1..], r)] + Quotient(p[1..], r)
  }

  lemma EvalStep(c: Byte, p: Poly, x: Byte)
    ensures Eval([c] + p, x) == Add(Mul(Eval(p, x), x), c)
  {
    hide Add, Mul;
    assert ([c] + p)[1..] == p;
  }

  lemma EvalAtZero(p: Poly)
    requires |p| > 0
    ensures Eval(p, ZERO) == p[0]
  {
    hide Add, Mul;
    MulZero(Eval(p[1..], ZERO));
    AddUnit(p[0]);
  }

  lemma {:induction false} EvalSum(p: Poly, q: Poly, x: Byte)
    requires |p| == |q|
    ensures Eval(Sum(p, q), x) == Add(Eval(p, x), Eval(q, x))
  {
    hide Add, Mul;
    if |p| == 0 {
      AddUnit(ZERO);
    } else {
      EvalSum(p[1..], q[1..], x);
      EvalStep(Add(p[0], q[0]), Sum(p[1..], q[1..]), x);
      MulDistributes(Eval(p[1..], x), Eval(q[1..], x), x);
      AddExchange(Mul(Eval(p[1..], x), x), Mul(Eval(q[1..], x), x), p[0], q[0]);
    }
  }

  lemma {:induction false} EvalScale(c: Byte, p: Poly, x: Byte)
    ensures Eval(Scale(c, p), x) == Mul(c, Eval(p, x))
  {
    hide Add, Mul;
    if |p| == 0 {
      MulZero(c);
    } else {
      EvalScale(c, p[1..], x);
      EvalStep(Mul(c, p[0]), Scale(c, p[1..]), x);
      MulAssociates(c, Eval(p[1..], x), x);
      MulDistributes(Mul(Eval(p[1..], x), x), p[0], c);
    }
  }

  lemma {:induction false} EvalTimesRoot(q: Poly, r: Byte, c: Byte, x: Byte)
    ensures Eval(TimesRoot(q, r, c), x) == Add(Mul(Add(x, r), Eval(q, x)), c)
  {
    hide Add, Mul;
    if |q| == 0 {
      EvalStep(c, [], x);
      MulZero(x);
      MulZero(Add(x, r));
    } else {
      var rest := Eval(q[1..], x);
      EvalTimesRoot(q[1..], r, q[0], x);
      EvalStep(Add(Mul(q[0], r), c), TimesRoot(q[1..], r, q[0]), x);
      FactorStep(x, r, rest, q[0], c);
    }
  }

  /** ((x + r) * e + q) * x + (q * r + c) == (x + r) * (e * x + q) + c. */
  lemma FactorStep(x: Byte, r: Byte, e: Byte, q: Byte, c: Byte)
    ensures Add(Mul(Add(Mul(Add(x, r), e), q), x), Add(Mul(q, r), c))
         == Add(Mul(Add(x, r), Add(Mul(e, x), q)), c)
  {
    hide Add, Mul;
    var s := Add(x, r);
    MulDistributes(Mul(s, e), q, x);
    MulAssociates(s, e, x);
    MulDistributes(Mul(e, x), q, s);
    MulDistributes(x, r, q);
    MulCommutes(q, x);
    MulCommutes(q, r);
    AddAssociates(Mul(s, Mul(e, x)), Mul(x, q), Add(Mul(r, q), c));
    AddAssociates(Mul(x, q), Mul(r, q), c);
    AddAssociates(Mul(s, Mul(e, x)), Mul(s, q), c);
  }

  /** Division with remainder by a linear factor. */
  lemma {:induction false} DivideByRoot(p: Poly, r: Byte)
    requires |p| > 0
    ensures p == TimesRoot(Quotient(p, r), r, Eval(p, r))
  {
    hide Add, Mul;
    if |p| == 1 {
      MulZero(r);
      AddUnit(p[0]);
    } else {
      var e := Eval(p[1..], r);
      DivideByRoot(p[1..], r);
      var q := Quotient(p, r);
      assert q[1..] == Quotient(p[1..], r) && q[0] == e;
      AddCommutes(Mul(e, r), p[0]);
      AddCancels(p[0], Mul(e, r));
      AddCommutes(Mul(e, r), Eval(p, r));
    }
  }

  lemma CancelFactor(d: Byte, a: Byte, b: Byte)
    requires d != ZERO && Mul(d, a) == Mul(d, b)
    ensures a == b
  {
    hide Mul, Inv;
    DivisionUnique(d, Mul(d, a), a);
    DivisionUnique(d, Mul(d, a), b);
  }

  lemma QuotientsAgree(p: Poly, q: Poly, r: Byte, x: Byte)
    requires |p| == |q| > 0 && x != r
    requires Eval(p, r) == Eval(q, r) && Eval(p, x) == Eval(q, x)
    ensures Eval(Quotient(p, r), x) == Eval(Quotient(q, r), x)
  {
    hide Add, Mul, Eval, Quotient;
    DivideByRoot(p, r);
    DivideByRoot(q, r);
    EvalTimesRoot(Quotient(p, r), r, Eval(p, r), x);
    EvalTimesRoot(Quotient(q, r), r, Eval(q, r), x);
    AddCancels(x, r);
    AddCancels(Mul(Add(x, r), Eval(Quotient(p, r), x)), Eval(p, r));
    AddCancels(Mul(Add(x, r), Eval(Quotient(q, r), x)), Eval(p, r));
    CancelFactor(Add(x, r), Eval(Quotient(p, r), x), Eval(Quotient(q, r), x));
  }

  /** Two polynomials with k coefficients that agree at k distinct points are the same. */
  lemma {:induction false} UniqueThroughPoints(p: Poly, q: Poly, xs: seq<Byte>)
    requires |p| == |q| == |xs| && Distinct(xs)
    requires forall i :: 0 <= i < |xs| ==> Eval(p, xs[i]) == Eval(q, xs[i])
    ensures p == q
    decreases |xs|
  {
    hide Add, Mul, Eval;
    if |xs| > 0 {
      var r, rest := xs[0], xs[1..];
      forall i | 0 <= i < |rest|
        ensures Eval(Quotient(p, r), rest[i]) == Eval(Quotient(q, r), rest[i])
      {
        assert rest[i] == xs[i + 1];
        QuotientsAgree(p, q, r, rest[i]);
      }
      UniqueThroughPoints(Quotient(p, r), Quotient(q, r), rest);
      DivideByRoot(p, r);
      DivideByRoot(q, r);
    }
  }

  // Lagrange interpolation.

  /** The product over the points j < k other than i of (z + xs[j]) / (xs[i] + xs[j]). */
  function BasisAt(xs: seq<Byte>, i: nat, k: nat, z: Byte): Byte
    requires i < |xs| && k <= |xs|
    decreases k
  {
    if k == 0 then ONE
    else if k - 1 == i then BasisAt(xs, i, k - 1, z)
    else Mul(BasisAt(xs, i, k - 1, z), Mul(Add(z, xs[k - 1]), Inv(Add(xs[i], xs[k - 1]))))
  }

  /** The sum over the points i < n of ys[i] times the basis value at z. */
  function LagrangeAt(xs: seq<Byte>, ys: seq<Byte>, n: nat, z: Byte): Byte
    requires n <= |xs| == |ys|
    decreases n
  {
    if n == 0 then ZERO
    else Add(LagrangeAt(xs, ys, n - 1, z), Mul(ys[n - 1], BasisAt(xs, n - 1, |xs|, z)))
  }

  /** The polynomial whose values BasisAt computes. */
  function Basis(xs: seq<Byte>, i: nat, k: nat): (p: Poly)
    requires i < |xs| && k <= |xs|
    ensures |p| == if i < k then k else k + 1
    decreases k
  {
    if k == 0 then [ONE]
    else if k - 1 == i then Basis(xs, i, k - 1)
    else Scale(Inv(Add(xs[i], xs[k - 1])), TimesRoot(Basis(xs, i, k - 1), xs[k - 1], ZERO))
  }

  function Zeros(n: nat): (p: Poly)
    ensures |p| == n
  {
    if n == 0 then [] else [ZERO] + Zeros(n - 1)
  }

  function Lagrange(xs: seq<Byte>, ys: seq<Byte>, n: nat): (p: Poly)
    requires n <= |xs| == |ys|
    ensures |p| == |xs|
    decreases n
  {
    if n == 0 then Zeros(|xs|)
    else Sum(Lagrange(xs, ys, n - 1), Scale(ys[n - 1], Basis(xs, n - 1, |xs|)))
  }

  lemma {:induction false} EvalBasis(xs: seq<Byte>, i: nat, k: nat, z: Byte)
    requires i < |xs| && k <= |xs|
    ensures Eval(Basis(xs, i, k), z) == BasisAt(xs, i, k, z)
    decreases k
  {
    hide Add, Mul, Inv;
    if k == 0 {
      EvalStep(ONE, [], z);
      MulZero(z);
      AddUnit(ONE);
    } else {
      EvalBasis(xs, i, k - 1, z);
      if k - 1 != i {
        hide Eval;
        var b, d, u := BasisAt(xs, i, k - 1, z), Add(z, xs[k - 1]), Inv(Add(xs[i], xs[k - 1]));
        EvalTimesRoot(Basis(xs, i, k - 1), xs[k - 1], ZERO, z);
        EvalScale(u, TimesRoot(Basis(xs, i, k - 1), xs[k - 1], ZERO), z);
        AddUnit(Mul(d, b));
        MulCommutes(d, b);
        MulCommutes(u, Mul(b, d));
        MulAssociates(b, d, u);
      }
    }
  }

  lemma {:induction false} EvalZeros(n: nat, z: Byte)
    ensures Eval(Zeros(n), z) == ZERO
  {
    hide Add, Mul;
    if n > 0 {
      EvalZeros(n - 1, z);
      EvalStep(ZERO, Zeros(n - 1), z);
      MulZero(z);
      AddUnit(ZERO);
    }
  }

  lemma {:induction false} EvalLagrange(xs: seq<Byte>, ys: seq<Byte>, n: nat, z: Byte)
    requires n <= |xs| == |ys|
    ensures Eval(Lagrange(xs, ys, n), z) == LagrangeAt(xs, ys, n, z)
    decreases n
  {
    hide Add, Mul, Inv, Eval, Basis, BasisAt;
    if n == 0 {
      EvalZeros(|xs|, z);
    } else {
      EvalLagrange(xs, ys, n - 1, z);
      EvalBasis(xs, n - 1, |xs|, z);
      EvalScale(ys[n - 1], Basis(xs, n - 1, |xs|), z);
      EvalSum(Lagrange(xs, ys, n - 1), Scale(ys[n - 1], Basis(xs, n - 1, |xs|)), z);
    }
  }

  /** No other point equals this one. */
  ghost predicate Single(xs: seq<Byte>, i: nat)
    requires i < |xs|
  {
    forall j :: 0 <= j < |xs| && j != i ==> xs[j] != xs[i]
  }

  lemma {:induction false} BasisAtOwnPoint(xs: seq<Byte>, i: nat, k: nat)
    requires i < |xs| && k <= |xs| && Single(xs, i)
    ensures BasisAt(xs, i, k, xs[i]) == ONE
    decreases k
  {
    hide Add, Mul, Inv;
    if k > 0 {
      BasisAtOwnPoint(xs, i, k - 1);
      if k - 1 != i {
        AddCancels(xs[i], xs[k - 1]);
        Fermat(Add(xs[i], xs[k - 1]));
        MulUnit(ONE);
      }
    }
  }

  lemma {:induction false} BasisAtOtherPoint(xs: seq<Byte>, i: nat, k: nat, m: nat)
    requires i < |xs| && m < k <= |xs| && m != i
    ensures BasisAt(xs, i, k, xs[m]) == ZERO
    decreases k
  {
    hide Add, Mul, Inv;
    if k - 1 == m {
      AddUnit(xs[m]);
      MulZero(Inv(Add(xs[i], xs[m])));
      MulZero(BasisAt(xs, i, m, xs[m]));
    } else {
      BasisAtOtherPoint(xs, i, k - 1, m);
      if k - 1 != i {
        MulZero(Mul(Add(xs[m], xs[k - 1]), Inv(Add(xs[i], xs[k - 1]))));
      }
    }
  }

  lemma {:induction false} LagrangeAtPoint(xs: seq<Byte>, ys: seq<Byte>, n: nat, m: nat)
    requires n <= |xs| == |ys| && m < |xs| && Single(xs, m)
    ensures LagrangeAt(xs, ys, n, xs[m]) == if m < n then ys[m] else ZERO
    decreases n
  {
    hide Add, Mul, Inv, BasisAt;
    if n > 0 {
      LagrangeAtPoint(xs, ys, n - 1, m);
      if m == n - 1 {
        BasisAtOwnPoint(xs, m, |xs|);
        MulUnit(ys[m]);
        AddUnit(ys[m]);
      } else {
        BasisAtOtherPoint(xs, n - 1, |xs|, m);
        MulZero(ys[n - 1]);
        AddUnit(LagrangeAt(xs, ys, n - 1, xs[m]));
      }
    }
  }

  // Points that occur twice.

  /** A point that occurs twice has weight zero everywhere, since the inverse loop yields zero for zero. */
  lemma {:induction false} BasisAtRepeated(xs: seq<Byte>, i: nat, k: nat, m: nat, z: Byte)
    requires i < |xs| && m < k <= |xs| && m != i && xs[m] == xs[i]
    ensures BasisAt(xs, i, k, z) == ZERO
    decreases k
  {
    hide Add, Mul, Inv;
    if k - 1 == m {
      AddUnit(xs[m]);
      InvZero();
      MulZero(Add(z, xs[m]));
      MulZero(BasisAt(xs, i, m, z));
    } else {
      BasisAtRepeated(xs, i, k - 1, m, z);
      if k - 1 != i {
        MulZero(Mul(Add(z, xs[k - 1]), Inv(Add(xs[i], xs[k - 1]))));
      }
    }
  }

  /** A sum in which every value or its weight is zero. */
  lemma {:induction false} NothingContributes(xs: seq<Byte>, ys: seq<Byte>, n: nat, z: Byte)
    requires n <= |xs| == |ys|
    requires forall i :: 0 <= i < |xs| ==> ys[i] == ZERO || BasisAt(xs, i, |xs|, z) == ZERO
    ensures LagrangeAt(xs, ys, n, z) == ZERO
    decreases n
  {
    hide Add, Mul, BasisAt;
    if n > 0 {
      NothingContributes(xs, ys, n - 1, z);
      MulZero(ys[n - 1]);
      MulZero(BasisAt(xs, n - 1, |xs|, z));
      AddUnit(ZERO);
    }
  }

  /** The interpolating polynomial passes through the points. */
  lemma LagrangePasses(xs: seq<Byte>, ys: seq<Byte>, m: nat)
    requires Distinct(xs) && |xs| == |ys| && m < |xs|
    ensures Eval(Lagrange(xs, ys, |xs|), xs[m]) == ys[m]
  {
    EvalLagrange(xs, ys, |xs|, xs[m]);
    LagrangeAtPoint(xs, ys, |xs|, m);
  }

  lemma {:induction false} EvalPadded(p: Poly, n: nat, x: Byte)
    ensures Eval(p + Zeros(n), x) == Eval(p, x)
  {
    hide Add, Mul;
    if |p| == 0 {
      assert p + Zeros(n) == Zeros(n);
      EvalZeros(n, x);
    } else {
      assert (p + Zeros(n))[1..] == p[1..] + Zeros(n);
      EvalPadded(p[1..], n, x);
    }
  }

  /** Lagrange interpolation through enough points of a polynomial recovers its every value. */
  lemma LagrangeRecovers(p: Poly, xs: seq<Byte>, ys: seq<Byte>, z: Byte)
    requires |p| <= |xs| == |ys| && Distinct(xs) && Passes(p, xs, ys)
    ensures LagrangeAt(xs, ys, |xs|, z) == Eval(p, z)
  {
    hide Eval, LagrangeAt, Lagrange;
    var padded := p + Zeros(|xs| - |p|);
    forall i | 0 <= i < |xs|
      ensures Eval(padded, xs[i]) == Eval(Lagrange(xs, ys, |xs|), xs[i])
    {
      EvalPadded(p, |xs| - |p|, xs[i]);
      LagrangePasses(xs, ys, i);
    }
    UniqueThroughPoints(padded, Lagrange(xs, ys, |xs|), xs);
    EvalPadded(p, |xs| - |p|, z);
    EvalLagrange(xs, ys, |xs|, z);
  }

  /** Values at fewer points than coefficients leave the constant coefficient free. */
  lemma ConstantIsFree(xs: seq<Byte>, ys: seq<Byte>, secret: Byte) returns (p: Poly)
    requires |xs| == |ys| && Distinct(xs) && ZERO !in xs
    ensures |p| == |xs| + 1 && p[0] == secret && Passes(p, xs, ys)
    ensures forall q: Poly :: Passes(q, xs, ys) && |q| == |p| && q[0] == secret ==> q == p
  {
    hide Eval, Lagrange;
    var xs', ys' := [ZERO] + xs, [secret] + ys;
    p := Lagrange(xs', ys', |xs'|);
    assert Distinct(xs');
    LagrangePasses(xs', ys', 0);
    EvalAtZero(p);
    forall i | 0 <= i < |xs|
      ensures Eval(p, xs[i]) == ys[i]
    {
      LagrangePasses(xs', ys', i + 1);
    }
    forall q: Poly | Passes(q, xs, ys) && |q| == |p| && q[0] == secret
      ensures q == p
    {
      EvalAtZero(q);
      forall i | 0 <= i < |xs'|
        ensures Eval(q, xs'[i]) == Eval(p, xs'[i])
      {
        if i > 0 {
          assert xs'[i] == xs[i - 1];
        }
      }
      UniqueThroughPoints(q, p, xs');
    }
  }
}
