/**
 The field product against its textbook definition: multiply two bytes as polynomials over
 GF(2) without reduction, then take the remainder modulo x^8 + x^4 + x^3 + x + 1.
 */
module PolynomialProduct {
  import opened Gf256

  /** A polynomial over GF(2) of degree below 16. */
  datatype Wide = Wide(bits: bv16)

  const MODULUS := Wide(0x11B)

  function Embed(a: Byte): Wide { Wide(a.bits as bv16) }

  function WideAdd(a: Wide, b: Wide): Wide { Wide(a.bits ^ b.bits) }

  function TimesX(a: Wide): Wide { Wide(a.bits << 1) }

  function WideSelect(b: Byte, a: Wide): Wide { if b.bits & 1 != 0 then a else Wide(0) }

  /** The sum of a * x^k over the set bits k < n of b, with no reduction. */
  function ShiftedCopies(a: Wide, b: Byte, n: nat): Wide
    decreases n, b
  {
    if n == 0 then Wide(0) else WideAdd(WideSelect(b, a), ShiftedCopies(TimesX(a), Half(b), n - 1))
  }

  /** The product of a polynomial of degree at most 8 and a byte. */
  function Product(a: Wide, b: Byte): Wide { ShiftedCopies(a, b, BITS) }

  /** r is the remainder of p modulo x^8 + x^4 + x^3 + x + 1. */
  ghost predicate IsRemainder(p: Wide, r: Byte) {
    exists q :: p == WideAdd(Embed(r), Product(MODULUS, q))
  }

  // Bit facts.

  lemma EmbedLinear(a: Byte, b: Byte)
    ensures Embed(Add(a, b)) == WideAdd(Embed(a), Embed(b))
  {}

  lemma WideExchange(a: Wide, b: Wide, c: Wide, d: Wide)
    ensures WideAdd(WideAdd(a, b), WideAdd(c, d)) == WideAdd(WideAdd(a, c), WideAdd(b, d))
  {}

  lemma WideUnit(a: Wide)
    ensures WideAdd(Wide(0), a) == a && WideAdd(a, Wide(0)) == a && WideAdd(a, a) == Wide(0)
  {}

  lemma TimesXLinear(a: Wide, b: Wide)
    ensures TimesX(WideAdd(a, b)) == WideAdd(TimesX(a), TimesX(b))
  {}

  lemma WideSelectLinear(b: Byte, c: Byte, a: Wide, d: Wide)
    ensures WideSelect(Add(b, c), a) == WideAdd(WideSelect(b, a), WideSelect(c, a))
    ensures WideSelect(b, WideAdd(a, d)) == WideAdd(WideSelect(b, a), WideSelect(b, d))
  {}

  lemma WideSelectCommutes(b: Byte, a: Byte, w: Wide)
    ensures WideSelect(b, TimesX(w)) == TimesX(WideSelect(b, w))
    ensures WideSelect(b, Embed(a)) == Embed(Select(b, a))
  {}

  function HighBit(a: Byte): bool { a.bits & 0x80 != 0 }

  function Overflow(high: bool): Wide { if high then MODULUS else Wide(0) }

  /** Reduction once after doubling. */
  lemma DoubleReduced(a: Byte)
    ensures TimesX(Embed(a)) == WideAdd(Embed(Xtime(a)), Overflow(HighBit(a)))
  {}

  // Unreduced products.

  lemma {:induction false} CopiesLinearRight(a: Wide, b: Byte, c: Byte, n: nat)
    ensures ShiftedCopies(a, Add(b, c), n) == WideAdd(ShiftedCopies(a, b, n), ShiftedCopies(a, c, n))
    decreases n
  {
    hide Add, Half, TimesX, WideAdd, WideSelect;
    if n == 0 {
      WideUnit(Wide(0));
    } else {
      HalfLinear(b, c);
      WideSelectLinear(b, c, a, a);
      CopiesLinearRight(TimesX(a), Half(b), Half(c), n - 1);
      WideExchange(WideSelect(b, a), WideSelect(c, a),
                   ShiftedCopies(TimesX(a), Half(b), n - 1), ShiftedCopies(TimesX(a), Half(c), n - 1));
    }
  }

  lemma {:induction false} CopiesTimesX(a: Wide, b: Byte, n: nat)
    ensures ShiftedCopies(TimesX(a), b, n) == TimesX(ShiftedCopies(a, b, n))
    decreases n
  {
    if n == 0 {
      assert TimesX(Wide(0)) == Wide(0);
      hide Half, TimesX, WideAdd, WideSelect;
    } else {
      hide Half, TimesX, WideAdd, WideSelect;
      CopiesTimesX(TimesX(a), Half(b), n - 1);
      WideSelectCommutes(b, b, a);
      TimesXLinear(WideSelect(b, a), ShiftedCopies(TimesX(a), Half(b), n - 1));
    }
  }

  lemma {:induction false} CopiesPadded(a: Wide, b: Byte, n: nat)
    requires Halves(b, n) == ZERO
    ensures ShiftedCopies(a, b, n + 1) == ShiftedCopies(a, b, n)
    decreases n
  {
    hide Half, TimesX, WideAdd;
    if n == 0 {
      WideUnit(Wide(0));
    } else {
      CopiesPadded(TimesX(a), Half(b), n - 1);
    }
  }

  lemma {:induction false} CopiesOfZero(a: Wide, n: nat)
    ensures ShiftedCopies(a, ZERO, n) == Wide(0)
    decreases n
  {
    assert Half(ZERO) == ZERO && WideSelect(ZERO, a) == Wide(0);
    hide Half, WideSelect, TimesX, WideAdd;
    WideUnit(Wide(0));
    if n > 0 {
      CopiesOfZero(TimesX(a), n - 1);
    }
  }

  lemma ZeroMultiple()
    ensures Product(MODULUS, ZERO) == Wide(0)
  {
    hide ShiftedCopies;
    CopiesOfZero(MODULUS, 8);
  }

  lemma NextMultiple(q: Byte, a: Byte)
    requires Halves(q, 7) == ZERO
    ensures Product(MODULUS, Append(HighBit(a), q))
         == WideAdd(Overflow(HighBit(a)), TimesX(Product(MODULUS, q)))
  {
    AppendParts(HighBit(a), q);
    hide Half, Halves, TimesX, WideAdd, WideSelect, Append, HighBit, Overflow;
    CopiesPadded(TimesX(MODULUS), q, 7);
    CopiesTimesX(MODULUS, q, 8);
    CopiesStep(MODULUS, Append(HighBit(a), q), 8);
  }

  lemma CopiesStep(a: Wide, b: Byte, n: nat)
    requires n > 0
    ensures ShiftedCopies(a, b, n) == WideAdd(WideSelect(b, a), ShiftedCopies(TimesX(a), Half(b), n - 1))
  {}

  lemma AppendFits(q: Byte, a: Byte, n: nat)
    requires 0 < n <= 8 && Halves(q, 8 - n) == ZERO
    ensures Halves(q, 7) == ZERO
    ensures Halves(Append(HighBit(a), q), 9 - n) == ZERO
  {
    hide Half, Append;
    HalvesStay(q, 8 - n, 7);
    AppendParts(HighBit(a), q);
  }

  lemma DoubleWide(a: Byte, q: Byte)
    requires Halves(q, 7) == ZERO
    ensures TimesX(WideAdd(Embed(a), Product(MODULUS, q)))
         == WideAdd(Embed(Xtime(a)), Product(MODULUS, Append(HighBit(a), q)))
  {
    hide Embed, WideAdd, TimesX, WideSelect, Append, HighBit, Overflow, Xtime, Product, Halves;
    NextMultiple(q, a);
    DoubleReduced(a);
    TimesXLinear(Embed(a), Product(MODULUS, q));
    WideAssociates(Embed(Xtime(a)), Overflow(HighBit(a)), TimesX(Product(MODULUS, q)));
  }

  lemma SelectedSum(b: Byte, a: Byte, q: Byte, product: Byte, rest: Byte)
    ensures WideAdd(WideSelect(b, WideAdd(Embed(a), Product(MODULUS, q))),
                    WideAdd(Embed(product), Product(MODULUS, rest)))
         == WideAdd(Embed(Add(Select(b, a), product)), Product(MODULUS, Add(Select(b, q), rest)))
  {
    hide Embed, WideAdd, WideSelect, Add, Select, Product;
    WideSelectLinear(b, b, Embed(a), Product(MODULUS, q));
    WideSelectCommutes(b, a, MODULUS);
    SelectedMultiple(b, q);
    WideExchange(Embed(Select(b, a)), Product(MODULUS, Select(b, q)), Embed(product), Product(MODULUS, rest));
    EmbedLinear(Select(b, a), product);
    MultipleLinear(Select(b, q), rest);
  }

  /** Reducing at every step changes the product only by a multiple of the modulus. */
  lemma {:induction false} StepsCongruent(a: Byte, q: Byte, b: Byte, n: nat) returns (quotient: Byte)
    requires n <= 8 && Halves(q, 8 - n) == ZERO
    ensures ShiftedCopies(WideAdd(Embed(a), Product(MODULUS, q)), b, n)
         == WideAdd(Embed(MulBits(a, b, n)), Product(MODULUS, quotient))
    decreases n
  {
    hide Embed, WideAdd, TimesX, WideSelect, Append, Add, Xtime, Half, Select, Product, Halves;
    var wide := WideAdd(Embed(a), Product(MODULUS, q));
    if n == 0 {
      quotient := ZERO;
      ZeroMultiple();
      EmbedZero();
    } else {
      AppendFits(q, a, n);
      DoubleWide(a, q);
      var rest := StepsCongruent(Xtime(a), Append(HighBit(a), q), Half(b), n - 1);
      quotient := Add(Select(b, q), rest);
      SelectedSum(b, a, q, MulBits(Xtime(a), Half(b), n - 1), rest);
    }
  }

  lemma EmbedZero()
    ensures WideAdd(Embed(ZERO), Wide(0)) == Wide(0)
  {}

  lemma WideAssociates(a: Wide, b: Wide, c: Wide)
    ensures WideAdd(WideAdd(a, b), c) == WideAdd(a, WideAdd(b, c))
  {}

  lemma MultipleLinear(p: Byte, q: Byte)
    ensures Product(MODULUS, Add(p, q)) == WideAdd(Product(MODULUS, p), Product(MODULUS, q))
  {
    hide Add, WideAdd, ShiftedCopies;
    CopiesLinearRight(MODULUS, p, q, 8);
  }

  lemma SelectedMultiple(b: Byte, q: Byte)
    ensures WideSelect(b, Product(MODULUS, q)) == Product(MODULUS, Select(b, q))
  {
    hide Product;
    ZeroMultiple();
  }

  lemma MulIsRemainder(a: Byte, b: Byte)
    ensures IsRemainder(Product(Embed(a), b), Mul(a, b))
  {
    NoHalves();
    hide Embed, WideAdd, MulBits, ShiftedCopies, Halves;
    ZeroMultiple();
    WideUnit(Embed(a));
    var q := StepsCongruent(a, ZERO, b, 8);
  }

  lemma NoHalves()
    ensures Halves(ZERO, 0) == ZERO
  {}

  // Remainders are unique.

  function ClosedForm(q: bv8): bv16 {
    var w := q as bv16;
    (w << 8) ^ (w << 4) ^ (w << 3) ^ (w << 1) ^ w
  }

  lemma ClosedFormSplit(q: bv8)
    ensures ClosedForm(q) == (if q & 1 != 0 then 0x11B else 0) ^ (ClosedForm(q >> 1) << 1)
  {}

  lemma {:induction false} MultipleClosedForm(q: Byte)
    ensures Product(MODULUS, q) == Wide(ClosedForm(q.bits))
    decreases q.bits
  {
    SplitLow(q);
    if q == ZERO {
      hide Product;
      ZeroMultiple();
    } else {
      ClosedFormSplit(q.bits);
      HalfHasSevenBits(q);
      hide ClosedForm, Halves;
      MultipleClosedForm(Half(q));
      MultipleSplit(q);
      hide Product;
    }
  }

  lemma MultipleSplit(q: Byte)
    ensures Product(MODULUS, q) == WideAdd(WideSelect(q, MODULUS), TimesX(Product(MODULUS, Half(q))))
  {
    HalfHasSevenBits(q);
    hide Half, Halves, TimesX, WideAdd, WideSelect;
    CopiesStep(MODULUS, q, 8);
    CopiesPadded(TimesX(MODULUS), Half(q), 7);
    CopiesTimesX(MODULUS, Half(q), 8);
  }

  lemma ClosedFormIsLarge(q: bv8, a: bv8, b: bv8)
    requires (a as bv16) ^ ClosedForm(q) == b as bv16
    ensures a == b
  {}

  /** Two bytes that differ by a multiple of the modulus are equal. */
  lemma MultipleIsLarge(q: Byte, r: Byte, s: Byte)
    requires WideAdd(Embed(r), Product(MODULUS, q)) == Embed(s)
    ensures r == s
  {
    hide Product, ClosedForm;
    MultipleClosedForm(q);
    ClosedFormIsLarge(q.bits, r.bits, s.bits);
  }

  lemma RemainderUnique(p: Wide, r: Byte, s: Byte)
    requires IsRemainder(p, r) && IsRemainder(p, s)
    ensures r == s
  {
    hide Product, WideAdd, Embed, Add;
    var q :| p == WideAdd(Embed(r), Product(MODULUS, q));
    var q' :| p == WideAdd(Embed(s), Product(MODULUS, q'));
    MultipleLinear(q, q');
    SameSum(Embed(r), Embed(s), Product(MODULUS, q), Product(MODULUS, q'));
    MultipleIsLarge(Add(q, q'), r, s);
  }

  lemma SameSum(r: Wide, s: Wide, m: Wide, m': Wide)
    requires WideAdd(r, m) == WideAdd(s, m')
    ensures WideAdd(r, WideAdd(m, m')) == s
  {}

  /** The field product is the one byte that is a remainder of the polynomial product. */
  lemma MulIsProductModulo(a: Byte, b: Byte, r: Byte)
    ensures r == Mul(a, b) <==> IsRemainder(Product(Embed(a), b), r)
  {
    hide Mul, Product, IsRemainder;
    MulIsRemainder(a, b);
    if IsRemainder(Product(Embed(a), b), r) {
      RemainderUnique(Product(Embed(a), b), r, Mul(a, b));
    }
  }
}
