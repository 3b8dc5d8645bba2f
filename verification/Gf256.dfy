/**
 Arithmetic in GF(2^8) with the reduction polynomial x^8 + x^4 + x^3 + x + 1 (section 4.2
 of FIPS 197), as used by the secret-sharing code.

 A field element is a byte wrapped in a datatype, so that proofs about products treat it
 as an algebraic value; only the small lemmas marked "bit fact" look at its bits.
 */
module Gf256 {

  datatype Byte = Byte(bits: bv8)

  const ZERO := Byte(0)
  const ONE := Byte(1)
  const BITS: nat := 8

  /** Addition of polynomials over GF(2): exclusive or. */
  function Add(a: Byte, b: Byte): Byte { Byte(a.bits ^ b.bits) }

  /** Multiplication by x, reduced. */
  function Xtime(a: Byte): Byte {
    Byte(if a.bits & 0x80 != 0 then (a.bits << 1) ^ 0x1B else a.bits << 1)
  }

  function Half(a: Byte): Byte { Byte(a.bits >> 1) }

  /** `a` when the constant coefficient of `b` is one, otherwise zero. */
  function Select(b: Byte, a: Byte): Byte { if b.bits & 1 != 0 then a else ZERO }

  /** The sum of a * x^k over the set bits k < n of b. */
  function MulBits(a: Byte, b: Byte, n: nat): Byte
    decreases n, b
  {
    if n == 0 then ZERO else Add(Select(b, a), MulBits(Xtime(a), Half(b), n - 1))
  }

  function Mul(a: Byte, b: Byte): Byte { MulBits(a, b, BITS) }

  // Addition: each law is a bit fact.

  lemma AddCommutes(a: Byte, b: Byte)
    ensures Add(a, b) == Add(b, a)
  {}

  lemma AddAssociates(a: Byte, b: Byte, c: Byte)
    ensures Add(Add(a, b), c) == Add(a, Add(b, c))
  {}

  lemma AddUnit(a: Byte)
    ensures Add(a, ZERO) == a && Add(ZERO, a) == a && Add(a, a) == ZERO
  {}

  lemma AddExchange(a: Byte, b: Byte, c: Byte, d: Byte)
    ensures Add(Add(a, b), Add(c, d)) == Add(Add(a, c), Add(b, d))
  {}

  lemma AddCancels(a: Byte, b: Byte)
    ensures Add(Add(a, b), b) == a
    ensures Add(a, b) == ZERO <==> a == b
  {}

  // Bit facts about the pieces of one multiplication step.

  function XtimeShifts(a: bv8): bv8 {
    var high := a >> 7;
    (a << 1) ^ (high << 4) ^ (high << 3) ^ (high << 1) ^ high
  }

  lemma XtimeAsShifts(a: Byte)
    ensures Xtime(a).bits == XtimeShifts(a.bits)
  {}

  lemma XtimeShiftsLinear(a: bv8, b: bv8)
    ensures XtimeShifts(a ^ b) == XtimeShifts(a) ^ XtimeShifts(b)
  {}

  lemma XtimeLinear(a: Byte, b: Byte)
    ensures Xtime(Add(a, b)) == Add(Xtime(a), Xtime(b))
  {
    XtimeAsShifts(a);
    XtimeAsShifts(b);
    XtimeAsShifts(Add(a, b));
    XtimeShiftsLinear(a.bits, b.bits);
  }

  lemma SelectLinear(b: Byte, a: Byte, c: Byte)
    ensures Select(b, Add(a, c)) == Add(Select(b, a), Select(b, c))
    ensures Select(b, Xtime(a)) == Xtime(Select(b, a))
  {}

  lemma SelectorLinear(b: Byte, c: Byte, a: Byte)
    ensures Select(Add(b, c), a) == Add(Select(b, a), Select(c, a))
  {}

  lemma HalfLinear(a: Byte, b: Byte)
    ensures Half(Add(a, b)) == Add(Half(a), Half(b))
  {}

  /** A byte is its constant coefficient plus x times the rest. */
  lemma SplitLow(a: Byte)
    ensures a == Add(Select(a, ONE), Xtime(Half(a)))
    ensures a != ZERO ==> Half(a).bits < a.bits
  {
    assert a.bits == (a.bits & 1) ^ ((a.bits >> 1) << 1);
    assert (a.bits >> 1) & 0x80 == 0;
    assert a.bits & 1 == if a.bits & 1 != 0 then 1 else 0;
  }

  // Multiplication is linear in each argument and commutes with Xtime.

  lemma {:induction false} MulBitsLinearLeft(a: Byte, c: Byte, b: Byte, n: nat)
    ensures MulBits(Add(a, c), b, n) == Add(MulBits(a, b, n), MulBits(c, b, n))
    decreases n
  {
    hide Add, Xtime, Select, Half;
    if n == 0 {
      AddUnit(ZERO);
    } else {
      XtimeLinear(a, c);
      SelectLinear(b, a, c);
      MulBitsLinearLeft(Xtime(a), Xtime(c), Half(b), n - 1);
      AddExchange(Select(b, a), Select(b, c), MulBits(Xtime(a), Half(b), n - 1), MulBits(Xtime(c), Half(b), n - 1));
    }
  }

  lemma {:induction false} MulBitsLinearRight(a: Byte, b: Byte, c: Byte, n: nat)
    ensures MulBits(a, Add(b, c), n) == Add(MulBits(a, b, n), MulBits(a, c, n))
    decreases n
  {
    hide Add, Xtime, Select, Half;
    if n == 0 {
      AddUnit(ZERO);
    } else {
      HalfLinear(b, c);
      SelectorLinear(b, c, a);
      MulBitsLinearRight(Xtime(a), Half(b), Half(c), n - 1);
      AddExchange(Select(b, a), Select(c, a), MulBits(Xtime(a), Half(b), n - 1), MulBits(Xtime(a), Half(c), n - 1));
    }
  }

  lemma {:induction false} MulBitsXtime(a: Byte, b: Byte, n: nat)
    ensures MulBits(Xtime(a), b, n) == Xtime(MulBits(a, b, n))
    decreases n
  {
    hide Add, Select, Half;
    if n > 0 {
      MulBitsXtime(Xtime(a), Half(b), n - 1);
      SelectLinear(b, a, a);
      XtimeLinear(Select(b, a), MulBits(Xtime(a), Half(b), n - 1));
    }
  }

  lemma MulDistributes(a: Byte, b: Byte, c: Byte)
    ensures Mul(Add(a, b), c) == Add(Mul(a, c), Mul(b, c))
    ensures Mul(c, Add(a, b)) == Add(Mul(c, a), Mul(c, b))
  {
    hide Add, MulBits;
    MulBitsLinearLeft(a, b, c, 8);
    MulBitsLinearRight(c, a, b, 8);
  }

  lemma {:induction false} MulBitsZero(a: Byte, n: nat)
    ensures MulBits(ZERO, a, n) == ZERO && MulBits(a, ZERO, n) == ZERO
    decreases n
  {
    assert Xtime(ZERO) == ZERO && Half(ZERO) == ZERO && Select(a, ZERO) == ZERO && Select(ZERO, a) == ZERO;
    hide Xtime, Half, Select, Add;
    AddUnit(ZERO);
    if n > 0 {
      MulBitsZero(a, n - 1);
      MulBitsZero(Half(a), n - 1);
      MulBitsZero(Xtime(a), n - 1);
    }
  }

  lemma MulZero(a: Byte)
    ensures Mul(ZERO, a) == ZERO && Mul(a, ZERO) == ZERO
  {
    MulBitsZero(a, 8);
  }

  lemma MulXtimeLeft(a: Byte, b: Byte)
    ensures Mul(Xtime(a), b) == Xtime(Mul(a, b))
  {
    MulBitsXtime(a, b, 8);
  }

  function Halves(b: Byte, n: nat): Byte
    decreases n
  {
    if n == 0 then b else Halves(Half(b), n - 1)
  }

  /** Steps past the last set bit of b add nothing. */
  lemma {:induction false} MulBitsPadded(a: Byte, b: Byte, n: nat)
    requires Halves(b, n) == ZERO
    ensures MulBits(a, b, n + 1) == MulBits(a, b, n)
    decreases n
  {
    hide Add, Xtime, Half;
    if n == 0 {
      AddUnit(ZERO);
    } else {
      MulBitsPadded(Xtime(a), Half(b), n - 1);
    }
  }

  lemma HalfHasSevenBits(a: Byte)
    ensures Halves(Half(a), 7) == ZERO
  {}

  /** Horner's rule on the bits of the right factor. */
  lemma MulUnfoldRight(b: Byte, a: Byte)
    ensures Mul(b, a) == Add(Select(a, b), Xtime(Mul(b, Half(a))))
  {
    HalfHasSevenBits(a);
    hide Add, Select, Xtime, Half, Halves;
    MulBitsPadded(Xtime(b), Half(a), 7);
    MulXtimeLeft(b, Half(a));
    assert MulBits(b, a, 8) == Add(Select(a, b), MulBits(Xtime(b), Half(a), 7));
  }

  lemma {:induction false} MulOneLeft(b: Byte)
    ensures Mul(ONE, b) == b
    decreases b.bits
  {
    SplitLow(b);
    hide Add, Select, Xtime, Half, Mul;
    if b == ZERO {
      MulZero(ONE);
    } else {
      MulOneLeft(Half(b));
      MulUnfoldRight(ONE, b);
    }
  }

  lemma MulSelected(a: Byte, b: Byte)
    ensures Mul(Select(a, ONE), b) == Select(a, b)
  {
    hide Mul;
    MulOneLeft(b);
    MulZero(b);
  }

  lemma MulUnfoldLeft(a: Byte, b: Byte)
    ensures Mul(a, b) == Add(Select(a, b), Xtime(Mul(Half(a), b)))
  {
    SplitLow(a);
    hide Add, Select, Xtime, Half, Mul;
    MulDistributes(Select(a, ONE), Xtime(Half(a)), b);
    MulSelected(a, b);
    MulXtimeLeft(Half(a), b);
  }

  lemma {:induction false} MulCommutes(a: Byte, b: Byte)
    ensures Mul(a, b) == Mul(b, a)
    decreases a.bits
  {
    SplitLow(a);
    hide Add, Select, Xtime, Half, Mul;
    if a == ZERO {
      MulZero(b);
    } else {
      MulUnfoldLeft(a, b);
      MulUnfoldRight(b, a);
      MulCommutes(Half(a), b);
    }
  }

  lemma {:induction false} MulAssociates(a: Byte, b: Byte, c: Byte)
    ensures Mul(Mul(a, b), c) == Mul(a, Mul(b, c))
    decreases a.bits
  {
    SplitLow(a);
    hide Add, Select, Xtime, Half, Mul;
    if a == ZERO {
      MulZero(b);
      MulZero(c);
      MulZero(Mul(b, c));
    } else {
      MulUnfoldLeft(a, b);
      MulUnfoldLeft(a, Mul(b, c));
      MulDistributes(Select(a, b), Xtime(Mul(Half(a), b)), c);
      MulXtimeLeft(Mul(Half(a), b), c);
      MulAssociates(Half(a), b, c);
      SelectedProduct(a, b, c);
    }
  }

  lemma SelectedProduct(a: Byte, b: Byte, c: Byte)
    ensures Mul(Select(a, b), c) == Select(a, Mul(b, c))
  {
    hide Mul;
    MulZero(c);
  }

  /** One is the unit. */
  lemma MulUnit(a: Byte)
    ensures Mul(ONE, a) == a && Mul(a, ONE) == a
  {
    hide Mul;
    MulOneLeft(a);
    MulCommutes(a, ONE);
  }

  // Building a byte bit by bit.

  /** The byte 2 * a + bit. */
  function Append(bit: bool, a: Byte): Byte { Byte((a.bits << 1) | (if bit then 1 else 0)) }

  lemma AppendParts(bit: bool, a: Byte)
    requires Halves(a, 7) == ZERO
    ensures Half(Append(bit, a)) == a
    ensures (Append(bit, a).bits & 1 != 0) == bit
  {
    assert Halves(a, 7).bits == ((((((a.bits >> 1) >> 1) >> 1) >> 1) >> 1) >> 1) >> 1;
    SevenShifts(a.bits, if bit then 1 else 0);
  }

  lemma SevenShifts(q: bv8, bit: bv8)
    requires ((((((q >> 1) >> 1) >> 1) >> 1) >> 1) >> 1) >> 1 == 0 && (bit == 0 || bit == 1)
    ensures ((q << 1) | bit) >> 1 == q && ((q << 1) | bit) & 1 == bit
  {}

  lemma {:induction false} HalvesStay(q: Byte, n: nat, m: nat)
    requires n <= m && Halves(q, n) == ZERO
    ensures Halves(q, m) == ZERO
    decreases m
  {
    hide Half;
    if n == 0 && m > 0 {
      ZeroHalf();
      HalvesStay(ZERO, 0, m - 1);
    } else if m > 0 {
      HalvesStay(Half(q), n - 1, m - 1);
    }
  }

  lemma ZeroHalf()
    ensures Half(ZERO) == ZERO
  {}

  // One step of the program's loop.

  lemma MulLoopStep(p: Byte, a: Byte, b: Byte, n: nat)
    requires n > 0
    ensures Add(p, MulBits(a, b, n)) == Add(Add(p, Select(b, a)), MulBits(Xtime(a), Half(b), n - 1))
  {
    hide Add, Select, Half, Xtime;
    AddAssociates(p, Select(b, a), MulBits(Xtime(a), Half(b), n - 1));
  }

  lemma MulBitsNone(a: Byte, b: Byte)
    ensures MulBits(a, b, 0) == ZERO
  {}
}
