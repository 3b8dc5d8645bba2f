/**
 Integers as the byte arithmetic sees them. The program computes on unbounded integers;
 the field only sees their low eight bits.
 */
module Integers {
  import opened Arithmetic
  import opened Gf256
  import opened GfInverse

  /** Bitwise exclusive or. */
  function Xor(x: nat, y: nat): nat {
    if x == 0 then y
    else if y == 0 then x
    else 2 * Xor(x / 2, y / 2) + if x % 2 == y % 2 then 0 else 1
  }

  /** The low n bits as a byte. */
  function LowBits(x: nat, n: nat): Byte
    decreases n, x
  {
    if n == 0 then ZERO else Append(x % 2 == 1, LowBits(x / 2, n - 1))
  }

  /** The low eight bits. */
  function Label(x: nat): Byte { LowBits(x, BITS) }

  // Low bits.

  lemma {:induction false} LowBitsParts(x: nat, n: nat)
    requires n <= 8
    ensures Halves(LowBits(x, n), n) == ZERO
    ensures n > 0 ==> Half(LowBits(x, n)) == LowBits(x / 2, n - 1)
    ensures n > 0 ==> (LowBits(x, n).bits & 1 != 0) == (x % 2 == 1)
    decreases n
  {
    hide Append, Half;
    if n > 0 {
      LowBitsParts(x / 2, n - 1);
      HalvesStay(LowBits(x / 2, n - 1), n - 1, 7);
      AppendParts(x % 2 == 1, LowBits(x / 2, n - 1));
    }
  }

  lemma {:induction false} SameLowBits(x: nat, y: nat, n: nat)
    requires n <= 8
    ensures LowBits(x, n) == LowBits(y, n) <==> x % Exp2(n) == y % Exp2(n)
    decreases n
  {
    hide Append, Half, Halves;
    if n == 0 {
      assert x % 1 == 0 && y % 1 == 0;
    } else {
      LowBitsParts(x, n);
      LowBitsParts(y, n);
      SameLowBits(x / 2, y / 2, n - 1);
      RemainderBits(x, Exp2(n - 1));
      RemainderBits(y, Exp2(n - 1));
    }
  }

  lemma RemainderBits(x: nat, m: nat)
    requires m > 0
    ensures x % (2 * m) == 2 * (x / 2 % m) + x % 2
  {
    var q, r := x / 2 / m, x / 2 % m;
    assert x / 2 == q * m + r;
    assert x == q * (2 * m) + (2 * r + x % 2);
    UniqueRemainder(x, q, 2 * r + x % 2, 2 * m);
  }

  /** Two integers are one field element exactly when they agree modulo 256. */
  lemma SameLabel(x: nat, y: nat)
    ensures Label(x) == Label(y) <==> x % 256 == y % 256
  {
    assert Exp2(8) == 256;
    hide LowBits;
    SameLowBits(x, y, 8);
  }

  lemma LabelZero(x: nat)
    ensures Label(x) == ZERO <==> x % 256 == 0
  {
    assert Label(0) == ZERO by {
      ZeroBits(8);
    }
    hide Label;
    SameLabel(x, 0);
  }

  lemma {:induction false} ZeroBits(n: nat)
    ensures LowBits(0, n) == ZERO
  {
    assert Append(false, ZERO) == ZERO;
    hide Append;
    if n > 0 {
      ZeroBits(n - 1);
    }
  }

  lemma LabelOne()
    ensures Label(1) == ONE
  {
    ZeroBits(7);
    assert Append(true, ZERO) == ONE;
  }

  // Exclusive or.

  lemma {:induction false} XorZero(x: nat, y: nat)
    ensures Xor(x, y) == 0 <==> x == y
  {
    if x > 0 && y > 0 {
      XorZero(x / 2, y / 2);
    }
  }

  lemma XorHalf(x: nat, y: nat)
    ensures Xor(x, y) / 2 == Xor(x / 2, y / 2)
  {}

  lemma XorQuarter(x: nat, y: nat)
    ensures Xor(x, y) / 4 == Xor(x / 4, y / 4)
  {
    hide Xor;
    XorHalf(x, y);
    XorHalf(x / 2, y / 2);
  }

  lemma Quartered(x: nat)
    ensures x / 4 / 4 == x / 16 && x / 16 / 4 == x / 64 && x / 64 / 4 == x / 256
  {}

  lemma XorHigh(x: nat, y: nat)
    ensures Xor(x, y) / 256 == Xor(x / 256, y / 256)
  {
    hide Xor;
    Quartered(x);
    Quartered(y);
    Quartered(Xor(x, y));
    XorQuarter(x, y);
    XorQuarter(x / 4, y / 4);
    XorQuarter(x / 16, y / 16);
    XorQuarter(x / 64, y / 64);
  }

  /** An operand below 256 leaves the higher bits alone. */
  lemma XorByte(x: nat, y: nat)
    requires y < 256
    ensures Xor(x, y) / 256 == x / 256
  {
    XorHigh(x, y);
  }

  lemma AppendAdds(p: bool, a: Byte, q: bool, b: Byte)
    ensures Add(Append(p, a), Append(q, b)) == Append(p != q, Add(a, b))
  {}

  lemma {:induction false} XorBits(x: nat, y: nat, n: nat)
    ensures LowBits(Xor(x, y), n) == Add(LowBits(x, n), LowBits(y, n))
    decreases n
  {
    if n == 0 {
      AddUnit(ZERO);
    } else if x == 0 || y == 0 {
      hide Append;
      ZeroBits(n);
      AddUnit(LowBits(x, n));
      AddUnit(LowBits(y, n));
    } else {
      hide Append, Add;
      XorBits(x / 2, y / 2, n - 1);
      AppendAdds(x % 2 == 1, LowBits(x / 2, n - 1), y % 2 == 1, LowBits(y / 2, n - 1));
      OddXor(x, y);
    }
  }

  lemma OddXor(x: nat, y: nat)
    ensures Xor(x, y) % 2 == 1 <==> x % 2 != y % 2
    ensures Xor(x, y) / 2 == Xor(x / 2, y / 2)
  {}

  /** Exclusive or of integers is addition of field elements. */
  lemma XorAdds(x: nat, y: nat)
    ensures Label(Xor(x, y)) == Add(Label(x), Label(y))
  {
    hide Xor, LowBits, Add;
    XorBits(x, y, BITS);
  }

  // Doubling.

  /** The byte with these bits, lowest first. */
  function Bits(b0: bool, b1: bool, b2: bool, b3: bool, b4: bool, b5: bool, b6: bool, b7: bool): Byte {
    Append(b0, Append(b1, Append(b2, Append(b3, Append(b4, Append(b5, Append(b6, Append(b7, ZERO))))))))
  }

  lemma LabelBits(x: nat)
    ensures Label(x) == Bits(x % 2 == 1, x / 2 % 2 == 1, x / 4 % 2 == 1, x / 8 % 2 == 1,
                             x / 16 % 2 == 1, x / 32 % 2 == 1, x / 64 % 2 == 1, x / 128 % 2 == 1)
  {
    hide Append;
    NextBit(x, 8);
    NextBit(x / 2, 7);
    NextBit(x / 4, 6);
    NextBit(x / 8, 5);
    NextBit(x / 16, 4);
    NextBit(x / 32, 3);
    NextBit(x / 64, 2);
    NextBit(x / 128, 1);
    hide LowBits;
    Quarters(x);
  }

  lemma NextBit(x: nat, n: nat)
    requires n > 0
    ensures LowBits(x, n) == Append(x % 2 == 1, LowBits(x / 2, n - 1))
    ensures LowBits(x, 0) == ZERO && LowBits(x / 2, 0) == ZERO
  {}

  lemma Quarters(x: nat)
    ensures x / 2 / 2 == x / 4 && x / 4 / 2 == x / 8 && x / 8 / 2 == x / 16 && x / 16 / 2 == x / 32
    ensures x / 32 / 2 == x / 64 && x / 64 / 2 == x / 128
  {}

  lemma BitsShift(b0: bool, b1: bool, b2: bool, b3: bool, b4: bool, b5: bool, b6: bool, b7: bool)
    ensures Bits(false, b0, b1, b2, b3, b4, b5, b6).bits == Bits(b0, b1, b2, b3, b4, b5, b6, b7).bits << 1
    ensures (Bits(b0, b1, b2, b3, b4, b5, b6, b7).bits & 0x80 != 0) == b7
  {}

  lemma DoubleBits(x: nat)
    ensures 2 * x % 2 == 0 && 2 * x / 2 == x && 2 * x / 4 == x / 2 && 2 * x / 8 == x / 4 && 2 * x / 16 == x / 8
    ensures 2 * x / 32 == x / 16 && 2 * x / 64 == x / 32 && 2 * x / 128 == x / 64
  {}

  lemma MaskedLabel(x: nat)
    ensures Label(x % 256) == Label(x)
  {
    hide Label;
    SameLabel(x % 256, x);
  }

  lemma LabelOfDouble(x: nat)
    ensures Label(2 * x) == Bits(false, x % 2 == 1, x / 2 % 2 == 1, x / 4 % 2 == 1, x / 8 % 2 == 1,
                                 x / 16 % 2 == 1, x / 32 % 2 == 1, x / 64 % 2 == 1)
  {
    hide Label, Bits;
    LabelBits(2 * x);
    DoubleBits(x);
  }

  /** The shift, the mask and the test of the top bit. */
  lemma Doubled(x: nat)
    ensures Label(2 * x % 256).bits == Label(x).bits << 1
    ensures (Label(x).bits & 0x80 != 0) == (x / 128 % 2 == 1)
  {
    hide Label, Bits;
    MaskedLabel(2 * x);
    LabelBits(x);
    LabelOfDouble(x);
    BitsShift(x % 2 == 1, x / 2 % 2 == 1, x / 4 % 2 == 1, x / 8 % 2 == 1,
              x / 16 % 2 == 1, x / 32 % 2 == 1, x / 64 % 2 == 1, x / 128 % 2 == 1);
  }

  // Bytes as integers.

  function ValueBits(b: Byte, n: nat): (v: nat)
    ensures v < Exp2(n)
    decreases n, b
  {
    if n == 0 then 0 else 2 * ValueBits(Half(b), n - 1) + if b.bits & 1 != 0 then 1 else 0
  }

  function Value(b: Byte): (v: nat)
    ensures v < 256
  {
    assert Exp2(8) == 256;
    ValueBits(b, 8)
  }

  lemma HalfAppended(b: Byte)
    ensures Append(b.bits & 1 != 0, Half(b)) == b
  {}

  lemma {:induction false} ValueLowBits(b: Byte, n: nat)
    requires Halves(b, n) == ZERO
    ensures LowBits(ValueBits(b, n), n) == b
    decreases n
  {
    hide Append, Half;
    if n > 0 {
      ValueLowBits(Half(b), n - 1);
      HalfAppended(b);
    }
  }

  lemma NoNinthBit(b: Byte)
    ensures Halves(b, 8) == ZERO
  {}

  /** Bytes and the integers below 256 are the same. */
  lemma ValueIsLabel(b: Byte)
    ensures Label(Value(b)) == b
  {
    hide LowBits, ValueBits, Halves;
    NoNinthBit(b);
    ValueLowBits(b, 8);
  }
}
