/**
 Inversion as a^254. The proof uses that squaring is linear over GF(2): squaring eight
 times is the identity, and only 0 and 1 are their own squares.
 */
module GfInverse {
  import opened Gf256

  /** a^n. */
  function Pow(a: Byte, n: nat): Byte
    decreases n, a
  {
    if n == 0 then ONE else Mul(a, Pow(a, n - 1))
  }

  const EXPONENT: nat := 254

  /** The inverse of a nonzero byte, and zero for zero. */
  function Inv(a: Byte): Byte { Pow(a, EXPONENT) }

  function Square(a: Byte): Byte { Mul(a, a) }

  /** The square of a byte as the sum of the squares of its bits. */
  function SquareOfBits(a: bv8): bv8 {
    (-(a & 1) & 0x01) ^ (-((a >> 1) & 1) & 0x04) ^ (-((a >> 2) & 1) & 0x10) ^ (-((a >> 3) & 1) & 0x40)
    ^ (-((a >> 4) & 1) & 0x1B) ^ (-((a >> 5) & 1) & 0x6C) ^ (-((a >> 6) & 1) & 0xAB) ^ (-((a >> 7) & 1) & 0x9A)
  }

  // Squaring.

  lemma SquareSum(a: Byte, b: Byte)
    ensures Square(Add(a, b)) == Add(Square(a), Square(b))
  {
    hide Mul, Add;
    MulDistributes(a, b, Add(a, b));
    MulDistributes(a, b, a);
    MulDistributes(a, b, b);
    MulCommutes(a, b);
    AddExchange(Mul(a, a), Mul(b, a), Mul(b, a), Mul(b, b));
    AddUnit(Mul(b, a));
    AddExchange(Mul(a, a), Mul(a, b), Mul(a, b), Mul(b, b));
    AddCommutes(Mul(a, b), Mul(b, b));
    AddAssociates(Mul(a, a), Mul(b, a), Add(Mul(b, a), Mul(b, b)));
    AddAssociates(Mul(b, a), Mul(b, a), Mul(b, b));
    AddUnit(Mul(b, b));
  }

  lemma SquareXtime(a: Byte)
    ensures Square(Xtime(a)) == Xtime(Xtime(Square(a)))
  {
    hide Mul, Xtime;
    MulXtimeLeft(a, Xtime(a));
    MulCommutes(a, Xtime(a));
    MulXtimeLeft(a, a);
  }

  lemma SquareSplit(a: Byte)
    ensures Square(a) == Add(Select(a, ONE), Xtime(Xtime(Square(Half(a)))))
  {
    SplitLow(a);
    MulUnit(ONE);
    MulZero(ZERO);
    SelectedSquare(a);
    hide Mul, Add, Xtime, Select, Half, Square;
    SquareSum(Select(a, ONE), Xtime(Half(a)));
    SquareXtime(Half(a));
  }

  lemma SelectedSquare(a: Byte)
    ensures Square(Select(a, ONE)) == Select(a, ONE)
  {
    hide Mul;
    MulUnit(ONE);
    MulZero(ZERO);
  }

  lemma SquareOfBitsSplit(a: Byte)
    ensures Byte(SquareOfBits(a.bits)) == Add(Select(a, ONE), Xtime(Xtime(Byte(SquareOfBits(Half(a).bits)))))
  {
    var b := Byte(SquareOfBits(a.bits >> 1));
    XtimeAsShifts(b);
    XtimeAsShifts(Xtime(b));
    SquareOfBitsShifts(a.bits);
  }

  lemma SquareOfBitsShifts(a: bv8)
    ensures SquareOfBits(a) == (-(a & 1) & 1) ^ XtimeShifts(XtimeShifts(SquareOfBits(a >> 1)))
  {}

  lemma {:induction false} SquareIsSquareOfBits(a: Byte)
    ensures Square(a) == Byte(SquareOfBits(a.bits))
    decreases a.bits
  {
    SplitLow(a);
    if a == ZERO {
      MulZero(ZERO);
      hide Mul;
    } else {
      hide Mul, Add, Xtime, Select, Half, Square, SquareOfBits;
      SquareIsSquareOfBits(Half(a));
      SquareSplit(a);
      SquareOfBitsSplit(a);
    }
  }

  /** Squaring k times. */
  function Squares(a: Byte, k: nat): Byte
    decreases k, a
  {
    if k == 0 then a else Squares(Square(a), k - 1)
  }

  lemma FrobeniusOfBits(a: bv8)
    ensures SquareOfBits(SquareOfBits(SquareOfBits(SquareOfBits(
              SquareOfBits(SquareOfBits(SquareOfBits(SquareOfBits(a)))))))) == a
  {}

  lemma {:induction false} SquaresOfBits(a: Byte, k: nat)
    requires k > 0
    ensures Squares(a, k) == Squares(Byte(SquareOfBits(a.bits)), k - 1)
  {
    hide Square, SquareOfBits;
    SquareIsSquareOfBits(a);
  }

  /** a^256 == a. */
  lemma EightSquares(a: Byte)
    ensures Squares(a, 8) == a
  {
    var a1 := SquareOfBits(a.bits);
    var a2 := SquareOfBits(a1);
    var a3 := SquareOfBits(a2);
    var a4 := SquareOfBits(a3);
    var a5 := SquareOfBits(a4);
    var a6 := SquareOfBits(a5);
    var a7 := SquareOfBits(a6);
    FrobeniusOfBits(a.bits);
    hide SquareOfBits, Squares;
    SquaresOfBits(a, 8);
    SquaresOfBits(Byte(a1), 7);
    SquaresOfBits(Byte(a2), 6);
    SquaresOfBits(Byte(a3), 5);
    SquaresOfBits(Byte(a4), 4);
    SquaresOfBits(Byte(a5), 3);
    SquaresOfBits(Byte(a6), 2);
    SquaresOfBits(Byte(a7), 1);
    NoSquares(a);
  }

  lemma NoSquares(a: Byte)
    ensures Squares(a, 0) == a
  {}

  lemma OwnSquareOfBits(a: bv8)
    requires SquareOfBits(a) == a
    ensures a == 0 || a == 1
  {}

  lemma OwnSquare(a: Byte)
    requires Square(a) == a
    ensures a == ZERO || a == ONE
  {
    SquareIsSquareOfBits(a);
    OwnSquareOfBits(a.bits);
  }

  // Powers.

  lemma {:induction false} PowAdds(a: Byte, m: nat, n: nat)
    ensures Pow(a, m + n) == Mul(Pow(a, m), Pow(a, n))
    decreases m
  {
    hide Mul;
    if m == 0 {
      MulUnit(Pow(a, n));
    } else {
      PowAdds(a, m - 1, n);
      MulAssociates(a, Pow(a, m - 1), Pow(a, n));
    }
  }

  /** One turn of square-and-multiply. */
  lemma {:induction false} PowHalves(a: Byte, n: nat)
    ensures Pow(a, 2 * n) == Pow(Square(a), n)
    ensures Pow(a, 2 * n + 1) == Mul(a, Pow(Square(a), n))
    decreases n
  {
    hide Mul;
    if n > 0 {
      PowHalves(a, n - 1);
      MulAssociates(a, a, Pow(a, 2 * (n - 1)));
    }
  }

  function Exp2(n: nat): (e: nat)
    ensures e > 0
  {
    if n == 0 then 1 else 2 * Exp2(n - 1)
  }

  lemma {:induction false} PowOfSquares(a: Byte, k: nat, n: nat)
    requires n == Exp2(k)
    ensures Pow(a, n) == Squares(a, k)
    decreases k
  {
    hide Mul;
    if k == 0 {
      MulUnit(a);
    } else {
      PowHalves(a, Exp2(k - 1));
      PowOfSquares(Square(a), k - 1, Exp2(k - 1));
    }
  }

  /** Fermat: a nonzero byte to the power 255 is one. */
  lemma Fermat(a: Byte)
    requires a != ZERO
    ensures Mul(a, Inv(a)) == ONE
  {
    assert Exp2(8) == 256;
    hide Mul, Pow, Square, Exp2;
    var e := Pow(a, 255);
    PowOfSquares(a, 8, 256);
    EightSquares(a);
    PowStep(a, 255);
    PowStep(a, 256);
    PowStep(a, 254);
    PowAdds(a, 255, 255);
    PowAdds(a, 256, 254);
    SquareIs(e);
    OwnSquare(e);
    MulZero(a);
  }

  lemma SquareIs(a: Byte)
    ensures Square(a) == Mul(a, a)
  {}

  lemma PowStep(a: Byte, n: nat)
    ensures Pow(a, n + 1) == Mul(a, Pow(a, n))
  {}

  lemma InverseUnique(a: Byte, b: Byte)
    requires Mul(a, b) == ONE
    ensures a != ZERO && b == Inv(a)
  {
    hide Mul, Inv;
    MulZero(b);
    Fermat(a);
    MulAssociates(Inv(a), a, b);
    MulCommutes(a, Inv(a));
    MulUnit(b);
    MulUnit(Inv(a));
  }

  lemma NoZeroDivisors(a: Byte, b: Byte)
    requires Mul(a, b) == ZERO
    ensures a == ZERO || b == ZERO
  {
    hide Mul, Inv;
    if a != ZERO {
      Fermat(a);
      MulAssociates(Inv(a), a, b);
      MulCommutes(a, Inv(a));
      MulUnit(b);
      MulZero(Inv(a));
    }
  }

  /** The nonzero bytes are a group under multiplication: b * x = c has exactly one solution. */
  lemma DivisionUnique(b: Byte, c: Byte, x: Byte)
    requires b != ZERO
    ensures Mul(b, x) == c <==> x == Mul(c, Inv(b))
  {
    hide Mul, Inv;
    Fermat(b);
    MulCommutes(b, Inv(b));
    MulAssociates(Inv(b), b, x);
    MulUnit(x);
    MulCommutes(Inv(b), c);
    MulAssociates(b, Inv(b), c);
    MulUnit(c);
  }

  lemma InvZero()
    ensures Inv(ZERO) == ZERO
  {
    hide Mul;
    PowStep(ZERO, 253);
    MulZero(Pow(ZERO, 253));
  }

  lemma PowNone(a: Byte)
    ensures Pow(a, 0) == ONE
  {}

  lemma InverseLoopStep(result: Byte, base: Byte, exp: nat)
    ensures exp % 2 == 1 ==>
      Mul(result, Pow(base, exp)) == Mul(Mul(result, base), Pow(Mul(base, base), exp / 2))
    ensures exp % 2 == 0 ==> Mul(result, Pow(base, exp)) == Mul(result, Pow(Mul(base, base), exp / 2))
  {
    hide Mul, Pow;
    PowHalves(base, exp / 2);
    assert exp == 2 * (exp / 2) + exp % 2;
    MulAssociates(result, base, Pow(Mul(base, base), exp / 2));
  }
}
