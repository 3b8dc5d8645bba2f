/**
 The multiplication and inversion loops of the program, on integers of any size.
 */
module GfLoops {
  import opened Gf256
  import opened GfInverse
  import opened Integers

  datatype Inverted = Inverse(value: nat) | InverseOfZero

  lemma SelectedXor(p: nat, a: nat, b: nat, n: nat)
    requires 0 < n <= 8
    ensures Add(Label(p), Select(LowBits(b, n), Label(a))) == Label(if b % 2 == 1 then Xor(p, a) else p)
  {
    LowBitsParts(b, n);
    hide Label, LowBits, Add, Xor;
    XorAdds(p, a);
    AddUnit(Label(p));
  }

  lemma LabelOfPolynomial()
    ensures Label(0x1B) == Byte(0x1B)
  {
    LabelBits(0x1B);
  }

  lemma ShiftedIsXtime(a: nat)
    ensures var doubled := 2 * a % 256;
      Label(if a / 128 % 2 == 1 then Xor(doubled, 0x1B) else doubled) == Xtime(Label(a))
  {
    hide Label, Xor;
    Doubled(a);
    XorAdds(2 * a % 256, 0x1B);
    LabelOfPolynomial();
  }

  lemma XorBelow(a: nat, b: nat)
    requires a < 256 && b < 256
    ensures Xor(a, b) < 256
  {
    XorByte(a, b);
  }

  lemma NothingAdded(a: nat)
    ensures Xor(0, a) == a && Label(0) == ZERO
  {
    LabelZero(0);
  }

  /**
   The shift-and-xor loop: the product of the low bytes. Whatever the left factor has above
   its low byte is kept when the right factor is odd.
   */
  method GfMul(x: nat, y: nat) returns (p: nat)
    ensures Label(p) == Mul(Label(x), Label(y))
    ensures p / 256 == if y % 2 == 1 then x / 256 else 0
  {
    hide Add, MulBits, Label, LowBits, Xor, Xtime, Half, Select;
    p := 0;
    var a, b := x, y;
    NothingAdded(x);
    AddUnit(MulBits(Label(a), LowBits(b, 8), 8));
    StartOfLoop(a, b);
    for k := 0 to 8
      invariant Add(Label(p), MulBits(Label(a), LowBits(b, 8 - k), 8 - k)) == Mul(Label(x), Label(y))
      invariant k == 0 ==> p == 0 && a == x && b == y
      invariant k > 0 ==> a < 256 && p / 256 == if y % 2 == 1 then x / 256 else 0
    {
      MulLoopStep(Label(p), Label(a), LowBits(b, 8 - k), 8 - k);
      SelectedXor(p, a, b, 8 - k);
      LowBitsParts(b, 8 - k);
      ShiftedIsXtime(a);
      if b % 2 == 1 {
        if k > 0 {
          XorByte(p, a);
        }
        p := Xor(p, a);
      }
      var high := a / 128 % 2 == 1;
      a := 2 * a % 256;
      if high {
        XorBelow(a, 0x1B);
        a := Xor(a, 0x1B);
      }
      b := b / 2;
    }
    MulBitsNone(Label(a), LowBits(b, 0));
    AddUnit(Label(p));
  }

  lemma StartOfLoop(a: nat, b: nat)
    ensures MulBits(Label(a), LowBits(b, 8), 8) == Mul(Label(a), Label(b))
  {
    hide MulBits, LowBits;
  }

  /** Square and multiply: the inverse of the low byte. Zero is refused; another multiple of 256 has no inverse and yields 0. */
  method GfInv(a: nat) returns (r: Inverted)
    ensures a == 0 <==> r.InverseOfZero?
    ensures r.Inverse? ==> r.value < 256 && Label(r.value) == Inv(Label(a))
    ensures r.Inverse? && a % 256 != 0 ==> Mul(Label(a), Label(r.value)) == ONE
    ensures r.Inverse? && a % 256 == 0 ==> r.value == 0
  {
    hide Mul, Pow, Label;
    if a == 0 {
      return InverseOfZero;
    }
    var result, base, exp: nat := 1, a, 254;
    LabelOne();
    MulUnit(Pow(Label(base), exp));
    while exp != 0
      invariant result < 256
      invariant Mul(Label(result), Pow(Label(base), exp)) == Inv(Label(a))
    {
      InverseLoopStep(Label(result), Label(base), exp);
      if exp % 2 == 1 {
        result := GfMul(result, base);
      }
      base := GfMul(base, base);
      exp := exp / 2;
    }
    PowNone(Label(base));
    MulUnit(Label(result));
    LabelZero(a);
    if a % 256 != 0 {
      Fermat(Label(a));
    } else {
      InvZero();
      LabelZero(result);
    }
    r := Inverse(result);
  }
}
