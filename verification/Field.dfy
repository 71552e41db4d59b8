module Field {
  type Byte = bv8

  function Add(x: Byte, y: Byte): Byte { x ^ y }
  function XTime(a: Byte): Byte { (a << 1) ^ (0x1b & (0 - ((a >> 7) & 1))) }
  function Pick(a: Byte, b: Byte): Byte { a & (0 - (b & 1)) }
  function Half(b: Byte): Byte { b >> 1 }

  function MulBits(a: Byte, b: Byte, n: nat): Byte
    decreases n
  {
    if n == 0 then 0 else Add(Pick(a, b), MulBits(XTime(a), Half(b), n - 1))
  }
  function Mul(a: Byte, b: Byte): Byte { MulBits(a, b, 8) }

  // additive group
  lemma AddZero(a: Byte)
    ensures Add(0, a) == a && Add(a, 0) == a && Add(a, a) == 0
  {}
  lemma AddComm(a: Byte, b: Byte)
    ensures Add(a, b) == Add(b, a)
  {}
  lemma AddAssoc(a: Byte, b: Byte, c: Byte)
    ensures Add(Add(a, b), c) == Add(a, Add(b, c))
  {}
  lemma AddCancel(a: Byte, b: Byte)
    ensures Add(Add(a, b), b) == a
    ensures Add(a, b) == 0 ==> a == b
  {}
  lemma Interchange(a: Byte, b: Byte, c: Byte, d: Byte)
    ensures Add(Add(a, b), Add(c, d)) == Add(Add(a, c), Add(b, d))
  {
    hide Add;
    AddAssoc(a, b, Add(c, d));
    AddAssoc(b, c, d);
    AddComm(b, c);
    AddAssoc(c, b, d);
    AddAssoc(a, c, Add(b, d));
  }

  // bit facts
  lemma XTimeAdd(a: Byte, b: Byte)
    ensures XTime(Add(a, b)) == Add(XTime(a), XTime(b))
  {}
  lemma PickAddLeft(a: Byte, b: Byte, c: Byte)
    ensures Pick(Add(a, b), c) == Add(Pick(a, c), Pick(b, c))
  {
    hide Pick, Add;
    PickCases(c);
    AddZero(0);
  }
  lemma PickAddRight(a: Byte, b: Byte, c: Byte)
    ensures Pick(a, Add(b, c)) == Add(Pick(a, b), Pick(a, c))
  {}
  lemma HalfAdd(a: Byte, b: Byte)
    ensures Half(Add(a, b)) == Add(Half(a), Half(b))
  {}
  lemma PickCases(b: Byte)
    ensures (forall a :: Pick(a, b) == a) || (forall a :: Pick(a, b) == 0)
  {
    if b & 1 == 1 {
      forall a ensures Pick(a, b) == a {}
    } else {
      assert b & 1 == 0;
      forall a ensures Pick(a, b) == 0 {}
    }
  }

  lemma {:induction false} MulBitsAddLeft(a: Byte, b: Byte, c: Byte, n: nat)
    ensures MulBits(Add(a, b), c, n) == Add(MulBits(a, c, n), MulBits(b, c, n))
    decreases n
  {
    hide XTime, Pick, Half, Add;
    if n == 0 {
      AddZero(0);
    } else {
      XTimeAdd(a, b);
      PickAddLeft(a, b, c);
      MulBitsAddLeft(XTime(a), XTime(b), Half(c), n - 1);
      Interchange(Pick(a, c), Pick(b, c), MulBits(XTime(a), Half(c), n - 1), MulBits(XTime(b), Half(c), n - 1));
    }
  }
  lemma {:induction false} MulBitsAddRight(a: Byte, b: Byte, c: Byte, n: nat)
    ensures MulBits(a, Add(b, c), n) == Add(MulBits(a, b, n), MulBits(a, c, n))
    decreases n
  {
    hide XTime, Pick, Half, Add;
    if n == 0 {
      AddZero(0);
    } else {
      PickAddRight(a, b, c);
      HalfAdd(b, c);
      MulBitsAddRight(XTime(a), Half(b), Half(c), n - 1);
      Interchange(Pick(a, b), Pick(a, c), MulBits(XTime(a), Half(b), n - 1), MulBits(XTime(a), Half(c), n - 1));
    }
  }
  lemma {:induction false} MulBitsZero(b: Byte, n: nat)
    ensures MulBits(0, b, n) == 0
    decreases n
  {
    if n != 0 {
      MulBitsZero(Half(b), n - 1);
    }
  }
  lemma PickXTime(a: Byte, b: Byte)
    ensures Pick(XTime(a), b) == XTime(Pick(a, b))
  {
    hide XTime, Pick;
    PickCases(b);
    XTimeZero();
  }
  lemma XTimeZero()
    ensures XTime(0) == 0
  {}

  lemma {:induction false} MulBitsXTime(a: Byte, b: Byte, n: nat)
    ensures MulBits(XTime(a), b, n) == XTime(MulBits(a, b, n))
    decreases n
  {
    hide XTime, Pick, Half, Add;
    if n == 0 {
      XTimeZero();
    } else {
      PickXTime(a, b);
      MulBitsXTime(XTime(a), Half(b), n - 1);
      XTimeAdd(Pick(a, b), MulBits(XTime(a), Half(b), n - 1));
    }
  }
  lemma {:induction false} MulBitsExchange(c: Byte, a: Byte, k: nat, b: Byte, n: nat)
    ensures MulBits(MulBits(c, a, k), b, n) == MulBits(MulBits(c, b, n), a, k)
    decreases k
  {
    hide XTime, Pick, Half, Add;
    if k == 0 {
      MulBitsZero(b, n);
    } else {
      var rest := MulBits(XTime(c), Half(a), k - 1);
      MulBitsAddLeft(Pick(c, a), rest, b, n);
      MulBitsExchange(XTime(c), Half(a), k - 1, b, n);
      MulBitsXTime(c, b, n);
      PickCases(a);
      MulBitsZero(b, n);
    }
  }



  // The linear map over GF(2) that sends bit i of b to c[i].
  function Combination(c: seq<Byte>, b: Byte): Byte {
    if c == [] then 0 else Add(Pick(c[0], b), Combination(c[1..], Half(b)))
  }

  lemma CombinationStep(c: seq<Byte>, k: nat, b: Byte)
    requires k < |c|
    ensures Combination(c[k..], b) == Add(Pick(c[k], b), Combination(c[k + 1..], Half(b)))
  {
    assert c[k..][1..] == c[k + 1..];
  }

  // The same, bit by bit.
  function Spread(c0: Byte, c1: Byte, c2: Byte, c3: Byte, c4: Byte, c5: Byte, c6: Byte, c7: Byte, b: Byte): Byte {
    (c0 & (0 - (b & 1)))
    ^ ((c1 & (0 - ((b >> 1) & 1)))
    ^ ((c2 & (0 - ((b >> 1 >> 1) & 1)))
    ^ ((c3 & (0 - ((b >> 1 >> 1 >> 1) & 1)))
    ^ ((c4 & (0 - ((b >> 1 >> 1 >> 1 >> 1) & 1)))
    ^ ((c5 & (0 - ((b >> 1 >> 1 >> 1 >> 1 >> 1) & 1)))
    ^ ((c6 & (0 - ((b >> 1 >> 1 >> 1 >> 1 >> 1 >> 1) & 1)))
    ^ (c7 & (0 - ((b >> 1 >> 1 >> 1 >> 1 >> 1 >> 1 >> 1) & 1)))))))))
  }

  lemma EightSteps(c: seq<Byte>, b: Byte)
    requires |c| == 8
    ensures var b1 := Half(b); var b2 := Half(b1); var b3 := Half(b2);
      var b4 := Half(b3); var b5 := Half(b4); var b6 := Half(b5); var b7 := Half(b6);
      Combination(c, b) ==
        Add(Pick(c[0], b), Add(Pick(c[1], b1), Add(Pick(c[2], b2), Add(Pick(c[3], b3),
        Add(Pick(c[4], b4), Add(Pick(c[5], b5), Add(Pick(c[6], b6), Add(Pick(c[7], b7), 0))))))))
  {
    hide Add, Pick, Half;
    var b0 := b;
    var b1 := Half(b0);
    var b2 := Half(b1);
    var b3 := Half(b2);
    var b4 := Half(b3);
    var b5 := Half(b4);
    var b6 := Half(b5);
    var b7 := Half(b6);
    var b8 := Half(b7);
    CombinationStep(c, 0, b0);
    CombinationStep(c, 1, b1);
    CombinationStep(c, 2, b2);
    CombinationStep(c, 3, b3);
    CombinationStep(c, 4, b4);
    CombinationStep(c, 5, b5);
    CombinationStep(c, 6, b6);
    CombinationStep(c, 7, b7);
    assert c[0..] == c;
  }

  lemma {:induction false} MulBitsCombination(c: seq<Byte>, a: Byte, b: Byte)
    requires c != [] ==> c[0] == a
    requires forall i :: 0 <= i < |c| - 1 ==> c[i + 1] == XTime(c[i])
    ensures MulBits(a, b, |c|) == Combination(c, b)
    decreases |c|
  {
    hide XTime, Pick, Half, Add;
    if c != [] {
      assert |c| > 1 ==> c[1] == XTime(c[0]);
      MulBitsCombination(c[1..], XTime(a), Half(b));
    }
  }

  const BASIS: seq<Byte> := [0x01, 0x02, 0x04, 0x08, 0x10, 0x20, 0x40, 0x80]
  const SQUARES: seq<Byte> := [0x01, 0x04, 0x10, 0x40, 0x1b, 0x6c, 0xab, 0x9a]

  lemma BasisBits(b: Byte)
    ensures Spread(0x01, 0x02, 0x04, 0x08, 0x10, 0x20, 0x40, 0x80, b) == b
  {}

  lemma CombinationOfBasis(b: Byte)
    ensures Combination(BASIS, b) == b
  {
    EightSteps(BASIS, b);
    BasisBits(b);
  }

  lemma MulOne(b: Byte)
    ensures Mul(1, b) == b
  {
    assert forall i :: 0 <= i < 7 ==> BASIS[i + 1] == XTime(BASIS[i]);
    MulBitsCombination(BASIS, 1, b);
    CombinationOfBasis(b);
  }

  lemma MulComm(a: Byte, b: Byte)
    ensures Mul(a, b) == Mul(b, a)
  {
    hide MulBits;
    MulBitsExchange(1, a, 8, b, 8);
    MulOne(a);
    MulOne(b);
  }

  lemma MulAssoc(a: Byte, b: Byte, c: Byte)
    ensures Mul(Mul(a, b), c) == Mul(a, Mul(b, c))
  {
    hide MulBits;
    MulComm(a, b);
    MulBitsExchange(b, a, 8, c, 8);
    MulComm(Mul(b, c), a);
  }

  lemma MulDistributes(a: Byte, b: Byte, c: Byte)
    ensures Mul(Add(a, b), c) == Add(Mul(a, c), Mul(b, c))
    ensures Mul(a, Add(b, c)) == Add(Mul(a, b), Mul(a, c))
  {
    hide Add, MulBits;
    MulBitsAddLeft(a, b, c, 8);
    MulBitsAddRight(a, b, c, 8);
  }

  lemma MulZero(a: Byte)
    ensures Mul(0, a) == 0 && Mul(a, 0) == 0
  {
    hide MulBits;
    MulBitsZero(a, 8);
    MulComm(0, a);
  }

  function Pow(a: Byte, n: nat): Byte
    decreases n
  {
    if n == 0 then 1 else Mul(a, Pow(a, n - 1))
  }

  lemma {:induction false} PowAdd(a: Byte, m: nat, n: nat)
    ensures Pow(a, m + n) == Mul(Pow(a, m), Pow(a, n))
    decreases m
  {
    hide Mul;
    if m == 0 {
      MulOne(Pow(a, n));
    } else {
      PowAdd(a, m - 1, n);
      MulAssoc(a, Pow(a, m - 1), Pow(a, n));
    }
  }

  lemma PowSquare(a: Byte, n: nat)
    ensures Pow(a, 2 * n) == Mul(Pow(a, n), Pow(a, n))
  {
    hide Mul, Pow;
    PowAdd(a, n, n);
  }

  lemma {:induction false} PowOfSquare(a: Byte, n: nat)
    ensures Pow(Mul(a, a), n) == Pow(a, 2 * n)
    decreases n
  {
    hide Mul;
    if n != 0 {
      PowOfSquare(a, n - 1);
      assert Pow(a, 2 * n) == Mul(a, Pow(a, 2 * n - 1));
      assert Pow(a, 2 * n - 1) == Mul(a, Pow(a, 2 * n - 2));
      MulAssoc(a, a, Pow(a, 2 * n - 2));
    }
  }

  function Square(a: Byte): Byte { Mul(a, a) }

  lemma SquareAdd(a: Byte, b: Byte)
    ensures Square(Add(a, b)) == Add(Square(a), Square(b))
  {
    hide Add, Mul;
    MulDistributes(a, b, Add(a, b));
    MulDistributes(a, a, b);
    MulDistributes(b, a, b);
    MulComm(a, b);
    AddComm(Mul(a, b), Square(b));
    Interchange(Square(a), Mul(a, b), Square(b), Mul(a, b));
    AddZero(Mul(a, b));
    AddZero(Add(Square(a), Square(b)));
  }

  lemma {:induction false} SquareCombination(c: seq<Byte>, s: seq<Byte>, b: Byte)
    requires |c| == |s| && forall i :: 0 <= i < |c| ==> s[i] == Square(c[i])
    ensures Square(Combination(c, b)) == Combination(s, b)
    decreases |c|
  {
    hide Add, Mul, Pick, Half;
    MulZero(0);
    if c != [] {
      SquareAdd(Pick(c[0], b), Combination(c[1..], Half(b)));
      SquareCombination(c[1..], s[1..], Half(b));
      PickCases(b);
    }
  }

  lemma LowSquares()
    ensures Square(0x01) == 0x01 && Square(0x02) == 0x04 && Square(0x04) == 0x10 && Square(0x08) == 0x40
  {
    MulOne(0x01);
    hide Mul;
    SquareXTime(0x01);
    SquareXTime(0x02);
    SquareXTime(0x04);
  }

  lemma HighSquares()
    ensures Square(0x10) == 0x1b && Square(0x20) == 0x6c && Square(0x40) == 0xab && Square(0x80) == 0x9a
  {
    LowSquares();
    hide Square;
    SquareXTime(0x08);
    SquareXTime(0x10);
    SquareXTime(0x20);
    SquareXTime(0x40);
  }

  lemma SquareXTime(a: Byte)
    ensures Square(XTime(a)) == XTime(XTime(Square(a)))
  {
    hide XTime, MulBits;
    MulBitsXTime(a, XTime(a), 8);
    MulComm(a, XTime(a));
    MulBitsXTime(a, a, 8);
  }

  // Squaring is linear: it is fixed by the squares of the eight powers of x.
  lemma SquareSpreads(b: Byte)
    ensures Square(b) == Combination(SQUARES, b)
  {
    hide Mul, Combination;
    CombinationOfBasis(b);
    LowSquares();
    HighSquares();
    SquareCombination(BASIS, SQUARES, b);
  }

  function SpreadSquare(b: Byte): Byte { Spread(0x01, 0x04, 0x10, 0x40, 0x1b, 0x6c, 0xab, 0x9a, b) }

  lemma SpreadEightTimes(a0: Byte, a1: Byte, a2: Byte, a3: Byte, a4: Byte, a5: Byte, a6: Byte, a7: Byte, a8: Byte)
    requires a1 == SpreadSquare(a0) && a2 == SpreadSquare(a1) && a3 == SpreadSquare(a2) && a4 == SpreadSquare(a3)
    requires a5 == SpreadSquare(a4) && a6 == SpreadSquare(a5) && a7 == SpreadSquare(a6) && a8 == SpreadSquare(a7)
    ensures a8 == a0
  {}

  lemma SpreadFixed(a: Byte)
    requires a == SpreadSquare(a)
    ensures a == 0 || a == 1
  {}

  lemma SquareBits(b: Byte)
    ensures Square(b) == SpreadSquare(b)
  {
    hide Mul, Combination;
    SquareSpreads(b);
    EightSteps(SQUARES, b);
  }

  lemma Frobenius(a: Byte)
    ensures Pow(a, 256) == a
  {
    hide Mul, Pow;
    var a1 := Square(a);
    var a2, a3 := Square(a1), Square(Square(a1));
    var a4, a5 := Square(a3), Square(Square(a3));
    var a6, a7 := Square(a5), Square(Square(a5));
    var a8 := Square(a7);
    SquareBits(a); SquareBits(a1); SquareBits(a2); SquareBits(a3);
    SquareBits(a4); SquareBits(a5); SquareBits(a6); SquareBits(a7);
    SpreadEightTimes(a, a1, a2, a3, a4, a5, a6, a7, a8);
    PowOne(a);
    PowSquare(a, 1); PowSquare(a, 2); PowSquare(a, 4); PowSquare(a, 8);
    PowSquare(a, 16); PowSquare(a, 32); PowSquare(a, 64); PowSquare(a, 128);
  }

  lemma PowOne(a: Byte)
    ensures Pow(a, 1) == a
  {
    hide Mul;
    MulComm(a, 1);
    MulOne(a);
    assert Pow(a, 1) == Mul(a, Pow(a, 0));
  }

  // The multiplicative group has order 255.
  lemma Fermat(a: Byte)
    requires a != 0
    ensures Pow(a, 255) == 1
  {
    hide Mul, Pow;
    var e := Pow(a, 255);
    Frobenius(a);
    PowAdd(a, 255, 255);
    PowAdd(a, 254, 256);
    PowAdd(a, 254, 1);
    PowOne(a);
    assert Square(e) == e;
    SquareBits(e);
    SpreadFixed(e);
    PowAdd(a, 1, 255);
    MulZero(a);
  }

  function Inverse(a: Byte): Byte { Pow(a, 254) }
  function Div(a: Byte, b: Byte): Byte { Mul(a, Inverse(b)) }

  lemma InverseLaw(a: Byte)
    requires a != 0
    ensures Mul(a, Inverse(a)) == 1
  {
    hide Mul;
    Fermat(a);
  }

  lemma MulCancel(a: Byte, b: Byte, c: Byte)
    requires c != 0 && Mul(a, c) == Mul(b, c)
    ensures a == b
  {
    hide Mul, Inverse;
    InverseLaw(c);
    MulAssoc(a, c, Inverse(c));
    MulAssoc(b, c, Inverse(c));
    MulComm(a, 1);
    MulComm(b, 1);
    MulOne(a);
    MulOne(b);
  }

  lemma Step(product: Byte, a: Byte, b: Byte)
    ensures product ^ (a & (0 - (b & 1))) == Add(product, Pick(a, b))
    ensures (a << 1) ^ (0x1b & (0 - ((a >> 7) & 1))) == XTime(a)
    ensures b >> 1 == Half(b)
  {}

  method FieldMul(a0: Byte, b0: Byte) returns (product: Byte)
    ensures product == Mul(a0, b0)
  {
    hide XTime, Pick, Half, Add;
    var a, b := a0, b0;
    product := 0;
    AddZero(Mul(a, b));
    for i := 0 to 8
      invariant Add(product, MulBits(a, b, 8 - i)) == Mul(a0, b0)
    {
      Step(product, a, b);
      AddAssoc(product, Pick(a, b), MulBits(XTime(a), Half(b), 7 - i));
      product := product ^ (a & (0 - (b & 1)));
      var high := 0 - ((a >> 7) & 1);
      a := a << 1;
      a := a ^ (0x1b & high);
      b := b >> 1;
    }
    AddZero(product);
  }

  method FieldInverse(a: Byte) returns (result: Byte)
    ensures result == Inverse(a)
  {
    hide Mul;
    result := 1;
    var base := a;
    var exponent := 254;
    MulOne(Pow(a, 254));
    while exponent > 0
      invariant exponent >= 0
      invariant Mul(result, Pow(base, exponent)) == Pow(a, 254)
    {
      var r0, b0, e0 := result, base, exponent;
      if exponent % 2 == 1 {
        result := FieldMul(result, base);
        MulAssoc(r0, b0, Pow(b0, e0 - 1));
      }
      base := FieldMul(base, base);
      PowOfSquare(b0, e0 / 2);
      exponent := exponent / 2;
    }
    MulComm(result, 1);
    MulOne(result);
  }

  // Division undoes multiplication; by zero it gives zero.
  lemma DivMeaning(a: Byte, b: Byte)
    ensures b != 0 ==> Mul(Div(a, b), b) == a
    ensures Div(a, 0) == 0
  {
    hide Mul, Pow;
    if b != 0 {
      MulAssoc(a, Inverse(b), b);
      MulComm(Inverse(b), b);
      InverseLaw(b);
      MulComm(a, 1);
      MulOne(a);
    }
    PowAdd(0, 1, 253);
    PowOne(0);
    MulZero(Pow(0, 253));
    MulZero(a);
  }

  method FieldDiv(a: Byte, b: Byte) returns (quotient: Byte)
    ensures quotient == Div(a, b)
    ensures b != 0 ==> Mul(quotient, b) == a
    ensures b == 0 ==> quotient == 0
  {
    hide Mul, Pow, Inverse;
    var inverse := FieldInverse(b);
    quotient := FieldMul(a, inverse);
    DivMeaning(a, b);
  }

  // ---- polynomials over GF(2) of degree below 16, one bit a coefficient ----

  const MODULUS: bv16 := 0x11b

  function PickWide(a: bv16, b: Byte): bv16 { a & (0 - ((b & 1) as bv16)) }
  function Twice(a: bv16): bv16 { a << 1 }

  // The product of the polynomial a and the polynomial of the low n bits of b.
  function Product(a: bv16, b: Byte, n: nat): bv16
    decreases n
  {
    if n == 0 then 0 else AddWide(PickWide(a, b), Product(Twice(a), Half(b), n - 1))
  }

  function AddWide(a: bv16, b: bv16): bv16 { a ^ b }

  lemma AddWideZero(a: bv16)
    ensures AddWide(0, a) == a && AddWide(a, 0) == a && AddWide(a, a) == 0
  {}
  lemma AddWideCancel(a: bv16, b: bv16)
    ensures AddWide(a, b) == 0 ==> a == b
  {}
  lemma AddWideAssoc(a: bv16, b: bv16, c: bv16)
    ensures AddWide(AddWide(a, b), c) == AddWide(a, AddWide(b, c))
  {}
  lemma AddWideComm(a: bv16, b: bv16)
    ensures AddWide(a, b) == AddWide(b, a)
  {}
  lemma InterchangeWide(a: bv16, b: bv16, c: bv16, d: bv16)
    ensures AddWide(AddWide(a, b), AddWide(c, d)) == AddWide(AddWide(a, c), AddWide(b, d))
  {
    hide AddWide;
    AddWideAssoc(a, b, AddWide(c, d));
    AddWideAssoc(b, c, d);
    AddWideComm(b, c);
    AddWideAssoc(c, b, d);
    AddWideAssoc(a, c, AddWide(b, d));
  }
  lemma TwiceAdd(a: bv16, b: bv16)
    ensures Twice(AddWide(a, b)) == AddWide(Twice(a), Twice(b))
  {}
  lemma PickWideCases(b: Byte)
    ensures (b & 1 == 1 && forall a :: PickWide(a, b) == a) || (b & 1 == 0 && forall a :: PickWide(a, b) == 0)
  {
    if b & 1 == 1 {
      forall a ensures PickWide(a, b) == a {}
    } else {
      assert b & 1 == 0;
      forall a ensures PickWide(a, b) == 0 {}
    }
  }
  lemma PickWideAddLeft(a: bv16, b: bv16, c: Byte)
    ensures PickWide(AddWide(a, b), c) == AddWide(PickWide(a, c), PickWide(b, c))
  {
    hide PickWide, AddWide;
    PickWideCases(c);
    AddWideZero(0);
  }
  lemma PickWideAddRight(a: bv16, b: Byte, c: Byte)
    ensures PickWide(a, Add(b, c)) == AddWide(PickWide(a, b), PickWide(a, c))
  {}

  lemma {:induction false} ProductAddLeft(a: bv16, b: bv16, c: Byte, n: nat)
    ensures Product(AddWide(a, b), c, n) == AddWide(Product(a, c, n), Product(b, c, n))
    decreases n
  {
    hide Twice, PickWide, Half, AddWide;
    if n == 0 {
      AddWideZero(0);
    } else {
      TwiceAdd(a, b);
      PickWideAddLeft(a, b, c);
      ProductAddLeft(Twice(a), Twice(b), Half(c), n - 1);
      InterchangeWide(PickWide(a, c), PickWide(b, c), Product(Twice(a), Half(c), n - 1), Product(Twice(b), Half(c), n - 1));
    }
  }

  lemma {:induction false} ProductAddRight(a: bv16, b: Byte, c: Byte, n: nat)
    ensures Product(a, Add(b, c), n) == AddWide(Product(a, b, n), Product(a, c, n))
    decreases n
  {
    hide Twice, PickWide, Half, AddWide, Add;
    if n == 0 {
      AddWideZero(0);
    } else {
      PickWideAddRight(a, b, c);
      HalfAdd(b, c);
      ProductAddRight(Twice(a), Half(b), Half(c), n - 1);
      InterchangeWide(PickWide(a, b), PickWide(a, c), Product(Twice(a), Half(b), n - 1), Product(Twice(a), Half(c), n - 1));
    }
  }

  lemma {:induction false} ProductZero(b: Byte, n: nat)
    ensures Product(0, b, n) == 0
    decreases n
  {
    if n != 0 {
      ProductZero(Half(b), n - 1);
    }
  }

  // b has no bit at position n or above.
  predicate Fits(b: Byte, n: nat)
    decreases n
  {
    if n == 0 then b == 0 else Fits(Half(b), n - 1)
  }

  lemma {:induction false} FitsAdd(b: Byte, c: Byte, n: nat)
    requires Fits(b, n) && Fits(c, n)
    ensures Fits(Add(b, c), n)
    decreases n
  {
    if n != 0 {
      HalfAdd(b, c);
      FitsAdd(Half(b), Half(c), n - 1);
    }
  }

  lemma {:induction false} FitsMore(a: bv16, b: Byte, n: nat)
    requires Fits(b, n)
    ensures Fits(b, n + 1) && Product(a, b, n + 1) == Product(a, b, n)
    decreases n
  {
    if n != 0 {
      FitsMore(Twice(a), Half(b), n - 1);
    }
  }

  lemma FitsEight(b: Byte)
    ensures Fits(b, 8)
  {
    assert Half(Half(Half(Half(Half(Half(Half(Half(b)))))))) == 0;
    hide Half;
    assert Fits(Half(Half(Half(Half(b)))), 4);
  }

  function Widen(a: Byte): bv16 { a as bv16 }

  lemma WidenAdd(a: Byte, b: Byte)
    ensures Widen(Add(a, b)) == AddWide(Widen(a), Widen(b))
  {}

  lemma WidenPick(a: Byte, b: Byte)
    ensures PickWide(Widen(a), b) == Widen(Pick(a, b))
  {}

  // x * a is XTime(a), up to one copy of the modulus.
  lemma TwiceReduces(a: Byte)
    ensures Twice(Widen(a)) == AddWide(Widen(XTime(a)), PickWide(MODULUS, a >> 7))
  {}

  lemma {:induction false} Reduces(a: Byte, b: Byte, n: nat) returns (q: Byte)
    requires Fits(b, n)
    ensures Fits(q, n)
    ensures Product(Widen(a), b, n) == AddWide(Widen(MulBits(a, b, n)), Product(MODULUS, q, n))
    decreases n
  {
    hide XTime, Pick, Half, Add, Widen, AddWide, PickWide, Twice;
    if n == 0 {
      q := 0;
      WidenPick(0, 0);
      AddWideZero(0);
      assert Widen(0) == 0 by { WidenZero(); }
    } else {
      var q' := Reduces(XTime(a), Half(b), n - 1);
      var top := Pick(Half(b), a >> 7);
      q := Add(q', top);
      var low, rest := PickWide(Widen(a), b), Widen(MulBits(XTime(a), Half(b), n - 1));
      TwiceReduces(a);
      ProductAddLeft(Widen(XTime(a)), PickWide(MODULUS, a >> 7), Half(b), n - 1);
      assert Product(PickWide(MODULUS, a >> 7), Half(b), n - 1) == Product(MODULUS, top, n - 1) && Fits(top, n - 1) by {
        PickBoth(a >> 7);
        ProductZero(Half(b), n - 1);
        ProductAddRight(MODULUS, 0, 0, n - 1);
        AddZero(0);
        AddWideZero(Product(MODULUS, 0, n - 1));
        FitsAdd(Half(b), Half(b), n - 1);
        AddZero(Half(b));
      }
      FitsAdd(q', top, n - 1);
      FitsMore(MODULUS, q, n - 1);
      ProductAddRight(MODULUS, q', top, n - 1);
      AddWideAssoc(rest, Product(MODULUS, q', n - 1), Product(MODULUS, top, n - 1));
      AddWideAssoc(low, rest, Product(MODULUS, q, n - 1));
      WidenPick(a, b);
      WidenAdd(Pick(a, b), MulBits(XTime(a), Half(b), n - 1));
    }
  }

  lemma WidenZero()
    ensures Widen(0) == 0
  {}

  lemma PickBoth(b: Byte)
    ensures || ((forall a :: Pick(a, b) == a) && (forall a :: PickWide(a, b) == a))
            || ((forall a :: Pick(a, b) == 0) && (forall a :: PickWide(a, b) == 0))
  {
    PickWideCases(b);
    if b & 1 == 1 {
      forall a ensures Pick(a, b) == a {}
    } else {
      forall a ensures Pick(a, b) == 0 {}
    }
  }

  // The multiple of the modulus with these bits.
  function SpreadModulus(q: Byte): bv16 {
    (0x011b & (0 - ((q & 1) as bv16)))
    ^ ((0x0236 & (0 - (((q >> 1) & 1) as bv16)))
    ^ ((0x046c & (0 - (((q >> 1 >> 1) & 1) as bv16)))
    ^ ((0x08d8 & (0 - (((q >> 1 >> 1 >> 1) & 1) as bv16)))
    ^ ((0x11b0 & (0 - (((q >> 1 >> 1 >> 1 >> 1) & 1) as bv16)))
    ^ ((0x2360 & (0 - (((q >> 1 >> 1 >> 1 >> 1 >> 1) & 1) as bv16)))
    ^ ((0x46c0 & (0 - (((q >> 1 >> 1 >> 1 >> 1 >> 1 >> 1) & 1) as bv16)))
    ^ (0x8d80 & (0 - (((q >> 1 >> 1 >> 1 >> 1 >> 1 >> 1 >> 1) & 1) as bv16)))))))))
  }

  lemma MultipleBits(q: Byte)
    requires SpreadModulus(q) & 0xff00 == 0
    ensures q == 0
  {}

  lemma ProductStep(a: bv16, b: Byte, n: nat)
    ensures Product(a, b, n + 1) == AddWide(PickWide(a, b), Product(Twice(a), Half(b), n))
  {}

  lemma MultipleUnrolled(q: Byte)
    ensures var q1 := Half(q); var q2 := Half(q1); var q3 := Half(q2);
      var q4 := Half(q3); var q5 := Half(q4); var q6 := Half(q5); var q7 := Half(q6);
      Product(MODULUS, q, 8) ==
        AddWide(PickWide(0x011b, q), AddWide(PickWide(0x0236, q1), AddWide(PickWide(0x046c, q2), AddWide(PickWide(0x08d8, q3),
        AddWide(PickWide(0x11b0, q4), AddWide(PickWide(0x2360, q5), AddWide(PickWide(0x46c0, q6), AddWide(PickWide(0x8d80, q7), 0))))))))
  {
    hide AddWide, PickWide, Half;
    var q0 := q;
    var q1 := Half(q0);
    var q2 := Half(q1);
    var q3 := Half(q2);
    var q4 := Half(q3);
    var q5 := Half(q4);
    var q6 := Half(q5);
    var q7 := Half(q6);
    var q8 := Half(q7);
    ProductStep(0x011b, q0, 7);
    ProductStep(0x0236, q1, 6);
    ProductStep(0x046c, q2, 5);
    ProductStep(0x08d8, q3, 4);
    ProductStep(0x11b0, q4, 3);
    ProductStep(0x2360, q5, 2);
    ProductStep(0x46c0, q6, 1);
    ProductStep(0x8d80, q7, 0);
    hide Product;
  }

  // A multiple of the modulus of degree below 8 is zero.
  lemma SmallMultiple(q: Byte)
    requires Product(MODULUS, q, 8) & 0xff00 == 0
    ensures q == 0
  {
    hide Product;
    MultipleUnrolled(q);
    MultipleBits(q);
  }

  lemma WidenSmall(a: Byte)
    ensures Widen(a) & 0xff00 == 0
  {}

  lemma WidenInjective(a: Byte, b: Byte)
    requires Widen(a) == Widen(b)
    ensures a == b
  {}

  lemma SameSum(a: bv16, b: bv16, c: bv16, d: bv16)
    requires AddWide(a, b) == AddWide(c, d)
    ensures AddWide(b, d) == AddWide(a, c)
  {
    hide AddWide;
    InterchangeWide(a, b, c, d);
    AddWideZero(AddWide(a, b));
    AddWideCancel(AddWide(a, c), AddWide(b, d));
  }

  lemma RemainderUnique(r: Byte, q: Byte, r': Byte, q': Byte)
    requires AddWide(Widen(r), Product(MODULUS, q, 8)) == AddWide(Widen(r'), Product(MODULUS, q', 8))
    ensures r == r' && q == q'
  {
    hide Product, AddWide, Widen, Add;
    SameSum(Widen(r), Product(MODULUS, q, 8), Widen(r'), Product(MODULUS, q', 8));
    ProductAddRight(MODULUS, q, q', 8);
    WidenAdd(r, r');
    WidenSmall(Add(r, r'));
    SmallMultiple(Add(q, q'));
    AddCancel(q, q');
    AddWideZero(Product(MODULUS, q, 8));
    AddWideCancel(Widen(r), Widen(r'));
    WidenInjective(r, r');
  }

  // Multiplication in GF(2^8) as section 4.2 of FIPS 197 defines it: the one
  // polynomial of degree below 8 congruent to the product modulo x^8+x^4+x^3+x+1.
  lemma MulIsProductModulo(a: Byte, b: Byte, r: Byte)
    ensures r == Mul(a, b)
      <==> exists q :: Product(Widen(a), b, 8) == AddWide(Widen(r), Product(MODULUS, q, 8))
  {
    hide Product, AddWide, Widen, MulBits;
    FitsEight(b);
    var q0 := Reduces(a, b, 8);
    if q :| Product(Widen(a), b, 8) == AddWide(Widen(r), Product(MODULUS, q, 8)) {
      RemainderUnique(r, q, Mul(a, b), q0);
    }
  }
}
