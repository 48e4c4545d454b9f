/**
 The field GF(2^8) of polynomials over GF(2) modulo x^8 + x^4 + x^3 + x^2 + 1 (0x11D), as
 deps/qrcodegen.cpp computes in it.  `Mul` is the sum of the multiples of one factor by the powers
 of x that the bits of the other factor select; the loop of the program is proved to compute it.
 */
module GaloisField {
  import opened Bytes

  const MODULUS := 0x11D

  function Add(a: Byte, b: Byte): (c: Byte)
    ensures c == Xor(a, b)
  {
    XorBelow(a, b, 8);
    Xor(a, b)
  }

  /** Multiplication by the polynomial x (the byte 2). */
  function TimesX(a: Byte): Byte {
    XorTopBit(2 * a, MODULUS, 8);
    if a < 128 then 2 * a else Xor(2 * a, MODULUS)
  }

  function Shift(n: nat, a: Byte): Byte {
    if n == 0 then a else TimesX(Shift(n - 1, a))
  }

  /** The powers of the generator element 2. */
  function Power(n: nat): Byte {
    Shift(n, 1)
  }

  function Part(x: Byte, y: Byte, n: nat): Byte {
    if n == 0 then 0 else Add(Part(x, y, n - 1), if Bit(y, n - 1) then Shift(n - 1, x) else 0)
  }

  function Mul(x: Byte, y: Byte): Byte {
    Part(x, y, 8)
  }

  // ---- addition is a commutative group in which every element is its own inverse ----

  lemma AddLaws(a: Byte, b: Byte, c: Byte)
    ensures Add(a, b) == Add(b, a)
    ensures Add(Add(a, b), c) == Add(a, Add(b, c))
    ensures Add(a, a) == 0 && Add(a, 0) == a && Add(0, a) == a
  {
    XorCommutes(a, b);
    XorAssociates(a, b, c);
    XorSelf(a);
  }

  lemma AddSwap(a: Byte, b: Byte, c: Byte, d: Byte)
    ensures Add(Add(a, b), Add(c, d)) == Add(Add(a, c), Add(b, d))
  {
    XorSwap(a, b, c, d);
  }

  // ---- linearity ----

  lemma XorDouble(a: nat, b: nat)
    ensures Xor(2 * a, 2 * b) == 2 * Xor(a, b)
  {
  }

  lemma TimesXLinear(a: Byte, b: Byte)
    ensures TimesX(Add(a, b)) == Add(TimesX(a), TimesX(b))
  {
    XorTopBit(a, b, 7);
    XorDouble(a, b);
    var ra := if a < 128 then 0 else MODULUS;
    var rb := if b < 128 then 0 else MODULUS;
    XorSwap(2 * a, ra, 2 * b, rb);
    XorSelf(MODULUS);
    XorSelf(2 * a);
    XorSelf(2 * b);
    XorSelf(Xor(2 * a, 2 * b));
  }

  lemma {:induction false} ShiftLinear(n: nat, a: Byte, b: Byte)
    ensures Shift(n, Add(a, b)) == Add(Shift(n, a), Shift(n, b))
  {
    if n > 0 {
      ShiftLinear(n - 1, a, b);
      TimesXLinear(Shift(n - 1, a), Shift(n - 1, b));
    }
  }

  lemma {:induction false} ShiftAdd(m: nat, n: nat, a: Byte)
    ensures Shift(m, Shift(n, a)) == Shift(m + n, a)
  {
    if m > 0 { ShiftAdd(m - 1, n, a); }
  }

  lemma {:induction false} ShiftZero(n: nat)
    ensures Shift(n, 0) == 0
  {
    if n > 0 { ShiftZero(n - 1); }
  }

  lemma {:induction false} PartAdditive(x: Byte, a: Byte, b: Byte, n: nat)
    ensures Part(x, Add(a, b), n) == Add(Part(x, a, n), Part(x, b, n))
  {
    if n > 0 {
      PartAdditive(x, a, b, n - 1);
      BitXor(a, b, n - 1);
      var s := Shift(n - 1, x);
      AddLaws(s, 0, 0);
      AddSwap(Part(x, a, n - 1), Part(x, b, n - 1), if Bit(a, n - 1) then s else 0, if Bit(b, n - 1) then s else 0);
    }
  }

  lemma {:induction false} PartLinear(x: Byte, w: Byte, y: Byte, n: nat)
    ensures Part(Add(x, w), y, n) == Add(Part(x, y, n), Part(w, y, n))
  {
    if n > 0 {
      PartLinear(x, w, y, n - 1);
      ShiftLinear(n - 1, x, w);
      var sx := if Bit(y, n - 1) then Shift(n - 1, x) else 0;
      var sw := if Bit(y, n - 1) then Shift(n - 1, w) else 0;
      AddSwap(Part(x, y, n - 1), Part(w, y, n - 1), sx, sw);
    }
  }

  lemma Distributes(x: Byte, a: Byte, b: Byte)
    ensures Mul(x, Add(a, b)) == Add(Mul(x, a), Mul(x, b))
    ensures Mul(Add(a, b), x) == Add(Mul(a, x), Mul(b, x))
  {
    PartAdditive(x, a, b, 8);
    PartLinear(a, b, x, 8);
  }

  // ---- the multiples of x ----

  lemma {:induction false} PartOfDouble(x: Byte, u: nat, n: nat)
    requires u < 128
    ensures Part(x, 2 * u, n + 1) == TimesX(Part(x, u, n))
  {
    assert forall k: nat :: Bit(2 * u, k + 1) == Bit(u, k);
    if n == 0 {
      assert !Bit(2 * u, 0);
      assert Part(x, 2 * u, 1) == Add(0, 0);
    } else {
      PartOfDouble(x, u, n - 1);
      TimesXLinear(Part(x, u, n - 1), if Bit(u, n - 1) then Shift(n - 1, x) else 0);
    }
  }

  lemma {:induction false} PartOfOne(x: Byte, n: nat)
    requires n > 0
    ensures Part(x, 1, n) == x
  {
    AddLaws(x, 0, 0);
    if n > 1 {
      PartOfOne(x, n - 1);
      assert !Bit(0, n - 2) by { BitOfZero(n - 2); }
    }
  }

  lemma {:induction false} BitOfZero(k: nat)
    ensures !Bit(0, k)
  {
    if k > 0 { BitOfZero(k - 1); }
  }

  lemma {:induction false} PartFromOne(y: Byte, n: nat)
    requires y < Pow2(n) && n <= 8
    ensures Part(1, y, n) == y
  {
    if n > 0 {
      var u := y / 2;
      PartFromOne(u, n - 1);
      PartOfDouble(1, u, n - 1);
      if y % 2 == 1 {
        XorOdd(u);
        PartAdditive(1, 2 * u, 1, n);
        PartOfOne(1, n);
      }
    }
  }

  lemma XorOdd(u: nat)
    ensures Xor(2 * u, 1) == 2 * u + 1
  {
  }

  lemma MulByOne(x: Byte)
    ensures Mul(1, x) == x && Mul(x, 1) == x && Mul(x, 0) == 0 && Mul(0, x) == 0
  {
    PartFromOne(x, 8);
    PartOfOne(x, 8);
    Distributes(x, 0, 0);
    AddLaws(0, 0, 0);
    AddLaws(Mul(x, 0), 0, 0);
    AddLaws(Mul(0, x), 0, 0);
  }

  // ---- multiplication is commutative and associative ----

  lemma {:induction false} PartOfTimesX(u: Byte, y: Byte, n: nat)
    ensures Part(TimesX(u), y, n) == TimesX(Part(u, y, n))
  {
    if n > 0 {
      PartOfTimesX(u, y, n - 1);
      ShiftAdd(n - 1, 1, u);
      TimesXLinear(Part(u, y, n - 1), if Bit(y, n - 1) then Shift(n - 1, u) else 0);
    }
  }

  lemma {:induction false} MulOfShift(n: nat, u: Byte, y: Byte)
    ensures Mul(Shift(n, u), y) == Shift(n, Mul(u, y))
  {
    if n > 0 {
      MulOfShift(n - 1, u, y);
      PartOfTimesX(Shift(n - 1, u), y, 8);
    }
  }

  lemma {:induction false} MulOfPart(u: Byte, x: Byte, y: Byte, n: nat)
    ensures Mul(Part(u, x, n), y) == Part(Mul(u, y), x, n)
  {
    MulByOne(y);
    if n > 0 {
      MulOfPart(u, x, y, n - 1);
      MulOfShift(n - 1, u, y);
      Distributes(y, Part(u, x, n - 1), if Bit(x, n - 1) then Shift(n - 1, u) else 0);
    }
  }

  lemma MulCommutes(x: Byte, y: Byte)
    ensures Mul(x, y) == Mul(y, x)
  {
    MulByOne(x);
    MulByOne(y);
    MulOfPart(1, x, y, 8);
  }

  lemma MulAssociates(x: Byte, y: Byte, z: Byte)
    ensures Mul(Mul(x, y), z) == Mul(x, Mul(y, z))
  {
    MulCommutes(x, Mul(y, z));
    MulOfPart(y, z, x, 8);
    MulCommutes(x, y);
  }

  // ---- the program's multiplication ----

  lemma MulOfDouble(x: Byte, u: nat, b: nat)
    requires u < 128 && b < 2
    ensures Mul(x, 2 * u + b) == Add(TimesX(Mul(x, u)), if b == 1 then x else 0)
  {
    BitOfSmall(u, 7);
    AddLaws(Part(x, u, 7), 0, 0);
    PartOfDouble(x, u, 7);
    assert Mul(x, 2 * u) == TimesX(Mul(x, u));
    if b == 1 {
      XorOdd(u);
      Distributes(x, 2 * u, 1);
      MulByOne(x);
    } else {
      AddLaws(Mul(x, 2 * u), 0, 0);
    }
  }

  lemma {:induction false} BitOfSmall(u: nat, k: nat)
    requires u < Pow2(k)
    ensures !Bit(u, k)
  {
    if k > 0 { BitOfSmall(u / 2, k - 1); }
  }

  /** One round of the loop: z doubles modulo 0x11D and takes up x when the bit is set. */
  function PeasantRound(z: nat, bit: nat, x: Byte): nat {
    Xor(Xor(2 * z, (z / 128) * MODULUS), bit * x)
  }

  lemma PeasantStep(x: Byte, u: nat, b: nat)
    requires u < 128 && b < 2
    ensures PeasantRound(Mul(x, u), b, x) == Mul(x, 2 * u + b)
  {
    MulOfDouble(x, u, b);
    var z: nat := Mul(x, u);
    XorSelf(2 * z);
    XorSelf(TimesX(z));
    assert Xor(2 * z, (z / 128) * MODULUS) == TimesX(z) by {
      if z < 128 {
        assert z / 128 == 0;
      } else {
        assert z / 128 == 1;
      }
    }
    if b == 0 {
      assert b * x == 0;
    } else {
      assert b * x == x;
    }
  }

  lemma HighBits(y: Byte, i: nat)
    requires i < 8
    ensures ShiftRight(y, i + 1) < 128 && ShiftRight(y, i) < 256
    ensures ShiftRight(y, i) == 2 * ShiftRight(y, i + 1) + ShiftRight(y, i) % 2
  {
    ShiftRightOnce(y, i);
    assert Pow2(8) == 256 && Pow2(7) == 128;
    PowGrows(8 - i, 8);
    ShiftRightBelow(y, i, 8 - i);
  }

  lemma NothingAboveAByte(y: Byte)
    ensures ShiftRight(y, 8) == 0 && ShiftRight(y, 0) == y
  {
    assert Pow2(8) == 256;
    ShiftRightBelow(y, 8, 0);
  }

  /** Russian peasant multiplication: the bits of y from the highest to the lowest. */
  method ReedSolomonMultiply(x: Byte, y: Byte) returns (r: Byte)
    ensures r == Mul(x, y)
  {
    hide ShiftRight, PeasantRound, Mul;
    var z: nat := 0;
    var i := 7;
    NothingAboveAByte(y);
    MulByOne(x);
    while i >= 0
      invariant -1 <= i <= 7
      invariant ShiftRight(y, i + 1) < 256 && z == Mul(x, ShiftRight(y, i + 1))
    {
      HighBits(y, i);
      PeasantStep(x, ShiftRight(y, i + 1), ShiftRight(y, i) % 2);
      z := PeasantRound(z, ShiftRight(y, i) % 2, x);
      i := i - 1;
    }
    r := z;
  }
}
