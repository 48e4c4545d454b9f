/**
 Bytes as integers 0..255, with the bitwise operations the modules need written out on integers:
 exclusive or and the value of one bit.
 */
module Bytes {

  type Byte = x: int | 0 <= x < 256

  /** Numbers of 64 bits are below this. */
  const UINT64 := 0x1_0000_0000_0000_0000

  function Pow2(n: nat): (p: nat)
    ensures p > 0
  {
    if n == 0 then 1 else 2 * Pow2(n - 1)
  }

  lemma {:induction false} PowGrows(m: nat, n: nat)
    requires m <= n
    ensures Pow2(m) <= Pow2(n)
  {
    if m < n { PowGrows(m, n - 1); }
  }

  function ShiftRight(y: nat, k: nat): nat {
    if k == 0 then y else ShiftRight(y / 2, k - 1)
  }

  /** The bit of weight 2^k. */
  predicate Bit(y: nat, k: nat) {
    ShiftRight(y, k) % 2 == 1
  }

  lemma {:induction false} ShiftRightOnce(y: nat, k: nat)
    ensures ShiftRight(y, k + 1) == ShiftRight(y, k) / 2
  {
    if k > 0 { ShiftRightOnce(y / 2, k - 1); }
  }

  lemma {:induction false} ShiftRightBelow(y: nat, k: nat, n: nat)
    requires y < Pow2(k + n)
    ensures ShiftRight(y, k) < Pow2(n)
  {
    if k > 0 { ShiftRightBelow(y / 2, k - 1, n); }
  }

  function Xor(a: nat, b: nat): nat {
    if a == 0 then b
    else if b == 0 then a
    else (if a % 2 == b % 2 then 0 else 1) + 2 * Xor(a / 2, b / 2)
  }

  lemma {:induction false} XorUnfold(a: nat, b: nat)
    ensures Xor(a, b) % 2 == (if a % 2 == b % 2 then 0 else 1)
    ensures Xor(a, b) / 2 == Xor(a / 2, b / 2)
  {
    if a == 0 {
      assert Xor(a / 2, b / 2) == b / 2;
    } else if b == 0 {
      assert Xor(a / 2, b / 2) == a / 2;
    } else {
      HalfOf(if a % 2 == b % 2 then 0 else 1, Xor(a / 2, b / 2));
    }
  }

  lemma HalfOf(p: nat, t: nat)
    requires p < 2
    ensures (p + 2 * t) % 2 == p && (p + 2 * t) / 2 == t
  {
  }

  lemma {:induction false} XorSelf(a: nat)
    ensures Xor(a, a) == 0 && Xor(a, 0) == a
  {
    if a > 0 { XorSelf(a / 2); }
  }

  lemma {:induction false} XorZeroOnlySelf(a: nat, b: nat)
    requires Xor(a, b) == 0
    ensures a == b
  {
    if a > 0 && b > 0 { XorZeroOnlySelf(a / 2, b / 2); }
  }

  lemma {:induction false} XorCommutes(a: nat, b: nat)
    ensures Xor(a, b) == Xor(b, a)
  {
    if a > 0 && b > 0 { XorCommutes(a / 2, b / 2); }
  }

  lemma {:induction false} XorAssociates(a: nat, b: nat, c: nat)
    ensures Xor(Xor(a, b), c) == Xor(a, Xor(b, c))
  {
    if a > 0 && b > 0 && c > 0 {
      XorUnfold(a, b);
      XorUnfold(b, c);
      XorUnfold(Xor(a, b), c);
      XorUnfold(a, Xor(b, c));
      XorAssociates(a / 2, b / 2, c / 2);
    }
  }

  lemma XorSwap(a: nat, b: nat, c: nat, d: nat)
    ensures Xor(Xor(a, b), Xor(c, d)) == Xor(Xor(a, c), Xor(b, d))
  {
    XorAssociates(a, b, Xor(c, d));
    XorAssociates(b, c, d);
    XorCommutes(b, c);
    XorAssociates(c, b, d);
    XorAssociates(a, c, Xor(b, d));
  }

  lemma {:induction false} XorBelow(a: nat, b: nat, n: nat)
    requires a < Pow2(n) && b < Pow2(n)
    ensures Xor(a, b) < Pow2(n)
  {
    if a > 0 && b > 0 { XorBelow(a / 2, b / 2, n - 1); }
  }

  /** The highest of n + 1 bits of an exclusive or. */
  lemma {:induction false} XorTopBit(a: nat, b: nat, n: nat)
    requires a < Pow2(n + 1) && b < Pow2(n + 1)
    ensures Xor(a, b) >= Pow2(n) <==> (a >= Pow2(n)) != (b >= Pow2(n))
  {
    if a > 0 && b > 0 && n > 0 { XorTopBit(a / 2, b / 2, n - 1); }
  }

  lemma {:induction false} BitXor(a: nat, b: nat, k: nat)
    ensures Bit(Xor(a, b), k) == (Bit(a, k) != Bit(b, k))
  {
    XorUnfold(a, b);
    if k > 0 { BitXor(a / 2, b / 2, k - 1); }
  }
}
