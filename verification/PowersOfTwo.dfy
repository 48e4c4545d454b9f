/**
 The element 2 generates GF(2^8): its first 255 powers are different from each other and are all
 the nonzero elements.  Two consequences carry the theory of the code: a product of nonzero
 elements is nonzero, and positions below 255 have different locators.
 */
module PowersOfTwo {
  import opened Bytes
  import opened GaloisField

  // ---- the orbit of 1 under multiplication by 2 returns to 1 after 255 steps and not before ----

  /** b is the double of a, in decimal arithmetic: subtracting 0x11D toggles the bits 4, 8 and 16. */
  predicate Doubles(a: int, b: int) {
    if a < 128 then b == 2 * a
    else b == 2 * a - 255 + (if a / 2 % 2 == 0 then 4 else -4)
                          + (if a / 2 / 2 % 2 == 0 then 8 else -8) + (if a / 2 / 2 / 2 % 2 == 0 then 16 else -16)
  }

  lemma XorOfDoubles(x: nat, xb: nat, y: nat, yb: nat)
    requires xb < 2 && yb < 2
    ensures Xor(2 * x + xb, 2 * y + yb) == (if xb == yb then 0 else 1) + 2 * Xor(x, y)
  {
    hide Xor;
    XorUnfold(2 * x + xb, 2 * y + yb);
  }

  lemma ToggleEight(u: nat, v: nat, w: nat)
    requires u < 2 && v < 2 && w < 2
    ensures Xor(2 * (2 * (2 * 1 + u) + v) + w, 8) == 2 * (2 * u + v) + w
  {
    hide Xor;
    XorSelf(1);
    XorOfDoubles(1, u, 1, 0);
    XorOfDoubles(2 * 1 + u, v, 2, 0);
    XorOfDoubles(2 * (2 * 1 + u) + v, w, 4, 0);
  }

  lemma ToggleEightAny(c: nat)
    requires 8 <= c < 16
    ensures Xor(c, 8) == c - 8
  {
    hide Xor;
    var h := c / 2;
    var i := h / 2;
    ToggleEight(i % 2, h % 2, c % 2);
  }

  /** The byte whose bits from 8 down to 1 are p, q, r and t, and whose high half is c. */
  lemma XorWithModulus(c: nat, p: nat, q: nat, r: nat, t: nat)
    requires 8 <= c < 16 && p < 2 && q < 2 && r < 2 && t < 2
    ensures var a := 2 * (2 * (2 * (2 * c + p) + q) + r) + t;
            Xor(2 * a, 0x11D) == 2 * a - 255 + (4 - 8 * r) + (8 - 16 * q) + (16 - 32 * p)
  {
    hide Xor;
    ToggleEightAny(c);
    XorOfDoubles(c, p, 8, 1);
    XorOfDoubles(2 * c + p, q, 17, 1);
    XorOfDoubles(2 * (2 * c + p) + q, r, 35, 1);
    XorOfDoubles(2 * (2 * (2 * c + p) + q) + r, t, 71, 0);
    XorOfDoubles(2 * (2 * (2 * (2 * c + p) + q) + r) + t, 0, 142, 1);
  }

  lemma DoublesIsTimesX(a: Byte, b: int)
    requires Doubles(a, b)
    ensures TimesX(a) == b
  {
    if a >= 128 {
      var h := a / 2;
      var i := h / 2;
      var j := i / 2;
      XorWithModulus(j / 2, j % 2, i % 2, h % 2, a % 2);
      hide Xor;
    }
  }

  ghost predicate NotOne(k: nat) {
    forall i :: 0 < i <= k ==> Power(i) != 1
  }

  lemma Step(k: nat, a: Byte, b: Byte)
    requires Power(k) == a && NotOne(k) && Doubles(a, b) && b != 1
    ensures Power(k + 1) == b && NotOne(k + 1)
  {
    DoublesIsTimesX(a, b);
  }

  lemma Eight(k: nat, a: Byte, b: Byte, c: Byte, d: Byte, e: Byte, f: Byte, g: Byte, h: Byte, i: Byte)
    requires Power(k) == a && NotOne(k)
    requires b != 1 && c != 1 && d != 1 && e != 1 && f != 1 && g != 1 && h != 1 && i != 1
    requires Doubles(a, b) && Doubles(b, c) && Doubles(c, d) && Doubles(d, e)
    requires Doubles(e, f) && Doubles(f, g) && Doubles(g, h) && Doubles(h, i)
    ensures Power(k + 8) == i && NotOne(k + 8)
  {
    hide Power, NotOne, Doubles;
    Step(k, a, b);
    Step(k + 1, b, c);
    Step(k + 2, c, d);
    Step(k + 3, d, e);
    Step(k + 4, e, f);
    Step(k + 5, f, g);
    Step(k + 6, g, h);
    Step(k + 7, h, i);
  }

  lemma Run0(k: nat)
    requires Power(k) == 1 && NotOne(k)
    ensures Power(k + 40) == 106 && NotOne(k + 40)
  {
    hide Power, NotOne;
    Eight(k, 1, 2, 4, 8, 16, 32, 64, 128, 29);
    Eight(k + 8, 29, 58, 116, 232, 205, 135, 19, 38, 76);
    Eight(k + 16, 76, 152, 45, 90, 180, 117, 234, 201, 143);
    Eight(k + 24, 143, 3, 6, 12, 24, 48, 96, 192, 157);
    Eight(k + 32, 157, 39, 78, 156, 37, 74, 148, 53, 106);
  }

  lemma Run1(k: nat)
    requires Power(k) == 106 && NotOne(k)
    ensures Power(k + 40) == 253 && NotOne(k + 40)
  {
    hide Power, NotOne;
    Eight(k, 106, 212, 181, 119, 238, 193, 159, 35, 70);
    Eight(k + 8, 70, 140, 5, 10, 20, 40, 80, 160, 93);
    Eight(k + 16, 93, 186, 105, 210, 185, 111, 222, 161, 95);
    Eight(k + 24, 95, 190, 97, 194, 153, 47, 94, 188, 101);
    Eight(k + 32, 101, 202, 137, 15, 30, 60, 120, 240, 253);
  }

  lemma Run2(k: nat)
    requires Power(k) == 253 && NotOne(k)
    ensures Power(k + 40) == 59 && NotOne(k + 40)
  {
    hide Power, NotOne;
    Eight(k, 253, 231, 211, 187, 107, 214, 177, 127, 254);
    Eight(k + 8, 254, 225, 223, 163, 91, 182, 113, 226, 217);
    Eight(k + 16, 217, 175, 67, 134, 17, 34, 68, 136, 13);
    Eight(k + 24, 13, 26, 52, 104, 208, 189, 103, 206, 129);
    Eight(k + 32, 129, 31, 62, 124, 248, 237, 199, 147, 59);
  }

  lemma Run3(k: nat)
    requires Power(k) == 59 && NotOne(k)
    ensures Power(k + 40) == 230 && NotOne(k + 40)
  {
    hide Power, NotOne;
    Eight(k, 59, 118, 236, 197, 151, 51, 102, 204, 133);
    Eight(k + 8, 133, 23, 46, 92, 184, 109, 218, 169, 79);
    Eight(k + 16, 79, 158, 33, 66, 132, 21, 42, 84, 168);
    Eight(k + 24, 168, 77, 154, 41, 82, 164, 85, 170, 73);
    Eight(k + 32, 73, 146, 57, 114, 228, 213, 183, 115, 230);
  }

  lemma Run4(k: nat)
    requires Power(k) == 230 && NotOne(k)
    ensures Power(k + 40) == 28 && NotOne(k + 40)
  {
    hide Power, NotOne;
    Eight(k, 230, 209, 191, 99, 198, 145, 63, 126, 252);
    Eight(k + 8, 252, 229, 215, 179, 123, 246, 241, 255, 227);
    Eight(k + 16, 227, 219, 171, 75, 150, 49, 98, 196, 149);
    Eight(k + 24, 149, 55, 110, 220, 165, 87, 174, 65, 130);
    Eight(k + 32, 130, 25, 50, 100, 200, 141, 7, 14, 28);
  }

  lemma Run5(k: nat)
    requires Power(k) == 28 && NotOne(k)
    ensures Power(k + 24) == 18 && NotOne(k + 24)
  {
    hide Power, NotOne;
    Eight(k, 28, 56, 112, 224, 221, 167, 83, 166, 81);
    Eight(k + 8, 81, 162, 89, 178, 121, 242, 249, 239, 195);
    Eight(k + 16, 195, 155, 43, 86, 172, 69, 138, 9, 18);
  }

  lemma Run6(k: nat)
    requires Power(k) == 18 && NotOne(k)
    ensures Power(k + 24) == 27 && NotOne(k + 24)
  {
    hide Power, NotOne;
    Eight(k, 18, 36, 72, 144, 61, 122, 244, 245, 247);
    Eight(k + 8, 247, 243, 251, 235, 203, 139, 11, 22, 44);
    Eight(k + 16, 44, 88, 176, 125, 250, 233, 207, 131, 27);
  }

  lemma PowerZero()
    ensures Power(0) == 1 && NotOne(0)
  {
  }

  lemma NoEarlyReturn()
    ensures NotOne(254)
  {
    hide Power, NotOne;
    PowerZero();
    Run0(0);
    Run1(40);
    Run2(80);
    Run3(120);
    Run4(160);
    Run5(200);
    Run6(224);
    Step(248, 27, 54);
    Step(249, 54, 108);
    Step(250, 108, 216);
    Step(251, 216, 173);
    Step(252, 173, 71);
    Step(253, 71, 142);
  }

  // ---- consequences ----

  lemma TimesXOfNonzero(a: Byte)
    requires a != 0
    ensures TimesX(a) != 0
  {
    if a >= 128 && TimesX(a) == 0 {
      XorZeroOnlySelf(2 * a, 0x11D);
    }
  }

  lemma {:induction false} ShiftInjective(n: nat, a: Byte, b: Byte)
    requires Shift(n, a) == Shift(n, b)
    ensures a == b
  {
    if n > 0 {
      var u, v := Shift(n - 1, a), Shift(n - 1, b);
      TimesXLinear(u, v);
      AddLaws(TimesX(u), 0, 0);
      if Add(u, v) != 0 {
        TimesXOfNonzero(Add(u, v));
      }
      XorZeroOnlySelf(u, v);
      ShiftInjective(n - 1, a, b);
    }
  }

  lemma PowersDiffer(i: nat, j: nat)
    requires i < j < 255
    ensures Power(i) != Power(j)
  {
    if Power(i) == Power(j) {
      NoEarlyReturn();
      ShiftAdd(i, j - i, 1);
      ShiftInjective(i, Power(j - i), 1);
    }
  }

  lemma {:induction false} PowerNonzero(n: nat)
    ensures Power(n) != 0
  {
    if n > 0 {
      PowerNonzero(n - 1);
      TimesXOfNonzero(Power(n - 1));
    }
  }

  ghost function PowersBelow(n: nat): set<int> {
    if n == 0 then {} else PowersBelow(n - 1) + {Power(n - 1)}
  }

  lemma {:induction false} ExponentIn(n: nat, x: int) returns (k: nat)
    requires x in PowersBelow(n)
    ensures k < n && Power(k) == x
  {
    if Power(n - 1) == x {
      k := n - 1;
    } else {
      k := ExponentIn(n - 1, x);
    }
  }

  lemma {:induction false} CountPowers(n: nat)
    requires n <= 255
    ensures |PowersBelow(n)| == n
  {
    if n > 0 {
      CountPowers(n - 1);
      if Power(n - 1) as int in PowersBelow(n - 1) {
        var k := ExponentIn(n - 1, Power(n - 1));
        PowersDiffer(k, n - 1);
      }
    }
  }

  ghost function OneTo(n: nat): (s: set<int>)
    ensures forall x :: x in s <==> 1 <= x <= n
    ensures |s| == n
  {
    if n == 0 then {} else OneTo(n - 1) + {n}
  }

  lemma SubsetOfSameSize<T>(s: set<T>, t: set<T>, x: T)
    requires s <= t && |s| == |t| && x in t
    ensures x in s
  {
    if x !in s {
      assert s <= t - {x};
      SubsetNotLarger(s, t - {x});
    }
  }

  lemma {:induction false} SubsetNotLarger<T>(s: set<T>, t: set<T>)
    requires s <= t
    ensures |s| <= |t|
  {
    if s != {} {
      var x :| x in s;
      SubsetNotLarger(s - {x}, t - {x});
    }
  }

  /** Every nonzero element has a logarithm. */
  lemma Logarithm(a: Byte) returns (k: nat)
    requires a != 0
    ensures k < 255 && Power(k) == a
  {
    hide Power, PowersBelow, OneTo;
    CountPowers(255);
    forall x | x in PowersBelow(255) ensures x in OneTo(255) {
      var j := ExponentIn(255, x);
      PowerNonzero(j);
    }
    SubsetOfSameSize(PowersBelow(255), OneTo(255), a);
    k := ExponentIn(255, a);
  }

  lemma PowerProduct(i: nat, j: nat)
    ensures Mul(Power(i), Power(j)) == Power(i + j)
  {
    MulOfShift(i, 1, Power(j));
    MulByOne(Power(j));
    ShiftAdd(i, j, 1);
  }

  lemma NoZeroDivisors(a: Byte, b: Byte)
    requires a != 0 && b != 0
    ensures Mul(a, b) != 0
  {
    var i := Logarithm(a);
    var j := Logarithm(b);
    PowerProduct(i, j);
    PowerNonzero(i + j);
  }
}
