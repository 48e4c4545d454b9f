/**
 The Reed-Solomon code of deps/qrcodegen.cpp.  A polynomial over GF(2^8) is the sequence of its
 coefficients from the highest power to the lowest.
 */
module ReedSolomon {
  import opened Bytes
  import opened GaloisField

  type Poly = seq<Byte>

  /** The value of p at x, by Horner's rule. */
  function Eval(p: Poly, x: Byte): Byte {
    if p == [] then 0 else Add(Mul(Eval(p[..|p| - 1], x), x), p[|p| - 1])
  }

  function Zeros(n: nat): (p: Poly)
    ensures |p| == n
  {
    seq(n, _ => 0)
  }

  function Sum(p: Poly, q: Poly): (s: Poly)
    requires |p| == |q|
    ensures |s| == |p|
  {
    seq(|p|, k requires 0 <= k < |p| => Add(p[k], q[k]))
  }

  function Scale(p: Poly, c: Byte): (s: Poly)
    ensures |s| == |p|
  {
    seq(|p|, k requires 0 <= k < |p| => Mul(p[k], c))
  }

  /** The product of p and the polynomial x - r (subtraction is addition in this field). */
  function TimesLinear(p: Poly, r: Byte): (q: Poly)
    ensures |q| == |p| + 1
  {
    Sum(p + [0], [0] + Scale(p, r))
  }

  /** (x - 2^0)(x - 2^1)...(x - 2^(d-1)) */
  function Generator(d: nat): (g: Poly)
    ensures |g| == d + 1
  {
    if d == 0 then [1] else TimesLinear(Generator(d - 1), Power(d - 1))
  }

  function PowerOf(x: Byte, n: nat): Byte {
    if n == 0 then 1 else Mul(PowerOf(x, n - 1), x)
  }

  // ---- evaluation is linear ----

  lemma {:induction false} EvalSum(p: Poly, q: Poly, x: Byte)
    requires |p| == |q|
    ensures Eval(Sum(p, q), x) == Add(Eval(p, x), Eval(q, x))
  {
    if p == [] {
      AddLaws(0, 0, 0);
    } else {
      var n := |p| - 1;
      assert Sum(p, q)[..n] == Sum(p[..n], q[..n]);
      EvalSum(p[..n], q[..n], x);
      var a, b := Eval(p[..n], x), Eval(q[..n], x);
      Distributes(x, a, b);
      AddSwap(Mul(a, x), Mul(b, x), p[n], q[n]);
    }
  }

  lemma {:induction false} EvalScale(p: Poly, c: Byte, x: Byte)
    ensures Eval(Scale(p, c), x) == Mul(Eval(p, x), c)
  {
    if p == [] {
      MulByOne(c);
    } else {
      var n := |p| - 1;
      assert Scale(p, c)[..n] == Scale(p[..n], c);
      EvalScale(p[..n], c, x);
      var a := Eval(p[..n], x);
      MulAssociates(a, c, x);
      MulAssociates(a, x, c);
      MulCommutes(c, x);
      Distributes(c, Mul(a, x), p[n]);
    }
  }

  lemma {:induction false} EvalConcat(p: Poly, q: Poly, x: Byte)
    ensures Eval(p + q, x) == Add(Mul(Eval(p, x), PowerOf(x, |q|)), Eval(q, x))
  {
    var a := Eval(p, x);
    if q == [] {
      assert p + q == p;
      MulByOne(a);
      AddLaws(a, 0, 0);
    } else {
      var n := |q| - 1;
      assert (p + q)[..|p| + n] == p + q[..n];
      EvalConcat(p, q[..n], x);
      var w, b := PowerOf(x, n), Eval(q[..n], x);
      Distributes(x, Mul(a, w), b);
      MulAssociates(a, w, x);
      AddLaws(Mul(a, Mul(w, x)), Mul(b, x), q[n]);
    }
  }

  lemma EvalOne(c: Byte, x: Byte)
    ensures Eval([c], x) == c
  {
    assert [c][..0] == [];
    MulByOne(x);
    AddLaws(c, 0, 0);
  }

  lemma {:induction false} EvalZeros(n: nat, x: Byte)
    ensures Eval(Zeros(n), x) == 0
  {
    if n > 0 {
      assert Zeros(n)[..n - 1] == Zeros(n - 1);
      EvalZeros(n - 1, x);
      MulByOne(x);
      AddLaws(0, 0, 0);
    }
  }

  lemma EvalAppendZero(p: Poly, x: Byte)
    ensures Eval(p + [0], x) == Mul(Eval(p, x), x)
  {
    assert (p + [0])[..|p|] == p;
    AddLaws(Mul(Eval(p, x), x), 0, 0);
  }

  lemma EvalPrependZero(p: Poly, x: Byte)
    ensures Eval([0] + p, x) == Eval(p, x)
  {
    EvalConcat([0], p, x);
    EvalOne(0, x);
    MulByOne(PowerOf(x, |p|));
    AddLaws(Eval(p, x), 0, 0);
  }

  lemma EvalTimesLinear(p: Poly, r: Byte, x: Byte)
    ensures Eval(TimesLinear(p, r), x) == Mul(Eval(p, x), Add(x, r))
  {
    EvalSum(p + [0], [0] + Scale(p, r), x);
    EvalAppendZero(p, x);
    EvalPrependZero(Scale(p, r), x);
    EvalScale(p, r, x);
    Distributes(Eval(p, x), x, r);
  }

  // ---- the generator polynomial ----

  lemma {:induction false} GeneratorRoots(d: nat, i: nat)
    requires i < d
    ensures Eval(Generator(d), Power(i)) == 0
  {
    hide Add, Mul, Eval, TimesLinear, Power;
    var x, r := Power(i), Power(d - 1);
    EvalTimesLinear(Generator(d - 1), r, x);
    MulByOne(Add(x, r));
    MulByOne(Eval(Generator(d - 1), x));
    if i == d - 1 {
      AddLaws(x, x, 0);
    } else {
      GeneratorRoots(d - 1, i);
    }
  }

  /** The coefficient of x^e. */
  function Coefficient(p: Poly, e: nat): Byte {
    if e < |p| then p[|p| - 1 - e] else 0
  }

  lemma CoefficientOfProduct(p: Poly, r: Byte, e: nat)
    ensures Coefficient(TimesLinear(p, r), e) ==
            Add(Mul(Coefficient(p, e), r), if e > 0 then Coefficient(p, e - 1) else 0)
  {
    var low := if e > 0 then Coefficient(p, e - 1) else 0;
    MulByOne(r);
    AddLaws(low, Mul(Coefficient(p, e), r), 0);
    AddLaws(0, 0, 0);
  }

  lemma {:induction false} GeneratorIsMonic(d: nat)
    ensures Generator(d)[0] == 1
  {
    if d > 0 {
      GeneratorIsMonic(d - 1);
      AddLaws(1, 0, 0);
    }
  }

  lemma PowerNext(i: nat)
    ensures Mul(Power(i), 2) == Power(i + 1)
  {
    var a := Power(i);
    MulCommutes(a, 2);
    MulByOne(a);
    assert 2 == TimesX(1);
    PartOfTimesX(1, a, 8);
  }

  /** Cell k of an array of n cells that holds p at its low end, after one more factor x - r. */
  lemma CellOfProduct(p: Poly, r: Byte, n: nat, k: nat)
    requires k < n
    ensures var scaled := Mul(Coefficient(p, n - 1 - k), r);
            Coefficient(TimesLinear(p, r), n - 1 - k) ==
            if k + 1 < n then Add(scaled, Coefficient(p, n - 2 - k)) else scaled
  {
    CoefficientOfProduct(p, r, n - 1 - k);
    AddLaws(Mul(Coefficient(p, n - 1 - k), r), 0, 0);
  }

  /** The cells s hold the coefficients of p below x^|s|. */
  ghost predicate HoldsLow(s: seq<Byte>, p: Poly) {
    forall k :: 0 <= k < |s| ==> s[k] == Coefficient(p, |s| - 1 - k)
  }

  /** One pass of the inner loop: the polynomial at the low end of the array gains the factor x - root. */
  method MultiplyByLinear(result: array<Byte>, root: Byte, ghost p: Poly)
    requires HoldsLow(result[..], p)
    modifies result
    ensures HoldsLow(result[..], TimesLinear(p, root))
  {
    var n := result.Length;
    assert forall k :: 0 <= k < n ==> result[k] == result[..][k];
    ghost var q := TimesLinear(p, root);
    for j := 0 to n
      invariant forall k :: 0 <= k < j ==> result[k] == Coefficient(q, n - 1 - k)
      invariant forall k :: j <= k < n ==> result[k] == Coefficient(p, n - 1 - k)
    {
      CellOfProduct(p, root, n, j);
      var cell := ReedSolomonMultiply(result[j], root);
      if j + 1 < n {
        cell := Add(cell, result[j + 1]);
      }
      result[j] := cell;
    }
  }

  lemma LowCells(s: Poly, d: nat)
    requires |s| == d && HoldsLow(s, Generator(d))
    ensures [1] + s == Generator(d)
  {
    GeneratorIsMonic(d);
  }

  lemma FirstCells(s: Poly)
    requires |s| > 0 && s[|s| - 1] == 1 && forall k :: 0 <= k < |s| - 1 ==> s[k] == 0
    ensures HoldsLow(s, Generator(0))
  {
  }

  /**
   The program's divisor: the generator polynomial without its leading 1, computed in one array in
   which the product built so far sits at the low end.  A degree outside 1..255 is refused.
   */
  method ReedSolomonComputeDivisor(degree: int) returns (ok: bool, divisor: Poly)
    ensures ok <==> 1 <= degree <= 255
    ensures ok ==> [1] + divisor == Generator(degree)
  {
    if degree < 1 || degree > 255 {
      return false, [];
    }
    var result := new Byte[degree](_ => 0);
    result[degree - 1] := 1;
    var root: Byte := 1;
    FirstCells(result[..]);
    for i := 0 to degree
      invariant root == Power(i)
      invariant HoldsLow(result[..], Generator(i))
    {
      MultiplyByLinear(result, root, Generator(i));
      PowerNext(i);
      root := ReedSolomonMultiply(root, 2);
    }
    LowCells(result[..], degree);
    return true, result[..];
  }

  // ---- polynomial division ----

  function Divide1(r: Poly, b: Byte, divisor: Poly): (s: Poly)
    requires |r| == |divisor| > 0
    ensures |s| == |r|
  {
    Sum(r[1..] + [0], Scale(divisor, Add(b, r[0])))
  }

  function Remainder(data: Poly, divisor: Poly): (r: Poly)
    requires |divisor| > 0
    ensures |r| == |divisor|
  {
    if data == [] then Zeros(|divisor|)
    else Divide1(Remainder(data[..|data| - 1], divisor), data[|data| - 1], divisor)
  }

  /** The shift register of the program. */
  method ReedSolomonComputeRemainder(data: Poly, divisor: Poly) returns (result: Poly)
    requires |divisor| > 0
    ensures result == Remainder(data, divisor)
  {
    result := Zeros(|divisor|);
    for n := 0 to |data|
      invariant result == Remainder(data[..n], divisor)
    {
      var factor := Add(data[n], result[0]);
      var shifted := result[1..] + [0];
      result := shifted;
      for i := 0 to |result|
        invariant |result| == |divisor|
        invariant forall k :: 0 <= k < i ==> result[k] == Add(shifted[k], Mul(divisor[k], factor))
        invariant forall k :: i <= k < |result| ==> result[k] == shifted[k]
      {
        var product := ReedSolomonMultiply(divisor[i], factor);
        result := result[i := Add(result[i], product)];
      }
      assert data[..n + 1][..n] == data[..n];
    }
    assert data[..|data|] == data;
  }

  /** At a root of the divisor (with its leading 1) the remainder agrees with data * x^d. */
  lemma {:induction false} RemainderAtRoot(data: Poly, divisor: Poly, x: Byte)
    requires |divisor| > 0 && Eval([1] + divisor, x) == 0
    ensures Eval(Remainder(data, divisor), x) == Mul(Eval(data, x), PowerOf(x, |divisor|))
  {
    var w := PowerOf(x, |divisor|);
    if data == [] {
      EvalZeros(|divisor|, x);
      MulByOne(w);
    } else {
      var n := |data| - 1;
      var r, b := Remainder(data[..n], divisor), data[n];
      RemainderAtRoot(data[..n], divisor, x);
      Divide1AtRoot(r, b, divisor, x);
      var v := Eval(data[..n], x);
      MulAssociates(v, w, x);
      MulCommutes(w, x);
      MulAssociates(v, x, w);
      Distributes(w, Mul(v, x), b);
    }
  }

  /** At such a root, x^d equals the divisor's value. */
  lemma PowerAtRoot(divisor: Poly, x: Byte)
    requires Eval([1] + divisor, x) == 0
    ensures Eval(divisor, x) == PowerOf(x, |divisor|)
  {
    EvalConcat([1], divisor, x);
    EvalOne(1, x);
    MulByOne(PowerOf(x, |divisor|));
    AddToZero(PowerOf(x, |divisor|), Eval(divisor, x));
  }

  lemma RegisterShift(r: Poly, x: Byte)
    requires |r| > 0
    ensures Mul(Eval(r, x), x) == Add(Mul(r[0], PowerOf(x, |r|)), Eval(r[1..] + [0], x))
  {
    assert r + [0] == [r[0]] + (r[1..] + [0]);
    EvalAppendZero(r, x);
    EvalConcat([r[0]], r[1..] + [0], x);
    EvalOne(r[0], x);
  }

  lemma Divide1AtRoot(r: Poly, b: Byte, divisor: Poly, x: Byte)
    requires |r| == |divisor| > 0 && Eval([1] + divisor, x) == 0
    ensures Eval(Divide1(r, b, divisor), x) == Add(Mul(Eval(r, x), x), Mul(b, PowerOf(x, |divisor|)))
  {
    var w, f := PowerOf(x, |divisor|), Add(b, r[0]);
    EvalSum(r[1..] + [0], Scale(divisor, f), x);
    EvalScale(divisor, f, x);
    PowerAtRoot(divisor, x);
    RegisterShift(r, x);
    MulCommutes(w, f);
    Distributes(w, b, r[0]);
    CancelMiddle(Eval(r[1..] + [0], x), Mul(b, w), Mul(r[0], w));
  }

  lemma AddToZero(a: Byte, b: Byte)
    requires Add(a, b) == 0
    ensures a == b
  {
    XorZeroOnlySelf(a, b);
  }

  lemma CancelMiddle(u: Byte, p: Byte, q: Byte)
    ensures Add(u, Add(p, q)) == Add(Add(q, u), p)
  {
    AddLaws(p, q, 0);
    AddLaws(u, q, p);
    AddLaws(q, u, p);
  }

  /**
   Data followed by its remainder is a code word: it vanishes at 2^0 .. 2^(d-1).
   */
  lemma CodeWordVanishes(data: Poly, d: nat, divisor: Poly, i: nat)
    requires d > 0 && [1] + divisor == Generator(d) && i < d
    ensures Eval(data + Remainder(data, divisor), Power(i)) == 0
  {
    var x := Power(i);
    assert |divisor| == d;
    GeneratorRoots(d, i);
    RemainderAtRoot(data, divisor, x);
    EvalConcat(data, Remainder(data, divisor), x);
    AddLaws(Mul(Eval(data, x), PowerOf(x, d)), 0, 0);
  }
}
