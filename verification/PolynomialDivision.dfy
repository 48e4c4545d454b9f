/**
 The shift register of reedSolomonComputeRemainder (deps/qrcodegen.cpp) divides polynomials: data * x^d
 is a multiple of the divisor plus the remainder, for any divisor, and in one way only.
 */
module PolynomialDivision {
  import opened Bytes
  import opened GaloisField
  import opened ReedSolomon

  /** The product of two polynomials, by one coefficient of q after the other. */
  function Times(q: Poly, g: Poly): (p: Poly)
    requires g != []
    ensures |p| == |q| + |g| - 1
  {
    if q == [] then Zeros(|g| - 1)
    else
      var n := |q| - 1;
      Sum(Times(q[..n], g) + [0], Zeros(n) + Scale(g, q[n]))
  }

  /** The feedback factors of the shift register. */
  function Quotient(data: Poly, divisor: Poly): (q: Poly)
    requires divisor != []
    ensures |q| == |data|
  {
    if data == [] then []
    else
      var n := |data| - 1;
      Quotient(data[..n], divisor) + [Add(data[n], Remainder(data[..n], divisor)[0])]
  }

  /** It is the product: at every point its value is the product of the values. */
  lemma {:induction false} EvalTimes(q: Poly, g: Poly, x: Byte)
    requires g != []
    ensures Eval(Times(q, g), x) == Mul(Eval(q, x), Eval(g, x))
  {
    if q == [] {
      EvalZeros(|g| - 1, x);
      MulByOne(Eval(g, x));
    } else {
      hide Eval, Times, Mul, Add;
      var n := |q| - 1;
      var a, b, c := Eval(q[..n], x), Eval(g, x), q[n];
      EvalTimes(q[..n], g, x);
      TimesStep(q, g);
      EvalSum(Times(q[..n], g) + [0], Zeros(n) + Scale(g, c), x);
      EvalAppendZero(Times(q[..n], g), x);
      EvalAfterZeros(n, Scale(g, c), x);
      EvalScale(g, c, x);
      EvalStep(q, x);
      Distributes(b, Mul(a, x), c);
      MulAssociates(a, b, x);
      MulCommutes(b, x);
      MulAssociates(a, x, b);
      MulCommutes(b, c);
    }
  }

  lemma TimesStep(q: Poly, g: Poly)
    requires g != [] && q != []
    ensures var n := |q| - 1; Times(q, g) == Sum(Times(q[..n], g) + [0], Zeros(n) + Scale(g, q[n]))
  {
  }

  lemma EvalStep(q: Poly, x: Byte)
    requires q != []
    ensures var n := |q| - 1; Eval(q, x) == Add(Mul(Eval(q[..n], x), x), q[n])
  {
  }

  lemma {:induction false} EvalAfterZeros(n: nat, p: Poly, x: Byte)
    ensures Eval(Zeros(n) + p, x) == Eval(p, x)
  {
    hide Eval;
    if n == 0 {
      assert Zeros(0) + p == p;
    } else {
      EvalAfterZeros(n - 1, p, x);
      EvalPrependZero(Zeros(n - 1) + p, x);
      assert [0] + (Zeros(n - 1) + p) == Zeros(n) + p;
    }
  }

  // ---- division ----

  /** Coefficient k of the product with one more factor f. */
  lemma ProductColumn(q: Poly, f: Byte, g: Poly, k: nat)
    requires g != [] && k < |q| + |g|
    ensures var t := Times(q, g);
            Times(q + [f], g)[k] ==
            Add(if k < |t| then t[k] else 0, if k < |q| then 0 else Mul(g[k - |q|], f))
  {
    hide Times, Add, Mul;
    assert (q + [f])[..|q|] == q;
    TimesStep(q + [f], g);
  }

  /** Coefficient k of the next remainder, at the low end. */
  lemma RemainderColumn(r: Poly, b: Byte, divisor: Poly, n: nat, k: nat)
    requires divisor != [] && |r| == |divisor| && k < n + 1 + |divisor|
    ensures var j := k - n - 1;
            (Zeros(n + 1) + Divide1(r, b, divisor))[k] ==
            if k <= n then 0
            else Add(if j + 1 < |r| then r[j + 1] else 0, Mul(divisor[j], Add(b, r[0])))
  {
    hide Add, Mul;
  }

  /** Coefficient k of a product plus a remainder that make up the data moved up. */
  lemma MovedColumn(data: Poly, t: Poly, r: Poly, k: nat)
    requires |t| == |data| + |r| && Sum(t, Zeros(|data|) + r) == data + Zeros(|r|) && k < |t|
    ensures k < |data| ==> t[k] == data[k]
    ensures k >= |data| ==> Add(t[k], r[k - |data|]) == 0
  {
    hide Add;
    var left := Sum(t, Zeros(|data|) + r);
    assert left[k] == (data + Zeros(|r|))[k];
    if k < |data| {
      assert left[k] == Add(t[k], 0);
      AddLaws(t[k], 0, 0);
    }
  }

  lemma NewColumn(t: Byte, r: Byte, b: Byte)
    requires Add(t, r) == 0
    ensures Add(Add(t, Add(b, r)), 0) == b
  {
    hide Add;
    AddToZero(t, r);
    AddLaws(b, r, 0);
    AddLaws(r, r, b);
    AddLaws(b, 0, 0);
    AddLaws(Add(t, Add(b, r)), 0, 0);
  }

  lemma LaterColumn(t: Poly, r: Poly, k: nat, n: nat, m: Byte)
    requires |t| == n + |r| && n < k <= n + |r| && (k < n + |r| ==> Add(t[k], r[k - n]) == 0)
    ensures Add(Add(if k < n + |r| then t[k] else 0, m), Add(if k - n < |r| then r[k - n] else 0, m)) == 0
  {
    hide Add;
    AddLaws(0, 0, 0);
    CancelTwice(if k < n + |r| then t[k] else 0, m, if k - n < |r| then r[k - n] else 0);
  }

  /** One more coefficient of the data, in column k of the division. */
  lemma DivisionColumn(data: Poly, divisor: Poly, q: Poly, r: Poly, b: Byte, k: nat)
    requires divisor != [] && |q| == |data| && |r| == |divisor| && k < |data| + 1 + |divisor|
    requires Sum(Times(q, [1] + divisor), Zeros(|data|) + r) == data + Zeros(|divisor|)
    ensures var f, n := Add(b, r[0]), |data|;
            Add(Times(q + [f], [1] + divisor)[k], (Zeros(n + 1) + Divide1(r, b, divisor))[k])
            == (data + [b] + Zeros(|divisor|))[k]
  {
    hide Add, Mul, Times, Divide1;
    var f, n, d := Add(b, r[0]), |data|, |divisor|;
    var g := [1] + divisor;
    var t := Times(q, g);
    ProductColumn(q, f, g, k);
    RemainderColumn(r, b, divisor, n, k);
    if k < n + d {
      MovedColumn(data, t, r, k);
    }
    AddLaws(0, 0, 0);
    if k < n {
      AddLaws(t[k], 0, 0);
    } else if k == n {
      MulByOne(f);
      NewColumn(t[n], r[0], b);
    } else {
      LaterColumn(t, r, k, n, Mul(divisor[k - n - 1], f));
    }
  }

  lemma CancelTwice(a: Byte, m: Byte, s: Byte)
    requires Add(a, s) == 0
    ensures Add(Add(a, m), Add(s, m)) == 0
  {
    hide Add;
    AddSwap(a, m, s, m);
    AddLaws(m, m, m);
    AddLaws(0, 0, 0);
  }

  /** The data, moved up by the degree, is the quotient times the divisor plus the remainder. */
  lemma {:induction false} Division(data: Poly, divisor: Poly)
    requires divisor != []
    ensures Sum(Times(Quotient(data, divisor), [1] + divisor), Zeros(|data|) + Remainder(data, divisor))
         == data + Zeros(|divisor|)
  {
    hide Add, Mul, Divide1, Times, Remainder, Quotient, Sum;
    if data == [] {
      NothingDivided(divisor);
    } else {
      var n := |data| - 1;
      Division(data[..n], divisor);
      assert data[..n] + [data[n]] == data;
      DividedStep(data, divisor);
      DivisionStep(data[..n], divisor, Quotient(data[..n], divisor), Remainder(data[..n], divisor), data[n]);
    }
  }

  lemma NothingDivided(divisor: Poly)
    requires divisor != []
    ensures Sum(Times(Quotient([], divisor), [1] + divisor), Zeros(0) + Remainder([], divisor))
         == [] + Zeros(|divisor|)
  {
    hide Add, Mul, Scale, Times, Quotient, Remainder;
    AddLaws(0, 0, 0);
    NothingTimes(divisor);
    assert Zeros(0) + Zeros(|divisor|) == Zeros(|divisor|);
    assert Sum(Zeros(|divisor|), Zeros(|divisor|)) == Zeros(|divisor|);
  }

  lemma NothingTimes(divisor: Poly)
    requires divisor != []
    ensures Times(Quotient([], divisor), [1] + divisor) == Zeros(|divisor|) == Remainder([], divisor)
  {
    hide Add, Mul, Scale;
  }

  lemma DivisionStep(data: Poly, divisor: Poly, q: Poly, r: Poly, b: Byte)
    requires divisor != [] && |q| == |data| && |r| == |divisor|
    requires Sum(Times(q, [1] + divisor), Zeros(|data|) + r) == data + Zeros(|divisor|)
    ensures Sum(Times(q + [Add(b, r[0])], [1] + divisor), Zeros(|data| + 1) + Divide1(r, b, divisor))
         == data + [b] + Zeros(|divisor|)
  {
    hide Times, Divide1, Add, Mul;
    var left := Sum(Times(q + [Add(b, r[0])], [1] + divisor), Zeros(|data| + 1) + Divide1(r, b, divisor));
    forall k | 0 <= k < |data| + 1 + |divisor| ensures left[k] == (data + [b] + Zeros(|divisor|))[k] {
      DivisionColumn(data, divisor, q, r, b, k);
    }
  }

  lemma DividedStep(data: Poly, divisor: Poly)
    requires divisor != [] && data != []
    ensures var n := |data| - 1;
            var q, r := Quotient(data[..n], divisor), Remainder(data[..n], divisor);
            && Quotient(data, divisor) == q + [Add(data[n], r[0])]
            && Remainder(data, divisor) == Divide1(r, data[n], divisor)
  {
  }

  // ---- there is no other quotient and remainder ----

  /** The last coefficient of p shows in one place of the leading part of the product, after all others. */
  lemma LeadOfProduct(p: Poly, g: Poly)
    requires g != [] && g[0] == 1 && p != []
    ensures var n := |p| - 1;
            var t := Times(p[..n], g);
            && (forall k :: 0 <= k < n ==> Times(p, g)[k] == t[k])
            && Times(p, g)[n] == Add((t + [0])[n], p[n])
  {
    hide Add, Mul, Times;
    var n := |p| - 1;
    TimesStep(p, g);
    var t := Times(p[..n], g);
    forall k | 0 <= k < n ensures Times(p, g)[k] == t[k] {
      AddLaws(t[k], 0, 0);
    }
    MulByOne(p[n]);
  }

  /** As many leading coefficients of the product as there are in q determine q. */
  lemma {:induction false} LeadingDetermines(p: Poly, q: Poly, g: Poly)
    requires g != [] && g[0] == 1 && |p| == |q|
    requires forall k :: 0 <= k < |p| ==> Times(p, g)[k] == Times(q, g)[k]
    ensures p == q
  {
    hide Add, Times;
    if p != [] {
      var n := |p| - 1;
      LeadOfProduct(p, g);
      LeadOfProduct(q, g);
      var t, u := Times(p[..n], g), Times(q[..n], g);
      assert forall k :: 0 <= k < n ==> t[k] == u[k];
      LeadingDetermines(p[..n], q[..n], g);
      SameSum((t + [0])[n], p[n], q[n]);
      assert p == p[..n] + [p[n]] && q == q[..n] + [q[n]];
    }
  }

  lemma SameSum(a: Byte, b: Byte, c: Byte)
    requires Add(a, b) == Add(a, c)
    ensures b == c
  {
    hide Add;
    AddLaws(a, a, b);
    AddLaws(a, a, c);
    AddLaws(b, 0, 0);
    AddLaws(c, 0, 0);
  }

  /** Any quotient and remainder of these lengths are those of the shift register. */
  lemma DivisionIsUnique(data: Poly, divisor: Poly, q: Poly, r: Poly)
    requires divisor != [] && |q| == |data| && |r| == |divisor|
    requires Sum(Times(q, [1] + divisor), Zeros(|data|) + r) == data + Zeros(|divisor|)
    ensures q == Quotient(data, divisor) && r == Remainder(data, divisor)
  {
    hide Times, Quotient, Remainder, Add, Sum, Zeros;
    var g := [1] + divisor;
    var q', r' := Quotient(data, divisor), Remainder(data, divisor);
    Division(data, divisor);
    SameLeading(data, Times(q, g), Times(q', g), r, r');
    LeadingDetermines(q, q', g);
    SameRemainders(data, Times(q, g), r, r');
  }

  lemma SameLeading(data: Poly, t: Poly, u: Poly, r: Poly, s: Poly)
    requires |t| == |u| == |data| + |r| && |r| == |s|
    requires Sum(t, Zeros(|data|) + r) == data + Zeros(|r|) == Sum(u, Zeros(|data|) + s)
    ensures forall k :: 0 <= k < |data| ==> t[k] == u[k]
  {
    hide Sum, Add, Zeros;
    forall k | 0 <= k < |data| ensures t[k] == u[k] {
      MovedColumn(data, t, r, k);
      MovedColumn(data, u, s, k);
    }
  }

  lemma SameRemainders(data: Poly, t: Poly, r: Poly, s: Poly)
    requires |t| == |data| + |r| && |r| == |s|
    requires Sum(t, Zeros(|data|) + r) == data + Zeros(|r|) == Sum(t, Zeros(|data|) + s)
    ensures r == s
  {
    hide Sum, Add, Zeros;
    forall j | 0 <= j < |r| ensures r[j] == s[j] {
      MovedColumn(data, t, r, |data| + j);
      MovedColumn(data, t, s, |data| + j);
      SameSum(t[|data| + j], r[j], s[j]);
    }
  }
}
