/**
 Why the error correction code words of deps/qrcodegen.cpp can be repaired: two different code
 words of a block differ in more places than there are check bytes, so the check bytes are
 determined by the data and damage to at most half as many bytes leaves one candidate.
 */
module CodeDistance {
  import opened Bytes
  import opened GaloisField
  import opened PowersOfTwo
  import opened ReedSolomon

  /** A term coefficient * locator^i of a power sum. */
  datatype Term = Term(coefficient: Byte, locator: Byte)

  function PowerSum(terms: seq<Term>, i: nat): Byte {
    if terms == [] then 0
    else Add(Mul(terms[0].coefficient, PowerOf(terms[0].locator, i)), PowerSum(terms[1..], i))
  }

  ghost predicate Independent(terms: seq<Term>) {
    && (forall k :: 0 <= k < |terms| ==> terms[k].coefficient != 0)
    && (forall j, k :: 0 <= j < k < |terms| ==> terms[j].locator != terms[k].locator)
  }

  /** The terms of S(i+1) + x*S(i): each coefficient is multiplied by its locator + x. */
  function Twist(terms: seq<Term>, x: Byte): (twisted: seq<Term>)
    ensures |twisted| == |terms|
  {
    seq(|terms|, k requires 0 <= k < |terms| =>
      Term(Mul(terms[k].coefficient, Add(terms[k].locator, x)), terms[k].locator))
  }

  lemma TwistTerm(c: Byte, y: Byte, x: Byte, p: Byte)
    ensures Mul(Mul(c, Add(y, x)), p) == Add(Mul(c, Mul(p, y)), Mul(Mul(c, p), x))
  {
    MulAssociates(c, Add(y, x), p);
    MulCommutes(Add(y, x), p);
    Distributes(p, y, x);
    Distributes(c, Mul(p, y), Mul(p, x));
    MulAssociates(c, p, x);
  }

  lemma {:induction false} TwistSum(terms: seq<Term>, x: Byte, i: nat)
    ensures PowerSum(Twist(terms, x), i) == Add(PowerSum(terms, i + 1), Mul(PowerSum(terms, i), x))
  {
    if terms == [] {
      MulByOne(x);
      AddLaws(0, 0, 0);
    } else {
      var rest := terms[1..];
      assert Twist(terms, x)[1..] == Twist(rest, x);
      TwistSum(rest, x, i);
      var c, y := terms[0].coefficient, terms[0].locator;
      var p := PowerOf(y, i);
      TwistTerm(c, y, x, p);
      Distributes(x, Mul(c, p), PowerSum(rest, i));
      AddSwap(Mul(c, Mul(p, y)), Mul(Mul(c, p), x), PowerSum(rest, i + 1), Mul(PowerSum(rest, i), x));
    }
  }

  /** The first term cancels when its own locator is the twist. */
  lemma TwistByFirst(terms: seq<Term>, i: nat)
    requires |terms| > 0
    ensures PowerSum(Twist(terms[1..], terms[0].locator), i) ==
            Add(PowerSum(terms, i + 1), Mul(PowerSum(terms, i), terms[0].locator))
  {
    var x := terms[0].locator;
    TwistSum(terms, x, i);
    assert Twist(terms, x)[1..] == Twist(terms[1..], x);
    assert Twist(terms, x)[0].coefficient == 0 by {
      AddLaws(x, 0, 0);
      MulByOne(terms[0].coefficient);
    }
    MulByOne(PowerOf(x, i));
    AddLaws(PowerSum(Twist(terms[1..], x), i), 0, 0);
  }

  /** As many power sums as there are terms cannot all vanish. */
  lemma {:induction false} PowerSumsDoNotVanish(terms: seq<Term>)
    requires |terms| > 0 && Independent(terms)
    ensures exists i: nat :: i < |terms| && PowerSum(terms, i) != 0
    decreases |terms|
  {
    var c, x, rest := terms[0].coefficient, terms[0].locator, terms[1..];
    if rest == [] {
      assert PowerSum(terms, 0) == c by {
        MulByOne(c);
        AddLaws(c, 0, 0);
      }
    } else {
      var twisted := Twist(rest, x);
      forall k | 0 <= k < |twisted| ensures twisted[k].coefficient != 0 {
        var a := Add(rest[k].locator, x);
        if a == 0 { XorZeroOnlySelf(rest[k].locator, x); }
        NoZeroDivisors(rest[k].coefficient, a);
      }
      PowerSumsDoNotVanish(twisted);
      var i: nat :| i < |twisted| && PowerSum(twisted, i) != 0;
      TwistByFirst(terms, i);
      if PowerSum(terms, i) == 0 && PowerSum(terms, i + 1) == 0 {
        MulByOne(x);
        AddLaws(0, 0, 0);
      }
    }
  }

  // ---- words as power sums ----

  /** The nonzero bytes of a word; a byte's locator is 2 to the number of bytes after it. */
  function Terms(word: Poly): seq<Term> {
    if word == [] then []
    else (if word[0] != 0 then [Term(word[0], Power(|word| - 1))] else []) + Terms(word[1..])
  }

  function Weight(word: Poly): nat {
    if word == [] then 0 else (if word[0] != 0 then 1 else 0) + Weight(word[1..])
  }

  lemma {:induction false} TermsCount(word: Poly)
    ensures |Terms(word)| == Weight(word)
  {
    if word != [] { TermsCount(word[1..]); }
  }

  lemma {:induction false} TermLocators(word: Poly, k: nat) returns (e: nat)
    requires k < |Terms(word)|
    ensures e < |word| && Terms(word)[k].locator == Power(e) && Terms(word)[k].coefficient != 0
  {
    var here := if word[0] != 0 then 1 else 0;
    if k < here {
      e := |word| - 1;
    } else {
      e := TermLocators(word[1..], k - here);
    }
  }

  lemma {:induction false} TermsIndependent(word: Poly)
    requires |word| <= 255
    ensures Independent(Terms(word))
  {
    if word != [] {
      TermsIndependent(word[1..]);
      var rest := Terms(word[1..]);
      forall k | 0 <= k < |rest| ensures rest[k].locator != Power(|word| - 1) {
        var e := TermLocators(word[1..], k);
        PowersDiffer(e, |word| - 1);
      }
    }
  }

  lemma {:induction false} PowerOfPower(i: nat, m: nat)
    ensures PowerOf(Power(i), m) == Power(m * i)
  {
    hide Power, Mul;
    if m > 0 {
      PowerOfPower(i, m - 1);
      PowerProduct((m - 1) * i, i);
      assert (m - 1) * i + i == m * i;
    } else {
      assert m * i == 0;
      PowerOfZero();
    }
  }

  lemma PowerOfZero()
    ensures Power(0) == 1
  {
  }

  lemma LocatorSwap(i: nat, m: nat)
    ensures PowerOf(Power(i), m) == PowerOf(Power(m), i)
  {
    PowerOfPower(i, m);
    PowerOfPower(m, i);
    assert m * i == i * m;
  }

  lemma {:induction false} EvalIsPowerSum(word: Poly, i: nat)
    ensures Eval(word, Power(i)) == PowerSum(Terms(word), i)
  {
    if word != [] {
      var x, rest, a := Power(i), word[1..], word[0];
      EvalIsPowerSum(rest, i);
      assert word == [a] + rest;
      EvalConcat([a], rest, x);
      EvalOne(a, x);
      LocatorSwap(i, |rest|);
      if a == 0 {
        assert Terms(word) == Terms(rest);
        MulByOne(PowerOf(x, |rest|));
        AddLaws(Eval(rest, x), 0, 0);
      } else {
        assert Terms(word)[1..] == Terms(rest);
      }
    }
  }

  /** A word that vanishes at d consecutive powers of 2 has more than d nonzero bytes, or none. */
  lemma VanishingWordIsHeavy(word: Poly, d: nat)
    requires |word| <= 255
    requires forall i: nat :: i < d ==> Eval(word, Power(i)) == 0
    ensures Weight(word) == 0 || Weight(word) > d
  {
    TermsCount(word);
    if 0 < Weight(word) <= d {
      TermsIndependent(word);
      PowerSumsDoNotVanish(Terms(word));
      var i: nat :| i < Weight(word) && PowerSum(Terms(word), i) != 0;
      EvalIsPowerSum(word, i);
    }
  }

  // ---- distance ----

  /** In how many places two words differ. */
  function Distance(u: Poly, v: Poly): nat
    requires |u| == |v|
  {
    if u == [] then 0 else (if u[0] != v[0] then 1 else 0) + Distance(u[1..], v[1..])
  }

  lemma {:induction false} DistanceIsWeight(u: Poly, v: Poly)
    requires |u| == |v|
    ensures Weight(Sum(u, v)) == Distance(u, v)
    ensures Distance(u, v) == 0 ==> u == v
  {
    if u != [] {
      assert Sum(u, v)[1..] == Sum(u[1..], v[1..]);
      DistanceIsWeight(u[1..], v[1..]);
      AddLaws(u[0], 0, 0);
      if Add(u[0], v[0]) == 0 { XorZeroOnlySelf(u[0], v[0]); }
      if Distance(u, v) == 0 {
        assert u == [u[0]] + u[1..] && v == [v[0]] + v[1..];
      }
    }
  }

  ghost predicate IsCodeWord(word: Poly, d: nat) {
    |word| <= 255 && forall i: nat :: i < d ==> Eval(word, Power(i)) == 0
  }

  /** Two different code words with d check bytes differ in more than d places. */
  lemma CodeWordsFarApart(u: Poly, v: Poly, d: nat)
    requires |u| == |v| && IsCodeWord(u, d) && IsCodeWord(v, d) && u != v
    ensures Distance(u, v) > d
  {
    forall i: nat | i < d ensures Eval(Sum(u, v), Power(i)) == 0 {
      EvalSum(u, v, Power(i));
      AddLaws(0, 0, 0);
    }
    VanishingWordIsHeavy(Sum(u, v), d);
    DistanceIsWeight(u, v);
  }

  lemma {:induction false} DistanceTriangle(u: Poly, w: Poly, v: Poly)
    requires |u| == |w| == |v|
    ensures Distance(u, v) <= Distance(u, w) + Distance(v, w)
  {
    if u != [] { DistanceTriangle(u[1..], w[1..], v[1..]); }
  }

  /** A received word has at most one code word within half the number of check bytes. */
  lemma DamageIsRepairable(u: Poly, v: Poly, received: Poly, d: nat)
    requires |u| == |v| == |received| && IsCodeWord(u, d) && IsCodeWord(v, d)
    requires 2 * Distance(u, received) <= d && 2 * Distance(v, received) <= d
    ensures u == v
  {
    if u != v {
      CodeWordsFarApart(u, v, d);
      DistanceTriangle(u, received, v);
    }
  }

  lemma {:induction false} DistanceOfSuffixes(data: Poly, r: Poly, s: Poly)
    requires |r| == |s|
    ensures Distance(data + r, data + s) <= |r|
  {
    if data != [] {
      assert (data + r)[1..] == data[1..] + r && (data + s)[1..] == data[1..] + s;
      DistanceOfSuffixes(data[1..], r, s);
    } else if r != [] {
      assert ([] + r)[1..] == [] + r[1..] && ([] + s)[1..] == [] + s[1..];
      DistanceOfSuffixes([], r[1..], s[1..]);
    }
  }

  /** The remainder is the only choice of d check bytes that makes a code word. */
  lemma CheckBytesUnique(data: Poly, check: Poly, d: nat, divisor: Poly)
    requires d > 0 && [1] + divisor == Generator(d) && |check| == d && |data| + d <= 255
    ensures IsCodeWord(data + check, d) <==> check == Remainder(data, divisor)
  {
    var r := Remainder(data, divisor);
    assert |divisor| == d;
    forall i: nat | i < d ensures Eval(data + r, Power(i)) == 0 {
      CodeWordVanishes(data, d, divisor, i);
    }
    if IsCodeWord(data + check, d) && check != r {
      assert data + check != data + r by {
        assert (data + check)[|data|..] == check && (data + r)[|data|..] == r;
      }
      CodeWordsFarApart(data + check, data + r, d);
      DistanceOfSuffixes(data, check, r);
    }
  }
}
