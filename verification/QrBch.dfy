/**
 The check bits of format and version information (drawFormatBits and drawVersion of
 deps/qrcodegen.cpp): together with the data they are a multiple of the generator polynomial.
 */
module QrBch {
  import opened Bytes
  import opened QrTables
  import opened QrFormat
  import opened QrFormatReader
  import opened QrColours

  /** The product of two polynomials over GF(2) whose coefficients are bits. */
  function Product(q: nat, g: nat): nat {
    if q == 0 then 0 else Xor(if q % 2 == 1 then g else 0, 2 * Product(q / 2, g))
  }

  lemma ProductStep(q: nat, bit: nat, g: nat)
    requires bit < 2
    ensures Product(2 * q + bit, g) == Xor(bit * g, 2 * Product(q, g))
  {
    hide Xor;
    HalfOf(bit, q);
    if q == 0 && bit == 0 {
      XorSelf(0);
    }
  }

  lemma XorDoubled(a: nat, b: nat)
    ensures Xor(2 * a, 2 * b) == 2 * Xor(a, b)
  {
  }

  lemma TwiceProduct(high: nat, p: nat)
    ensures high * (2 * p) == 2 * (high * p)
  {
  }

  lemma NextDisjoint(a: nat, low: nat)
    requires Xor(a, low / 2) == a + low / 2
    ensures Xor(2 * a, low) == 2 * a + low
  {
    hide Xor;
    XorUnfold(2 * a, low);
  }

  /** A sum without carries is an exclusive or. */
  lemma {:induction false} Disjoint(high: nat, low: nat, n: nat)
    requires low < Pow2(n)
    ensures Xor(high * Pow2(n), low) == high * Pow2(n) + low
  {
    if n == 0 {
      XorSelf(high);
    } else {
      hide Xor;
      Disjoint(high, low / 2, n - 1);
      NextDisjoint(high * Pow2(n - 1), low);
      TwiceProduct(high, Pow2(n - 1));
    }
  }

  /** One round of the shift register multiplies by x and takes the generator off when it fits. */
  lemma Round(shifted: nat, rem: nat, q: nat, bit: nat, g: nat)
    requires bit < 2 && Xor(shifted, rem) == Product(q, g)
    ensures Xor(2 * shifted, Xor(2 * rem, bit * g)) == Product(2 * q + bit, g)
  {
    hide Xor, Product;
    XorDoubled(shifted, rem);
    XorAssociates(2 * shifted, 2 * rem, bit * g);
    XorCommutes(2 * Product(q, g), bit * g);
    ProductStep(q, bit, g);
  }

  lemma {:induction false} FormatRounds(data: nat, rounds: nat) returns (q: nat)
    requires data < 1024
    ensures Xor(data * Pow2(rounds), FormatRemainder(data, rounds)) == Product(q, 0x537)
  {
    hide Xor, Product;
    if rounds == 0 {
      XorSelf(data);
      ProductOfNothing(0x537);
      q := 0;
    } else {
      var p := FormatRounds(data, rounds - 1);
      var r := FormatRemainder(data, rounds - 1);
      RemainderFits(data, rounds - 1);
      Round(data * Pow2(rounds - 1), r, p, r / 512, 0x537);
      TwiceProduct(data, Pow2(rounds - 1));
      q := 2 * p + r / 512;
    }
  }

  lemma ProductOfNothing(g: nat)
    ensures Product(0, g) == 0
  {
  }

  /** Under the fixed pattern the format bits are level and mask, then what makes a multiple of 0x537. */
  lemma FormatIsMultiple(ecl: Ecc, mask: nat) returns (q: nat)
    requires mask < 8
    ensures Xor(FormatBits(ecl, mask), 0x5412) == Product(q, 0x537)
    ensures Xor(FormatBits(ecl, mask), 0x5412) / 1024 == FormatLevel(ecl) * 8 + mask
  {
    hide Xor, Product, FormatRemainder, Pow2;
    var data := FormatLevel(ecl) * 8 + mask;
    var rem := FormatRemainder(data, 10);
    RemainderFits(data, 10);
    PowersOfFormat();
    q := FormatRounds(data, 10);
    Disjoint(data, rem, 10);
    XorAssociates(data * 1024 + rem, 0x5412, 0x5412);
    XorSelf(0x5412);
    XorSelf(data * 1024 + rem);
  }

  lemma {:induction false} VersionRounds(ver: nat, rounds: nat) returns (q: nat)
    requires ver < 4096
    ensures Xor(ver * Pow2(rounds), VersionRemainder(ver, rounds)) == Product(q, 0x1F25)
  {
    hide Xor, Product;
    if rounds == 0 {
      XorSelf(ver);
      ProductOfNothing(0x1F25);
      q := 0;
    } else {
      var p := VersionRounds(ver, rounds - 1);
      var r := VersionRemainder(ver, rounds - 1);
      VersionRemainderFits(ver, rounds - 1);
      Round(ver * Pow2(rounds - 1), r, p, r / 2048, 0x1F25);
      TwiceProduct(ver, Pow2(rounds - 1));
      q := 2 * p + r / 2048;
    }
  }

  /** The version bits are the version, then what makes a multiple of 0x1F25. */
  lemma VersionIsMultiple(ver: Version) returns (q: nat)
    ensures VersionBits(ver) == Product(q, 0x1F25) && VersionBits(ver) / 4096 == ver
  {
    hide Xor, Product, VersionRemainder, Pow2;
    PowersOfVersion();
    VersionRemainderFits(ver, 12);
    q := VersionRounds(ver, 12);
    Disjoint(ver, VersionRemainder(ver, 12), 12);
  }
}
