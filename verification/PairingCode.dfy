/**
 The pairing code: the payload in base 32 (section 6 of RFC 4648, without padding characters), in
 groups of five characters (ToBase32String and WithSeperators of common/src/utils/StringUtils.cpp).
 */
module PairingCode {
  import opened Bytes
  import opened BitStrings
  import opened StringSearch

  // ---- base 32 of a bit string ----

  function Alphabet(): (s: string)
    ensures |s| == 32
  {
    "ABCDEFGHIJKLMNOPQRSTUVWXYZ234567"
  }

  /** Five bits a character; the last group is filled up with zeros. */
  function Base32(bits: Bits): string
    decreases |bits|
  {
    hide FromBits, Alphabet, Pow2;
    if bits == [] then ""
    else
      FiveBits();
      if |bits| < 5 then [Alphabet()[FromBits(bits + ToBits(0, 5 - |bits|))]]
      else [Alphabet()[FromBits(bits[..5])]] + Base32(bits[5..])
  }

  lemma FiveBits()
    ensures Pow2(5) == 32 && Pow2(8) == 256
  {
    assert Pow2(3) == 8;
  }

  // ---- numbers and their bits ----

  lemma {:induction false} ToBitsSplit(v: nat, n: nat, k: nat)
    ensures ToBits(v, n + k) == ToBits(ShiftRight(v, k), n) + ToBits(v, k)
  {
    if k > 0 {
      ToBitsSplit(v / 2, n, k - 1);
    }
  }

  /** The low bits do not see multiples of 2^len. */
  lemma {:induction false} LowBits(v: nat, q: nat, len: nat)
    ensures ToBits(v + q * Pow2(len), len) == ToBits(v, len)
  {
    if len > 0 {
      var p := Pow2(len - 1);
      assert q * Pow2(len) == 2 * (q * p);
      LowBits(v / 2, q, len - 1);
      assert (v + 2 * (q * p)) / 2 == v / 2 + q * p;
    }
  }

  lemma {:induction false} ShiftBack(t: nat, c: nat, k: nat)
    requires c < Pow2(k)
    ensures ShiftRight(t * Pow2(k) + c, k) == t
  {
    if k > 0 {
      var p := Pow2(k - 1);
      assert Pow2(k) == 2 * p;
      hide Pow2;
      ShiftBack(t, c / 2, k - 1);
      TwiceAndSome(t, p, c);
    }
  }

  lemma TwiceAndSome(t: nat, p: nat, c: nat)
    ensures (t * (2 * p) + c) / 2 == t * p + c / 2
  {
    assert t * (2 * p) == 2 * (t * p);
  }

  /** The five low bits of a number spell its remainder by 32. */
  lemma LowFive(v: nat)
    ensures FromBits(ToBits(v, 5)) == v % 32
  {
    hide ToBits, FromBits, Pow2;
    FiveBits();
    LowBits(v % 32, v / 32, 5);
    FromToBits(v % 32, 5);
  }

  /** Left over bits, moved up by k places, with zeros after them. */
  lemma LastGroup(v: nat, b: nat)
    requires b < 5
    ensures FromBits(ToBits(v, b) + ToBits(0, 5 - b)) == v * Pow2(5 - b) % 32
  {
    hide ToBits, FromBits, Pow2, ShiftRight;
    var k := 5 - b;
    LowFive(v * Pow2(k));
    ToBitsSplit(v * Pow2(k), b, k);
    ShiftBack(v, 0, k);
    LowBits(0, v, k);
  }

  const UINT32 := 0x1_0000_0000

  /** A byte shifted in from below: the bits that fall off the top are none of those still to be written. */
  lemma ShiftIn(buffer: nat, c: Byte, b: nat)
    requires b <= 4
    ensures ToBits(buffer * 256 % UINT32 + c, b + 8) == ToBits(buffer, b) + ToBits(c, 8)
  {
    hide ToBits, Pow2, ShiftRight;
    FiveBits();
    var t := buffer % 0x100_0000;
    assert buffer * 256 % UINT32 == t * 256;
    ToBitsSplit(t * 256 + c, b, 8);
    ShiftBack(t, c, 8);
    LowBits(c, t, 8);
    ForgottenBits(buffer, b);
  }

  lemma ForgottenBits(buffer: nat, b: nat)
    requires b <= 4
    ensures ToBits(buffer % 0x100_0000, b) == ToBits(buffer, b)
  {
    hide ToBits;
    var d := buffer / 0x100_0000;
    var scale := if b == 0 then 16 else if b == 1 then 8 else if b == 2 then 4 else if b == 3 then 2 else 1;
    LowBits(buffer % 0x100_0000, d * 0x10_0000 * scale, b);
    SmallPowers();
    hide Pow2;
  }

  lemma SmallPowers()
    ensures Pow2(0) == 1 && Pow2(1) == 2 && Pow2(2) == 4 && Pow2(3) == 8 && Pow2(4) == 16
  {
  }

  // ---- the program ----

  method ToBase32String(str: seq<Byte>) returns (encodedStr: string)
    ensures encodedStr == Base32(Unpack(str))
  {
    hide ToBits, FromBits, Pow2, ShiftRight, Base32, Alphabet, Unpack;
    encodedStr := "";
    var buffer, bitsLeft := 0, 0;
    NothingLeft(str);
    for i := 0 to |str|
      invariant 0 <= buffer < UINT32 && 0 <= bitsLeft <= 4
      invariant encodedStr + Base32(ToBits(buffer, bitsLeft) + Unpack(str[i..])) == Base32(Unpack(str))
    {
      var c := str[i];
      ShiftIn(buffer, c, bitsLeft);
      NextByte(str, i, ToBits(buffer, bitsLeft));
      buffer := buffer * 256 % UINT32 + c;
      bitsLeft := bitsLeft + 8;
      while bitsLeft >= 5
        invariant 0 <= bitsLeft <= 12
        invariant encodedStr + Base32(ToBits(buffer, bitsLeft) + Unpack(str[i + 1..])) == Base32(Unpack(str))
      {
        NextGroup(buffer, bitsLeft, Unpack(str[i + 1..]), encodedStr);
        encodedStr := encodedStr + [Alphabet()[ShiftRight(buffer, bitsLeft - 5) % 32]];
        bitsLeft := bitsLeft - 5;
      }
    }
    LastBits(buffer, bitsLeft, str[|str|..]);
    if bitsLeft > 0 {
      encodedStr := encodedStr + [Alphabet()[buffer * Pow2(5 - bitsLeft) % UINT32 % 32]];
    }
  }

  lemma NothingLeft(str: seq<Byte>)
    ensures "" + Base32(ToBits(0, 0) + Unpack(str[0..])) == Base32(Unpack(str))
  {
    assert ToBits(0, 0) + Unpack(str[0..]) == Unpack(str) by { assert str[0..] == str; }
  }

  lemma NextByte(str: seq<Byte>, i: nat, left: Bits)
    requires i < |str|
    ensures left + Unpack(str[i..]) == (left + ToBits(str[i], 8)) + Unpack(str[i + 1..])
  {
    hide ToBits;
    assert str[i..][1..] == str[i + 1..];
  }

  lemma NextGroup(buffer: nat, bitsLeft: nat, rest: Bits, done: string)
    requires bitsLeft >= 5
    ensures done + Base32(ToBits(buffer, bitsLeft) + rest)
         == done + [Alphabet()[ShiftRight(buffer, bitsLeft - 5) % 32]] + Base32(ToBits(buffer, bitsLeft - 5) + rest)
  {
    hide ToBits, FromBits, ShiftRight, Alphabet;
    var v := ShiftRight(buffer, bitsLeft - 5);
    ToBitsSplit(buffer, 5, bitsLeft - 5);
    LowFive(v);
    var bits := ToBits(buffer, bitsLeft) + rest;
    assert bits[..5] == ToBits(v, 5) && bits[5..] == ToBits(buffer, bitsLeft - 5) + rest;
  }

  lemma LastBits(buffer: nat, bitsLeft: nat, rest: seq<Byte>)
    requires bitsLeft <= 4 && rest == []
    ensures Base32(ToBits(buffer, bitsLeft) + Unpack(rest)) ==
            if bitsLeft == 0 then "" else [Alphabet()[buffer * Pow2(5 - bitsLeft) % UINT32 % 32]]
  {
    hide ToBits, FromBits, Alphabet, Pow2, Base32;
    LastGroup(buffer, bitsLeft);
    assert Unpack(rest) == [];
    assert ToBits(buffer, bitsLeft) + [] == ToBits(buffer, bitsLeft);
    Base32Short(ToBits(buffer, bitsLeft));
    ModMod(buffer * Pow2(5 - bitsLeft));
  }

  lemma ShortIndex(bits: Bits)
    requires |bits| < 5
    ensures FromBits(bits + ToBits(0, 5 - |bits|)) < 32
  {
    hide ToBits, FromBits, Pow2;
    FiveBits();
  }

  lemma Base32Short(bits: Bits)
    requires |bits| < 5
    ensures FromBits(bits + ToBits(0, 5 - |bits|)) < 32
    ensures Base32(bits) == if bits == [] then "" else [Alphabet()[FromBits(bits + ToBits(0, 5 - |bits|))]]
  {
    hide ToBits, FromBits, Alphabet, Pow2;
    ShortIndex(bits);
  }

  lemma ModMod(v: nat)
    ensures v % UINT32 % 32 == v % 32
  {
  }

  // ---- groups of characters ----

  function Chunks(s: string, g: nat): (chunks: seq<string>)
    requires g > 0
    decreases |s|
  {
    if s == "" then [] else if |s| <= g then [s] else [s[..g]] + Chunks(s[g..], g)
  }

  method WithSeperators(str: string, seperator: string, groupSize: nat) returns (r: string)
    requires groupSize > 0
    ensures r == Join(Chunks(str, groupSize), seperator)
  {
    hide Chunks;
    var chunks := [];
    var i := 0;
    FromTheStart(str);
    while i < |str|
      invariant 0 <= i
      invariant chunks + Chunks(if i <= |str| then str[i..] else "", groupSize) == Chunks(str, groupSize)
      decreases |str| - i
    {
      ChunkStep(str, i, groupSize);
      var n := if groupSize < |str| - i then groupSize else |str| - i;
      chunks := chunks + [str[i..i + n]];
      i := i + groupSize;
    }
    NoChunks(groupSize);
    assert (if i <= |str| then str[i..] else "") == "";
    assert chunks + [] == chunks;
    r := Join(chunks, seperator);
  }

  lemma NoChunks(g: nat)
    requires g > 0
    ensures Chunks("", g) == []
  {
  }

  lemma ChunkStep(s: string, i: nat, g: nat)
    requires g > 0 && i < |s|
    ensures var n := if g < |s| - i then g else |s| - i;
            Chunks(s[i..], g) == [s[i..i + n]] + Chunks(if i + g <= |s| then s[i + g..] else "", g)
  {
    if i + g < |s| {
      assert s[i..][..g] == s[i..i + g] && s[i..][g..] == s[i + g..];
    } else {
      assert Chunks("", g) == [];
      assert s[i..|s|] == s[i..];
    }
  }

  /** Groups are full, except that the last may be shorter. */
  ghost predicate Full(chunks: seq<string>, g: nat) {
    forall k :: 0 <= k < |chunks| ==> 0 < |chunks[k]| <= g && (k < |chunks| - 1 ==> |chunks[k]| == g)
  }

  lemma OneMoreGroup(first: string, rest: seq<string>, g: nat)
    requires 0 < |first| == g && Full(rest, g)
    ensures Full([first] + rest, g)
  {
  }

  lemma {:induction false} ChunksAreFull(s: string, g: nat)
    requires g > 0
    ensures Full(Chunks(s, g), g)
    decreases |s|
  {
    if |s| > g {
      ChunksAreFull(s[g..], g);
      OneMoreGroup(s[..g], Chunks(s[g..], g), g);
    }
  }

  // ---- reading the pairing code ----

  /** The string without a character. */
  function Without(s: string, c: char): string {
    if s == "" then "" else (if s[0] == c then "" else [s[0]]) + Without(s[1..], c)
  }

  lemma {:induction false} WithoutParts(a: string, b: string, c: char)
    ensures Without(a + b, c) == Without(a, c) + Without(b, c)
    decreases |a|
  {
    if a == "" {
      assert a + b == b;
    } else {
      assert (a + b)[1..] == a[1..] + b;
      WithoutParts(a[1..], b, c);
    }
  }

  lemma {:induction false} WithoutNone(s: string, c: char)
    requires c !in s
    ensures Without(s, c) == s
    decreases |s|
  {
    if s != "" {
      WithoutNone(s[1..], c);
    }
  }

  lemma WithoutOneMore(first: string, rest: string, c: char)
    requires c !in first
    ensures Without(first + [c] + rest, c) == first + Without(rest, c)
  {
    assert Without([c], c) == "";
    hide Without;
    WithoutParts(first + [c], rest, c);
    WithoutParts(first, [c], c);
    WithoutNone(first, c);
    assert first + "" == first;
  }

  lemma JoinOneMore(first: string, rest: seq<string>, sep: string)
    requires rest != []
    ensures Join([first] + rest, sep) == first + sep + Join(rest, sep)
  {
    assert ([first] + rest)[1..] == rest;
  }

  /** Taking the separators away restores a string that had none of its own. */
  lemma {:induction false} SeparatorsComeOff(s: string, c: char, g: nat)
    requires c !in s && g > 0
    ensures Without(Join(Chunks(s, g), [c]), c) == s
    decreases |s|
  {
    hide Without, Join;
    if s == "" {
      JoinFew(s, [c]);
      WithoutNone(s, c);
    } else if |s| <= g {
      JoinFew(s, [c]);
      WithoutNone(s, c);
    } else {
      SeparatorsComeOff(s[g..], c, g);
      JoinOneMore(s[..g], Chunks(s[g..], g), [c]);
      WithoutOneMore(s[..g], Join(Chunks(s[g..], g), [c]), c);
      assert s[..g] + s[g..] == s;
    }
  }

  lemma JoinFew(s: string, sep: string)
    ensures Join([], sep) == "" && Join([s], sep) == s
  {
  }

  function DigitValue(c: char): nat {
    if 'A' <= c <= 'Z' then c as int - 'A' as int
    else if '2' <= c <= '7' then c as int - '2' as int + 26
    else 0
  }

  lemma LetterValue(v: nat)
    requires v < 32
    ensures DigitValue(Alphabet()[v]) == v && Alphabet()[v] != '-'
  {
    if v < 16 {
      LetterValueLow(v);
    } else {
      LetterValueHigh(v);
    }
    hide Alphabet;
  }

  lemma LetterValueLow(v: nat)
    requires v < 16
    ensures DigitValue(Alphabet()[v]) == v && Alphabet()[v] != '-'
  {
  }

  lemma LetterValueHigh(v: nat)
    requires 16 <= v < 32
    ensures DigitValue(Alphabet()[v]) == v && Alphabet()[v] != '-'
  {
  }

  function DigitBits(s: string): (b: Bits)
    ensures |b| == 5 * |s|
  {
    if s == "" then [] else ToBits(DigitValue(s[0]), 5) + DigitBits(s[1..])
  }

  /** Whole bytes only: what is left after them filled up the last group. */
  function FromBase32(s: string): seq<Byte> {
    var bits := DigitBits(s);
    Pack(bits[..|bits| / 8 * 8])
  }

  lemma DigitReadBack(group: Bits)
    requires |group| == 5
    ensures FromBits(group) < 32 && ToBits(DigitValue(Alphabet()[FromBits(group)]), 5) == group
    ensures Alphabet()[FromBits(group)] != '-'
  {
    hide FromBits, ToBits, Alphabet, Pow2, DigitValue;
    FiveBits();
    LetterValue(FromBits(group));
    ToFromBits(group);
  }

  lemma {:induction false} DigitsReadBack(bits: Bits)
    ensures '-' !in Base32(bits) && |Base32(bits)| == (|bits| + 4) / 5
    ensures |bits| <= |DigitBits(Base32(bits))| < |bits| + 5 && DigitBits(Base32(bits))[..|bits|] == bits
    decreases |bits|
  {
    hide FromBits, ToBits, Alphabet, Pow2, DigitValue;
    var code := Base32(bits);
    if bits != [] {
      var group := if |bits| < 5 then bits + ToBits(0, 5 - |bits|) else bits[..5];
      var rest := if |bits| < 5 then [] else bits[5..];
      DigitReadBack(group);
      DigitsReadBack(rest);
      assert code == [Alphabet()[FromBits(group)]] + Base32(rest);
      assert code[1..] == Base32(rest);
      assert DigitBits(code) == group + DigitBits(Base32(rest));
      if |bits| >= 5 {
        assert bits == group + rest;
      }
    }
  }

  /** Base 32 of a payload can be read back, and takes ceil(8n / 5) characters. */
  lemma Base32ReadBack(payload: seq<Byte>)
    ensures FromBase32(Base32(Unpack(payload))) == payload
    ensures |Base32(Unpack(payload))| == (8 * |payload| + 4) / 5
    ensures '-' !in Base32(Unpack(payload))
  {
    hide Base32, DigitBits, Unpack, Pack;
    DigitsReadBack(Unpack(payload));
    PackUnpack(payload);
  }

  method GetPairingCode(payload: seq<Byte>) returns (code: string)
    ensures FromBase32(Without(code, '-')) == payload
    ensures code == Join(Chunks(Base32(Unpack(payload)), 5), "-")
  {
    hide Base32, FromBase32, Without, Unpack, Join, Chunks;
    var digits := ToBase32String(payload);
    code := WithSeperators(digits, "-", 5);
    Base32ReadBack(payload);
    SeparatorsComeOff(digits, '-', 5);
  }
}
