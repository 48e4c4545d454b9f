/**
 Segments of text as bits (class QrSegment of deps/qrcodegen.cpp), and a decoder for them.
 Texts are C strings: bytes, none of them NUL.
 */
module QrSegments {
  import opened Bytes
  import opened BitStrings
  import opened QrTables

  type Text = s: string | forall k :: 0 <= k < |s| ==> '\0' < s[k] && s[k] as int < 256

  datatype Mode = Numeric | Alphanumeric | ByteMode {

    function ModeBits(): nat {
      match this
      case Numeric => 1
      case Alphanumeric => 2
      case ByteMode => 4
    }

    /** The width of the character count field. */
    function CharCountBits(ver: Version): nat {
      var range := (ver + 7) / 17;
      match this
      case Numeric => if range == 0 then 10 else if range == 1 then 12 else 14
      case Alphanumeric => if range == 0 then 9 else if range == 1 then 11 else 13
      case ByteMode => if range == 0 then 8 else 16
    }
  }

  datatype Segment = Segment(mode: Mode, numChars: nat, data: Bits)

  function Charset(): (s: string)
    ensures |s| == 45
  {
    "0123456789" + LETTERS + " $%*+-./:"
  }

  const LETTERS := "ABCDEFGHIJKLMNOPQRSTUVWXYZ"

  lemma DigitsInOrder(k: nat)
    ensures k < 10 ==> "0123456789"[k] as int == '0' as int + k
  {
  }

  lemma LettersInOrder(k: nat)
    ensures k < 13 ==> LETTERS[k] as int == 'A' as int + k
    ensures 13 <= k < 26 ==> LETTERS[k] as int == 'A' as int + k
  {
  }

  /** The digits, the letters and nine others, in the order of their values. */
  lemma CharsetIs(k: nat)
    requires k < 45
    ensures var v := Charset()[k] as int;
            && (k < 10 ==> v == '0' as int + k)
            && (10 <= k < 36 ==> v == 'A' as int + k - 10)
            && (k >= 36 ==> Charset()[k] == " $%*+-./:"[k - 36])
  {
    DigitsInOrder(k);
    if 10 <= k < 36 {
      LettersInOrder(k - 10);
    }
  }

  predicate IsDigit(c: char) {
    '0' <= c <= '9'
  }

  function DigitValue(c: char): nat
    requires IsDigit(c)
  {
    c as int - '0' as int
  }

  predicate AllDigits(s: string) {
    forall k :: 0 <= k < |s| ==> IsDigit(s[k])
  }

  predicate AllEncodable(s: string) {
    forall k :: 0 <= k < |s| ==> s[k] in Charset()
  }

  /** The first position of c in s. */
  function IndexOf(s: string, c: char): (k: nat)
    requires c in s
    ensures k < |s| && s[k] == c
  {
    if s[0] == c then 0 else 1 + IndexOf(s[1..], c)
  }

  function CharIndex(c: char): (k: nat)
    requires c in Charset()
    ensures k < 45 && Charset()[k] == c
  {
    hide Charset;
    IndexOf(Charset(), c)
  }

  /** The numbers that fit the fields of a payload. */
  lemma FieldWidths()
    ensures Pow2(4) == 16 && Pow2(6) == 64 && Pow2(7) == 128
    ensures Pow2(8) == 256 && Pow2(10) == 1024 && Pow2(11) == 2048
  {
    assert Pow2(8) == 256;
  }

  // ---- payloads ----

  /** Three digits in ten bits; two or one left over in seven or four. */
  function NumericBits(s: string): Bits
    requires AllDigits(s)
  {
    if |s| >= 3 then
      ToBits(DigitValue(s[0]) * 100 + DigitValue(s[1]) * 10 + DigitValue(s[2]), 10) + NumericBits(s[3..])
    else if |s| == 2 then ToBits(DigitValue(s[0]) * 10 + DigitValue(s[1]), 7)
    else if |s| == 1 then ToBits(DigitValue(s[0]), 4)
    else []
  }

  /** Two characters in eleven bits; one left over in six. */
  function AlphanumericBits(s: string): Bits
    requires AllEncodable(s)
  {
    if |s| >= 2 then ToBits(CharIndex(s[0]) * 45 + CharIndex(s[1]), 11) + AlphanumericBits(s[2..])
    else if |s| == 1 then ToBits(CharIndex(s[0]), 6)
    else []
  }

  function ByteBits(s: Text): Bits {
    if s == "" then [] else ToBits(s[0] as int, 8) + ByteBits(s[1..])
  }

  /** How many bits texts take in each mode. */
  lemma {:induction false} NumericLength(s: string)
    requires AllDigits(s)
    ensures |NumericBits(s)| == 10 * (|s| / 3) + (if |s| % 3 == 2 then 7 else if |s| % 3 == 1 then 4 else 0)
    decreases |s|
  {
    hide ToBits;
    if |s| >= 3 {
      NumericLength(s[3..]);
    }
  }

  lemma {:induction false} AlphanumericLength(s: string)
    requires AllEncodable(s)
    ensures |AlphanumericBits(s)| == 11 * (|s| / 2) + 6 * (|s| % 2)
    decreases |s|
  {
    hide ToBits, Charset, CharIndex;
    if |s| >= 2 {
      AlphanumericLength(s[2..]);
    }
  }

  lemma {:induction false} ByteLength(s: Text)
    ensures |ByteBits(s)| == 8 * |s|
  {
    hide ToBits;
    if s != "" {
      ByteLength(s[1..]);
    }
  }

  /** Digits are these ten. */
  lemma TenDigits(c: char)
    ensures IsDigit(c) <==> c in "0123456789"
  {
    var k := if IsDigit(c) then c as int - '0' as int else 0;
    assert "0123456789"[k] as int == '0' as int + k;
  }

  // ---- reading payloads ----

  /** What is left after the first n bits; nothing when there are not so many. */
  function Drop(bits: Bits, n: nat): (rest: Bits)
    ensures |rest| <= |bits|
  {
    if n <= |bits| then bits[n..] else []
  }

  /** The number in the first n bits; missing bits read as none. */
  function ReadNumber(bits: Bits, n: nat): nat {
    if n <= |bits| then FromBits(bits[..n]) else 0
  }

  function DigitChar(v: nat): char {
    ('0' as int + v % 10) as char
  }

  /** n digits, and the bits after them. */
  function ReadDigits(bits: Bits, n: nat): (r: (string, Bits))
    ensures |r.1| <= |bits|
    decreases n
  {
    if n >= 3 then
      var v := ReadNumber(bits, 10);
      var (s, rest) := ReadDigits(Drop(bits, 10), n - 3);
      ([DigitChar(v / 100), DigitChar(v / 10), DigitChar(v)] + s, rest)
    else if n == 2 then
      var v := ReadNumber(bits, 7);
      ([DigitChar(v / 10), DigitChar(v)], Drop(bits, 7))
    else if n == 1 then ([DigitChar(ReadNumber(bits, 4))], Drop(bits, 4))
    else ("", bits)
  }

  function CharsetChar(v: nat): char {
    Charset()[v % 45]
  }

  function ReadAlphanumerics(bits: Bits, n: nat): (r: (string, Bits))
    ensures |r.1| <= |bits|
    decreases n
  {
    if n >= 2 then
      var v := ReadNumber(bits, 11);
      var (s, rest) := ReadAlphanumerics(Drop(bits, 11), n - 2);
      ([CharsetChar(v / 45), CharsetChar(v)] + s, rest)
    else if n == 1 then ([CharsetChar(ReadNumber(bits, 6))], Drop(bits, 6))
    else ("", bits)
  }

  function ByteChar(v: nat): char {
    (v % 256) as char
  }

  function ReadBytes(bits: Bits, n: nat): (r: (string, Bits))
    ensures |r.1| <= |bits|
    decreases n
  {
    if n == 0 then ("", bits) else
      var (s, rest) := ReadBytes(Drop(bits, 8), n - 1);
      ([ByteChar(ReadNumber(bits, 8))] + s, rest)
  }

  lemma ReadBack(v: nat, n: nat, rest: Bits)
    requires v < Pow2(n)
    ensures ReadNumber(ToBits(v, n) + rest, n) == v && Drop(ToBits(v, n) + rest, n) == rest
  {
    FromToBits(v, n);
    assert (ToBits(v, n) + rest)[..n] == ToBits(v, n);
    assert (ToBits(v, n) + rest)[n..] == rest;
  }

  lemma DigitsSpelled(a: char, b: char, c: char)
    requires IsDigit(a) && IsDigit(b) && IsDigit(c)
    ensures var v := DigitValue(a) * 10 + DigitValue(b);
            v < 100 && DigitChar(v / 10) == a && DigitChar(v) == b
    ensures var v := DigitValue(a) * 100 + DigitValue(b) * 10 + DigitValue(c);
            v < 1000 && DigitChar(v / 100) == a && DigitChar(v / 10) == b && DigitChar(v) == c
  {
  }

  lemma {:induction false} DigitsReadBack(s: string, rest: Bits)
    requires AllDigits(s)
    ensures ReadDigits(NumericBits(s) + rest, |s|) == (s, rest)
  {
    hide Pow2, ToBits, FromBits, ReadNumber, Drop, DigitChar, DigitValue, IsDigit;
    FieldWidths();
    if |s| >= 3 {
      DigitsSpelled(s[0], s[1], s[2]);
      var v := DigitValue(s[0]) * 100 + DigitValue(s[1]) * 10 + DigitValue(s[2]);
      ReadBack(v, 10, NumericBits(s[3..]) + rest);
      assert NumericBits(s) + rest == ToBits(v, 10) + (NumericBits(s[3..]) + rest);
      DigitsReadBack(s[3..], rest);
      assert s == [s[0], s[1], s[2]] + s[3..];
    } else if |s| == 2 {
      DigitsSpelled(s[0], s[1], s[1]);
      ReadBack(DigitValue(s[0]) * 10 + DigitValue(s[1]), 7, rest);
      assert s == [s[0], s[1]];
    } else if |s| == 1 {
      OneDigit(s[0]);
      ReadBack(DigitValue(s[0]), 4, rest);
      assert s == [s[0]];
    } else {
      assert s == "" && [] + rest == rest;
    }
  }

  lemma OneDigit(c: char)
    requires IsDigit(c)
    ensures DigitValue(c) < 10 && DigitChar(DigitValue(c)) == c
  {
  }

  lemma PairSpelled(a: char, b: char)
    requires a in Charset() && b in Charset()
    ensures var v := CharIndex(a) * 45 + CharIndex(b);
            v < 2025 && CharsetChar(v / 45) == a && CharsetChar(v) == b
    ensures CharsetChar(CharIndex(b)) == b
  {
    hide Charset, CharIndex;
    var v := CharIndex(a) * 45 + CharIndex(b);
    assert v / 45 == CharIndex(a) && v % 45 == CharIndex(b);
  }

  lemma {:induction false} AlphanumericsReadBack(s: string, rest: Bits)
    requires AllEncodable(s)
    ensures ReadAlphanumerics(AlphanumericBits(s) + rest, |s|) == (s, rest)
  {
    hide Pow2, ToBits, FromBits, ReadNumber, Drop, CharIndex, CharsetChar, Charset;
    FieldWidths();
    if |s| >= 2 {
      PairSpelled(s[0], s[1]);
      var v := CharIndex(s[0]) * 45 + CharIndex(s[1]);
      ReadBack(v, 11, AlphanumericBits(s[2..]) + rest);
      assert AlphanumericBits(s) + rest == ToBits(v, 11) + (AlphanumericBits(s[2..]) + rest);
      AlphanumericsReadBack(s[2..], rest);
      assert s == [s[0], s[1]] + s[2..];
    } else if |s| == 1 {
      PairSpelled(s[0], s[0]);
      ReadBack(CharIndex(s[0]), 6, rest);
      assert s == [s[0]];
    } else {
      assert s == "" && [] + rest == rest;
    }
  }

  lemma {:induction false} BytesReadBack(s: Text, rest: Bits)
    ensures ReadBytes(ByteBits(s) + rest, |s|) == (s, rest)
  {
    hide Pow2, ToBits, FromBits, ReadNumber, Drop;
    FieldWidths();
    if s == "" {
      assert [] + rest == rest;
    } else {
      ReadBack(s[0] as int, 8, ByteBits(s[1..]) + rest);
      assert ByteBits(s) + rest == ToBits(s[0] as int, 8) + (ByteBits(s[1..]) + rest);
      BytesReadBack(s[1..], rest);
      assert ByteChar(s[0] as int) == s[0];
      assert s == [s[0]] + s[1..];
    }
  }

  // ---- making segments ----

  const INT_MAX := 0x7FFF_FFFF

  /** The bytes written and those to come make up the payload of all. */
  ghost predicate BytesSoFar(bits: Bits, rest: Text, all: Text) {
    bits + ByteBits(rest) == ByteBits(all)
  }

  lemma NextByte(bits: Bits, c: char, rest: Text, all: Text)
    requires '\0' < c && c as int < 256 && BytesSoFar(bits, [c] + rest, all)
    ensures BytesSoFar(bits + ToBits(c as int, 8), rest, all)
  {
    hide ToBits;
    assert ([c] + rest)[1..] == rest;
  }

  lemma BytesStartAndEnd(bits: Bits, all: Text)
    ensures BytesSoFar([], all, all)
    ensures BytesSoFar(bits, "", all) ==> bits == ByteBits(all)
  {
    assert [] + ByteBits(all) == ByteBits(all);
    assert ByteBits("") == [] && bits + [] == bits;
  }

  method MakeBytes(data: Text) returns (ok: bool, seg: Segment)
    ensures ok <==> |data| <= INT_MAX
    ensures ok ==> seg == Segment(ByteMode, |data|, ByteBits(data))
  {
    hide Pow2, ToBits, ByteBits, BytesSoFar;
    FieldWidths();
    seg := Segment(ByteMode, 0, []);
    if |data| > INT_MAX {
      return false, seg;
    }
    var bb := new BitBuffer();
    BytesStartAndEnd([], data);
    assert data[0..] == data;
    for k := 0 to |data|
      invariant BytesSoFar(bb.bits, data[k..], data)
    {
      assert data[k..] == [data[k]] + data[k + 1..];
      NextByte(bb.bits, data[k], data[k + 1..], data);
      var fits := bb.AppendBits(data[k] as int, 8);
    }
    assert data[|data|..] == "";
    BytesStartAndEnd(bb.bits, data);
    return true, Segment(ByteMode, |data|, bb.bits);
  }

  /** The number that at most two digits spell. */
  function PendingDigits(s: string): (v: nat)
    requires AllDigits(s) && |s| <= 2
    ensures v < 100
  {
    if |s| == 0 then 0 else if |s| == 1 then DigitValue(s[0]) else DigitValue(s[0]) * 10 + DigitValue(s[1])
  }

  /** The bits written, and the digits pending and to come, make up the payload of all. */
  ghost predicate NumericSoFar(bits: Bits, pending: string, rest: string, all: string) {
    AllDigits(all) ==> AllDigits(pending + rest) && bits + NumericBits(pending + rest) == NumericBits(all)
  }

  lemma PendingGrows(pending: string, c: char)
    requires AllDigits(pending) && |pending| <= 2 && IsDigit(c)
    ensures PendingDigits(pending) * 10 + DigitValue(c) < 1000
    ensures |pending| < 2 ==>
      AllDigits(pending + [c]) && PendingDigits(pending + [c]) == PendingDigits(pending) * 10 + DigitValue(c)
  {
  }

  lemma NextDigit(bits: Bits, pending: string, c: char, rest: string, all: string)
    requires AllDigits(pending) && |pending| <= 2 && IsDigit(c)
    requires NumericSoFar(bits, pending, [c] + rest, all)
    ensures |pending| < 2 ==> NumericSoFar(bits, pending + [c], rest, all)
    ensures |pending| == 2 ==>
      NumericSoFar(bits + ToBits(PendingDigits(pending) * 10 + DigitValue(c), 10), "", rest, all)
  {
    hide ToBits, DigitValue, IsDigit;
    assert pending + ([c] + rest) == pending + [c] + rest;
    assert "" + rest == rest;
    if |pending| == 2 {
      assert (pending + [c] + rest)[3..] == rest;
    }
  }

  /** The digits left over at the end, in 3n + 1 bits. */
  lemma LastDigits(s: string)
    requires AllDigits(s) && |s| <= 2
    ensures s != "" ==> PendingDigits(s) < Pow2(3 * |s| + 1)
    ensures NumericBits(s) == if s == "" then [] else ToBits(PendingDigits(s), 3 * |s| + 1)
  {
    hide ToBits, Pow2;
    FieldWidths();
  }

  method MakeNumeric(digits: Text) returns (ok: bool, seg: Segment)
    ensures ok <==> AllDigits(digits)
    ensures ok ==> seg == Segment(Numeric, |digits|, NumericBits(digits))
  {
    hide ToBits, Pow2, NumericBits, IsDigit, DigitValue, NumericSoFar;
    FieldWidths();
    seg := Segment(Numeric, 0, []);
    var bb := new BitBuffer();
    var accumData, accumCount := 0, 0;
    ghost var pending := "";
    NumericStartsAndEnds([], digits, digits);
    for k := 0 to |digits|
      invariant AllDigits(pending) && |pending| == accumCount <= 2
      invariant accumData == PendingDigits(pending)
      invariant AllDigits(digits[..k])
      invariant NumericSoFar(bb.bits, pending, digits[k..], digits)
    {
      var c := digits[k];
      if !IsDigit(c) {
        return false, seg;
      }
      assert digits[k..] == [c] + digits[k + 1..] && digits[..k + 1] == digits[..k] + [c];
      PendingGrows(pending, c);
      NextDigit(bb.bits, pending, c, digits[k + 1..], digits);
      accumData := accumData * 10 + DigitValue(c);
      accumCount := accumCount + 1;
      if accumCount == 3 {
        var fits := bb.AppendBits(accumData, 10);
        accumData, accumCount, pending := 0, 0, "";
      } else {
        pending := pending + [c];
      }
    }
    assert digits[..|digits|] == digits && digits[|digits|..] == "";
    NumericStartsAndEnds(bb.bits, pending, digits);
    LastDigits(pending);
    if accumCount > 0 {
      var fits := bb.AppendBits(accumData, accumCount * 3 + 1);
    }
    return true, Segment(Numeric, |digits|, bb.bits);
  }

  lemma NumericStartsAndEnds(bits: Bits, pending: string, all: string)
    ensures NumericSoFar([], "", all, all)
    ensures AllDigits(pending) && AllDigits(all) && NumericSoFar(bits, pending, "", all) ==>
      bits + NumericBits(pending) == NumericBits(all)
  {
    assert "" + all == all && pending + "" == pending;
    hide NumericBits;
    if AllDigits(all) {
      assert [] + NumericBits(all) == NumericBits(all);
    }
  }

  ghost predicate AlphanumericSoFar(bits: Bits, pending: string, rest: string, all: string) {
    AllEncodable(all) ==>
      AllEncodable(pending + rest) && bits + AlphanumericBits(pending + rest) == AlphanumericBits(all)
  }

  lemma NextCharacter(bits: Bits, pending: string, c: char, rest: string, all: string)
    requires AllEncodable(pending) && |pending| <= 1 && c in Charset()
    requires AlphanumericSoFar(bits, pending, [c] + rest, all)
    ensures |pending| == 0 ==> AlphanumericSoFar(bits, [c], rest, all)
    ensures |pending| == 1 ==>
      AlphanumericSoFar(bits + ToBits(CharIndex(pending[0]) * 45 + CharIndex(c), 11), "", rest, all)
  {
    hide ToBits, Charset, CharIndex;
    assert "" + rest == rest;
    if |pending| == 1 {
      assert pending + ([c] + rest) == [pending[0], c] + rest;
      assert ([pending[0], c] + rest)[2..] == rest;
    } else {
      assert pending + ([c] + rest) == [c] + rest;
    }
  }

  method MakeAlphanumeric(text: Text) returns (ok: bool, seg: Segment)
    ensures ok <==> AllEncodable(text)
    ensures ok ==> seg == Segment(Alphanumeric, |text|, AlphanumericBits(text))
  {
    hide ToBits, Pow2, AlphanumericBits, CharIndex, Charset, AlphanumericSoFar;
    FieldWidths();
    seg := Segment(Alphanumeric, 0, []);
    var bb := new BitBuffer();
    var accumData, accumCount := 0, 0;
    ghost var pending := "";
    AlphanumericStartsAndEnds([], "", text);
    for k := 0 to |text|
      invariant AllEncodable(pending) && |pending| == accumCount <= 1
      invariant accumData == if accumCount == 0 then 0 else CharIndex(pending[0])
      invariant AllEncodable(text[..k])
      invariant AlphanumericSoFar(bb.bits, pending, text[k..], text)
    {
      if text[k] !in Charset() {
        return false, seg;
      }
      assert text[k..] == [text[k]] + text[k + 1..] && text[..k + 1] == text[..k] + [text[k]];
      NextCharacter(bb.bits, pending, text[k], text[k + 1..], text);
      accumData := accumData * 45 + CharIndex(text[k]);
      accumCount := accumCount + 1;
      if accumCount == 2 {
        var fits := bb.AppendBits(accumData, 11);
        accumData, accumCount, pending := 0, 0, "";
      } else {
        pending := [text[k]];
      }
    }
    assert text[..|text|] == text && text[|text|..] == "";
    AlphanumericStartsAndEnds(bb.bits, pending, text);
    LastCharacter(pending);
    if accumCount > 0 {
      var fits := bb.AppendBits(accumData, 6);
    }
    return true, Segment(Alphanumeric, |text|, bb.bits);
  }

  lemma AlphanumericStartsAndEnds(bits: Bits, pending: string, all: string)
    ensures AlphanumericSoFar([], "", all, all)
    ensures AllEncodable(pending) && AllEncodable(all) && AlphanumericSoFar(bits, pending, "", all) ==>
      bits + AlphanumericBits(pending) == AlphanumericBits(all)
  {
    hide AlphanumericBits, Charset;
    assert "" + all == all && pending + "" == pending;
    if AllEncodable(all) {
      assert [] + AlphanumericBits(all) == AlphanumericBits(all);
    }
  }

  lemma LastCharacter(s: string)
    requires AllEncodable(s) && |s| <= 1
    ensures AlphanumericBits(s) == if s == "" then [] else ToBits(CharIndex(s[0]), 6)
  {
  }

  /** What the program makes of a text: no segment, or one in the most compact mode that can spell it. */
  function SegmentsOf(text: Text): seq<Segment> {
    if text == "" then []
    else if AllDigits(text) then [Segment(Numeric, |text|, NumericBits(text))]
    else if AllEncodable(text) then [Segment(Alphanumeric, |text|, AlphanumericBits(text))]
    else [Segment(ByteMode, |text|, ByteBits(text))]
  }

  method IsNumeric(text: Text) returns (b: bool)
    ensures b <==> AllDigits(text)
  {
    for k := 0 to |text|
      invariant forall i :: 0 <= i < k ==> IsDigit(text[i])
    {
      if text[k] < '0' || text[k] > '9' {
        return false;
      }
    }
    return true;
  }

  method IsAlphanumeric(text: Text) returns (b: bool)
    ensures b <==> AllEncodable(text)
  {
    for k := 0 to |text|
      invariant forall i :: 0 <= i < k ==> text[i] in Charset()
    {
      if text[k] !in Charset() {
        return false;
      }
    }
    return true;
  }

  method MakeSegments(text: Text) returns (ok: bool, segs: seq<Segment>)
    ensures |text| <= INT_MAX ==> ok
    ensures ok ==> segs == SegmentsOf(text)
  {
    if text == "" {
      return true, [];
    }
    var numeric := IsNumeric(text);
    var seg;
    if numeric {
      ok, seg := MakeNumeric(text);
    } else {
      var alphanumeric := IsAlphanumeric(text);
      if alphanumeric {
        ok, seg := MakeAlphanumeric(text);
      } else {
        ok, seg := MakeBytes(text);
      }
    }
    segs := [seg];
  }
}
