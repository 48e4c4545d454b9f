/**
 A reader of data codewords: mode, count field and payload, segment by segment, until a terminator.
 It gives back the text that makeSegments and encodeSegments were given.
 */
module QrReader {
  import opened Options
  import opened Bytes
  import opened BitStrings
  import opened QrTables
  import opened QrSegments
  import opened QrEncoder

  function ModeOf(indicator: nat): Option<Mode> {
    if indicator == 1 then Some(Numeric)
    else if indicator == 2 then Some(Alphanumeric)
    else if indicator == 4 then Some(ByteMode)
    else None
  }

  /** The width of the count field that a reader expects: versions 1-9, 10-26 and 27-40. */
  function CountWidth(mode: Mode, ver: Version): nat {
    var widths := match mode
      case Numeric => (10, 12, 14)
      case Alphanumeric => (9, 11, 13)
      case ByteMode => (8, 16, 16);
    if ver <= 9 then widths.0 else if ver <= 26 then widths.1 else widths.2
  }

  lemma WidthsAgree(mode: Mode, ver: Version)
    ensures mode.CharCountBits(ver) == CountWidth(mode, ver)
  {
  }

  function ReadPayload(mode: Mode, bits: Bits, n: nat): (r: (string, Bits))
    ensures |r.1| <= |bits|
  {
    match mode
    case Numeric => ReadDigits(bits, n)
    case Alphanumeric => ReadAlphanumerics(bits, n)
    case ByteMode => ReadBytes(bits, n)
  }

  /** One segment off the front: its text, and the bits after it. */
  function ReadSegment(mode: Mode, bits: Bits, ver: Version): (r: (string, Bits))
    ensures |r.1| <= |bits|
  {
    var width := CountWidth(mode, ver);
    ReadPayload(mode, Drop(bits, width), ReadNumber(bits, width))
  }

  function Decode(bits: Bits, ver: Version): Option<string>
    decreases |bits|
  {
    if |bits| < 4 then Some("") else
      var indicator := ReadNumber(bits, 4);
      if indicator == 0 then Some("") else
        var mode := ModeOf(indicator);
        if mode.None? then None else
          var (s, rest) := ReadSegment(mode.value, bits[4..], ver);
          var more := Decode(rest, ver);
          if more.None? then None else Some(s + more.value)
  }

  /** The segment is what one of the three makers makes of the text. */
  predicate Spells(seg: Segment, text: string) {
    && (forall k :: 0 <= k < |text| ==> text[k] as int < 256)
    && seg.numChars == |text|
    && match seg.mode
       case Numeric => AllDigits(text) && seg.data == NumericBits(text)
       case Alphanumeric => AllEncodable(text) && seg.data == AlphanumericBits(text)
       case ByteMode => (forall k :: 0 <= k < |text| ==> '\0' < text[k]) && seg.data == ByteBits(text)
  }

  predicate AllSpell(segs: seq<Segment>, texts: seq<string>) {
    |segs| == |texts| && forall k :: 0 <= k < |segs| ==> Spells(segs[k], texts[k])
  }

  function Join(texts: seq<string>): string {
    if texts == [] then "" else texts[0] + Join(texts[1..])
  }

  lemma PayloadReadBack(seg: Segment, text: string, rest: Bits)
    requires Spells(seg, text)
    ensures ReadPayload(seg.mode, seg.data + rest, |text|) == (text, rest)
  {
    hide NumericBits, AlphanumericBits, ByteBits, ReadDigits, ReadAlphanumerics, ReadBytes, Charset;
    match seg.mode
    case Numeric => DigitsReadBack(text, rest);
    case Alphanumeric => AlphanumericsReadBack(text, rest);
    case ByteMode => BytesReadBack(text, rest);
  }

  lemma SegmentReadBack(seg: Segment, text: string, ver: Version, rest: Bits)
    requires Spells(seg, text) && seg.numChars < Pow2(seg.mode.CharCountBits(ver))
    ensures var count := ToBits(seg.numChars, seg.mode.CharCountBits(ver));
            ReadSegment(seg.mode, count + (seg.data + rest), ver) == (text, rest)
  {
    hide ToBits, Pow2, Mode.CharCountBits, CountWidth, Spells, ReadPayload, ReadNumber, Drop;
    WidthsAgree(seg.mode, ver);
    ReadBack(seg.numChars, seg.mode.CharCountBits(ver), seg.data + rest);
    PayloadReadBack(seg, text, rest);
    assert seg.numChars == |text| by { Spelled(seg, text); }
  }

  lemma Spelled(seg: Segment, text: string)
    requires Spells(seg, text)
    ensures seg.numChars == |text|
  {
  }

  lemma ModeReadBack(mode: Mode, rest: Bits)
    ensures var b := ToBits(mode.ModeBits(), 4) + rest;
            |b| >= 4 && b[4..] == rest && ReadNumber(b, 4) != 0 && ModeOf(ReadNumber(b, 4)) == Some(mode)
  {
    hide ToBits, Pow2, ReadNumber;
    FieldWidths();
    ReadBack(mode.ModeBits(), 4, rest);
  }

  lemma OneSegment(seg: Segment, text: string, ver: Version, rest: Bits)
    requires Spells(seg, text) && seg.numChars < Pow2(seg.mode.CharCountBits(ver))
    ensures var more := Decode(rest, ver);
            var count := ToBits(seg.numChars, seg.mode.CharCountBits(ver));
            Decode(ToBits(seg.mode.ModeBits(), 4) + (count + (seg.data + rest)), ver)
            == if more.None? then None else Some(text + more.value)
  {
    hide ToBits, Pow2, Mode.CharCountBits, Mode.ModeBits, Spells, ReadSegment, ReadNumber, ModeOf;
    var body := ToBits(seg.numChars, seg.mode.CharCountBits(ver)) + (seg.data + rest);
    ModeReadBack(seg.mode, body);
    SegmentReadBack(seg, text, ver, rest);
  }

  /** Whatever is left when fewer than four bits remain, or four zeros come, is no segment. */
  lemma PaddingReadsAsNothing(used: nat, capacity: nat, ver: Version)
    requires used <= capacity && capacity % 8 == 0
    ensures Decode(Padding(used, capacity), ver) == Some("")
  {
    var p := Padding(used, capacity);
    hide ToBits, Padding, Pow2;
    FieldWidths();
    if |p| >= 4 {
      ReadBack(0, 4, p[4..]);
      assert p == ToBits(0, 4) + p[4..];
    }
  }

  lemma {:induction false} SegmentsReadBack(segs: seq<Segment>, texts: seq<string>, ver: Version, rest: Bits)
    requires AllSpell(segs, texts) && CountsFit(segs, ver) && Decode(rest, ver) == Some("")
    ensures Decode(Encoded(segs, ver) + rest, ver) == Some(Join(texts))
  {
    hide ToBits, Pow2, Mode.CharCountBits, Mode.ModeBits, Spells, Decode;
    if segs == [] {
      assert [] + rest == rest;
    } else {
      var s := segs[0];
      var tail := Encoded(segs[1..], ver) + rest;
      SegmentsReadBack(segs[1..], texts[1..], ver, rest);
      OneSegment(s, texts[0], ver, tail);
      assert Encoded(segs, ver) + rest
        == ToBits(s.mode.ModeBits(), 4) + (ToBits(s.numChars, s.mode.CharCountBits(ver)) + (s.data + tail));
    }
  }

  /** Any segments that spell texts are read back from the data codewords, padding and all. */
  lemma CodewordsReadBack(segs: seq<Segment>, texts: seq<string>, ver: Version, ecl: Ecc)
    requires Fits(segs, ver, ecl) && AllSpell(segs, texts)
    ensures |DataCodewords(segs, ver, ecl)| == NumDataCodewords(ver, ecl)
    ensures Decode(Unpack(DataCodewords(segs, ver, ecl)), ver) == Some(Join(texts))
  {
    hide NumDataCodewords, Encoded, Padding, Pack, Unpack, Decode, AllSpell, CountsFit;
    var used, capacity := |Encoded(segs, ver)|, NumDataCodewords(ver, ecl) * 8;
    PaddingReadsAsNothing(used, capacity, ver);
    SegmentsReadBack(segs, texts, ver, Padding(used, capacity));
    UnpackPack(Encoded(segs, ver) + Padding(used, capacity));
  }

  lemma SegmentsOfSpell(text: Text)
    ensures AllSpell(SegmentsOf(text), if text == "" then [] else [text])
    ensures Join(if text == "" then [] else [text]) == text
  {
    hide NumericBits, AlphanumericBits, ByteBits, Charset;
    if text != "" {
      assert Join([text][1..]) == "";
      assert text + "" == text;
    }
  }

  /** The text comes back from the codewords made of it. */
  lemma TextReadBack(text: Text, ver: Version, ecl: Ecc)
    requires Fits(SegmentsOf(text), ver, ecl)
    ensures Decode(Unpack(DataCodewords(SegmentsOf(text), ver, ecl)), ver) == Option<string>.Some(text)
  {
    hide SegmentsOf, Fits, DataCodewords, Decode, Unpack, AllSpell, Join;
    SegmentsOfSpell(text);
    CodewordsReadBack(SegmentsOf(text), if text == "" then [] else [text], ver, ecl);
  }
}
