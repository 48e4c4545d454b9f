/**
 From a text to a finished symbol and back (encodeText, encodeSegments and the constructor of
 QrCode in deps/qrcodegen.cpp).  The reader is given the matrix of modules and nothing else.
 */
module QrText {
  import opened Options
  import opened Bytes
  import opened BitStrings
  import opened ZigZag
  import opened QrGrid
  import opened QrTables
  import opened QrPatterns
  import opened QrRoom
  import opened QrFormat
  import opened QrFormatReader
  import opened QrPenalty
  import opened QrColours
  import opened QrSymbol
  import opened QrSegments
  import opened QrEncoder
  import opened QrReader
  import opened Interleaving

  /** The codewords of a version fill the modules left for them but for seven at most. */
  lemma CodewordsFit(ver: Version)
    ensures PathIn(Scan(Size(ver)), Size(ver))
    ensures 0 <= Free(Reserved(ver), Scan(Size(ver))) - 8 * NumRawCodewords(ver) < 8
  {
    hide Free, Reserved, Scan, NumRawDataModules;
    FreeModules(ver);
  }

  // ---- the reader ----

  function VersionOf(size: int): (ver: Option<Version>)
    ensures forall v: Version :: ver == Some(v) <==> size == Size(v)
  {
    if IsSize(size) && size <= 177 then Some((size - 17) / 4) else None
  }

  /**
   Reading a symbol: its size tells the version and thereby the function modules, its format modules
   tell level and mask.  Then off with the mask, along the scan, apart into blocks, and their data
   as text.
   */
  function ReadSymbol(symbol: Grid): Option<string> {
    hide NumRawCodewords, Masked, ReadAlong, Free, Pack, Reserved, ReadFormat, ReadCodewords, Scan;
    match VersionOf(|symbol|)
    case None => None
    case Some(ver) =>
      if !Square(symbol, |symbol|) then None else
        var format, raw := ReadFormat(symbol, 0), NumRawCodewords(ver);
        var bits := ReadAlong(Masked(symbol, Reserved(ver), format.mask), Reserved(ver), Scan(|symbol|));
        if 0 <= 8 * raw <= |bits| then ReadCodewords(Pack(bits[..8 * raw]), ver, format.ecl) else None
  }

  function ReadCodewords(codewords: seq<Byte>, ver: Version, ecl: Ecc): Option<string>
    requires |codewords| == NumRawCodewords(ver)
  {
    var l := LayoutOf(ver, ecl);
    LayoutValid(ver, ecl);
    Decode(Unpack(JoinData(l, Deinterleave(l, codewords), l.numBlocks)), ver)
  }

  lemma CodewordsComeBack(data: seq<Byte>, codewords: seq<Byte>, ver: Version, ecl: Ecc)
    requires |data| == NumDataCodewords(ver, ecl) && |codewords| == NumRawCodewords(ver)
    requires LayoutOf(ver, ecl).Valid()
    requires Deinterleave(LayoutOf(ver, ecl), codewords) == Blocks(LayoutOf(ver, ecl), data)
    ensures ReadCodewords(codewords, ver, ecl) == Decode(Unpack(data), ver)
  {
    hide Deinterleave, Blocks, JoinData, Layout.Valid, Decode, Unpack, NumRawCodewords;
    DataComesBack(LayoutOf(ver, ecl), data);
  }

  /** The symbol of codewords, a level and a mask. */
  function SymbolOf(codewords: seq<Byte>, ver: Version, ecl: Ecc, mask: nat): (g: Grid)
    ensures Square(g, Size(ver))
  {
    var drawn := Drawn(FunctionPatterns(ver, ecl), Reserved(ver), Unpack(codewords), Scan(Size(ver)));
    Finished(drawn, Reserved(ver), ecl, mask)
  }

  /** The reader gets the codewords out of a finished symbol. */
  lemma SymbolComesBack(codewords: seq<Byte>, ver: Version, ecl: Ecc, mask: nat)
    requires |codewords| == NumRawCodewords(ver) && mask < 8
    ensures ReadSymbol(SymbolOf(codewords, ver, ecl, mask)) == ReadCodewords(codewords, ver, ecl)
  {
    hide Drawn, Scan, Unpack, Pack, Free, NumRawCodewords, ReadCodewords, FormatReserved, Finished, Inverts, Masked;
    hide Reserved, FunctionPatterns, ReadFormat, ReadAlong;
    var symbol := SymbolOf(codewords, ver, ecl, mask);
    FormatStands(codewords, ver, ecl, mask);
    BitsStand(codewords, ver, ecl, mask);
    PackUnpack(codewords);
    assert VersionOf(|symbol|) == Some(ver);
  }

  lemma FormatStands(codewords: seq<Byte>, ver: Version, ecl: Ecc, mask: nat)
    requires mask < 8
    ensures ReadFormat(SymbolOf(codewords, ver, ecl, mask), 0) == Format(ecl, mask)
  {
    hide Drawn, Scan, Unpack, Reserved, FunctionPatterns, ReadFormat, Masked, WithFormat;
    var drawn := Drawn(FunctionPatterns(ver, ecl), Reserved(ver), Unpack(codewords), Scan(Size(ver)));
    FormatReadBack(Masked(drawn, Reserved(ver), mask), ecl, mask, 0);
  }

  lemma BitsStand(codewords: seq<Byte>, ver: Version, ecl: Ecc, mask: nat)
    requires |codewords| == NumRawCodewords(ver)
    ensures var fn, symbol := Reserved(ver), SymbolOf(codewords, ver, ecl, mask);
            var bits := ReadAlong(Masked(symbol, fn, mask), fn, Scan(|symbol|));
            |bits| >= |Unpack(codewords)| && bits[..|Unpack(codewords)|] == Unpack(codewords)
  {
    hide Drawn, Scan, Unpack, Free, NumRawCodewords, FormatReserved, Finished, Inverts, Masked;
    hide Reserved, FunctionPatterns;
    var g, fn, bits := FunctionPatterns(ver, ecl), Reserved(ver), Unpack(codewords);
    var drawn := Drawn(g, fn, bits, Scan(|g|));
    var symbol := Finished(drawn, fn, ecl, mask);
    ReservedFormat(ver);
    CodewordsFit(ver);
    FinishedSize(drawn, fn, ecl, mask);
    forall c | InGrid(|g|, c) && !At(fn, c) ensures At(symbol, c) == At(Masked(drawn, fn, mask), c) {
      FinishedKeepsData(drawn, fn, ecl, mask, c);
    }
    ReaderGetsBits(g, fn, bits, mask, symbol);
  }

  lemma FinishedSize(g: Grid, fn: Grid, ecl: Ecc, mask: nat)
    requires IsSize(|g|) && Square(g, |g|) && Square(fn, |g|)
    ensures |Finished(g, fn, ecl, mask)| == |g| == |Masked(g, fn, mask)|
  {
  }

  // ---- the writer ----

  /** No mask gives these codewords a lower penalty, and no smaller mask as low a one. */
  ghost predicate IsBestMask(codewords: seq<Byte>, ver: Version, ecl: Ecc, mask: int) {
    && 0 <= mask <= 7
    && forall m: nat :: m <= 7 ==>
         var best, other := Penalty(SymbolOf(codewords, ver, ecl, mask)), Penalty(SymbolOf(codewords, ver, ecl, m));
         if m < mask then best < other else best <= other
  }

  /** The matrix is the symbol of the codewords that data and check bytes interleave to. */
  ghost predicate IsMadeOf(g: Grid, codewords: seq<Byte>, data: seq<Byte>, ver: Version, ecl: Ecc, mask: int) {
    var l := LayoutOf(ver, ecl);
    && |codewords| == NumRawCodewords(ver) && |data| == NumDataCodewords(ver, ecl) && l.Valid()
    && Deinterleave(l, codewords) == Blocks(l, data)
    && mask >= 0 && g == SymbolOf(codewords, ver, ecl, mask)
  }

  lemma ChosenIsBest(codewords: seq<Byte>, ver: Version, ecl: Ecc)
    ensures var g := Drawn(FunctionPatterns(ver, ecl), Reserved(ver), Unpack(codewords), Scan(Size(ver)));
            IsBestMask(codewords, ver, ecl, BestMask(g, Reserved(ver), ecl, 8))
  {
    hide Drawn, Reserved, FunctionPatterns, Unpack, Scan, Penalty, Finished, BestMask;
    var g := Drawn(FunctionPatterns(ver, ecl), Reserved(ver), Unpack(codewords), Scan(Size(ver)));
    BestMaskIsFirstMinimum(g, Reserved(ver), ecl, 8);
    forall m: nat | m <= 7
      ensures Score(g, Reserved(ver), ecl, m) == Penalty(SymbolOf(codewords, ver, ecl, m))
    {
    }
  }

  /** The constructor of QrCode, from data codewords. */
  method MakeSymbol(ver: Version, ecl: Ecc, data: seq<Byte>, msk: int) returns (ok: bool, qr: QrCode)
    ensures fresh(qr)
    ensures ok <==> -1 <= msk <= 7 && |data| == NumDataCodewords(ver, ecl)
    ensures ok ==> 0 <= qr.mask <= 7 && (msk != -1 ==> qr.mask == msk)
    ensures ok ==> |qr.modules| == Size(ver) && ReadSymbol(qr.modules) == Decode(Unpack(data), ver)
    ensures ok ==> exists codewords ::
              IsMadeOf(qr.modules, codewords, data, ver, ecl, qr.mask) &&
              (msk == -1 ==> IsBestMask(codewords, ver, ecl, qr.mask))
  {
    hide NumRawCodewords, NumDataCodewords, ReadSymbol, ReadCodewords, Decode, Unpack, Scan, Drawn, Finished, Free;
    hide BestMask, Deinterleave, Blocks, Layout.Valid, FormatReserved, Reserved, FunctionPatterns, Blank;
    qr := new QrCode(ver, ecl);
    if msk < -1 || msk > 7 {
      return false, qr;
    }
    qr.DrawFunctionPatterns();
    var codewords;
    ok, codewords := AddEccAndInterleave(ver, ecl, data);
    if !ok {
      return;
    }
    var drawn, complete := qr.DrawCodewords(codewords);
    CodewordsFit(ver);
    assert drawn && complete;
    ok := qr.FinishWithMask(msk);
    CodewordsComeBack(data, codewords, ver, ecl);
    SymbolComesBack(codewords, ver, ecl, qr.mask);
    ChosenIsBest(codewords, ver, ecl);
    hide IsBestMask;
    assert IsMadeOf(qr.modules, codewords, data, ver, ecl, qr.mask);
  }

  /** The text fits, no smaller version holds it at the level asked for, and no higher level fits this version. */
  ghost predicate IsLeast(text: Text, asked: Ecc, ver: Version, ecl: Ecc) {
    && Fits(SegmentsOf(text), ver, ecl) && Fits(SegmentsOf(text), ver, asked)
    && (forall v: Version :: v < ver ==> !Fits(SegmentsOf(text), v, asked))
    && (forall e :: Fits(SegmentsOf(text), ver, e) ==> Rank(e) <= Rank(ecl))
  }

  /** The matrix is made of the text's codewords and masked with their best mask. */
  ghost predicate IsBestSymbol(g: Grid, text: Text, ver: Version, ecl: Ecc, mask: int) {
    Fits(SegmentsOf(text), ver, ecl) &&
    exists codewords ::
      && IsMadeOf(g, codewords, DataCodewords(SegmentsOf(text), ver, ecl), ver, ecl, mask)
      && IsBestMask(codewords, ver, ecl, mask)
  }

  /**
   The text of a finished symbol is the text it was made from; the version is the least, the level the
   highest, and the mask the best.
   */
  method EncodeText(text: Text, ecl: Ecc) returns (r: Outcome, qr: QrCode?)
    requires |text| <= INT_MAX
    ensures r.Codewords? <==> exists v: Version :: Fits(SegmentsOf(text), v, ecl)
    ensures r.Codewords? <==> qr != null
    ensures qr != null ==> 0 <= qr.mask <= 7 && |qr.modules| == Size(r.ver) && Rank(ecl) <= Rank(r.ecl)
    ensures qr != null ==> ReadSymbol(qr.modules) == Option<string>.Some(text)
    ensures qr != null ==> IsLeast(text, ecl, r.ver, r.ecl) && IsBestSymbol(qr.modules, text, r.ver, r.ecl, qr.mask)
  {
    hide IsMadeOf, IsBestMask;
    hide Fits, ReadSymbol, Decode, Unpack, SegmentsOf, DataCodewords, TotalBits;
    qr := null;
    var made, segs := MakeSegments(text);
    r := EncodeSegments(segs, ecl, MIN_VERSION, MAX_VERSION, -1, true);
    if r.Codewords? {
      var ok;
      ok, qr := MakeSymbol(r.ver, r.ecl, r.data, -1);
      TextReadBack(text, r.ver, r.ecl);
    }
  }
}
