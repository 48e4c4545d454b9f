/**
 Splitting the data into blocks, appending each block's remainder and interleaving the blocks
 (QrCode::addEccAndInterleave of deps/qrcodegen.cpp), with a reader that takes the result apart.
 */
module Interleaving {
  import opened ReedSolomon
  import opened CodeDistance
  import opened QrTables

  /** How many blocks, how many check bytes in each, and how many codewords in all. */
  datatype Layout = Layout(numBlocks: int, eccLength: int, raw: int) {

    predicate Valid() {
      Sound(raw, numBlocks, eccLength) && eccLength <= 255
    }

    function NumShort(): int
      requires numBlocks > 0
    {
      numBlocks - raw % numBlocks
    }

    function ShortLength(): int
      requires numBlocks > 0
    {
      raw / numBlocks
    }

    /** The data bytes of a short block; also the place of the byte that pads it. */
    function ShortData(): int
      requires numBlocks > 0
    {
      ShortLength() - eccLength
    }

    function DataLength(i: int): int
      requires numBlocks > 0
    {
      ShortData() + (if i < NumShort() then 0 else 1)
    }

    /** Where the data of block i starts. */
    function Start(i: nat): int
      requires numBlocks > 0
    {
      if i == 0 then 0 else Start(i - 1) + DataLength(i - 1)
    }

    /** Where column i starts: the column of the padding bytes lacks the short blocks. */
    function ColumnStart(i: nat): int
      requires numBlocks > 0
    {
      if i == 0 then 0
      else ColumnStart(i - 1) + numBlocks - (if i - 1 == ShortData() then NumShort() else 0)
    }

    function DataSize(): int {
      raw - eccLength * numBlocks
    }
  }

  function LayoutOf(ver: Version, ecl: Ecc): Layout {
    Layout(NumBlocks(ver, ecl), BlockEccLength(ver, ecl), NumRawCodewords(ver))
  }

  // ---- the sizes add up ----

  lemma QuotientBounds(l: Layout)
    requires l.Valid()
    ensures 0 <= l.raw % l.numBlocks < l.numBlocks
    ensures l.raw == l.numBlocks * l.ShortLength() + l.raw % l.numBlocks
    ensures 1 <= l.ShortData() && l.ShortLength() < 255
    ensures 1 <= l.NumShort() <= l.numBlocks
  {
    ScaleOrder(l.numBlocks, l.ShortLength(), l.eccLength);
    ScaleOrder(l.numBlocks, 255, l.ShortLength());
    assert l.numBlocks * (l.eccLength + 1) == l.numBlocks * l.eccLength + l.numBlocks;
  }

  lemma ScaleOrder(b: nat, x: int, y: int)
    ensures x <= y ==> b * x <= b * y
  {
    if x <= y {
      assert b * (y - x) >= 0;
    }
  }

  lemma {:induction false} StartClosed(l: Layout, i: nat)
    requires l.numBlocks > 0
    ensures l.Start(i) == i * l.ShortData() + (if i > l.NumShort() then i - l.NumShort() else 0)
  {
    if i > 0 {
      StartClosed(l, i - 1);
      assert i * l.ShortData() == (i - 1) * l.ShortData() + l.ShortData();
    } else {
      assert i * l.ShortData() == 0;
      assert l.NumShort() >= 0;
    }
  }

  lemma {:induction false} ColumnStartClosed(l: Layout, i: nat)
    requires l.Valid()
    ensures l.ColumnStart(i) == i * l.numBlocks - (if i > l.ShortData() then l.NumShort() else 0)
  {
    QuotientBounds(l);
    if i > 0 {
      ColumnStartClosed(l, i - 1);
      assert i * l.numBlocks == (i - 1) * l.numBlocks + l.numBlocks;
    } else {
      assert i * l.numBlocks == 0;
    }
  }

  /** The blocks use up the data, and the columns make up the symbol's codewords. */
  lemma SizesAddUp(l: Layout)
    requires l.Valid()
    ensures l.Start(l.numBlocks) == l.DataSize()
    ensures l.ColumnStart(l.ShortLength() + 1) == l.raw
  {
    QuotientBounds(l);
    var b, s, e := l.numBlocks, l.ShortLength(), l.eccLength;
    StartClosed(l, b);
    ColumnStartClosed(l, s + 1);
    assert b * (s - e) == b * s - b * e;
    assert b * e == e * b;
    assert (s + 1) * b == b * s + b;
  }

  lemma {:induction false} StartGrows(l: Layout, i: nat, j: nat)
    requires l.Valid() && i <= j
    ensures 0 <= l.Start(i) <= l.Start(j)
  {
    QuotientBounds(l);
    if i < j {
      StartGrows(l, i, j - 1);
    } else if i > 0 {
      StartGrows(l, i - 1, i - 1);
    }
  }

  lemma BlockInRange(l: Layout, i: nat)
    requires l.Valid() && i < l.numBlocks
    ensures 0 <= l.Start(i) && l.Start(i) + l.DataLength(i) == l.Start(i + 1) <= l.DataSize()
    ensures 1 <= l.DataLength(i) && l.DataLength(i) + l.eccLength <= 255
  {
    QuotientBounds(l);
    StartGrows(l, i, i + 1);
    StartGrows(l, i + 1, l.numBlocks);
    SizesAddUp(l);
  }

  // ---- the blocks ----

  function BlockData(l: Layout, data: Poly, i: nat): (d: Poly)
    requires l.Valid() && |data| == l.DataSize() && i < l.numBlocks
    ensures |d| == l.DataLength(i)
  {
    BlockInRange(l, i);
    data[l.Start(i)..l.Start(i) + l.DataLength(i)]
  }

  function Check(l: Layout, d: Poly): (c: Poly)
    requires l.Valid()
    ensures |c| == l.eccLength
  {
    Remainder(d, Generator(l.eccLength)[1..])
  }

  /** A block as the program stores it: short blocks carry one byte of padding after their data. */
  function Block(l: Layout, data: Poly, i: nat): (b: Poly)
    requires l.Valid() && |data| == l.DataSize() && i < l.numBlocks
    ensures |b| == l.ShortLength() + 1
  {
    var d := BlockData(l, data, i);
    d + (if i < l.NumShort() then [0] else []) + Check(l, d)
  }

  function Blocks(l: Layout, data: Poly): (bs: seq<Poly>)
    requires l.Valid() && |data| == l.DataSize()
    ensures |bs| == l.numBlocks
    ensures forall i :: 0 <= i < l.numBlocks ==> |bs[i]| == l.ShortLength() + 1
  {
    seq(l.numBlocks, i requires 0 <= i < l.numBlocks => Block(l, data, i))
  }

  // ---- reading the interleaved codewords ----

  /** Where byte i of block j stands; padding bytes stand nowhere. */
  function Place(l: Layout, j: nat, i: nat): int
    requires l.numBlocks > 0
  {
    l.ColumnStart(i) + j - (if i == l.ShortData() then l.NumShort() else 0)
  }

  predicate IsPadding(l: Layout, j: nat, i: nat)
    requires l.numBlocks > 0
  {
    i == l.ShortData() && j < l.NumShort()
  }

  lemma {:induction false} ColumnsGrow(l: Layout, i: nat, k: nat)
    requires l.Valid() && i <= k
    ensures 0 <= l.ColumnStart(i) <= l.ColumnStart(k)
  {
    QuotientBounds(l);
    if i < k {
      ColumnsGrow(l, i, k - 1);
    } else if i > 0 {
      ColumnsGrow(l, i - 1, i - 1);
    }
  }

  lemma PlaceInColumn(l: Layout, j: nat, i: nat, n: nat)
    requires l.Valid() && j < l.numBlocks && i < n && !IsPadding(l, j, i)
    ensures 0 <= l.ColumnStart(i) <= Place(l, j, i) < l.ColumnStart(i + 1) <= l.ColumnStart(n)
  {
    ColumnsGrow(l, i, i);
    ColumnsGrow(l, i + 1, n);
  }

  /** Takes the codewords of a symbol apart into blocks, padding included. */
  lemma {:induction false} ColumnStartIs(l: Layout, i: nat)
    requires l.Valid()
    ensures l.ColumnStart(i) == i * l.numBlocks - (if i > l.ShortData() then l.NumShort() else 0)
  {
    QuotientBounds(l);
    hide Layout.ShortData, Layout.NumShort;
    if i > 0 {
      ColumnStartIs(l, i - 1);
      assert i * l.numBlocks == (i - 1) * l.numBlocks + l.numBlocks;
    }
  }

  /**
   Byte i of block j stands in column i, in the order of the blocks; the columns behind the padding bytes
   move up by as many as there are short blocks.
   */
  lemma PlaceIs(l: Layout, j: nat, i: nat)
    requires l.Valid()
    ensures i < l.ShortData() ==> Place(l, j, i) == i * l.numBlocks + j
    ensures i >= l.ShortData() ==> Place(l, j, i) == i * l.numBlocks + j - l.NumShort()
  {
    ColumnStartIs(l, i);
    hide Layout.ShortData, Layout.NumShort, Layout.ColumnStart;
  }

  function Deinterleave(l: Layout, codewords: Poly): (bs: seq<Poly>)
    requires l.Valid() && |codewords| == l.raw
    ensures |bs| == l.numBlocks
  {
    seq(l.numBlocks, j requires 0 <= j < l.numBlocks => DeinterleaveBlock(l, codewords, j))
  }

  function DeinterleaveBlock(l: Layout, codewords: Poly, j: nat): (b: Poly)
    requires l.Valid() && |codewords| == l.raw && j < l.numBlocks
    ensures |b| == l.ShortLength() + 1
  {
    QuotientBounds(l);
    seq(l.ShortLength() + 1, i requires 0 <= i < l.ShortLength() + 1 =>
      if IsPadding(l, j, i) then 0 else
        PlaceInColumn(l, j, i, l.ShortLength() + 1);
        SizesAddUp(l);
        codewords[Place(l, j, i)])
  }

  /** The data bytes of the first n blocks, in order. */
  function JoinData(l: Layout, bs: seq<Poly>, n: nat): Poly
    requires l.Valid() && n <= |bs| <= l.numBlocks
    requires forall i :: 0 <= i < |bs| ==> |bs[i]| == l.ShortLength() + 1
  {
    if n == 0 then [] else
      BlockInRange(l, n - 1);
      JoinData(l, bs, n - 1) + bs[n - 1][..l.DataLength(n - 1)]
  }

  // ---- the program ----

  /** The blocks with their remainders, one after the other. */
  method SplitIntoBlocks(l: Layout, data: Poly) returns (blocks: seq<Poly>)
    requires l.Valid() && |data| == l.DataSize()
    ensures blocks == Blocks(l, data)
  {
    hide ReedSolomon.Remainder, Generator;
    var ok, rsDiv := ReedSolomonComputeDivisor(l.eccLength);
    assert Generator(l.eccLength)[1..] == rsDiv;
    blocks := [];
    var k := 0;
    for i := 0 to l.numBlocks
      invariant |blocks| == i && k == l.Start(i)
      invariant forall j :: 0 <= j < i ==> blocks[j] == Block(l, data, j)
    {
      BlockInRange(l, i);
      var dat := data[k..k + (l.ShortLength() - l.eccLength + (if i < l.NumShort() then 0 else 1))];
      assert dat == BlockData(l, data, i);
      k := k + |dat|;
      var ecc := ReedSolomonComputeRemainder(dat, rsDiv);
      if i < l.NumShort() {
        dat := dat + [0];
      }
      dat := dat + ecc;
      assert dat == Block(l, data, i);
      blocks := blocks + [dat];
    }
  }

  /** How long the result is when j blocks have given their byte of column i. */
  function Filled(l: Layout, j: nat, i: nat): int
    requires l.numBlocks > 0
  {
    l.ColumnStart(i) + (if i != l.ShortData() then j else if j < l.NumShort() then 0 else j - l.NumShort())
  }

  /** The bytes of all blocks, column by column, without the padding bytes. */
  method InterleaveBlocks(l: Layout, blocks: seq<Poly>) returns (result: Poly)
    requires l.Valid() && |blocks| == l.numBlocks
    requires forall j :: 0 <= j < |blocks| ==> |blocks[j]| == l.ShortLength() + 1
    ensures |result| == l.raw
    ensures Deinterleave(l, result)
         == seq(l.numBlocks, j requires 0 <= j < l.numBlocks => WithoutPadding(l, blocks[j], j))
  {
    QuotientBounds(l);
    result := [];
    for i := 0 to |blocks[0]|
      invariant |result| == l.ColumnStart(i)
      invariant forall j, c :: 0 <= j < l.numBlocks && 0 <= c < i && !IsPadding(l, j, c) ==>
                  0 <= Place(l, j, c) < |result| && result[Place(l, j, c)] == blocks[j][c]
    {
      for j := 0 to |blocks|
        invariant |result| == Filled(l, j, i)
        invariant forall b, c :: 0 <= b < l.numBlocks && 0 <= c < i && !IsPadding(l, b, c) ==>
                    0 <= Place(l, b, c) < |result| && result[Place(l, b, c)] == blocks[b][c]
        invariant forall b :: 0 <= b < j && !IsPadding(l, b, i) ==>
                    0 <= Place(l, b, i) < |result| && result[Place(l, b, i)] == blocks[b][i]
      {
        if i != l.ShortLength() - l.eccLength || j >= l.NumShort() {
          assert |result| == Place(l, j, i);
          result := result + [blocks[j][i]];
        }
      }
    }
    SizesAddUp(l);
    forall j | 0 <= j < l.numBlocks ensures Deinterleave(l, result)[j] == WithoutPadding(l, blocks[j], j) {
    }
  }

  /** A stored block with the padding byte cleared. */
  function WithoutPadding(l: Layout, b: Poly, j: nat): (c: Poly)
    requires l.Valid() && |b| == l.ShortLength() + 1
    ensures |c| == |b|
  {
    seq(|b|, i requires 0 <= i < |b| => if IsPadding(l, j, i) then 0 else b[i])
  }

  method AddEccAndInterleave(ver: Version, ecl: Ecc, data: Poly) returns (ok: bool, result: Poly)
    ensures ok <==> |data| == NumDataCodewords(ver, ecl)
    ensures ok ==> LayoutOf(ver, ecl).Valid() && |result| == NumRawCodewords(ver)
    ensures ok ==> Deinterleave(LayoutOf(ver, ecl), result) == Blocks(LayoutOf(ver, ecl), data)
  {
    if |data| != NumDataCodewords(ver, ecl) {
      return false, [];
    }
    var l := LayoutOf(ver, ecl);
    LayoutValid(ver, ecl);
    var blocks := SplitIntoBlocks(l, data);
    result := InterleaveBlocks(l, blocks);
    ok := true;
    forall j | 0 <= j < l.numBlocks ensures WithoutPadding(l, blocks[j], j) == blocks[j] {
      PaddingIsZero(l, data, j);
    }
  }

  lemma LayoutValid(ver: Version, ecl: Ecc)
    ensures LayoutOf(ver, ecl).Valid()
  {
    TablesSound(ver, ecl);
    EccLengthSmall(ver, ecl);
  }

  lemma EccLengthSmall(ver: Version, ecl: Ecc)
    ensures BlockEccLength(ver, ecl) <= 255
  {
  }

  lemma PaddingIsZero(l: Layout, data: Poly, j: nat)
    requires l.Valid() && |data| == l.DataSize() && j < l.numBlocks
    ensures WithoutPadding(l, Block(l, data, j), j) == Block(l, data, j)
  {
    QuotientBounds(l);
  }

  // ---- what the reader gets ----

  lemma BlockBeginsWithData(l: Layout, data: Poly, i: nat)
    requires l.Valid() && |data| == l.DataSize() && i < l.numBlocks
    ensures 0 <= l.DataLength(i) <= |Block(l, data, i)|
    ensures 0 <= l.Start(i) <= l.Start(i + 1) <= |data|
    ensures Block(l, data, i)[..l.DataLength(i)] == data[l.Start(i)..l.Start(i + 1)]
  {
    BlockInRange(l, i);
    hide Remainder, Generator;
    assert Block(l, data, i)[..l.DataLength(i)] == BlockData(l, data, i);
  }

  lemma {:induction false} JoinedPrefix(l: Layout, data: Poly, n: nat)
    requires l.Valid() && |data| == l.DataSize() && n <= l.numBlocks
    ensures 0 <= l.Start(n) <= |data|
    ensures JoinData(l, Blocks(l, data), n) == data[..l.Start(n)]
  {
    if n > 0 {
      JoinedPrefix(l, data, n - 1);
      BlockBeginsWithData(l, data, n - 1);
      hide Block, BlockData, Layout.Start, Layout.DataLength;
      Glue(data, l.Start(n - 1), l.Start(n));
    }
  }

  lemma Glue(data: Poly, a: nat, b: nat)
    requires a <= b <= |data|
    ensures data[..a] + data[a..b] == data[..b]
  {
  }

  /** The data comes back from the blocks, each used exactly once and in order. */
  lemma DataComesBack(l: Layout, data: Poly)
    requires l.Valid() && |data| == l.DataSize()
    ensures JoinData(l, Blocks(l, data), l.numBlocks) == data
  {
    JoinedPrefix(l, data, l.numBlocks);
    SizesAddUp(l);
    assert data[..|data|] == data;
  }

  /** The bytes of a stored block that are not padding. */
  function Unpadded(l: Layout, b: Poly, j: nat): Poly
    requires l.Valid() && |b| == l.ShortLength() + 1
  {
    QuotientBounds(l);
    if j < l.NumShort() then b[..l.ShortData()] + b[l.ShortData() + 1..] else b
  }

  /** Every block is a code word of the Reed-Solomon code, and its data determines it. */
  lemma BlocksAreCodeWords(l: Layout, data: Poly, j: nat)
    requires l.Valid() && |data| == l.DataSize() && j < l.numBlocks
    ensures IsCodeWord(Unpadded(l, Blocks(l, data)[j], j), l.eccLength)
    ensures Unpadded(l, Blocks(l, data)[j], j) == BlockData(l, data, j) + Check(l, BlockData(l, data, j))
  {
    hide Remainder, Generator, IsCodeWord;
    var d := BlockData(l, data, j);
    BlockInRange(l, j);
    GeneratorSplit(l.eccLength);
    CheckBytesUnique(d, Check(l, d), l.eccLength, Generator(l.eccLength)[1..]);
    QuotientBounds(l);
    assert Blocks(l, data)[j] == Block(l, data, j);
    assert Unpadded(l, Block(l, data, j), j) == d + Check(l, d);
  }

  lemma GeneratorSplit(d: nat)
    ensures [1] + Generator(d)[1..] == Generator(d)
  {
    GeneratorIsMonic(d);
  }

  lemma {:induction false} ColumnOf(l: Layout, k: int, n: nat) returns (i: nat)
    requires l.Valid() && 0 <= k < l.ColumnStart(n)
    ensures i < n && l.ColumnStart(i) <= k < l.ColumnStart(i + 1)
  {
    if k >= l.ColumnStart(n - 1) {
      i := n - 1;
    } else {
      i := ColumnOf(l, k, n - 1);
    }
  }

  /** The reader looks at every codeword: what it returns determines the symbol's codewords. */
  lemma ReadingLosesNothing(l: Layout, u: Poly, v: Poly)
    requires l.Valid() && |u| == |v| == l.raw && Deinterleave(l, u) == Deinterleave(l, v)
    ensures u == v
  {
    QuotientBounds(l);
    SizesAddUp(l);
    forall k | 0 <= k < l.raw ensures u[k] == v[k] {
      var i := ColumnOf(l, k, l.ShortLength() + 1);
      var j := k - l.ColumnStart(i) + (if i == l.ShortData() then l.NumShort() else 0);
      assert Place(l, j, i) == k && !IsPadding(l, j, i);
      assert Deinterleave(l, u)[j][i] == u[k] && Deinterleave(l, v)[j][i] == v[k];
    }
  }
}
