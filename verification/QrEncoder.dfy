/**
 Turning segments into the data codewords of a symbol (getTotalBits and encodeSegments of
 deps/qrcodegen.cpp), and a reader that turns codewords back into text.
 */
module QrEncoder {
  import opened Bytes
  import opened BitStrings
  import opened QrTables
  import opened QrSegments

  // ---- lengths ----

  /** Every count fits the field that announces it. */
  predicate CountsFit(segs: seq<Segment>, ver: Version) {
    forall k :: 0 <= k < |segs| ==> segs[k].numChars < Pow2(segs[k].mode.CharCountBits(ver))
  }

  function Encoded(segs: seq<Segment>, ver: Version): Bits {
    if segs == [] then [] else
      var s := segs[0];
      ToBits(s.mode.ModeBits(), 4) + ToBits(s.numChars, s.mode.CharCountBits(ver)) + s.data + Encoded(segs[1..], ver)
  }

  /** The length of the encoding; -1 when a count does not fit or the length is no int. */
  function TotalBits(segs: seq<Segment>, ver: Version): int {
    if CountsFit(segs, ver) && |Encoded(segs, ver)| <= INT_MAX then |Encoded(segs, ver)| else -1
  }

  lemma EncodedStep(segs: seq<Segment>, ver: Version, k: nat)
    requires k < |segs|
    ensures Encoded(segs[k..], ver) ==
            ToBits(segs[k].mode.ModeBits(), 4) + ToBits(segs[k].numChars, segs[k].mode.CharCountBits(ver))
            + segs[k].data + Encoded(segs[k + 1..], ver)
  {
    hide ToBits;
    assert segs[k..][1..] == segs[k + 1..];
  }

  method GetTotalBits(segs: seq<Segment>, ver: Version) returns (result: int)
    ensures result == TotalBits(segs, ver)
  {
    hide ToBits, Encoded, Pow2, Mode.CharCountBits;
    result := 0;
    assert segs[0..] == segs;
    for k := 0 to |segs|
      invariant 0 <= result <= INT_MAX
      invariant CountsFit(segs[..k], ver)
      invariant result + |Encoded(segs[k..], ver)| == |Encoded(segs, ver)|
    {
      EncodedStep(segs, ver, k);
      var seg := segs[k];
      var ccbits := seg.mode.CharCountBits(ver);
      if seg.numChars >= Pow2(ccbits) {
        return -1;
      }
      if 4 + ccbits > INT_MAX - result {
        return -1;
      }
      assert result + 4 + ccbits <= INT_MAX;
      result := result + 4 + ccbits;
      if |seg.data| > INT_MAX - result {
        return -1;
      }
      assert result + |seg.data| <= INT_MAX;
      result := result + |seg.data|;
    }
    assert segs[..|segs|] == segs;
    EncodedNothing(segs, ver);
  }

  lemma EncodedNothing(segs: seq<Segment>, ver: Version)
    ensures Encoded(segs[|segs|..], ver) == []
  {
  }

  // ---- choosing version and level ----

  predicate Fits(segs: seq<Segment>, ver: Version, ecl: Ecc) {
    var used := TotalBits(segs, ver);
    used != -1 && used <= NumDataCodewords(ver, ecl) * 8
  }

  /** The length is announced as -1 exactly when a count is too wide or the length is no 32-bit int. */
  lemma NoTotal(segs: seq<Segment>, ver: Version)
    ensures TotalBits(segs, ver) == -1 <==>
            |Encoded(segs, ver)| > 0x7FFF_FFFF || exists k :: 0 <= k < |segs| && TooMany(segs[k], ver)
    ensures TotalBits(segs, ver) != -1 ==> TotalBits(segs, ver) == |Encoded(segs, ver)|
  {
    hide Encoded, Pow2;
    if !CountsFit(segs, ver) {
      var k :| 0 <= k < |segs| && segs[k].numChars >= Pow2(segs[k].mode.CharCountBits(ver));
      assert TooMany(segs[k], ver);
    }
  }

  predicate TooMany(seg: Segment, ver: Version) {
    seg.numChars >= Pow2(seg.mode.CharCountBits(ver))
  }

  lemma CapacityIsSmall(ver: Version, ecl: Ecc)
    ensures 8 * NumDataCodewords(ver, ecl) <= 29648
  {
    hide NumRawDataModules, BlockEccLength, NumBlocks;
    RawDataRange(ver);
    TablesSound(ver, ecl);
    ProductOfPositives(BlockEccLength(ver, ecl), NumBlocks(ver, ecl));
  }

  lemma ProductOfPositives(a: int, b: int)
    requires a >= 1 && b >= 1
    ensures a * b >= 1
  {
  }

  /** Segments fit exactly up to the last bit of the data codewords. */
  lemma FitsUpToTheLastBit(segs: seq<Segment>, ver: Version, ecl: Ecc)
    ensures Fits(segs, ver, ecl) <==> CountsFit(segs, ver) && |Encoded(segs, ver)| <= 8 * NumDataCodewords(ver, ecl)
  {
    hide Encoded, NumDataCodewords, CountsFit;
    CapacityIsSmall(ver, ecl);
  }

  /** The version loop: the least version that fits, or none. */
  method ChooseVersion(segs: seq<Segment>, ecl: Ecc, minVersion: Version, maxVersion: Version)
    returns (ver: Version, used: int, fits: bool)
    requires minVersion <= maxVersion
    ensures minVersion <= ver <= maxVersion && used == TotalBits(segs, ver)
    ensures fits <==> Fits(segs, ver, ecl)
    ensures fits ==> forall v: Version :: minVersion <= v < ver ==> !Fits(segs, v, ecl)
    ensures !fits ==> ver == maxVersion && forall v: Version :: minVersion <= v <= maxVersion ==> !Fits(segs, v, ecl)
  {
    hide TotalBits, NumDataCodewords;
    ver := minVersion;
    while true
      invariant minVersion <= ver <= maxVersion
      invariant forall v: Version :: minVersion <= v < ver ==> !Fits(segs, v, ecl)
      decreases maxVersion - ver
    {
      var dataCapacityBits := NumDataCodewords(ver, ecl) * 8;
      used := GetTotalBits(segs, ver);
      if used != -1 && used <= dataCapacityBits {
        return ver, used, true;
      }
      if ver >= maxVersion {
        return ver, used, false;
      }
      ver := ver + 1;
    }
  }

  /** The highest level that still holds the data, never below the one asked for. */
  method BoostLevel(segs: seq<Segment>, ver: Version, asked: Ecc, boostEcl: bool) returns (ecl: Ecc)
    requires Fits(segs, ver, asked)
    ensures Fits(segs, ver, ecl) && Rank(asked) <= Rank(ecl)
    ensures !boostEcl ==> ecl == asked
    ensures boostEcl ==> forall e :: Fits(segs, ver, e) ==> Rank(e) <= Rank(ecl)
  {
    hide TotalBits, NumDataCodewords;
    var used := GetTotalBits(segs, ver);
    var levels := [Medium, Quartile, High];
    ecl := asked;
    LevelsBelowFit(segs, ver, asked);
    for k := 0 to 3
      invariant Fits(segs, ver, ecl)
      invariant !boostEcl ==> ecl == asked
      invariant boostEcl ==> Rank(ecl) <= k || ecl == asked
      invariant boostEcl && Rank(asked) <= k ==> Rank(asked) <= Rank(ecl)
      invariant boostEcl ==> forall e :: Fits(segs, ver, e) && Rank(e) <= k ==> Rank(e) <= Rank(ecl)
    {
      assert Rank(levels[k]) == k + 1;
      if boostEcl && used <= NumDataCodewords(ver, levels[k]) * 8 {
        ecl := levels[k];
      }
    }
  }

  lemma LevelsBelowFit(segs: seq<Segment>, ver: Version, ecl: Ecc)
    requires Fits(segs, ver, ecl)
    ensures forall e :: Rank(e) <= Rank(ecl) ==> Fits(segs, ver, e)
  {
    hide TotalBits, NumDataCodewords;
    forall e | Rank(e) <= Rank(ecl) ensures Fits(segs, ver, e) {
      HigherLevelHoldsLess(ver, e, ecl);
    }
  }

  // ---- padding ----

  /** Filler bytes: 0xEC and 0x11 in turn. */
  function FillerByte(k: nat): Byte {
    if k % 2 == 0 then 0xEC else 0x11
  }

  function Filler(n: nat): (b: Bits)
    ensures |b| == 8 * n
  {
    if n == 0 then [] else Filler(n - 1) + ToBits(FillerByte(n - 1), 8)
  }

  function TerminatorLength(used: nat, capacity: nat): nat
    requires used <= capacity
  {
    if capacity - used < 4 then capacity - used else 4
  }

  /** The zero bits up to the next byte. */
  function AlignLength(used: nat): nat {
    (8 - used % 8) % 8
  }

  lemma AlignUp(n: nat, capacity: nat)
    requires n <= capacity && capacity % 8 == 0
    ensures var a := AlignLength(n);
            n + a <= capacity && (capacity - n - a) % 8 == 0 && (n == capacity ==> a == 0)
  {
    var q, r, m := n / 8, n % 8, capacity / 8;
    assert n == 8 * q + r && capacity == 8 * m;
    assert n + AlignLength(n) == 8 * (if r == 0 then q else q + 1);
  }

  lemma PaddingLengths(used: nat, capacity: nat)
    requires used <= capacity && capacity % 8 == 0
    ensures var t := TerminatorLength(used, capacity);
            var a := AlignLength(used + t);
            used + t + a <= capacity && (capacity - used - t - a) % 8 == 0 && (t < 4 ==> used + t == capacity && a == 0)
  {
    hide AlignLength;
    AlignUp(used + TerminatorLength(used, capacity), capacity);
  }

  /** What follows used bits of data: a terminator, zeros up to a byte, filler bytes. */
  function Padding(used: nat, capacity: nat): (b: Bits)
    requires used <= capacity && capacity % 8 == 0
    ensures used + |b| == capacity
    ensures |b| >= 4 ==> b[..4] == ToBits(0, 4)
  {
    hide ToBits, TerminatorLength, AlignLength, Filler;
    PaddingLengths(used, capacity);
    var t := TerminatorLength(used, capacity);
    var a := AlignLength(used + t);
    ToBits(0, t) + ToBits(0, a) + Filler((capacity - used - t - a) / 8)
  }

  /** Xor with both toggles between the two. */
  lemma Toggle(a: nat, b: nat)
    ensures Xor(a, Xor(a, b)) == b && Xor(b, Xor(a, b)) == a
  {
    hide Xor;
    XorAssociates(a, a, b);
    XorSelf(a);
    XorSelf(b);
    XorCommutes(0, b);
    XorCommutes(a, b);
    XorAssociates(b, b, a);
    XorCommutes(0, a);
    XorSelf(a);
  }

  lemma NextFiller(k: nat)
    ensures Xor(FillerByte(k), Xor(FillerByte(0), FillerByte(1))) == FillerByte(k + 1)
  {
    hide Xor;
    Toggle(FillerByte(0), FillerByte(1));
  }

  lemma FillersStart()
    ensures FillerByte(0) == 0xEC && FillerByte(1) == 0x11
  {
  }

  lemma TerminatorIsShort(used: nat, capacity: nat)
    requires used <= capacity
    ensures TerminatorLength(used, capacity) <= 4
    ensures AlignLength(used) < 8
  {
  }

  // ---- packing ----

  function Or(a: nat, b: nat): nat {
    if a == 0 then b
    else if b == 0 then a
    else (if a % 2 == 1 || b % 2 == 1 then 1 else 0) + 2 * Or(a / 2, b / 2)
  }

  lemma OrDoubles(a: nat, b: nat)
    ensures Or(2 * a, 2 * b) == 2 * Or(a, b)
  {
  }

  /** A bit or-ed below all bits that are set is added. */
  lemma {:induction false} OrBelow(q: nat, v: nat, k: nat)
    requires v <= 1
    ensures Or(q * Pow2(k + 1), v * Pow2(k)) == q * Pow2(k + 1) + v * Pow2(k)
  {
    hide Or;
    var p := Pow2(k);
    assert Pow2(k + 1) == 2 * p;
    TwiceProduct(q, p);
    if k > 0 {
      var r := Pow2(k - 1);
      assert p == 2 * r;
      hide Pow2;
      OrBelow(q, v, k - 1);
      OrDoubles(q * p, v * r);
      TwiceProduct(v, r);
    } else {
      OrLowest(q, v);
    }
  }

  lemma TwiceProduct(q: nat, p: nat)
    ensures q * (2 * p) == 2 * (q * p)
  {
  }

  lemma OrLowest(q: nat, v: nat)
    requires v <= 1
    ensures Or(2 * q, v) == 2 * q + v
  {
  }

  lemma PackMore(b: Bits)
    requires |b| % 8 == 0 && b != []
    ensures Pack(b)[0] == FromBits(b[..8]) && Pack(b)[1..] == Pack(b[8..])
  {
    hide FromBits, Pow2;
    assert Pack(b) == [Pack(b)[0]] + Pack(b[8..]);
  }

  lemma SliceOfTail(b: Bits, m: nat)
    requires 8 <= m && m + 8 <= |b|
    ensures b[8..][m - 8..m] == b[m..m + 8]
  {
  }

  lemma {:induction false} PackAt(b: Bits, j: nat)
    requires |b| % 8 == 0 && 8 * j < |b|
    ensures Pack(b)[j] == FromBits(b[8 * j..8 * j + 8])
  {
    hide FromBits, Pow2, Pack;
    PackMore(b);
    if j > 0 {
      PackAt(b[8..], j - 1);
      SliceOfTail(b, 8 * j);
      assert Pack(b)[j] == Pack(b)[1..][j - 1];
    }
  }

  lemma {:induction false} PowersMultiply(m: nat, n: nat)
    ensures Pow2(m) * Pow2(n) == Pow2(m + n)
  {
    if m > 0 {
      PowersMultiply(m - 1, n);
      assert Pow2(m) == 2 * Pow2(m - 1) && Pow2(m + n) == 2 * Pow2(m - 1 + n);
      hide Pow2;
      TwiceProduct(Pow2(n), Pow2(m - 1));
    }
  }

  lemma Combine(f: nat, v: nat, p: nat, w: nat)
    requires f < p && v <= 1 && 2 * p * w == 256
    ensures f * (2 * w) + v * w == (2 * f + v) * w < 256
  {
    assert f * (2 * w) == 2 * f * w;
    assert (2 * p - 1 - (2 * f + v)) * w >= 0;
    assert (2 * p - 1) * w == 2 * p * w - w;
    assert w != 0;
  }

  /** With r bits of a byte in place, at its upper end, the next one joins them. */
  lemma PackBit(f: nat, v: nat, r: nat)
    requires f < Pow2(r) && v <= 1 && r < 8
    ensures Or(f * Pow2(8 - r), v * Pow2(7 - r)) == (2 * f + v) * Pow2(7 - r) < 256
  {
    hide Or;
    OrBelow(f, v, 7 - r);
    PowersMultiply(r + 1, 7 - r);
    var p, u, w := Pow2(r), Pow2(r + 1), Pow2(7 - r);
    assert Pow2(8 - r) == 2 * w && u == 2 * p;
    hide Pow2;
    FieldWidths();
    Combine(f, v, p, w);
  }

  lemma NextBit(b: Bits, from: nat, i: nat)
    requires from <= i < |b|
    ensures FromBits(b[from..i + 1]) == 2 * FromBits(b[from..i]) + (if b[i] then 1 else 0)
  {
    hide Pow2;
    assert b[from..i + 1][..i - from] == b[from..i];
  }

  /** The byte whose first r bits are those of b from 8q on, the rest zero. */
  function Partial(b: Bits, q: nat, r: nat): nat
    requires r <= 8 && 8 * q + r <= |b|
  {
    FromBits(b[8 * q..8 * q + r]) * Pow2(8 - r)
  }

  lemma PartialStep(b: Bits, q: nat, r: nat)
    requires r < 8 && 8 * q + r < |b|
    ensures Or(Partial(b, q, r), (if b[8 * q + r] then 1 else 0) * Pow2(7 - r)) == Partial(b, q, r + 1) < 256
  {
    hide Or, Pow2, FromBits;
    var f := FromBits(b[8 * q..8 * q + r]);
    NextBit(b, 8 * q, 8 * q + r);
    PackBit(f, if b[8 * q + r] then 1 else 0, r);
  }

  lemma PartialEnds(b: Bits, q: nat)
    ensures 8 * q <= |b| ==> Partial(b, q, 0) == 0
    ensures |b| % 8 == 0 && 8 * q < |b| ==> Partial(b, q, 8) == Pack(b)[q]
  {
    hide Pack, FromBits, Pow2;
    NoBits();
    if |b| % 8 == 0 && 8 * q < |b| {
      PackAt(b, q);
    }
    if 8 * q <= |b| {
      assert b[8 * q..8 * q] == [];
    }
  }

  lemma NoBits()
    ensures FromBits([]) == 0 && Pow2(0) == 1
  {
  }

  /** The codewords when i = 8q + r bits are in place. */
  ghost predicate BytesSoFar(b: Bits, codewords: seq<Byte>, q: nat, r: nat) {
    && |b| % 8 == 0 && |codewords| == |b| / 8 && 8 * q + r <= |b| && r < 8
    && (forall j :: 0 <= j < q ==> codewords[j] == Pack(b)[j])
    && (8 * q + r < |b| ==> codewords[q] == Partial(b, q, r))
    && (forall j :: q < j < |codewords| ==> codewords[j] == 0)
  }

  lemma NextPacked(b: Bits, codewords: seq<Byte>, q: nat, r: nat)
    requires BytesSoFar(b, codewords, q, r) && 8 * q + r < |b|
    ensures var c := Or(codewords[q], (if b[8 * q + r] then 1 else 0) * Pow2(7 - r));
            0 <= c < 256 &&
            BytesSoFar(b, codewords[q := c], if r < 7 then q else q + 1, if r < 7 then r + 1 else 0)
  {
    hide Pack, Or, Partial, Pow2;
    PartialStep(b, q, r);
    PartialEnds(b, q);
    PartialEnds(b, q + 1);
  }

  method PackCodewords(bb: Bits) returns (dataCodewords: array<Byte>)
    requires |bb| % 8 == 0
    ensures fresh(dataCodewords) && dataCodewords[..] == Pack(bb)
  {
    hide Pack, Or, Pow2, BytesSoFar;
    dataCodewords := new Byte[|bb| / 8](_ => 0);
    NothingPacked(bb, dataCodewords[..]);
    for i := 0 to |bb|
      invariant BytesSoFar(bb, dataCodewords[..], i / 8, i % 8)
    {
      NextPacked(bb, dataCodewords[..], i / 8, i % 8);
      assert i == 8 * (i / 8) + i % 8;
      dataCodewords[i / 8] := Or(dataCodewords[i / 8], (if bb[i] then 1 else 0) * Pow2(7 - i % 8));
    }
    AllPacked(bb, dataCodewords[..]);
  }

  lemma NothingPacked(b: Bits, codewords: seq<Byte>)
    requires |b| % 8 == 0 && |codewords| == |b| / 8 && forall j :: 0 <= j < |codewords| ==> codewords[j] == 0
    ensures BytesSoFar(b, codewords, 0, 0)
  {
    hide Partial, Pack;
    PartialEnds(b, 0);
  }

  lemma AllPacked(b: Bits, codewords: seq<Byte>)
    requires BytesSoFar(b, codewords, |b| / 8, 0)
    ensures codewords == Pack(b)
  {
  }

  // ---- encodeSegments ----

  datatype Outcome =
    | Codewords(ver: Version, ecl: Ecc, data: seq<Byte>)
    | InvalidValue
    | SegmentTooLong
    | DataTooLong

  /** The data codewords of segments that fit: their encoding, padded to the capacity. */
  function DataCodewords(segs: seq<Segment>, ver: Version, ecl: Ecc): (data: seq<Byte>)
    requires Fits(segs, ver, ecl)
    ensures |data| == NumDataCodewords(ver, ecl)
  {
    hide NumDataCodewords, Encoded;
    Pack(Encoded(segs, ver) + Padding(|Encoded(segs, ver)|, NumDataCodewords(ver, ecl) * 8))
  }

  /** One segment after the others; no number is too large for its field. */
  method ConcatSegments(segs: seq<Segment>, ver: Version) returns (bb: BitBuffer)
    requires CountsFit(segs, ver)
    ensures fresh(bb) && bb.bits == Encoded(segs, ver)
  {
    hide ToBits, Encoded, Pow2, Mode.CharCountBits;
    bb := new BitBuffer();
    assert segs[0..] == segs;
    for k := 0 to |segs|
      invariant fresh(bb) && bb.bits + Encoded(segs[k..], ver) == Encoded(segs, ver)
    {
      EncodedStep(segs, ver, k);
      var seg := segs[k];
      ModeFits(seg.mode, ver);
      ghost var before := bb.bits;
      var fits := bb.AppendBits(seg.mode.ModeBits(), 4);
      assert fits;
      fits := bb.AppendBits(seg.numChars, seg.mode.CharCountBits(ver));
      assert fits;
      bb.bits := bb.bits + seg.data;
      assert bb.bits == before + (ToBits(seg.mode.ModeBits(), 4)
                        + ToBits(seg.numChars, seg.mode.CharCountBits(ver)) + seg.data);
    }
    EncodedNothing(segs, ver);
  }

  lemma ModeFits(mode: Mode, ver: Version)
    ensures 0 < mode.ModeBits() < Pow2(4) && 0 <= mode.CharCountBits(ver) <= 31
  {
    FieldWidths();
    hide Pow2;
  }

  lemma FillerStep(k: nat)
    ensures Filler(0) == [] && Filler(k + 1) == Filler(k) + ToBits(FillerByte(k), 8)
  {
  }

  lemma PaddingParts(used: nat, capacity: nat, k: nat)
    requires used <= capacity && capacity % 8 == 0
    ensures var t := TerminatorLength(used, capacity);
            var a := AlignLength(used + t);
            used + t + a + 8 * k == capacity ==>
              Padding(used, capacity) == ToBits(0, t) + ToBits(0, a) + Filler(k)
  {
    hide ToBits, TerminatorLength, AlignLength, Filler;
  }

  /** Terminator, zeros up to a byte, and filler bytes until the capacity is reached. */
  method PadToCapacity(bb: BitBuffer, capacity: nat)
    requires |bb.bits| <= capacity && capacity % 8 == 0
    modifies bb
    ensures bb.bits == old(bb.bits) + Padding(old(|bb.bits|), capacity)
  {
    hide ToBits, Pow2, Xor, TerminatorLength, AlignLength, FillerByte, Filler, Padding;
    FillersStart();
    FillerStep(0);
    ghost var used := |bb.bits|;
    PaddingLengths(used, capacity);
    FieldWidths();
    var t := TerminatorLength(|bb.bits|, capacity);
    TerminatorIsShort(used, capacity);
    TerminatorIsShort(used + t, used + t);
    var fits := bb.AppendBits(0, t);
    var a := AlignLength(|bb.bits|);
    fits := bb.AppendBits(0, a);
    ghost var start := bb.bits;
    var padByte := 0xEC;
    ghost var k := 0;
    assert start + Filler(0) == start;
    while |bb.bits| < capacity
      invariant |bb.bits| == used + t + a + 8 * k <= capacity
      invariant bb.bits == start + Filler(k)
      invariant padByte == FillerByte(k)
      decreases capacity - |bb.bits|
    {
      NextFiller(k);
      FillerStep(k);
      fits := bb.AppendBits(padByte, 8);
      padByte := Xor(padByte, Xor(0xEC, 0x11));
      k := k + 1;
    }
    PaddingParts(used, capacity, k);
    assert old(bb.bits) + ToBits(0, t) + ToBits(0, a) + Filler(k)
        == old(bb.bits) + (ToBits(0, t) + ToBits(0, a) + Filler(k));
  }

  method EncodeSegments(segs: seq<Segment>, ecl: Ecc, minVersion: int, maxVersion: int, mask: int, boostEcl: bool)
    returns (r: Outcome)
    ensures r.InvalidValue? <==> !(1 <= minVersion <= maxVersion <= 40 && -1 <= mask <= 7)
    ensures !r.InvalidValue? && !r.Codewords? ==>
              (forall v: Version :: minVersion <= v <= maxVersion ==> !Fits(segs, v, ecl)) &&
              (r.SegmentTooLong? <==> TotalBits(segs, maxVersion) == -1)
    ensures r.Codewords? ==>
              minVersion <= r.ver <= maxVersion && Fits(segs, r.ver, ecl) &&
              (forall v: Version :: minVersion <= v < r.ver ==> !Fits(segs, v, ecl))
    ensures r.Codewords? ==>
              Fits(segs, r.ver, r.ecl) && Rank(ecl) <= Rank(r.ecl) && r.data == DataCodewords(segs, r.ver, r.ecl)
    ensures r.Codewords? && !boostEcl ==> r.ecl == ecl
    ensures r.Codewords? && boostEcl ==> forall e :: Fits(segs, r.ver, e) ==> Rank(e) <= Rank(r.ecl)
  {
    hide NumDataCodewords, Encoded, Padding, Pack, CountsFit;
    if !(MIN_VERSION <= minVersion && minVersion <= maxVersion && maxVersion <= MAX_VERSION) || mask < -1 || mask > 7 {
      return InvalidValue;
    }
    var ver, used, fits := ChooseVersion(segs, ecl, minVersion, maxVersion);
    if !fits {
      return if used == -1 then SegmentTooLong else DataTooLong;
    }
    var level := BoostLevel(segs, ver, ecl, boostEcl);
    var bb := ConcatSegments(segs, ver);
    PadToCapacity(bb, NumDataCodewords(ver, level) * 8);
    var dataCodewords := PackCodewords(bb.bits);
    return Codewords(ver, level, dataCodewords[..]);
  }
}
