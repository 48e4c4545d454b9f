/**
 The capacity tables of deps/qrcodegen.cpp and what the rest of the generator relies on about them.
 */
module QrTables {

  datatype Ecc = Low | Medium | Quartile | High

  const MIN_VERSION := 1
  const MAX_VERSION := 40

  type Version = v: int | MIN_VERSION <= v <= MAX_VERSION witness 1

  function LowEccLength(ver: Version): int {
    match ver
    case 1 => 7 case 2 => 10 case 3 => 15 case 4 => 20 case 5 => 26 case 6 => 18 case 7 => 20 case 8 => 24
    case 9 => 30 case 10 => 18 case 11 => 20 case 12 => 24 case 13 => 26 case 14 => 30 case 15 => 22 case 16 => 24
    case 17 => 28 case 18 => 30 case 19 => 28 case 20 => 28 case 21 => 28 case 22 => 28 case 23 => 30 case 24 => 30
    case 25 => 26 case 26 => 28 case 27 => 30 case 28 => 30 case 29 => 30 case 30 => 30 case 31 => 30 case 32 => 30
    case 33 => 30 case 34 => 30 case 35 => 30 case 36 => 30 case 37 => 30 case 38 => 30 case 39 => 30 case 40 => 30
  }

  function MediumEccLength(ver: Version): int {
    match ver
    case 1 => 10 case 2 => 16 case 3 => 26 case 4 => 18 case 5 => 24 case 6 => 16 case 7 => 18 case 8 => 22
    case 9 => 22 case 10 => 26 case 11 => 30 case 12 => 22 case 13 => 22 case 14 => 24 case 15 => 24 case 16 => 28
    case 17 => 28 case 18 => 26 case 19 => 26 case 20 => 26 case 21 => 26 case 22 => 28 case 23 => 28 case 24 => 28
    case 25 => 28 case 26 => 28 case 27 => 28 case 28 => 28 case 29 => 28 case 30 => 28 case 31 => 28 case 32 => 28
    case 33 => 28 case 34 => 28 case 35 => 28 case 36 => 28 case 37 => 28 case 38 => 28 case 39 => 28 case 40 => 28
  }

  function QuartileEccLength(ver: Version): int {
    match ver
    case 1 => 13 case 2 => 22 case 3 => 18 case 4 => 26 case 5 => 18 case 6 => 24 case 7 => 18 case 8 => 22
    case 9 => 20 case 10 => 24 case 11 => 28 case 12 => 26 case 13 => 24 case 14 => 20 case 15 => 30 case 16 => 24
    case 17 => 28 case 18 => 28 case 19 => 26 case 20 => 30 case 21 => 28 case 22 => 30 case 23 => 30 case 24 => 30
    case 25 => 30 case 26 => 28 case 27 => 30 case 28 => 30 case 29 => 30 case 30 => 30 case 31 => 30 case 32 => 30
    case 33 => 30 case 34 => 30 case 35 => 30 case 36 => 30 case 37 => 30 case 38 => 30 case 39 => 30 case 40 => 30
  }

  function HighEccLength(ver: Version): int {
    match ver
    case 1 => 17 case 2 => 28 case 3 => 22 case 4 => 16 case 5 => 22 case 6 => 28 case 7 => 26 case 8 => 26
    case 9 => 24 case 10 => 28 case 11 => 24 case 12 => 28 case 13 => 22 case 14 => 24 case 15 => 24 case 16 => 30
    case 17 => 28 case 18 => 28 case 19 => 26 case 20 => 28 case 21 => 30 case 22 => 24 case 23 => 30 case 24 => 30
    case 25 => 30 case 26 => 30 case 27 => 30 case 28 => 30 case 29 => 30 case 30 => 30 case 31 => 30 case 32 => 30
    case 33 => 30 case 34 => 30 case 35 => 30 case 36 => 30 case 37 => 30 case 38 => 30 case 39 => 30 case 40 => 30
  }

  function LowBlocks(ver: Version): int {
    match ver
    case 1 => 1 case 2 => 1 case 3 => 1 case 4 => 1 case 5 => 1 case 6 => 2 case 7 => 2 case 8 => 2
    case 9 => 2 case 10 => 4 case 11 => 4 case 12 => 4 case 13 => 4 case 14 => 4 case 15 => 6 case 16 => 6
    case 17 => 6 case 18 => 6 case 19 => 7 case 20 => 8 case 21 => 8 case 22 => 9 case 23 => 9 case 24 => 10
    case 25 => 12 case 26 => 12 case 27 => 12 case 28 => 13 case 29 => 14 case 30 => 15 case 31 => 16 case 32 => 17
    case 33 => 18 case 34 => 19 case 35 => 19 case 36 => 20 case 37 => 21 case 38 => 22 case 39 => 24 case 40 => 25
  }

  function MediumBlocks(ver: Version): int {
    match ver
    case 1 => 1 case 2 => 1 case 3 => 1 case 4 => 2 case 5 => 2 case 6 => 4 case 7 => 4 case 8 => 4
    case 9 => 5 case 10 => 5 case 11 => 5 case 12 => 8 case 13 => 9 case 14 => 9 case 15 => 10 case 16 => 10
    case 17 => 11 case 18 => 13 case 19 => 14 case 20 => 16 case 21 => 17 case 22 => 17 case 23 => 18 case 24 => 20
    case 25 => 21 case 26 => 23 case 27 => 25 case 28 => 26 case 29 => 28 case 30 => 29 case 31 => 31 case 32 => 33
    case 33 => 35 case 34 => 37 case 35 => 38 case 36 => 40 case 37 => 43 case 38 => 45 case 39 => 47 case 40 => 49
  }

  function QuartileBlocks(ver: Version): int {
    match ver
    case 1 => 1 case 2 => 1 case 3 => 2 case 4 => 2 case 5 => 4 case 6 => 4 case 7 => 6 case 8 => 6
    case 9 => 8 case 10 => 8 case 11 => 8 case 12 => 10 case 13 => 12 case 14 => 16 case 15 => 12 case 16 => 17
    case 17 => 16 case 18 => 18 case 19 => 21 case 20 => 20 case 21 => 23 case 22 => 23 case 23 => 25 case 24 => 27
    case 25 => 29 case 26 => 34 case 27 => 34 case 28 => 35 case 29 => 38 case 30 => 40 case 31 => 43 case 32 => 45
    case 33 => 48 case 34 => 51 case 35 => 53 case 36 => 56 case 37 => 59 case 38 => 62 case 39 => 65 case 40 => 68
  }

  function HighBlocks(ver: Version): int {
    match ver
    case 1 => 1 case 2 => 1 case 3 => 2 case 4 => 4 case 5 => 4 case 6 => 4 case 7 => 5 case 8 => 6
    case 9 => 8 case 10 => 8 case 11 => 11 case 12 => 11 case 13 => 16 case 14 => 16 case 15 => 18 case 16 => 16
    case 17 => 19 case 18 => 21 case 19 => 25 case 20 => 25 case 21 => 25 case 22 => 34 case 23 => 30 case 24 => 32
    case 25 => 35 case 26 => 37 case 27 => 40 case 28 => 42 case 29 => 45 case 30 => 48 case 31 => 51 case 32 => 54
    case 33 => 57 case 34 => 60 case 35 => 63 case 36 => 66 case 37 => 70 case 38 => 74 case 39 => 77 case 40 => 81
  }

  /** The error correction codewords of each block. */
  function BlockEccLength(ver: Version, ecl: Ecc): int {
    match ecl
    case Low => LowEccLength(ver)
    case Medium => MediumEccLength(ver)
    case Quartile => QuartileEccLength(ver)
    case High => HighEccLength(ver)
  }

  function NumBlocks(ver: Version, ecl: Ecc): int {
    match ecl
    case Low => LowBlocks(ver)
    case Medium => MediumBlocks(ver)
    case Quartile => QuartileBlocks(ver)
    case High => HighBlocks(ver)
  }

  /** The modules of a symbol that are not function modules. */
  function NumRawDataModules(ver: Version): int {
    var all := (16 * ver + 128) * ver + 64;
    if ver < 2 then all else
      var numAlign := ver / 7 + 2;
      all - ((25 * numAlign - 10) * numAlign - 55) - (if ver >= 7 then 36 else 0)
  }

  function NumRawCodewords(ver: Version): int {
    NumRawDataModules(ver) / 8
  }

  function NumDataCodewords(ver: Version, ecl: Ecc): int {
    NumRawCodewords(ver) - BlockEccLength(ver, ecl) * NumBlocks(ver, ecl)
  }

  /** The assertion of getNumRawDataModules. */
  lemma RawDataRange(ver: Version)
    ensures 208 <= NumRawDataModules(ver) <= 29648
  {
    if ver >= 7 {
      MoreVersions(7, ver);
      MoreVersions(ver, if ver >= 35 then 40 else 34);
      MoreAlignment(ver / 7 + 2);
    } else {
      MoreVersions(ver, 6);
      MoreVersions(1, ver);
      MoreVersions(if ver >= 2 then 2 else 1, ver);
    }
  }

  lemma MoreVersions(v: nat, w: nat)
    requires v <= w
    ensures (16 * v + 128) * v <= (16 * w + 128) * w
  {
  }

  lemma MoreAlignment(a: nat)
    requires 3 <= a <= 7
    ensures 140 <= (25 * a - 10) * a <= 1155 && (a == 7 ==> (25 * a - 10) * a == 1155)
  {
  }

  // ---- every entry describes a code ----

  /** Blocks of at most 255 codewords, each with room for data before its error correction codewords. */
  predicate Sound(raw: int, blocks: int, ecc: int) {
    1 <= blocks && 1 <= ecc && blocks * (ecc + 1) <= raw && raw < blocks * 255
  }

  lemma LowSound1(ver: Version)
    requires 1 <= ver <= 13
    ensures Sound(NumRawCodewords(ver), LowBlocks(ver), LowEccLength(ver))
  {
  }

  lemma LowSound14(ver: Version)
    requires 14 <= ver <= 27
    ensures Sound(NumRawCodewords(ver), LowBlocks(ver), LowEccLength(ver))
  {
  }

  lemma LowSound28(ver: Version)
    requires 28 <= ver <= 40
    ensures Sound(NumRawCodewords(ver), LowBlocks(ver), LowEccLength(ver))
  {
  }

  lemma MediumSound1(ver: Version)
    requires 1 <= ver <= 13
    ensures Sound(NumRawCodewords(ver), MediumBlocks(ver), MediumEccLength(ver))
  {
  }

  lemma MediumSound14(ver: Version)
    requires 14 <= ver <= 27
    ensures Sound(NumRawCodewords(ver), MediumBlocks(ver), MediumEccLength(ver))
  {
  }

  lemma MediumSound28(ver: Version)
    requires 28 <= ver <= 40
    ensures Sound(NumRawCodewords(ver), MediumBlocks(ver), MediumEccLength(ver))
  {
  }

  lemma QuartileSound1(ver: Version)
    requires 1 <= ver <= 13
    ensures Sound(NumRawCodewords(ver), QuartileBlocks(ver), QuartileEccLength(ver))
  {
  }

  lemma QuartileSound14(ver: Version)
    requires 14 <= ver <= 27
    ensures Sound(NumRawCodewords(ver), QuartileBlocks(ver), QuartileEccLength(ver))
  {
  }

  lemma QuartileSound28(ver: Version)
    requires 28 <= ver <= 40
    ensures Sound(NumRawCodewords(ver), QuartileBlocks(ver), QuartileEccLength(ver))
  {
  }

  lemma HighSound1(ver: Version)
    requires 1 <= ver <= 13
    ensures Sound(NumRawCodewords(ver), HighBlocks(ver), HighEccLength(ver))
  {
  }

  lemma HighSound14(ver: Version)
    requires 14 <= ver <= 27
    ensures Sound(NumRawCodewords(ver), HighBlocks(ver), HighEccLength(ver))
  {
  }

  lemma HighSound28(ver: Version)
    requires 28 <= ver <= 40
    ensures Sound(NumRawCodewords(ver), HighBlocks(ver), HighEccLength(ver))
  {
  }

  lemma TablesSound(ver: Version, ecl: Ecc)
    ensures Sound(NumRawCodewords(ver), NumBlocks(ver, ecl), BlockEccLength(ver, ecl))
  {
    hide Sound, NumRawCodewords, LowBlocks, LowEccLength, MediumBlocks, MediumEccLength;
    hide QuartileBlocks, QuartileEccLength, HighBlocks, HighEccLength;
    match ecl
    case Low =>
      if ver <= 13 {
        LowSound1(ver);
      } else if ver <= 27 {
        LowSound14(ver);
      } else {
        LowSound28(ver);
      }
    case Medium =>
      if ver <= 13 {
        MediumSound1(ver);
      } else if ver <= 27 {
        MediumSound14(ver);
      } else {
        MediumSound28(ver);
      }
    case Quartile =>
      if ver <= 13 {
        QuartileSound1(ver);
      } else if ver <= 27 {
        QuartileSound14(ver);
      } else {
        QuartileSound28(ver);
      }
    case High =>
      if ver <= 13 {
        HighSound1(ver);
      } else if ver <= 27 {
        HighSound14(ver);
      } else {
        HighSound28(ver);
      }
  }

  /** Higher levels leave room for less data. */
  predicate RoomShrinks(ver: Version) {
    && LowEccLength(ver) * LowBlocks(ver) <= MediumEccLength(ver) * MediumBlocks(ver)
    && MediumEccLength(ver) * MediumBlocks(ver) <= QuartileEccLength(ver) * QuartileBlocks(ver)
    && QuartileEccLength(ver) * QuartileBlocks(ver) <= HighEccLength(ver) * HighBlocks(ver)
  }

  lemma RoomShrinks1(ver: Version)
    requires 1 <= ver <= 13
    ensures RoomShrinks(ver)
  {
  }

  lemma RoomShrinks14(ver: Version)
    requires 14 <= ver <= 27
    ensures RoomShrinks(ver)
  {
  }

  lemma RoomShrinks28(ver: Version)
    requires 28 <= ver <= 40
    ensures RoomShrinks(ver)
  {
  }

  function Rank(ecl: Ecc): nat {
    match ecl
    case Low => 0
    case Medium => 1
    case Quartile => 2
    case High => 3
  }

  lemma HigherLevelHoldsLess(ver: Version, ecl: Ecc, higher: Ecc)
    requires Rank(ecl) <= Rank(higher)
    ensures NumDataCodewords(ver, higher) <= NumDataCodewords(ver, ecl)
  {
    hide NumRawCodewords, LowBlocks, LowEccLength, MediumBlocks, MediumEccLength;
    hide QuartileBlocks, QuartileEccLength, HighBlocks, HighEccLength;
    assert RoomShrinks(ver) by {
      hide RoomShrinks;
      if ver <= 13 {
        RoomShrinks1(ver);
      } else if ver <= 27 {
        RoomShrinks14(ver);
      } else {
        RoomShrinks28(ver);
      }
    }
  }
}
