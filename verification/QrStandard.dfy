/**
 Tables of ISO/IEC 18004 that deps/qrcodegen.cpp has to agree with: the positions of alignment patterns
 (Annex E) and the number of data codewords (Table 7).
 */
module QrStandard {
  import opened QrTables
  import opened QrPatterns

  /** The rows and columns of alignment patterns. */
  function StandardPositions(ver: Version): (positions: seq<int>) {
    match ver
    case 1 => []
    case 2 => [6, 18]
    case 3 => [6, 22]
    case 4 => [6, 26]
    case 5 => [6, 30]
    case 6 => [6, 34]
    case 7 => [6, 22, 38]
    case 8 => [6, 24, 42]
    case 9 => [6, 26, 46]
    case 10 => [6, 28, 50]
    case 11 => [6, 30, 54]
    case 12 => [6, 32, 58]
    case 13 => [6, 34, 62]
    case 14 => [6, 26, 46, 66]
    case 15 => [6, 26, 48, 70]
    case 16 => [6, 26, 50, 74]
    case 17 => [6, 30, 54, 78]
    case 18 => [6, 30, 56, 82]
    case 19 => [6, 30, 58, 86]
    case 20 => [6, 34, 62, 90]
    case 21 => [6, 28, 50, 72, 94]
    case 22 => [6, 26, 50, 74, 98]
    case 23 => [6, 30, 54, 78, 102]
    case 24 => [6, 28, 54, 80, 106]
    case 25 => [6, 32, 58, 84, 110]
    case 26 => [6, 30, 58, 86, 114]
    case 27 => [6, 34, 62, 90, 118]
    case 28 => [6, 26, 50, 74, 98, 122]
    case 29 => [6, 30, 54, 78, 102, 126]
    case 30 => [6, 26, 52, 78, 104, 130]
    case 31 => [6, 30, 56, 82, 108, 134]
    case 32 => [6, 34, 60, 86, 112, 138]
    case 33 => [6, 30, 58, 86, 114, 142]
    case 34 => [6, 34, 62, 90, 118, 146]
    case 35 => [6, 30, 54, 78, 102, 126, 150]
    case 36 => [6, 24, 50, 76, 102, 128, 154]
    case 37 => [6, 28, 54, 80, 106, 132, 158]
    case 38 => [6, 32, 58, 84, 110, 136, 162]
    case 39 => [6, 26, 54, 82, 110, 138, 166]
    case 40 => [6, 30, 58, 86, 114, 142, 170]
  }

  lemma Positions2(ver: Version, k: nat)
    requires 2 <= ver <= 6 && k < NumAlign(ver)
    ensures |StandardPositions(ver)| == NumAlign(ver) && StandardPositions(ver)[k] == AlignPosition(ver, k)
  {
  }

  lemma Positions7(ver: Version, k: nat)
    requires 7 <= ver <= 11 && k < NumAlign(ver)
    ensures |StandardPositions(ver)| == NumAlign(ver) && StandardPositions(ver)[k] == AlignPosition(ver, k)
  {
    assert AlignStep(ver) == match ver case 7 => 16 case 8 => 18 case 9 => 20 case 10 => 22 case _ => 24;
    hide AlignStep;
  }

  lemma Positions12(ver: Version, k: nat)
    requires 12 <= ver <= 15 && k < NumAlign(ver)
    ensures |StandardPositions(ver)| == NumAlign(ver) && StandardPositions(ver)[k] == AlignPosition(ver, k)
  {
    assert AlignStep(ver) == match ver case 12 => 26 case 13 => 28 case 14 => 20 case _ => 22;
    hide AlignStep;
  }

  lemma Positions16(ver: Version, k: nat)
    requires 16 <= ver <= 19 && k < NumAlign(ver)
    ensures |StandardPositions(ver)| == NumAlign(ver) && StandardPositions(ver)[k] == AlignPosition(ver, k)
  {
    assert AlignStep(ver) == match ver case 16 => 24 case 17 => 24 case 18 => 26 case _ => 28;
    hide AlignStep;
  }

  lemma Positions20(ver: Version, k: nat)
    requires 20 <= ver <= 23 && k < NumAlign(ver)
    ensures |StandardPositions(ver)| == NumAlign(ver) && StandardPositions(ver)[k] == AlignPosition(ver, k)
  {
    assert AlignStep(ver) == match ver case 20 => 28 case 21 => 22 case 22 => 24 case _ => 24;
    hide AlignStep;
  }

  lemma Positions24(ver: Version, k: nat)
    requires 24 <= ver <= 27 && k < NumAlign(ver)
    ensures |StandardPositions(ver)| == NumAlign(ver) && StandardPositions(ver)[k] == AlignPosition(ver, k)
  {
    assert AlignStep(ver) == match ver case 24 => 26 case 25 => 26 case 26 => 28 case _ => 28;
    hide AlignStep;
  }

  lemma Positions28(ver: Version, k: nat)
    requires 28 <= ver <= 31 && k < NumAlign(ver)
    ensures |StandardPositions(ver)| == NumAlign(ver) && StandardPositions(ver)[k] == AlignPosition(ver, k)
  {
    assert AlignStep(ver) == match ver case 28 => 24 case 29 => 24 case 30 => 26 case _ => 26;
    hide AlignStep;
  }

  lemma Positions32(ver: Version, k: nat)
    requires 32 <= ver <= 34 && k < NumAlign(ver)
    ensures |StandardPositions(ver)| == NumAlign(ver) && StandardPositions(ver)[k] == AlignPosition(ver, k)
  {
    assert AlignStep(ver) == match ver case 32 => 26 case 33 => 28 case _ => 28;
    hide AlignStep;
  }

  lemma Positions35(ver: Version, k: nat)
    requires 35 <= ver <= 37 && k < NumAlign(ver)
    ensures |StandardPositions(ver)| == NumAlign(ver) && StandardPositions(ver)[k] == AlignPosition(ver, k)
  {
    assert AlignStep(ver) == match ver case 35 => 24 case 36 => 26 case _ => 26;
    hide AlignStep;
  }

  lemma Positions38(ver: Version, k: nat)
    requires 38 <= ver <= 40 && k < NumAlign(ver)
    ensures |StandardPositions(ver)| == NumAlign(ver) && StandardPositions(ver)[k] == AlignPosition(ver, k)
  {
    assert AlignStep(ver) == match ver case 38 => 26 case 39 => 28 case _ => 28;
    hide AlignStep;
  }

  /** The program's formula gives the positions of the standard, at every version. */
  lemma PositionsAreStandard(ver: Version, k: nat)
    requires k < NumAlign(ver)
    ensures |StandardPositions(ver)| == NumAlign(ver) && StandardPositions(ver)[k] == AlignPosition(ver, k)
  {
    hide StandardPositions, AlignPosition;
    if ver <= 6 {
      Positions2(ver, k);
    } else if ver <= 11 {
      Positions7(ver, k);
    } else if ver <= 15 {
      Positions12(ver, k);
    } else if ver <= 19 {
      Positions16(ver, k);
    } else if ver <= 23 {
      Positions20(ver, k);
    } else if ver <= 27 {
      Positions24(ver, k);
    } else if ver <= 31 {
      Positions28(ver, k);
    } else if ver <= 34 {
      Positions32(ver, k);
    } else if ver <= 37 {
      Positions35(ver, k);
    } else {
      Positions38(ver, k);
    }
  }

  function LowCapacity(ver: Version): int {
    match ver
    case 1 => 19 case 2 => 34 case 3 => 55 case 4 => 80 case 5 => 108
    case 6 => 136 case 7 => 156 case 8 => 194 case 9 => 232 case 10 => 274
    case 11 => 324 case 12 => 370 case 13 => 428 case 14 => 461 case 15 => 523
    case 16 => 589 case 17 => 647 case 18 => 721 case 19 => 795 case 20 => 861
    case 21 => 932 case 22 => 1006 case 23 => 1094 case 24 => 1174 case 25 => 1276
    case 26 => 1370 case 27 => 1468 case 28 => 1531 case 29 => 1631 case 30 => 1735
    case 31 => 1843 case 32 => 1955 case 33 => 2071 case 34 => 2191 case 35 => 2306
    case 36 => 2434 case 37 => 2566 case 38 => 2702 case 39 => 2812 case 40 => 2956
  }

  function MediumCapacity(ver: Version): int {
    match ver
    case 1 => 16 case 2 => 28 case 3 => 44 case 4 => 64 case 5 => 86
    case 6 => 108 case 7 => 124 case 8 => 154 case 9 => 182 case 10 => 216
    case 11 => 254 case 12 => 290 case 13 => 334 case 14 => 365 case 15 => 415
    case 16 => 453 case 17 => 507 case 18 => 563 case 19 => 627 case 20 => 669
    case 21 => 714 case 22 => 782 case 23 => 860 case 24 => 914 case 25 => 1000
    case 26 => 1062 case 27 => 1128 case 28 => 1193 case 29 => 1267 case 30 => 1373
    case 31 => 1455 case 32 => 1541 case 33 => 1631 case 34 => 1725 case 35 => 1812
    case 36 => 1914 case 37 => 1992 case 38 => 2102 case 39 => 2216 case 40 => 2334
  }

  function QuartileCapacity(ver: Version): int {
    match ver
    case 1 => 13 case 2 => 22 case 3 => 34 case 4 => 48 case 5 => 62
    case 6 => 76 case 7 => 88 case 8 => 110 case 9 => 132 case 10 => 154
    case 11 => 180 case 12 => 206 case 13 => 244 case 14 => 261 case 15 => 295
    case 16 => 325 case 17 => 367 case 18 => 397 case 19 => 445 case 20 => 485
    case 21 => 512 case 22 => 568 case 23 => 614 case 24 => 664 case 25 => 718
    case 26 => 754 case 27 => 808 case 28 => 871 case 29 => 911 case 30 => 985
    case 31 => 1033 case 32 => 1115 case 33 => 1171 case 34 => 1231 case 35 => 1286
    case 36 => 1354 case 37 => 1426 case 38 => 1502 case 39 => 1582 case 40 => 1666
  }

  function HighCapacity(ver: Version): int {
    match ver
    case 1 => 9 case 2 => 16 case 3 => 26 case 4 => 36 case 5 => 46
    case 6 => 60 case 7 => 66 case 8 => 86 case 9 => 100 case 10 => 122
    case 11 => 140 case 12 => 158 case 13 => 180 case 14 => 197 case 15 => 223
    case 16 => 253 case 17 => 283 case 18 => 313 case 19 => 341 case 20 => 385
    case 21 => 406 case 22 => 442 case 23 => 464 case 24 => 514 case 25 => 538
    case 26 => 596 case 27 => 628 case 28 => 661 case 29 => 701 case 30 => 745
    case 31 => 793 case 32 => 845 case 33 => 901 case 34 => 961 case 35 => 986
    case 36 => 1054 case 37 => 1096 case 38 => 1142 case 39 => 1222 case 40 => 1276
  }

  lemma Low1(ver: Version)
    requires 1 <= ver <= 13
    ensures NumRawCodewords(ver) - LowEccLength(ver) * LowBlocks(ver) == LowCapacity(ver)
  {
  }

  lemma Low14(ver: Version)
    requires 14 <= ver <= 27
    ensures NumRawCodewords(ver) - LowEccLength(ver) * LowBlocks(ver) == LowCapacity(ver)
  {
  }

  lemma Low28(ver: Version)
    requires 28 <= ver <= 40
    ensures NumRawCodewords(ver) - LowEccLength(ver) * LowBlocks(ver) == LowCapacity(ver)
  {
  }

  lemma Medium1(ver: Version)
    requires 1 <= ver <= 13
    ensures NumRawCodewords(ver) - MediumEccLength(ver) * MediumBlocks(ver) == MediumCapacity(ver)
  {
  }

  lemma Medium14(ver: Version)
    requires 14 <= ver <= 27
    ensures NumRawCodewords(ver) - MediumEccLength(ver) * MediumBlocks(ver) == MediumCapacity(ver)
  {
  }

  lemma Medium28(ver: Version)
    requires 28 <= ver <= 40
    ensures NumRawCodewords(ver) - MediumEccLength(ver) * MediumBlocks(ver) == MediumCapacity(ver)
  {
  }

  lemma Quartile1(ver: Version)
    requires 1 <= ver <= 13
    ensures NumRawCodewords(ver) - QuartileEccLength(ver) * QuartileBlocks(ver) == QuartileCapacity(ver)
  {
  }

  lemma Quartile14(ver: Version)
    requires 14 <= ver <= 27
    ensures NumRawCodewords(ver) - QuartileEccLength(ver) * QuartileBlocks(ver) == QuartileCapacity(ver)
  {
  }

  lemma Quartile28(ver: Version)
    requires 28 <= ver <= 40
    ensures NumRawCodewords(ver) - QuartileEccLength(ver) * QuartileBlocks(ver) == QuartileCapacity(ver)
  {
  }

  lemma High1(ver: Version)
    requires 1 <= ver <= 13
    ensures NumRawCodewords(ver) - HighEccLength(ver) * HighBlocks(ver) == HighCapacity(ver)
  {
  }

  lemma High14(ver: Version)
    requires 14 <= ver <= 27
    ensures NumRawCodewords(ver) - HighEccLength(ver) * HighBlocks(ver) == HighCapacity(ver)
  {
  }

  lemma High28(ver: Version)
    requires 28 <= ver <= 40
    ensures NumRawCodewords(ver) - HighEccLength(ver) * HighBlocks(ver) == HighCapacity(ver)
  {
  }

  function Capacity(ver: Version, ecl: Ecc): int {
    match ecl
    case Low => LowCapacity(ver)
    case Medium => MediumCapacity(ver)
    case Quartile => QuartileCapacity(ver)
    case High => HighCapacity(ver)
  }

  /** The tables of blocks and check codewords leave the number of data codewords of the standard. */
  lemma CapacityIsStandard(ver: Version, ecl: Ecc)
    ensures NumDataCodewords(ver, ecl) == Capacity(ver, ecl)
  {
    hide NumRawCodewords, LowBlocks, LowEccLength, MediumBlocks, MediumEccLength;
    hide QuartileBlocks, QuartileEccLength, HighBlocks, HighEccLength;
    hide LowCapacity, MediumCapacity, QuartileCapacity, HighCapacity;
    match ecl
    case Low =>
      if ver <= 13 {
        Low1(ver);
      } else if ver <= 27 {
        Low14(ver);
      } else {
        Low28(ver);
      }
    case Medium =>
      if ver <= 13 {
        Medium1(ver);
      } else if ver <= 27 {
        Medium14(ver);
      } else {
        Medium28(ver);
      }
    case Quartile =>
      if ver <= 13 {
        Quartile1(ver);
      } else if ver <= 27 {
        Quartile14(ver);
      } else {
        Quartile28(ver);
      }
    case High =>
      if ver <= 13 {
        High1(ver);
      } else if ver <= 27 {
        High14(ver);
      } else {
        High28(ver);
      }
  }
}
