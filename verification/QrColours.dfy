/**
 The colours of the function modules (drawFunctionPatterns, drawVersion, drawFinderPattern and
 drawAlignmentPattern of deps/qrcodegen.cpp), cell by cell.
 */
module QrColours {
  import opened Bytes
  import opened BitStrings
  import opened ZigZag
  import opened QrGrid
  import opened QrTables
  import opened QrPatterns
  import opened QrRoom
  import opened QrFormat
  import opened QrFormatReader

  /** The distance in steps of a chess king. */
  function Distance(c: Cell, x: int, y: int): nat {
    var dx, dy := if c.x < x then x - c.x else c.x - x, if c.y < y then y - c.y else c.y - y;
    if dx < dy then dy else dx
  }

  predicate TimingDark(c: Cell) {
    (c.x + c.y) % 2 == 0
  }

  predicate FinderDark(c: Cell, x: int, y: int) {
    Distance(c, x, y) != 2 && Distance(c, x, y) != 4
  }

  /** The finder patterns with their separators. */
  predicate InFinder(n: int, c: Cell) {
    Near(c, 3, 3, 4) || Near(c, n - 4, 3, 4) || Near(c, 3, n - 4, 4)
  }

  predicate FindersDark(n: int, c: Cell) {
    if Near(c, 3, n - 4, 4) then FinderDark(c, 3, n - 4)
    else if Near(c, n - 4, 3, 4) then FinderDark(c, n - 4, 3)
    else FinderDark(c, 3, 3)
  }

  predicate AlignmentDarkAt(ver: Version, c: Cell, i: int, j: int)
    requires ver > 1
  {
    Distance(c, AlignPosition(ver, i), AlignPosition(ver, j)) != 1
  }

  predicate AlignmentDark(ver: Version, c: Cell) {
    ver > 1 && exists i, j :: 0 <= i < NumAlign(ver) && 0 <= j < NumAlign(ver)
                           && InAlignmentAt(ver, c, i, j) && AlignmentDarkAt(ver, c, i, j)
  }

  lemma AlignmentDarkIs(ver: Version, c: Cell, i: nat, j: nat)
    requires ver > 1 && i < NumAlign(ver) && j < NumAlign(ver) && InAlignmentAt(ver, c, i, j)
    ensures AlignmentDark(ver, c) == AlignmentDarkAt(ver, c, i, j)
  {
    hide InAlignmentAt, AlignmentDarkAt, NumAlign;
    if AlignmentDark(ver, c) {
      var k, l :| 0 <= k < NumAlign(ver) && 0 <= l < NumAlign(ver)
               && InAlignmentAt(ver, c, k, l) && AlignmentDarkAt(ver, c, k, l);
      InOneRow(ver, c, i, j, k, l);
    }
  }

  // ---- the order in which alignment patterns are drawn ----

  /** Whether one of the patterns before (i, j) covers c. */
  predicate AlignedBefore(ver: Version, c: Cell, i: int, j: int) {
    ver > 1 &&
    exists k, l :: 0 <= k < NumAlign(ver) && 0 <= l < NumAlign(ver) && (k < i || (k == i && l < j))
                && InAlignmentAt(ver, c, k, l)
  }

  lemma AlignedBeforeNext(ver: Version, c: Cell, i: nat, j: nat)
    requires ver > 1 && i < NumAlign(ver) && j < NumAlign(ver)
    ensures AlignedBefore(ver, c, i, j + 1) <==> AlignedBefore(ver, c, i, j) || InAlignmentAt(ver, c, i, j)
  {
    hide InAlignmentAt, NumAlign;
  }

  lemma AlignedBeforeRow(ver: Version, c: Cell, i: nat)
    ensures AlignedBefore(ver, c, i, NumAlign(ver)) <==> AlignedBefore(ver, c, i + 1, 0)
    ensures AlignedBefore(ver, c, NumAlign(ver), 0) <==> InAlignment(ver, c)
  {
    hide InAlignmentAt, NumAlign;
  }

  lemma NoneAligned(ver: Version, c: Cell)
    ensures !AlignedBefore(ver, c, 0, 0)
  {
    hide InAlignmentAt, NumAlign;
  }

  lemma PositionInside(ver: Version, k: nat)
    requires ver > 1 && k < NumAlign(ver)
    ensures 6 <= AlignPosition(ver, k) <= Size(ver) - 7
  {
    if k > 0 {
      PositionBounds(ver, k);
    }
  }

  // ---- version information ----

  function VersionRemainder(rem: nat, rounds: nat): nat {
    if rounds == 0 then rem else
      var r := VersionRemainder(rem, rounds - 1);
      Xor(2 * r, (r / 2048) * 0x1F25)
  }

  /** The 18 version bits. */
  function VersionBits(ver: Version): nat {
    ver * 4096 + VersionRemainder(ver, 12)
  }

  lemma {:induction false} VersionRemainderFits(ver: nat, rounds: nat)
    requires ver < 4096
    ensures VersionRemainder(ver, rounds) < 4096
  {
    hide Xor;
    if rounds > 0 {
      VersionRemainderFits(ver, rounds - 1);
      OneVersionRound(VersionRemainder(ver, rounds - 1));
    }
  }

  lemma OneVersionRound(r: nat)
    requires r < 4096
    ensures Xor(2 * r, (r / 2048) * 0x1F25) < 4096
  {
    hide Xor;
    PowersOfVersion();
    if r < 2048 {
      assert r / 2048 == 0;
      XorSelf(2 * r);
    } else {
      assert r / 2048 == 1;
      hide Pow2;
      XorTopBit(2 * r, 0x1F25, 12);
    }
  }

  lemma PowersOfVersion()
    ensures Pow2(12) == 4096 && Pow2(13) == 8192 && Pow2(18) == 262144
  {
  }

  /** They fit in 18 bits, and the version is what the highest six say. */
  lemma VersionBitsTell(ver: Version)
    ensures VersionBits(ver) < Pow2(18) && VersionBits(ver) / 4096 == ver
  {
    hide Pow2, VersionRemainder;
    PowersOfVersion();
    VersionRemainderFits(ver, 12);
  }

  /** The number of the version bit in a cell of either block. */
  function VersionIndex(n: int, c: Cell): int {
    if c.y <= 5 then 3 * c.y + c.x - (n - 11) else 3 * c.x + c.y - (n - 11)
  }

  lemma VersionCell(ver: Version, i: nat, c: Cell)
    requires ver >= 7 && i < 18 && InGrid(Size(ver), c)
    ensures var a, b := Size(ver) - 11 + i % 3, i / 3;
            && InGrid(Size(ver), Cell(a, b)) && InGrid(Size(ver), Cell(b, a))
            && (InVersion(ver, c) && VersionIndex(Size(ver), c) == i <==> c == Cell(a, b) || c == Cell(b, a))
  {
  }

  predicate VersionDark(ver: Version, c: Cell) {
    var k := VersionIndex(Size(ver), c);
    k >= 0 && Bit(VersionBits(ver), k)
  }

  lemma VersionIndexRange(ver: Version, c: Cell)
    requires InVersion(ver, c) && InGrid(Size(ver), c)
    ensures 0 <= VersionIndex(Size(ver), c) < 18
  {
  }

  // ---- all together ----

  /** The colour of a module of a symbol in which just the function patterns are drawn. */
  predicate IsDark(ver: Version, ecl: Ecc, c: Cell) {
    var n := Size(ver);
    if InVersion(ver, c) then VersionDark(ver, c)
    else if c in FormatCells(n) then FormatDark(n, ecl, c)
    else if InAlignment(ver, c) then AlignmentDark(ver, c)
    else if InFinder(n, c) then FindersDark(n, c)
    else IsTiming(c) && TimingDark(c)
  }

  /** The colour that the format information of mask 0 gives a module. */
  predicate FormatDark(n: int, ecl: Ecc, c: Cell) {
    var k := FormatIndex(n, c);
    k >= 0 && FormatModule(FormatBits(ecl, 0), k)
  }

  function FunctionPatterns(ver: Version, ecl: Ecc): (g: Grid)
    ensures Square(g, Size(ver))
    ensures forall c :: InGrid(Size(ver), c) ==> At(g, c) == IsDark(ver, ecl, c)
  {
    hide IsDark;
    seq(Size(ver), y requires 0 <= y < Size(ver) => seq(Size(ver), x requires 0 <= x < Size(ver) =>
      IsDark(ver, ecl, Cell(x, y))))
  }

  /** A format module stands where its index says. */
  lemma FormatCellIs(n: int, c: Cell)
    requires IsSize(n) && InGrid(n, c)
    ensures c in FormatCells(n) <==> InCorner(n, c) && !InFinder(n, c) && !IsTiming(c)
    ensures c in FormatCells(n) ==>
              0 <= FormatIndex(n, c) < 31 && FormatCells(n)[FormatIndex(n, c)] == c
  {
    if c in FormatCells(n) {
      var k :| 0 <= k < 31 && FormatCells(n)[k] == c;
      IndexOfCell(n, k);
      FormatPlace(n, k);
    }
    if InCorner(n, c) && !InFinder(n, c) && !IsTiming(c) {
      FormatPlaceIndex(n, c);
      assert FormatCells(n)[FormatIndex(n, c)] == c;
    }
  }

  lemma FormatPlace(n: int, k: nat)
    requires IsSize(n) && k < 31
    ensures var c := FormatCell(n, k); InCorner(n, c) && !InFinder(n, c) && !IsTiming(c)
  {
  }

  lemma FormatPlaceIndex(n: int, c: Cell)
    requires IsSize(n) && InGrid(n, c) && InCorner(n, c) && !InFinder(n, c) && !IsTiming(c)
    ensures 0 <= FormatIndex(n, c) < 31 && FormatCell(n, FormatIndex(n, c)) == c
  {
  }

  /** The modules of the patterns are the reserved ones. */
  lemma ReservedIs(ver: Version, c: Cell)
    requires InGrid(Size(ver), c)
    ensures IsReserved(ver, c) <==>
            || IsTiming(c) || InFinder(Size(ver), c) || InAlignment(ver, c)
            || c in FormatCells(Size(ver)) || InVersion(ver, c)
    ensures c in FormatCells(Size(ver)) ==> !InVersion(ver, c)
  {
    FormatCellIs(Size(ver), c);
    hide FormatCells, InAlignment;
  }

  lemma ReservedFormat(ver: Version)
    ensures FormatReserved(Reserved(ver))
  {
    hide FormatCells, IsReserved;
    forall c | c in FormatCells(Size(ver)) ensures At(Reserved(ver), c) {
      ReservedIs(ver, c);
    }
  }

  lemma {:induction false} MarkedAt(fn: Grid, cells: seq<Cell>, marks: Bits, c: Cell)
    requires Square(fn, |fn|) && PathIn(cells, |fn|) && |marks| == |cells| && InGrid(|fn|, c)
    requires forall k :: 0 <= k < |marks| ==> marks[k]
    ensures At(WriteCells(fn, cells, marks), c) == (c in cells || At(fn, c))
  {
    if cells != [] {
      var k := |cells| - 1;
      assert cells == cells[..k] + [cells[k]];
      MarkedAt(fn, cells[..k], marks[..k], c);
    }
  }

  function WithFormatMarks(fn: Grid): (marked: Grid)
    requires IsSize(|fn|) && Square(fn, |fn|)
    ensures Square(marked, |fn|)
    ensures forall c :: InGrid(|fn|, c) ==> At(marked, c) == (c in FormatCells(|fn|) || At(fn, c))
  {
    hide FormatCells, WriteCells;
    var marks: Bits := seq(31, _ => true);
    assert forall c :: InGrid(|fn|, c) ==>
        At(WriteCells(fn, FormatCells(|fn|), marks), c) == (c in FormatCells(|fn|) || At(fn, c)) by {
      forall c | InGrid(|fn|, c)
        ensures At(WriteCells(fn, FormatCells(|fn|), marks), c) == (c in FormatCells(|fn|) || At(fn, c))
      {
        MarkedAt(fn, FormatCells(|fn|), marks, c);
      }
    }
    WriteCells(fn, FormatCells(|fn|), marks)
  }

  lemma NoNewMarks(fn: Grid)
    requires FormatReserved(fn)
    ensures WithFormatMarks(fn) == fn
  {
    hide FormatCells, WithFormatMarks;
    SameGrid(WithFormatMarks(fn), fn);
  }

  lemma WithFormatAt(g: Grid, ecl: Ecc, c: Cell)
    requires IsSize(|g|) && Square(g, |g|) && InGrid(|g|, c)
    ensures At(WithFormat(g, ecl, 0), c) == if c in FormatCells(|g|) then FormatDark(|g|, ecl, c) else At(g, c)
  {
    hide FormatCells, WriteCells, FormatBits, FormatModule, FormatIndex, InCorner, InFinder;
    var cells, values := FormatCells(|g|), FormatModules(ecl, 0);
    WriteCellsAt(g, g, cells, values, c);
    if c in cells {
      FormatCellIs(|g|, c);
      FormatCellsDiffer(|g|);
      WrittenStands(g, cells, values, FormatIndex(|g|, c));
    }
  }

  // ---- the patterns as pictures ----

  /** Row and column 6 alternate, dark in every second module from the edge. */
  lemma TimingAlternates(i: int)
    ensures TimingDark(Cell(6, i)) == TimingDark(Cell(i, 6)) == (i % 2 == 0)
  {
  }

  /** A finder pattern with its separator, # for dark. */
  function FinderPicture(): (rows: seq<string>)
    ensures |rows| == 9 && forall k :: 0 <= k < 9 ==> |rows[k]| == 9
  {
    [".........",
     ".#######.",
     ".#.....#.",
     ".#.###.#.",
     ".#.###.#.",
     ".#.###.#.",
     ".#.....#.",
     ".#######.",
     "........."]
  }

  function AlignmentPicture(): (rows: seq<string>)
    ensures |rows| == 5 && forall k :: 0 <= k < 5 ==> |rows[k]| == 5
  {
    ["#####",
     "#...#",
     "#.#.#",
     "#...#",
     "#####"]
  }

  lemma DistanceMoves(c: Cell, x: int, y: int)
    ensures Distance(c, x, y) == Distance(Cell(c.x - x, c.y - y), 0, 0)
  {
  }

  lemma FinderRow(dx: int, dy: int)
    requires -4 <= dx <= 4 && -4 <= dy <= 4
    ensures FinderDark(Cell(dx, dy), 0, 0) == (FinderPicture()[dy + 4][dx + 4] == '#')
  {
    match dy {
      case 0 => case 1 => case 2 => case 3 => case 4 => case _ =>
    }
  }

  lemma AlignmentRow(dx: int, dy: int)
    requires -2 <= dx <= 2 && -2 <= dy <= 2
    ensures (Distance(Cell(dx, dy), 0, 0) != 1) == (AlignmentPicture()[dy + 2][dx + 2] == '#')
  {
  }

  /** What the drawing loops leave around a centre is the picture. */
  lemma PatternsLookLikePictures(c: Cell, x: int, y: int)
    ensures Near(c, x, y, 4) ==> FinderDark(c, x, y) == (FinderPicture()[c.y - y + 4][c.x - x + 4] == '#')
    ensures Near(c, x, y, 2) ==> (Distance(c, x, y) != 1) == (AlignmentPicture()[c.y - y + 2][c.x - x + 2] == '#')
  {
    DistanceMoves(c, x, y);
    if Near(c, x, y, 4) {
      FinderRow(c.x - x, c.y - y);
    }
    if Near(c, x, y, 2) {
      AlignmentRow(c.x - x, c.y - y);
    }
    hide Distance, FinderPicture, AlignmentPicture;
  }

  // ---- the pictures in the symbol ----

  lemma AlignmentOffFinders(ver: Version, c: Cell, i: nat, j: nat)
    requires ver > 1 && i < NumAlign(ver) && j < NumAlign(ver) && InAlignmentAt(ver, c, i, j)
    ensures InGrid(Size(ver), c) && !InFinder(Size(ver), c) && !InVersion(ver, c)
  {
    hide AlignPosition, NumAlign;
    FirstPosition(ver);
    if i > 0 {
      PositionBounds(ver, i);
    }
    if j > 0 {
      PositionBounds(ver, j);
    }
  }

  /** Around the centre of a finder pattern, as far as the symbol goes, stands its picture. */
  lemma FinderInSymbol(ver: Version, ecl: Ecc, c: Cell, x: int, y: int)
    requires InGrid(Size(ver), c) && Near(c, x, y, 4)
    requires var n := Size(ver); (x == 3 && y == 3) || (x == n - 4 && y == 3) || (x == 3 && y == n - 4)
    ensures At(FunctionPatterns(ver, ecl), c) == (FinderPicture()[c.y - y + 4][c.x - x + 4] == '#')
  {
    var n := Size(ver);
    PatternsLookLikePictures(c, x, y);
    FormatCellIs(n, c);
    hide FormatCells, FinderPicture, InAlignment, FinderDark;
    if InAlignment(ver, c) {
      NotInAlignment(ver, c);
    }
  }

  lemma NotInAlignment(ver: Version, c: Cell)
    requires InAlignment(ver, c)
    ensures !InFinder(Size(ver), c)
  {
    hide InAlignmentAt, NumAlign, InFinder;
    var i, j :| 0 <= i < NumAlign(ver) && 0 <= j < NumAlign(ver) && InAlignmentAt(ver, c, i, j);
    AlignmentOffFinders(ver, c, i, j);
  }

  /** Around each pair of positions, three corners excepted, stands the picture of an alignment pattern. */
  lemma AlignmentInSymbol(ver: Version, ecl: Ecc, c: Cell, i: nat, j: nat)
    requires ver > 1 && i < NumAlign(ver) && j < NumAlign(ver)
    requires Near(c, AlignPosition(ver, i), AlignPosition(ver, j), 2) && !Corner(NumAlign(ver), i, j)
    ensures InGrid(Size(ver), c)
    ensures var x, y := AlignPosition(ver, i), AlignPosition(ver, j);
            At(FunctionPatterns(ver, ecl), c) == (AlignmentPicture()[c.y - y + 2][c.x - x + 2] == '#')
  {
    var x, y := AlignPosition(ver, i), AlignPosition(ver, j);
    AlignmentOffFinders(ver, c, i, j);
    AlignmentOffFormat(ver, c, i, j);
    PatternsLookLikePictures(c, x, y);
    AlignmentDarkIs(ver, c, i, j);
    assert InAlignment(ver, c);
    hide FormatCells, AlignmentPicture, InAlignment, AlignPosition, Near, Distance, InAlignmentAt, AlignmentDark;
  }

  lemma AlignmentOffFormat(ver: Version, c: Cell, i: nat, j: nat)
    requires ver > 1 && i < NumAlign(ver) && j < NumAlign(ver) && InAlignmentAt(ver, c, i, j)
    ensures c !in FormatCells(Size(ver))
  {
    AlignmentOffFinders(ver, c, i, j);
    FormatCellIs(Size(ver), c);
    hide FormatCells, AlignPosition, NumAlign;
    if !IsTiming(c) {
      AlignmentIsApart(ver, c);
    }
  }

  lemma EvenProduct(k: int, half: int)
    ensures k * (half * 2) == 2 * (k * half)
  {
  }

  lemma StepIsEven(ver: Version) returns (half: int)
    requires ver > 1
    ensures AlignStep(ver) == half * 2
  {
    half := (ver * 8 + NumAlign(ver) * 3 + 5) / (NumAlign(ver) * 4 - 4);
  }

  lemma PositionsAreEven(ver: Version, k: nat)
    requires ver > 1
    ensures AlignPosition(ver, k) % 2 == 0
  {
    if k > 0 {
      hide AlignStep, NumAlign;
      var half := StepIsEven(ver);
      EvenProduct(NumAlign(ver) - 1 - k, half);
    }
  }

  /** A ring around an even place has the colours of the timing pattern where it crosses row or column 6. */
  lemma EvenCentre(c: Cell, x: int, y: int)
    requires Near(c, x, y, 2) && x % 2 == 0 && y % 2 == 0
    requires (c.x == 6 && x == 6) || (c.y == 6 && y == 6)
    ensures (Distance(c, x, y) != 1) == TimingDark(c)
  {
    var k, m := x / 2, y / 2;
    assert x == 2 * k && y == 2 * m;
  }

  lemma OnTimingAxis(ver: Version, c: Cell, i: nat, j: nat)
    requires ver > 1 && i < NumAlign(ver) && j < NumAlign(ver) && InAlignmentAt(ver, c, i, j) && IsTiming(c)
    ensures (c.x == 6 && AlignPosition(ver, i) == 6) || (c.y == 6 && AlignPosition(ver, j) == 6)
  {
    AlignPlace(ver, i);
    AlignPlace(ver, j);
    hide AlignPosition, NumAlign, Corner;
  }

  /** In row or column 6 an alignment pattern has the colours that are there already. */
  lemma AlignmentAgreesWithTiming(ver: Version, c: Cell, i: nat, j: nat)
    requires ver > 1 && i < NumAlign(ver) && j < NumAlign(ver) && InAlignmentAt(ver, c, i, j) && IsTiming(c)
    ensures AlignmentDarkAt(ver, c, i, j) == TimingDark(c)
  {
    hide AlignPosition, NumAlign, Corner, Near, Distance, TimingDark;
    PositionsAreEven(ver, i);
    PositionsAreEven(ver, j);
    OnTimingAxis(ver, c, i, j);
    EvenCentre(c, AlignPosition(ver, i), AlignPosition(ver, j));
  }

  /** Between the corners row and column 6 alternate without a break, alignment patterns or not. */
  lemma TimingInSymbol(ver: Version, ecl: Ecc, k: int)
    requires 8 < k < Size(ver) - 8
    ensures At(FunctionPatterns(ver, ecl), Cell(6, k)) == At(FunctionPatterns(ver, ecl), Cell(k, 6)) == (k % 2 == 0)
  {
    TimingAlternates(k);
    TimingCellInSymbol(ver, ecl, Cell(6, k));
    TimingCellInSymbol(ver, ecl, Cell(k, 6));
    hide TimingDark;
  }

  lemma TimingCellInSymbol(ver: Version, ecl: Ecc, c: Cell)
    requires (c.x == 6 && 8 < c.y < Size(ver) - 8) || (c.y == 6 && 8 < c.x < Size(ver) - 8)
    ensures At(FunctionPatterns(ver, ecl), c) == TimingDark(c)
  {
    FormatCellIs(Size(ver), c);
    hide FormatCells, InAlignment, AlignmentDark, InAlignmentAt, AlignmentDarkAt, TimingDark, NumAlign;
    if InAlignment(ver, c) {
      AlignmentIsTiming(ver, c);
    }
  }

  lemma AlignmentIsTiming(ver: Version, c: Cell)
    requires InAlignment(ver, c) && IsTiming(c)
    ensures AlignmentDark(ver, c) == TimingDark(c)
  {
    hide InAlignmentAt, NumAlign, IsTiming, TimingDark, AlignmentDarkAt, AlignmentDark;
    var i, j :| 0 <= i < NumAlign(ver) && 0 <= j < NumAlign(ver) && InAlignmentAt(ver, c, i, j);
    AlignmentDarkIs(ver, c, i, j);
    AlignmentAgreesWithTiming(ver, c, i, j);
  }

  /** Modules that belong to no pattern stay light. */
  lemma LightElsewhere(ver: Version, ecl: Ecc, c: Cell)
    requires InGrid(Size(ver), c) && !At(Reserved(ver), c)
    ensures !At(FunctionPatterns(ver, ecl), c)
  {
    ReservedIs(ver, c);
    hide FormatCells, InAlignment, InFinder, InVersion, IsTiming;
  }

  /** Bit k of the version information, in both blocks. */
  lemma VersionInSymbol(ver: Version, ecl: Ecc, k: nat)
    requires ver >= 7 && k < 18
    ensures var a, b := Size(ver) - 11 + k % 3, k / 3;
            && InGrid(Size(ver), Cell(a, b)) && InGrid(Size(ver), Cell(b, a))
            && At(FunctionPatterns(ver, ecl), Cell(a, b)) == Bit(VersionBits(ver), k)
            && At(FunctionPatterns(ver, ecl), Cell(b, a)) == Bit(VersionBits(ver), k)
  {
    var a, b := Size(ver) - 11 + k % 3, k / 3;
    VersionCell(ver, k, Cell(a, b));
    VersionCell(ver, k, Cell(b, a));
    hide VersionBits, Bit, InVersion, VersionIndex;
  }

  /** Either block of a symbol gives its version back. */
  lemma VersionReadBack(ver: Version, ecl: Ecc, upper: bool)
    requires ver >= 7
    ensures var n := Size(ver);
            var g := FunctionPatterns(ver, ecl);
            FromLow(seq(18, k requires 0 <= k < 18 =>
              At(g, if upper then Cell(n - 11 + k % 3, k / 3) else Cell(k / 3, n - 11 + k % 3)))) / 4096 == ver
  {
    hide FunctionPatterns, FromLow, VersionBits, Bit, Pow2;
    var n := Size(ver);
    var g := FunctionPatterns(ver, ecl);
    var bits := seq(18, k requires 0 <= k < 18 =>
      At(g, if upper then Cell(n - 11 + k % 3, k / 3) else Cell(k / 3, n - 11 + k % 3)));
    forall k | 0 <= k < 18 ensures bits[k] == Bit(VersionBits(ver), k) {
      VersionInSymbol(ver, ecl, k);
    }
    VersionBitsTell(ver);
    FromLowReadBack(VersionBits(ver), bits);
  }
}
