/**
 The room for data in a symbol: outside the function modules the zigzag scan of deps/qrcodegen.cpp
 visits exactly as many modules as getNumRawDataModules says, at every version.
 */
module QrRoom {
  import opened ZigZag
  import opened QrGrid
  import opened QrTables
  import opened QrPatterns

  // ---- alignment patterns, without the modules of the timing patterns ----

  /** A block across column 6, without that column. */
  function AcrossColumn(x: int, y: int, w: nat, h: nat): (s: set<Cell>)
    requires x <= 6 < x + w
    ensures forall c :: c in s <==> x <= c.x < x + w && y <= c.y < y + h && c.x != 6
    ensures |s| == (6 - x) * h + (x + w - 7) * h
  {
    var left, right := Block(x, y, 6 - x, h), Block(7, y, x + w - 7, h);
    assert left !! right;
    left + right
  }

  /** A block across row 6, without that row. */
  function AcrossRow(x: int, y: int, w: nat, h: nat): (s: set<Cell>)
    requires y <= 6 < y + h
    ensures forall c :: c in s <==> x <= c.x < x + w && y <= c.y < y + h && c.y != 6
    ensures |s| == w * (6 - y) + w * (y + h - 7)
  {
    var up, down := Block(x, y, w, 6 - y), Block(x, 7, w, y + h - 7);
    assert up !! down;
    up + down
  }

  /** The modules of the pattern at (x, y). */
  function PatternCells(x: int, y: int): (s: set<Cell>)
    requires (x == 6 || x >= 18) && (y == 6 || y >= 18) && (x == 6 ==> y != 6)
    ensures forall c :: c in s <==> Near(c, x, y, 2) && !IsTiming(c)
    ensures |s| == if x == 6 || y == 6 then 20 else 25
  {
    hide AcrossColumn, AcrossRow, Block;
    if x == 6 then AcrossColumn(4, y - 2, 5, 5)
    else if y == 6 then AcrossRow(x - 2, 4, 5, 5)
    else Block(x - 2, y - 2, 5, 5)
  }

  function AlignCells(ver: Version, i: nat, j: nat): (s: set<Cell>)
    requires ver > 1 && i < NumAlign(ver) && j < NumAlign(ver)
    ensures forall c :: c in s <==> InAlignmentAt(ver, c, i, j) && !IsTiming(c)
    ensures |s| == AlignCount(NumAlign(ver), i, j)
  {
    hide AlignPosition, NumAlign, PatternCells, IsTiming, Near;
    if Corner(NumAlign(ver), i, j) then {} else
      AlignPlace(ver, i);
      AlignPlace(ver, j);
      PatternCells(AlignPosition(ver, i), AlignPosition(ver, j))
  }

  function AlignCount(a: nat, i: nat, j: nat): nat {
    if Corner(a, i, j) then 0 else if i == 0 || j == 0 then 20 else 25
  }

  lemma AlignPlace(ver: Version, i: nat)
    requires ver > 1 && i < NumAlign(ver)
    ensures if i == 0 then AlignPosition(ver, i) == 6 else AlignPosition(ver, i) >= 18
  {
    if i > 0 {
      PositionBounds(ver, i);
    }
  }

  lemma FirstPosition(ver: Version)
    requires ver > 1
    ensures AlignPosition(ver, 0) == 6
  {
  }

  /** The patterns of the first k positions in row or column i, and of the first m such rows. */
  function AlignRow(ver: Version, i: nat, k: nat): set<Cell>
    requires ver > 1 && i < NumAlign(ver) && k <= NumAlign(ver)
  {
    if k == 0 then {} else AlignRow(ver, i, k - 1) + AlignCells(ver, i, k - 1)
  }

  function AlignRows(ver: Version, m: nat): set<Cell>
    requires ver > 1 && m <= NumAlign(ver)
  {
    if m == 0 then {} else AlignRows(ver, m - 1) + AlignRow(ver, m - 1, NumAlign(ver))
  }

  function RowCount(a: nat, i: nat, k: nat): nat {
    if k == 0 then 0 else RowCount(a, i, k - 1) + AlignCount(a, i, k - 1)
  }

  function RowsCount(a: nat, m: nat): nat {
    if m == 0 then 0 else RowsCount(a, m - 1) + RowCount(a, m - 1, a)
  }

  lemma {:induction false} AlignRowIs(ver: Version, i: nat, k: nat, c: Cell)
    requires ver > 1 && i < NumAlign(ver) && k <= NumAlign(ver)
    ensures c in AlignRow(ver, i, k) <==> exists j :: 0 <= j < k && InAlignmentAt(ver, c, i, j) && !IsTiming(c)
  {
    hide InAlignmentAt, AlignCells, NumAlign;
    if k > 0 {
      AlignRowIs(ver, i, k - 1, c);
    }
  }

  lemma {:induction false} AlignRowsAre(ver: Version, m: nat, c: Cell)
    requires ver > 1 && m <= NumAlign(ver)
    ensures c in AlignRows(ver, m) <==>
            exists i, j :: 0 <= i < m && 0 <= j < NumAlign(ver) && InAlignmentAt(ver, c, i, j) && !IsTiming(c)
  {
    hide InAlignmentAt, AlignRow, NumAlign, IsTiming;
    if m > 0 {
      AlignRowsAre(ver, m - 1, c);
      AlignRowIs(ver, m - 1, NumAlign(ver), c);
    }
  }

  /** No cell is near two positions. */
  lemma NearOne(ver: Version, i: nat, k: nat, v: int)
    requires ver > 1 && i < NumAlign(ver) && k < NumAlign(ver)
    requires AlignPosition(ver, i) - 2 <= v <= AlignPosition(ver, i) + 2
    requires AlignPosition(ver, k) - 2 <= v <= AlignPosition(ver, k) + 2
    ensures i == k
  {
    hide AlignPosition, NumAlign;
    if i < k {
      PositionsSpread(ver, i, k);
    } else if k < i {
      PositionsSpread(ver, k, i);
    }
  }

  lemma InOneRow(ver: Version, c: Cell, i: nat, j: nat, k: nat, l: nat)
    requires ver > 1 && i < NumAlign(ver) && j < NumAlign(ver) && k < NumAlign(ver) && l < NumAlign(ver)
    requires InAlignmentAt(ver, c, i, j) && InAlignmentAt(ver, c, k, l)
    ensures i == k && j == l
  {
    hide AlignPosition, NumAlign, Corner;
    NearOne(ver, i, k, c.x);
    NearOne(ver, j, l, c.y);
  }

  lemma NotInRowBefore(ver: Version, i: nat, k: nat, c: Cell)
    requires ver > 1 && i < NumAlign(ver) && k < NumAlign(ver) && c in AlignRow(ver, i, k)
    ensures c !in AlignCells(ver, i, k)
  {
    hide InAlignmentAt, AlignRow, AlignCells, NumAlign, IsTiming;
    AlignRowIs(ver, i, k, c);
    var j :| 0 <= j < k && InAlignmentAt(ver, c, i, j);
    if c in AlignCells(ver, i, k) {
      InOneRow(ver, c, i, j, i, k);
    }
  }

  lemma RowPartsApart(ver: Version, i: nat, k: nat)
    requires ver > 1 && i < NumAlign(ver) && k < NumAlign(ver)
    ensures |AlignRow(ver, i, k) + AlignCells(ver, i, k)| == |AlignRow(ver, i, k)| + |AlignCells(ver, i, k)|
  {
    hide AlignRow, AlignCells, NumAlign;
    var row, cells := AlignRow(ver, i, k), AlignCells(ver, i, k);
    forall c | c in row ensures c !in cells {
      NotInRowBefore(ver, i, k, c);
    }
    assert row !! cells;
  }

  lemma {:induction false} AlignRowSize(ver: Version, i: nat, k: nat)
    requires ver > 1 && i < NumAlign(ver) && k <= NumAlign(ver)
    ensures |AlignRow(ver, i, k)| == RowCount(NumAlign(ver), i, k)
  {
    hide AlignCells, NumAlign, AlignCount, InAlignmentAt, IsTiming, Corner;
    if k > 0 {
      AlignRowSize(ver, i, k - 1);
      RowPartsApart(ver, i, k - 1);
    }
  }

  lemma NotInRowsBefore(ver: Version, m: nat, c: Cell)
    requires ver > 1 && m < NumAlign(ver) && c in AlignRows(ver, m)
    ensures c !in AlignRow(ver, m, NumAlign(ver))
  {
    hide InAlignmentAt, AlignRow, AlignRows, NumAlign, IsTiming;
    AlignRowsAre(ver, m, c);
    AlignRowIs(ver, m, NumAlign(ver), c);
    var i, j :| 0 <= i < m && 0 <= j < NumAlign(ver) && InAlignmentAt(ver, c, i, j);
    if c in AlignRow(ver, m, NumAlign(ver)) {
      var l :| 0 <= l < NumAlign(ver) && InAlignmentAt(ver, c, m, l);
      InOneRow(ver, c, i, j, m, l);
    }
  }

  lemma RowsPartsApart(ver: Version, m: nat)
    requires ver > 1 && m < NumAlign(ver)
    ensures var row := AlignRow(ver, m, NumAlign(ver));
            |AlignRows(ver, m) + row| == |AlignRows(ver, m)| + |row|
  {
    hide AlignRow, AlignRows, NumAlign;
    var rows, row := AlignRows(ver, m), AlignRow(ver, m, NumAlign(ver));
    forall c | c in rows ensures c !in row {
      NotInRowsBefore(ver, m, c);
    }
    assert rows !! row;
  }

  lemma {:induction false} AlignRowsSize(ver: Version, m: nat)
    requires ver > 1 && m <= NumAlign(ver)
    ensures |AlignRows(ver, m)| == RowsCount(NumAlign(ver), m)
  {
    hide AlignRow, NumAlign, RowCount, InAlignmentAt, IsTiming, Corner, AlignCells, AlignPosition;
    if m > 0 {
      AlignRowsSize(ver, m - 1);
      AlignRowSize(ver, m - 1, NumAlign(ver));
      RowsPartsApart(ver, m - 1);
    }
  }

  lemma {:induction false} RowCountIs(a: nat, i: nat, k: nat)
    requires 2 <= a && i < a && 0 < k <= a
    ensures i == 0 ==> RowCount(a, i, k) == 20 * (k - 1) - (if k == a then 20 else 0)
    ensures i == a - 1 ==> RowCount(a, i, k) == 25 * (k - 1)
    ensures 0 < i < a - 1 ==> RowCount(a, i, k) == 25 * k - 5
  {
    if k > 1 {
      RowCountIs(a, i, k - 1);
    }
  }

  lemma {:induction false} RowsCountIs(a: nat, m: nat)
    requires 2 <= a && 0 < m <= a
    ensures RowsCount(a, m) == 20 * (a - 2) + (m - 1) * (25 * a - 5) - (if m == a then 20 else 0)
  {
    hide RowCount;
    RowCountIs(a, m - 1, a);
    if m > 1 {
      RowsCountIs(a, m - 1);
      assert (m - 1) * (25 * a - 5) == (m - 2) * (25 * a - 5) + (25 * a - 5);
    } else {
      assert RowsCount(a, 0) == 0;
    }
  }

  // ---- all reserved cells outside column 6 ----

  function CornerCells(n: nat): (s: set<Cell>)
    requires IsSize(n)
    ensures forall c :: c in s <==> InGrid(n, c) && c.x != 6 && InCorner(n, c)
    ensures |s| == 208
  {
    hide Block, AcrossColumn;
    var left, right, low := AcrossColumn(0, 0, 9, 9), Block(n - 8, 0, 8, 9), AcrossColumn(0, n - 8, 9, 8);
    assert left !! right;
    assert (left + right) !! low;
    left + right + low
  }

  function VersionCells(ver: Version): (s: set<Cell>)
    ensures forall c :: c in s <==> InGrid(Size(ver), c) && InVersion(ver, c)
    ensures |s| == if ver >= 7 then 36 else 0
  {
    if ver < 7 then {} else
      var up, down := Block(Size(ver) - 11, 0, 3, 6), Block(0, Size(ver) - 11, 6, 3);
      assert up !! down;
      up + down
  }

  function AlignAll(ver: Version): set<Cell> {
    if ver == 1 then {} else AlignRows(ver, NumAlign(ver))
  }

  lemma AlignAllIs(ver: Version)
    ensures forall c :: c in AlignAll(ver) <==> InAlignment(ver, c) && !IsTiming(c)
    ensures |AlignAll(ver)| == if ver == 1 then 0 else RowsCount(NumAlign(ver), NumAlign(ver))
  {
    hide AlignRows, NumAlign, InAlignmentAt, IsTiming;
    if ver > 1 {
      AlignRowsSize(ver, NumAlign(ver));
      forall c ensures c in AlignAll(ver) <==> InAlignment(ver, c) && !IsTiming(c) {
        AlignRowsAre(ver, NumAlign(ver), c);
      }
    }
  }

  /** Off the timing patterns an alignment pattern touches neither the corners nor the version blocks. */
  lemma AlignmentIsApart(ver: Version, c: Cell)
    requires InAlignment(ver, c) && !IsTiming(c)
    ensures InGrid(Size(ver), c) && !InCorner(Size(ver), c) && !InVersion(ver, c)
  {
    hide AlignPosition, NumAlign;
    var i, j :| 0 <= i < NumAlign(ver) && 0 <= j < NumAlign(ver) && InAlignmentAt(ver, c, i, j);
    FirstPosition(ver);
    if i > 0 {
      PositionBounds(ver, i);
    }
    if j > 0 {
      PositionBounds(ver, j);
    }
  }

  function Outside(ver: Version): set<Cell> {
    set c | c in Block(0, 0, Size(ver), Size(ver)) && c.x != 6 && IsReserved(ver, c)
  }

  function TimingCells(n: nat): (s: set<Cell>)
    requires IsSize(n)
    ensures forall c :: c in s <==> 9 <= c.x < n - 8 && c.y == 6
    ensures |s| == n - 17
  {
    Block(9, 6, n - 17, 1)
  }

  lemma OutsideAre(ver: Version, c: Cell)
    ensures var n := Size(ver);
            c in Outside(ver) <==>
              c in CornerCells(n) || c in TimingCells(n) || c in VersionCells(ver) || c in AlignAll(ver)
  {
    hide InAlignment, AlignAll, CornerCells, VersionCells, TimingCells, Block;
    AlignAllIs(ver);
    if InAlignment(ver, c) && !IsTiming(c) {
      AlignmentIsApart(ver, c);
    }
  }

  lemma PartsAreApart(ver: Version)
    ensures var n := Size(ver);
            && CornerCells(n) !! TimingCells(n) && CornerCells(n) !! VersionCells(ver)
            && TimingCells(n) !! VersionCells(ver)
            && AlignAll(ver) !! CornerCells(n) + TimingCells(n) + VersionCells(ver)
  {
    hide InAlignment, AlignAll, CornerCells, VersionCells, TimingCells;
    AlignAllIs(ver);
    forall c | c in AlignAll(ver) ensures !InCorner(Size(ver), c) && !InVersion(ver, c) {
      AlignmentIsApart(ver, c);
    }
  }

  lemma OutsideSize(ver: Version)
    ensures |Outside(ver)| == 208 + (Size(ver) - 17) + (if ver >= 7 then 36 else 0) + |AlignAll(ver)|
  {
    hide *;
    var n := Size(ver);
    PartsAreApart(ver);
    var parts := CornerCells(n) + TimingCells(n) + VersionCells(ver) + AlignAll(ver);
    forall c ensures c in Outside(ver) <==> c in parts {
      OutsideAre(ver, c);
    }
    assert Outside(ver) == parts;
  }

  /** The reserved cells of the scan are the reserved cells outside column 6. */
  lemma OnTheScan(ver: Version)
    ensures var path := Scan(Size(ver));
            PathIn(path, Size(ver)) && (set c | c in path && At(Reserved(ver), c)) == Outside(ver)
  {
    hide Scan, IsReserved, Reserved, NoRepeats, Block;
    ScanVisitsEachCellOnce(Size(ver));
  }

  /** The modules the scan visits that are not function modules are as many as the program computes. */
  lemma FreeModules(ver: Version)
    ensures PathIn(Scan(Size(ver)), Size(ver)) && Free(Reserved(ver), Scan(Size(ver))) == NumRawDataModules(ver)
  {
    hide Free, Scan, Reserved, AlignAll, NoRepeats, Outside, RowsCount, At, NumAlign, NumRawDataModules;
    ScanVisitsEachCellOnce(Size(ver));
    FreeAndReserved(Reserved(ver), Scan(Size(ver)));
    OnTheScan(ver);
    OutsideSize(ver);
    ScanLength(Size(ver));
    AlignAllIs(ver);
    RoomIs(ver, |Outside(ver)|);
  }

  lemma RoomIs(ver: Version, reserved: nat)
    requires reserved == 208 + (Size(ver) - 17) + (if ver >= 7 then 36 else 0)
                       + (if ver == 1 then 0 else RowsCount(NumAlign(ver), NumAlign(ver)))
    ensures Size(ver) * (Size(ver) - 1) - reserved == NumRawDataModules(ver)
  {
    hide RowsCount;
    AllModules(ver);
    if ver > 1 {
      AllAlignment(NumAlign(ver));
    }
  }

  lemma AllModules(ver: int)
    ensures (ver * 4 + 17) * (ver * 4 + 16) == (16 * ver + 128) * ver + 64 + 4 * ver + 208
  {
  }

  lemma AllAlignment(a: nat)
    requires 2 <= a
    ensures RowsCount(a, a) == (25 * a - 10) * a - 55
  {
    hide RowsCount;
    RowsCountIs(a, a);
    assert (a - 1) * (25 * a - 5) == (25 * a - 10) * a - 20 * a + 5;
  }
}
