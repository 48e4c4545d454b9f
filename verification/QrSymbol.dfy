/**
 The class QrCode of deps/qrcodegen.cpp: it draws its function modules and the codewords, masks,
 chooses the mask and scores itself.
 */
module QrSymbol {
  import opened Bytes
  import opened BitStrings
  import opened ZigZag
  import opened QrGrid
  import opened QrPenalty
  import opened QrTables
  import opened QrPatterns
  import opened QrFormat
  import opened QrColours

  /** The first of the masks 0 .. k-1 with the lowest penalty. */
  ghost function BestMask(g: Grid, fn: Grid, ecl: Ecc, k: nat): nat
    requires IsSize(|g|) && Square(g, |g|) && Square(fn, |g|)
    requires 1 <= k <= 8
  {
    if k == 1 then 0 else
      var best := BestMask(g, fn, ecl, k - 1);
      if Score(g, fn, ecl, k - 1) < Score(g, fn, ecl, best) then k - 1 else best
  }

  ghost function Score(g: Grid, fn: Grid, ecl: Ecc, mask: nat): int
    requires IsSize(|g|) && Square(g, |g|) && Square(fn, |g|)
  {
    Penalty(Finished(g, fn, ecl, mask))
  }

  /** It is the least index among the masks whose finished symbol has the least penalty. */
  lemma {:induction false} BestMaskIsFirstMinimum(g: Grid, fn: Grid, ecl: Ecc, k: nat)
    requires IsSize(|g|) && Square(g, |g|) && Square(fn, |g|)
    requires 1 <= k <= 8
    ensures BestMask(g, fn, ecl, k) < k
    ensures forall m: nat :: m < k ==> Score(g, fn, ecl, BestMask(g, fn, ecl, k)) <= Score(g, fn, ecl, m)
    ensures forall m: nat :: m < BestMask(g, fn, ecl, k) ==>
              Score(g, fn, ecl, BestMask(g, fn, ecl, k)) < Score(g, fn, ecl, m)
  {
    hide Score;
    if k > 1 {
      BestMaskIsFirstMinimum(g, fn, ecl, k - 1);
    }
  }

  class QrCode {
    const version: Version
    const size: int
    const errorCorrectionLevel: Ecc
    var mask: int
    var modules: Grid
    var isFunction: Grid

    ghost predicate Sized()
      reads this
    {
      size == Size(version) && Square(modules, size) && Square(isFunction, size)
    }

    /** The format information is among the function modules. */
    ghost predicate Valid()
      reads this
    {
      Sized() && FormatReserved(isFunction)
    }

    constructor (ver: Version, ecl: Ecc)
      ensures Sized() && version == ver && errorCorrectionLevel == ecl
      ensures modules == isFunction == Blank(size)
    {
      version, errorCorrectionLevel, size := ver, ecl, Size(ver);
      mask := -1;
      modules, isFunction := Blank(Size(ver)), Blank(Size(ver));
    }

    method SetFunctionModule(x: int, y: int, isDark: bool)
      requires Sized() && InGrid(size, Cell(x, y))
      modifies this`modules, this`isFunction
      ensures Sized()
      ensures modules == Put(old(modules), Cell(x, y), isDark)
      ensures isFunction == Put(old(isFunction), Cell(x, y), true)
    {
      modules := modules[y := modules[y][x := isDark]];
      isFunction := isFunction[y := isFunction[y][x := true]];
    }

    // ---- function patterns ----

    method DrawTimingPatterns()
      requires Sized()
      modifies this`modules, this`isFunction
      ensures Sized()
      ensures forall c :: InGrid(size, c) ==>
                && At(isFunction, c) == (IsTiming(c) || At(old(isFunction), c))
                && At(modules, c) == if IsTiming(c) then TimingDark(c) else At(old(modules), c)
    {
      for i := 0 to size
        invariant Sized()
        invariant forall c :: InGrid(size, c) ==>
                    var drawn := (c.x == 6 && c.y < i) || (c.x < i && c.y == 6);
                    && At(isFunction, c) == (drawn || At(old(isFunction), c))
                    && At(modules, c) == if drawn then TimingDark(c) else At(old(modules), c)
      {
        SetFunctionModule(6, i, i % 2 == 0);
        SetFunctionModule(i, 6, i % 2 == 0);
      }
    }

    /** The pattern and its separator, as far as they are inside the symbol. */
    method DrawFinderPattern(x: int, y: int)
      requires Sized()
      modifies this`modules, this`isFunction
      ensures Sized()
      ensures forall c :: InGrid(size, c) ==>
                && At(isFunction, c) == (Near(c, x, y, 4) || At(old(isFunction), c))
                && At(modules, c) == if Near(c, x, y, 4) then FinderDark(c, x, y) else At(old(modules), c)
    {
      for dy := -4 to 5
        invariant Sized()
        invariant forall c :: InGrid(size, c) ==>
                    var drawn := Near(c, x, y, 4) && c.y < y + dy;
                    && At(isFunction, c) == (drawn || At(old(isFunction), c))
                    && At(modules, c) == if drawn then FinderDark(c, x, y) else At(old(modules), c)
      {
        for dx := -4 to 5
          invariant Sized()
          invariant forall c :: InGrid(size, c) ==>
                      var drawn := Near(c, x, y, 4) && (c.y < y + dy || (c.y == y + dy && c.x < x + dx));
                      && At(isFunction, c) == (drawn || At(old(isFunction), c))
                      && At(modules, c) == if drawn then FinderDark(c, x, y) else At(old(modules), c)
        {
          var c := Cell(x + dx, y + dy);
          if 0 <= c.x < size && 0 <= c.y < size {
            SetFunctionModule(c.x, c.y, FinderDark(c, x, y));
          }
        }
      }
    }

    method DrawAlignmentPattern(x: int, y: int)
      requires Sized() && 2 <= x < size - 2 && 2 <= y < size - 2
      modifies this`modules, this`isFunction
      ensures Sized()
      ensures forall c :: InGrid(size, c) ==>
                && At(isFunction, c) == (Near(c, x, y, 2) || At(old(isFunction), c))
                && At(modules, c) == if Near(c, x, y, 2) then Distance(c, x, y) != 1 else At(old(modules), c)
    {
      for dy := -2 to 3
        invariant Sized()
        invariant forall c :: InGrid(size, c) ==>
                    var drawn := Near(c, x, y, 2) && c.y < y + dy;
                    && At(isFunction, c) == (drawn || At(old(isFunction), c))
                    && At(modules, c) == if drawn then Distance(c, x, y) != 1 else At(old(modules), c)
      {
        for dx := -2 to 3
          invariant Sized()
          invariant forall c :: InGrid(size, c) ==>
                      var drawn := Near(c, x, y, 2) && (c.y < y + dy || (c.y == y + dy && c.x < x + dx));
                      && At(isFunction, c) == (drawn || At(old(isFunction), c))
                      && At(modules, c) == if drawn then Distance(c, x, y) != 1 else At(old(modules), c)
        {
          var c := Cell(x + dx, y + dy);
          SetFunctionModule(c.x, c.y, Distance(c, x, y) != 1);
        }
      }
    }

    /** The pattern at positions i and j, unless a finder pattern stands there. */
    method DrawAlignmentAt(positions: seq<int>, i: nat, j: nat)
      requires Sized() && version > 1 && i < |positions| && j < |positions| == NumAlign(version)
      requires forall k :: 0 <= k < |positions| ==> positions[k] == AlignPosition(version, k)
      modifies this`modules, this`isFunction
      ensures Sized()
      ensures forall c :: InGrid(size, c) ==>
                var drawn := InAlignmentAt(version, c, i, j);
                && At(isFunction, c) == (drawn || At(old(isFunction), c))
                && At(modules, c) == if drawn then AlignmentDarkAt(version, c, i, j) else At(old(modules), c)
    {
      hide AlignPosition, NumAlign, Near, Distance;
      var numAlign := |positions|;
      if !((i == 0 && j == 0) || (i == 0 && j == numAlign - 1) || (i == numAlign - 1 && j == 0)) {
        PositionInside(version, i);
        PositionInside(version, j);
        DrawAlignmentPattern(positions[i], positions[j]);
      }
    }

    method DrawAlignmentPatterns()
      requires Sized()
      modifies this`modules, this`isFunction
      ensures Sized()
      ensures forall c :: InGrid(size, c) ==>
                && At(isFunction, c) == (InAlignment(version, c) || At(old(isFunction), c))
                && At(modules, c) == if InAlignment(version, c) then AlignmentDark(version, c) else At(old(modules), c)
    {
      hide AlignPosition, AlignedBefore, InAlignment, InAlignmentAt, AlignmentDark, AlignmentDarkAt;
      var positions := GetAlignmentPatternPositions(version);
      ghost var f, g := isFunction, modules;
      forall c ensures !AlignedBefore(version, c, 0, 0) {
        NoneAligned(version, c);
      }
      for i := 0 to |positions|
        invariant AlignedSoFar(f, g, i, 0)
      {
        for j := 0 to |positions|
          invariant AlignedSoFar(f, g, i, j)
        {
          ghost var f1, g1 := isFunction, modules;
          DrawAlignmentAt(positions, i, j);
          forall c | InGrid(size, c)
            ensures At(isFunction, c) == (AlignedBefore(version, c, i, j + 1) || At(f, c))
            ensures At(modules, c)
                 == if AlignedBefore(version, c, i, j + 1) then AlignmentDark(version, c) else At(g, c)
          {
            AlignedBeforeNext(version, c, i, j);
            if InAlignmentAt(version, c, i, j) {
              AlignmentDarkIs(version, c, i, j);
            }
          }
        }
        forall c ensures AlignedBefore(version, c, i, |positions|) <==> AlignedBefore(version, c, i + 1, 0) {
          AlignedBeforeRow(version, c, i);
        }
      }
      forall c ensures AlignedBefore(version, c, |positions|, 0) <==> InAlignment(version, c) {
        AlignedBeforeRow(version, c, 0);
      }
    }

    ghost predicate AlignedSoFar(f: Grid, g: Grid, i: int, j: int)
      reads this
    {
      && Sized() && Square(f, size) && Square(g, size)
      && forall c :: InGrid(size, c) ==>
           && At(isFunction, c) == (AlignedBefore(version, c, i, j) || At(f, c))
           && At(modules, c) == if AlignedBefore(version, c, i, j) then AlignmentDark(version, c) else At(g, c)
    }

    method DrawFormatBits(msk: nat)
      requires Sized()
      modifies this`modules, this`isFunction
      ensures Sized() && isFunction == WithFormatMarks(old(isFunction))
      ensures FormatReserved(old(isFunction)) ==> isFunction == old(isFunction)
      ensures modules == WithFormat(old(modules), errorCorrectionLevel, msk)
    {
      var bits := FormatBits(errorCorrectionLevel, msk);
      ghost var cells, values := FormatCells(size), FormatModules(errorCorrectionLevel, msk);
      ghost var marks: Bits := seq(31, _ => true);
      hide FormatBits, FormatCell, FormatModule, WriteCells;
      NothingWritten(modules, cells, values);
      NothingWritten(isFunction, cells, marks);
      for k := 0 to 31
        invariant Sized()
        invariant isFunction == WriteCells(old(isFunction), cells[..k], marks[..k])
        invariant modules == WriteCells(old(modules), cells[..k], values[..k])
      {
        var c := FormatCell(size, k);
        assert cells[k] == c && c in cells;
        OneMoreWritten(old(modules), cells, values, k);
        OneMoreWritten(old(isFunction), cells, marks, k);
        SetFunctionModule(c.x, c.y, FormatModule(bits, k));
      }
      assert cells[..31] == cells && values[..31] == values && marks[..31] == marks;
      if FormatReserved(old(isFunction)) {
        NoNewMarks(old(isFunction));
      }
    }

    method DrawVersion()
      requires Sized()
      modifies this`modules, this`isFunction
      ensures Sized()
      ensures forall c :: InGrid(size, c) ==>
                && At(isFunction, c) == (InVersion(version, c) || At(old(isFunction), c))
                && At(modules, c) == if InVersion(version, c) then VersionDark(version, c) else At(old(modules), c)
    {
      if version < 7 {
        return;
      }
      hide VersionBits, Bit, VersionIndex;
      var bits := VersionBits(version);
      for i := 0 to 18
        invariant Sized()
        invariant forall c :: InGrid(size, c) ==>
                    var drawn := InVersion(version, c) && VersionIndex(size, c) < i;
                    && At(isFunction, c) == (drawn || At(old(isFunction), c))
                    && At(modules, c) == if drawn then VersionDark(version, c) else At(old(modules), c)
      {
        var bit := Bit(bits, i);
        var a := size - 11 + i % 3;
        var b := i / 3;
        forall c | InGrid(size, c)
          ensures InVersion(version, c) && VersionIndex(size, c) == i <==> c == Cell(a, b) || c == Cell(b, a)
        {
          VersionCell(version, i, c);
        }
        VersionCell(version, i, Cell(0, 0));
        SetFunctionModule(a, b, bit);
        SetFunctionModule(b, a, bit);
      }
      forall c | InGrid(size, c) && InVersion(version, c) ensures VersionIndex(size, c) < 18 {
        VersionIndexRange(version, c);
      }
    }

    /** Draws all function modules into an empty symbol. */
    method DrawFunctionPatterns()
      requires Sized() && modules == isFunction == Blank(size)
      modifies this`modules, this`isFunction
      ensures Valid() && isFunction == Reserved(version)
      ensures modules == FunctionPatterns(version, errorCorrectionLevel)
    {
      hide IsTiming, TimingDark, Near, FinderDark, InAlignment, AlignmentDark, InVersion, VersionDark;
      hide FormatCells, FormatDark, WithFormat, WithFormatMarks, IsReserved, Reserved, FunctionPatterns;
      DrawTimingPatterns();
      DrawFinderPattern(3, 3);
      DrawFinderPattern(size - 4, 3);
      DrawFinderPattern(3, size - 4);
      DrawAlignmentPatterns();
      ghost var g := modules;
      DrawFormatBits(0);
      forall c | InGrid(size, c)
        ensures At(modules, c)
             == if c in FormatCells(size) then FormatDark(size, errorCorrectionLevel, c) else At(g, c)
      {
        WithFormatAt(g, errorCorrectionLevel, c);
      }
      DrawVersion();
      forall c | InGrid(size, c)
        ensures At(isFunction, c) == At(Reserved(version), c)
        ensures At(modules, c) == At(FunctionPatterns(version, errorCorrectionLevel), c)
      {
        ReservedIs(version, c);
      }
      SameGrid(isFunction, Reserved(version));
      SameGrid(modules, FunctionPatterns(version, errorCorrectionLevel));
      ReservedFormat(version);
    }

    /** Inverts the modules the mask selects, except function modules. */
    method ApplyMask(msk: int) returns (ok: bool)
      requires Valid()
      modifies this`modules
      ensures ok <==> 0 <= msk <= 7
      ensures Valid() && modules == if ok then Masked(old(modules), isFunction, msk) else old(modules)
    {
      if msk < 0 || msk > 7 {
        return false;
      }
      hide Inverts;
      ghost var before, masked := modules, Masked(modules, isFunction, msk);
      for y := 0 to size
        invariant Valid() && isFunction == old(isFunction)
        invariant forall r :: 0 <= r < size ==> modules[r] == if r < y then masked[r] else before[r]
      {
        for x := 0 to size
          invariant Valid() && isFunction == old(isFunction)
          invariant forall r :: 0 <= r < size && r != y ==> modules[r] == if r < y then masked[r] else before[r]
          invariant forall c :: 0 <= c < size ==> modules[y][c] == if c < x then masked[y][c] else before[y][c]
        {
          var invert := Inverts(msk, x, y);
          assert At(masked, Cell(x, y)) == (before[y][x] != (invert && !isFunction[y][x]));
          modules := modules[y := modules[y][x := modules[y][x] != (invert && !isFunction[y][x])]];
        }
        assert modules[y] == masked[y];
      }
      return true;
    }

    /** One module of the scan: a free module takes the next bit, if there is one. */
    method DrawModule(c: Cell, data: seq<Byte>, i: nat, ghost g: Grid, ghost path: seq<Cell>) returns (next: nat)
      requires Valid() && InGrid(size, c) && PathIn(path, size)
      requires Progress(g, isFunction, Unpack(data), path, modules, i)
      modifies this`modules
      ensures Valid() && Progress(g, isFunction, Unpack(data), path + [c], modules, next)
    {
      next := i;
      assert (path + [c])[..|path|] == path;
      if !isFunction[c.y][c.x] && i < |data| * 8 {
        UnpackBit(data, i);
        modules := modules[c.y := modules[c.y][c.x := Bit(data[i / 8], 7 - i % 8)]];
        next := i + 1;
      }
    }

    /** One pair of columns of the scan. */
    method DrawPair(right: nat, data: seq<Byte>, start: nat, ghost g: Grid, ghost done: seq<Cell>) returns (i: nat)
      requires Valid() && 1 <= right < size && PathIn(done, size)
      requires Progress(g, isFunction, Unpack(data), done, modules, start)
      modifies this`modules
      ensures Valid() && PathIn(done + PairPath(size, right, size), size)
      ensures Progress(g, isFunction, Unpack(data), done + PairPath(size, right, size), modules, i)
    {
      hide Unpack, Progress;
      i := start;
      ghost var path := done;
      assert done + PairPath(size, right, 0) == done;
      for vert := 0 to size
        invariant Valid() && isFunction == old(isFunction)
        invariant path == done + PairPath(size, right, vert) && PathIn(path, size)
        invariant Progress(g, isFunction, Unpack(data), path, modules, i)
      {
        ghost var before := path;
        for j := 0 to 2
          invariant Valid() && isFunction == old(isFunction)
          invariant path == before + [CellAt(size, right, vert, 0), CellAt(size, right, vert, 1)][..j]
          invariant PathIn(path, size)
          invariant Progress(g, isFunction, Unpack(data), path, modules, i)
        {
          var x := right - j;
          var upward := Upward(right);
          var y := if upward then size - 1 - vert else vert;
          i := DrawModule(Cell(x, y), data, i, g, path);
          path := path + [Cell(x, y)];
        }
      }
    }

    /** The whole scan, pair by pair from the right edge. */
    method DrawScan(data: seq<Byte>) returns (i: nat)
      requires Valid()
      modifies this`modules
      ensures Valid() && Progress(old(modules), isFunction, Unpack(data), Scan(size), modules, i)
    {
      hide Unpack, Free, Drawn, PairPath, Progress, Right, RightAtHead, FormatReserved;
      ghost var g, p, path := modules, 0, [];
      NothingDrawn(g, isFunction, Unpack(data));
      RightAdvances(size, 0);
      i := 0;
      var right := size - 1;
      while right >= 1
        invariant Valid() && isFunction == old(isFunction)
        invariant 0 <= p <= NumPairs(size) && right == RightAtHead(size, p)
        invariant path == ScanPath(size, p) && PathIn(path, size)
        invariant Progress(g, isFunction, Unpack(data), path, modules, i)
        decreases right
      {
        RightAdvances(size, p);
        if right == 6 {
          right := 5;
        }
        i := DrawPair(right, data, i, g, path);
        path := path + PairPath(size, right, size);
        right := right - 2;
        p := p + 1;
      }
      RightAdvances(size, p);
    }

    /** Draws the codewords in zigzag order; tells whether there was room for all of them. */
    method DrawCodewords(data: seq<Byte>) returns (ok: bool, complete: bool)
      requires Valid()
      modifies this`modules
      ensures ok <==> |data| == NumRawCodewords(version)
      ensures Valid()
      ensures modules == if ok then Drawn(old(modules), isFunction, Unpack(data), Scan(size)) else old(modules)
      ensures ok ==> (complete <==> 8 * |data| <= Free(isFunction, Scan(size)))
    {
      hide Unpack, Free, Drawn, Scan, Progress, FormatReserved, NumRawCodewords;
      if |data| != NumRawCodewords(version) {
        return false, false;
      }
      var i := DrawScan(data);
      AllDrawn(old(modules), isFunction, Unpack(data), modules, i);
      return true, i == |data| * 8;
    }

    /** One trial of the mask loop: the score of the symbol finished with mask m. */
    method TryMask(m: nat, ghost g: Grid) returns (penalty: int)
      requires Valid() && m <= 7 && Square(g, size) && AgreeOffFormat(g, modules)
      modifies this`modules, this`isFunction
      ensures Valid() && isFunction == old(isFunction) && AgreeOffFormat(g, modules)
      ensures penalty == Score(g, isFunction, errorCorrectionLevel, m) && penalty < LONG_MAX
    {
      hide Masked, WriteCells, Penalty, FormatCells, FormatModules, AgreeOffFormat;
      ghost var h := modules;
      var ok := ApplyMask(m);
      DrawFormatBits(m);
      FinishedForgetsFormat(g, h, isFunction, errorCorrectionLevel, m);
      penalty := GetPenaltyScore(modules);
      PenaltyAssertionHolds(modules);
      ok := ApplyMask(m);
      TrialUndone(h, isFunction, errorCorrectionLevel, m);
      AgreeTransitive(g, h, modules);
    }

    /** The mask loop of the constructor. */
    method ChooseMask() returns (chosen: int)
      requires Valid()
      modifies this`modules, this`isFunction
      ensures Valid() && isFunction == old(isFunction) && AgreeOffFormat(old(modules), modules)
      ensures chosen == BestMask(old(modules), isFunction, errorCorrectionLevel, 8) && 0 <= chosen <= 7
    {
      hide Masked, WriteCells, Score, FormatCells, FormatModules, AgreeOffFormat, FormatReserved;
      ghost var g := modules;
      AgreeReflexive(g);
      chosen := -1;
      var minPenalty := LONG_MAX;
      for i := 0 to 8
        invariant Valid() && isFunction == old(isFunction) && AgreeOffFormat(g, modules)
        invariant i == 0 ==> minPenalty == LONG_MAX
        invariant i > 0 ==> 0 <= chosen < i && chosen == BestMask(g, isFunction, errorCorrectionLevel, i)
        invariant i > 0 ==> minPenalty == Score(g, isFunction, errorCorrectionLevel, chosen)
      {
        var penalty := TryMask(i, g);
        if penalty < minPenalty {
          chosen := i;
          minPenalty := penalty;
        }
      }
    }

    /** Applies the chosen mask and overwrites the format information. */
    method ApplyFinalMask(m: int, ghost g: Grid)
      requires Valid() && 0 <= m <= 7 && Square(g, size) && AgreeOffFormat(g, modules)
      modifies this
      ensures Valid() && isFunction == old(isFunction) && mask == m
      ensures modules == Finished(g, isFunction, errorCorrectionLevel, m)
    {
      hide Masked, WriteCells, FormatCells, FormatModules, AgreeOffFormat;
      mask := m;
      ghost var h := modules;
      var applied := ApplyMask(m);
      DrawFormatBits(m);
      FinishedForgetsFormat(g, h, isFunction, errorCorrectionLevel, m);
    }

    /**
     The end of the constructor: a mask of -1 asks for the best one.  The finished symbol is the one
     that asking for the chosen mask gives: trying the masks leaves no trace.
     */
    method FinishWithMask(msk: int) returns (ok: bool)
      requires Valid()
      modifies this
      ensures ok <==> -1 <= msk <= 7
      ensures Valid() && isFunction == old(isFunction)
      ensures ok ==> mask == if msk == -1 then BestMask(old(modules), isFunction, errorCorrectionLevel, 8) else msk
      ensures ok ==> 0 <= mask <= 7 && modules == Finished(old(modules), isFunction, errorCorrectionLevel, mask)
    {
      if msk < -1 || msk > 7 {
        return false;
      }
      hide Masked, WriteCells, Score, FormatCells, FormatModules, AgreeOffFormat, FormatReserved, Finished;
      ghost var g := modules;
      AgreeReflexive(g);
      var chosen := msk;
      if msk == -1 {
        chosen := ChooseMask();
      }
      ApplyFinalMask(chosen, g);
      return true;
    }
  }

  lemma AgreeReflexive(g: Grid)
    requires IsSize(|g|) && Square(g, |g|)
    ensures AgreeOffFormat(g, g)
  {
  }

  lemma AgreeTransitive(g: Grid, h: Grid, k: Grid)
    requires AgreeOffFormat(g, h) && AgreeOffFormat(h, k)
    ensures AgreeOffFormat(g, k)
  {
  }

  lemma AllDrawn(g: Grid, fn: Grid, bits: Bits, modules: Grid, i: nat)
    requires IsSize(|g|) && Progress(g, fn, bits, Scan(|g|), modules, i)
    ensures modules == Drawn(g, fn, bits, Scan(|g|))
    ensures i == |bits| <==> |bits| <= Free(fn, Scan(|g|))
  {
  }

  /** The bits have been written along the path, and i of them are used up. */
  ghost predicate Progress(g: Grid, fn: Grid, bits: Bits, path: seq<Cell>, modules: Grid, i: nat) {
    && Square(g, |g|) && Square(fn, |g|) && PathIn(path, |g|)
    && modules == Drawn(g, fn, bits, path)
    && i == Min(Free(fn, path), |bits|)
  }

  lemma NothingDrawn(g: Grid, fn: Grid, bits: Bits)
    requires Square(g, |g|) && Square(fn, |g|)
    ensures Progress(g, fn, bits, [], g, 0)
  {
  }
}
