/**
 The function modules of a symbol (drawFunctionPatterns and getAlignmentPatternPositions of
 deps/qrcodegen.cpp): which they are, and that the others are as many as getNumRawDataModules says.
 */
module QrPatterns {
  import opened ZigZag
  import opened QrGrid
  import opened QrTables

  function Size(ver: Version): (n: nat)
    ensures IsSize(n)
  {
    ver * 4 + 17
  }

  // ---- alignment patterns ----

  function NumAlign(ver: Version): nat {
    if ver == 1 then 0 else ver / 7 + 2
  }

  function AlignStep(ver: Version): int
    requires ver > 1
  {
    (ver * 8 + NumAlign(ver) * 3 + 5) / (NumAlign(ver) * 4 - 4) * 2
  }

  /** The k-th position, in both directions. */
  function AlignPosition(ver: Version, k: int): int
    requires ver > 1
  {
    if k == 0 then 6 else Size(ver) - 7 - (NumAlign(ver) - 1 - k) * AlignStep(ver)
  }

  lemma StepBounds(ver: Version)
    requires ver >= 7
    ensures var a, s := NumAlign(ver), AlignStep(ver);
            3 <= a <= 7 && 16 <= s && (a - 2) * s <= Size(ver) - 25
  {
    match NumAlign(ver)
    case 3 => assert AlignStep(ver) == (ver * 8 + 14) / 8 * 2;
    case 4 => assert AlignStep(ver) == (ver * 8 + 17) / 12 * 2;
    case 5 => assert AlignStep(ver) == (ver * 8 + 20) / 16 * 2;
    case 6 => assert AlignStep(ver) == (ver * 8 + 23) / 20 * 2;
    case 7 => assert AlignStep(ver) == (ver * 8 + 26) / 24 * 2;
    case _ =>
  }

  lemma PositionBounds(ver: Version, k: nat)
    requires ver > 1 && 0 < k < NumAlign(ver)
    ensures 18 <= AlignPosition(ver, k) <= Size(ver) - 7
    ensures k == NumAlign(ver) - 1 ==> AlignPosition(ver, k) == Size(ver) - 7
    ensures k < NumAlign(ver) - 1 ==> AlignPosition(ver, k) <= Size(ver) - 23
  {
    hide AlignStep;
    var a, s := NumAlign(ver), AlignStep(ver);
    if ver >= 7 {
      StepBounds(ver);
      Multiples(a - 1 - k, a - 2, s);
      if k < a - 1 {
        Multiples(1, a - 1 - k, s);
      }
    }
  }

  /** Positions grow by twelve at least. */
  lemma PositionsSpread(ver: Version, i: nat, j: nat)
    requires ver > 1 && i < j < NumAlign(ver)
    ensures AlignPosition(ver, j) - AlignPosition(ver, i) >= 12
  {
    hide AlignStep;
    var a, s := NumAlign(ver), AlignStep(ver);
    if i == 0 {
      PositionBounds(ver, j);
    } else {
      StepBounds(ver);
      Multiples(a - 1 - j, a - 1 - i, s);
    }
  }

  lemma {:induction false} Multiples(p: nat, q: nat, s: int)
    requires p <= q && s >= 16
    ensures p * s <= q * s && (p < q ==> p * s + 16 <= q * s)
  {
    if p < q {
      Multiples(p, q - 1, s);
      assert q * s == (q - 1) * s + s;
    }
  }

  /** The corners where finder patterns stand have no alignment pattern. */
  predicate Corner(a: nat, i: int, j: int) {
    (i == 0 && j == 0) || (i == 0 && j == a - 1) || (i == a - 1 && j == 0)
  }

  predicate Near(c: Cell, x: int, y: int, d: nat) {
    x - d <= c.x <= x + d && y - d <= c.y <= y + d
  }

  predicate InAlignment(ver: Version, c: Cell) {
    ver > 1 &&
    exists i, j :: 0 <= i < NumAlign(ver) && 0 <= j < NumAlign(ver) && InAlignmentAt(ver, c, i, j)
  }

  predicate InAlignmentAt(ver: Version, c: Cell, i: int, j: int)
    requires ver > 1
  {
    !Corner(NumAlign(ver), i, j) && Near(c, AlignPosition(ver, i), AlignPosition(ver, j), 2)
  }

  method GetAlignmentPatternPositions(ver: Version) returns (result: seq<int>)
    ensures |result| == NumAlign(ver)
    ensures forall k :: 0 <= k < |result| ==> result[k] == AlignPosition(ver, k)
  {
    if ver == 1 {
      return [];
    }
    hide AlignStep;
    var numAlign := ver / 7 + 2;
    var step := AlignStep(ver);
    result := [];
    var pos := Size(ver) - 7;
    for i := 0 to numAlign - 1
      invariant |result| == i
      invariant pos == Size(ver) - 7 - i * step
      invariant forall k :: 0 <= k < i ==> result[k] == AlignPosition(ver, numAlign - i + k)
    {
      assert (i + 1) * step == i * step + step;
      assert AlignPosition(ver, numAlign - 1 - i) == pos;
      result := [pos] + result;
      pos := pos - step;
    }
    result := [6] + result;
  }

  // ---- all function modules ----

  predicate IsTiming(c: Cell) {
    c.x == 6 || c.y == 6
  }

  /** The three corners with finder patterns, their separators and the format information. */
  predicate InCorner(n: int, c: Cell) {
    (c.x <= 8 && c.y <= 8) || (n - 8 <= c.x && c.y <= 8) || (c.x <= 8 && n - 8 <= c.y)
  }

  predicate InVersion(ver: Version, c: Cell) {
    var n := Size(ver);
    ver >= 7 && ((n - 11 <= c.x <= n - 9 && c.y <= 5) || (c.x <= 5 && n - 11 <= c.y <= n - 9))
  }

  predicate IsReserved(ver: Version, c: Cell) {
    IsTiming(c) || InCorner(Size(ver), c) || InVersion(ver, c) || InAlignment(ver, c)
  }

  function Reserved(ver: Version): (g: Grid)
    ensures Square(g, Size(ver))
    ensures forall c :: InGrid(Size(ver), c) ==> At(g, c) == IsReserved(ver, c)
  {
    hide IsReserved;
    seq(Size(ver), y requires 0 <= y < Size(ver) => seq(Size(ver), x requires 0 <= x < Size(ver) =>
      IsReserved(ver, Cell(x, y))))
  }

  // ---- counting cells ----

  function Strip(x: int, y: int, h: nat): (s: set<Cell>)
    ensures forall c :: c in s <==> c.x == x && y <= c.y < y + h
    ensures |s| == h
  {
    if h == 0 then {} else Strip(x, y, h - 1) + {Cell(x, y + h - 1)}
  }

  function Block(x: int, y: int, w: nat, h: nat): (s: set<Cell>)
    ensures forall c :: c in s <==> x <= c.x < x + w && y <= c.y < y + h
    ensures |s| == w * h
  {
    if w == 0 then {} else
      BlockOneWider(x, y, w, h);
      Block(x, y, w - 1, h) + Strip(x + w - 1, y, h)
  }

  lemma BlockOneWider(x: int, y: int, w: nat, h: nat)
    requires w > 0
    ensures w * h == (w - 1) * h + h
  {
  }

  lemma OneMoreReserved(fn: Grid, path: seq<Cell>)
    requires Square(fn, |fn|) && PathIn(path, |fn|) && path != [] && path[|path| - 1] !in path[..|path| - 1]
    ensures var k := |path| - 1;
            |set c | c in path && At(fn, c)|
            == |set c | c in path[..k] && At(fn, c)| + (if At(fn, path[k]) then 1 else 0)
  {
    var k := |path| - 1;
    var before := set c | c in path[..k] && At(fn, c);
    assert path == path[..k] + [path[k]];
    if At(fn, path[k]) {
      assert (set c | c in path && At(fn, c)) == before + {path[k]};
    } else {
      assert (set c | c in path && At(fn, c)) == before;
    }
  }

  /** Every cell of a path is free or reserved. */
  lemma {:induction false} FreeAndReserved(fn: Grid, path: seq<Cell>)
    requires Square(fn, |fn|) && PathIn(path, |fn|) && NoRepeats(path)
    ensures Free(fn, path) + |set c | c in path && At(fn, c)| == |path|
  {
    if path != [] {
      LastIsNew(path);
      var k := |path| - 1;
      FreeAndReserved(fn, path[..k]);
      OneMoreReserved(fn, path);
    }
  }
}
