/**
 The grid of modules: writing bits along a path of cells, reading them back, and masking.
 These are the specifications of drawCodewords and applyMask of deps/qrcodegen.cpp.
 */
module QrGrid {
  import opened BitStrings
  import opened ZigZag

  /** Rows of modules, true for dark. */
  type Grid = seq<seq<bool>>

  predicate Square(g: Grid, n: int) {
    |g| == n && forall y :: 0 <= y < n ==> |g[y]| == n
  }

  function At(g: Grid, c: Cell): bool
    requires Square(g, |g|) && InGrid(|g|, c)
  {
    g[c.y][c.x]
  }

  function Put(g: Grid, c: Cell, dark: bool): (h: Grid)
    requires Square(g, |g|) && InGrid(|g|, c)
    ensures Square(h, |g|)
    ensures forall d :: InGrid(|g|, d) ==> At(h, d) == if d == c then dark else At(g, d)
  {
    g[c.y := g[c.y][c.x := dark]]
  }

  /** All light. */
  function Blank(n: nat): (g: Grid)
    ensures Square(g, n)
    ensures forall c :: InGrid(n, c) ==> !At(g, c)
  {
    seq(n, _ => seq(n, _ => false))
  }

  lemma SameGrid(g: Grid, h: Grid)
    requires Square(g, |g|) && Square(h, |g|)
    requires forall c :: InGrid(|g|, c) ==> At(g, c) == At(h, c)
    ensures g == h
  {
    forall y | 0 <= y < |g| ensures g[y] == h[y] {
      forall x | 0 <= x < |g| ensures g[y][x] == h[y][x] {
        assert At(g, Cell(x, y)) == At(h, Cell(x, y));
      }
    }
  }

  // ---- bits along a path ----

  /** How many cells of the path are not function modules. */
  function Free(fn: Grid, path: seq<Cell>): (k: nat)
    requires Square(fn, |fn|) && PathIn(path, |fn|)
    ensures k <= |path|
  {
    if path == [] then 0
    else Free(fn, path[..|path| - 1]) + (if At(fn, path[|path| - 1]) then 0 else 1)
  }

  /** The grid g after the bits have been written to the free cells of the path, as long as they last. */
  function Drawn(g: Grid, fn: Grid, bits: Bits, path: seq<Cell>): (h: Grid)
    requires Square(g, |g|) && Square(fn, |g|) && PathIn(path, |g|)
    ensures Square(h, |g|)
  {
    if path == [] then g else
      var before, c := path[..|path| - 1], path[|path| - 1];
      var h, k := Drawn(g, fn, bits, before), Free(fn, before);
      if !At(fn, c) && k < |bits| then Put(h, c, bits[k]) else h
  }

  /** The bits that stand in the free cells of the path. */
  function ReadAlong(g: Grid, fn: Grid, path: seq<Cell>): (bits: Bits)
    requires Square(g, |g|) && Square(fn, |g|) && PathIn(path, |g|)
    ensures |bits| == Free(fn, path)
  {
    if path == [] then [] else
      var before, c := path[..|path| - 1], path[|path| - 1];
      ReadAlong(g, fn, before) + (if At(fn, c) then [] else [At(g, c)])
  }

  /** Drawing leaves function modules and cells off the path alone. */
  lemma {:induction false} DrawnElsewhere(g: Grid, fn: Grid, bits: Bits, path: seq<Cell>, c: Cell)
    requires Square(g, |g|) && Square(fn, |g|) && PathIn(path, |g|) && InGrid(|g|, c)
    requires At(fn, c) || c !in path
    ensures At(Drawn(g, fn, bits, path), c) == At(g, c)
  {
    if path != [] {
      var before := path[..|path| - 1];
      assert path == before + [path[|path| - 1]];
      DrawnElsewhere(g, fn, bits, before, c);
    }
  }

  lemma {:induction false} ReadAgrees(g: Grid, h: Grid, fn: Grid, path: seq<Cell>)
    requires Square(g, |g|) && Square(h, |g|) && Square(fn, |g|) && PathIn(path, |g|)
    requires forall k :: 0 <= k < |path| && !At(fn, path[k]) ==> At(g, path[k]) == At(h, path[k])
    ensures ReadAlong(g, fn, path) == ReadAlong(h, fn, path)
  {
    if path != [] {
      ReadAgrees(g, h, fn, path[..|path| - 1]);
    }
  }

  function Min(a: int, b: int): int {
    if a < b then a else b
  }

  lemma LastIsNew(path: seq<Cell>)
    requires path != [] && NoRepeats(path)
    ensures path[|path| - 1] !in path[..|path| - 1] && NoRepeats(path[..|path| - 1])
  {
  }

  /** One more cell does not change what is read before it. */
  lemma ReadBefore(g: Grid, fn: Grid, bits: Bits, path: seq<Cell>)
    requires Square(g, |g|) && Square(fn, |g|) && PathIn(path, |g|) && path != [] && NoRepeats(path)
    ensures var before := path[..|path| - 1];
            ReadAlong(Drawn(g, fn, bits, path), fn, before) == ReadAlong(Drawn(g, fn, bits, before), fn, before)
  {
    var before := path[..|path| - 1];
    LastIsNew(path);
    ReadAgrees(Drawn(g, fn, bits, before), Drawn(g, fn, bits, path), fn, before);
  }

  /** The cell visited last holds its bit, or what stood there when the bits are used up. */
  lemma ReadLast(g: Grid, fn: Grid, bits: Bits, path: seq<Cell>)
    requires Square(g, |g|) && Square(fn, |g|) && PathIn(path, |g|) && path != [] && NoRepeats(path)
    ensures var before, c := path[..|path| - 1], path[|path| - 1];
            var k := Free(fn, before);
            !At(fn, c) ==> At(Drawn(g, fn, bits, path), c) == if k < |bits| then bits[k] else At(g, c)
  {
    LastIsNew(path);
    DrawnElsewhere(g, fn, bits, path[..|path| - 1], path[|path| - 1]);
  }

  lemma ExtendRead(bits: Bits, r: Bits, v: bool)
    ensures var m, m' := Min(|r|, |bits|), Min(|r| + 1, |bits|);
            bits[..m'] + (r + [v])[m'..] == bits[..m] + r[m..] + [if |r| < |bits| then bits[|r|] else v]
  {
  }

  /** Reading along the path returns the bits written, then what stood in the cells left over. */
  lemma {:induction false} ReadBack(g: Grid, fn: Grid, bits: Bits, path: seq<Cell>)
    requires Square(g, |g|) && Square(fn, |g|) && PathIn(path, |g|) && NoRepeats(path)
    ensures var m := Min(Free(fn, path), |bits|);
            ReadAlong(Drawn(g, fn, bits, path), fn, path) == bits[..m] + ReadAlong(g, fn, path)[m..]
  {
    if path != [] {
      var before := path[..|path| - 1];
      LastIsNew(path);
      ReadBack(g, fn, bits, before);
      ReadBefore(g, fn, bits, path);
      ReadLast(g, fn, bits, path);
      ExtendRead(bits, ReadAlong(g, fn, before), At(g, path[|path| - 1]));
      hide Drawn, NoRepeats, Min;
    }
  }

  // ---- masks ----

  /** Whether mask m inverts the module in column x of row y. */
  predicate Inverts(m: int, x: nat, y: nat) {
    match m
    case 0 => (x + y) % 2 == 0
    case 1 => y % 2 == 0
    case 2 => x % 3 == 0
    case 3 => (x + y) % 3 == 0
    case 4 => (x / 3 + y / 2) % 2 == 0
    case 5 => x * y % 2 + x * y % 3 == 0
    case 6 => (x * y % 2 + x * y % 3) % 2 == 0
    case _ => ((x + y) % 2 + x * y % 3) % 2 == 0
  }

  function Masked(g: Grid, fn: Grid, m: int): (h: Grid)
    requires Square(g, |g|) && Square(fn, |g|)
    ensures Square(h, |g|)
    ensures forall c :: InGrid(|g|, c) ==> At(h, c) == (At(g, c) != (Inverts(m, c.x, c.y) && !At(fn, c)))
  {
    seq(|g|, y requires 0 <= y < |g| => seq(|g|, x requires 0 <= x < |g| =>
      g[y][x] != (Inverts(m, x, y) && !fn[y][x])))
  }

  lemma MaskTwice(g: Grid, fn: Grid, m: int)
    requires Square(g, |g|) && Square(fn, |g|)
    ensures Masked(Masked(g, fn, m), fn, m) == g
  {
    hide Inverts;
    SameGrid(Masked(Masked(g, fn, m), fn, m), g);
  }

  /** Masking again gives back the drawn modules, whatever function modules hold by then. */
  lemma MaskComesOff(drawn: Grid, fn: Grid, m: int, symbol: Grid, c: Cell)
    requires Square(drawn, |drawn|) && Square(fn, |drawn|) && Square(symbol, |drawn|)
    requires InGrid(|drawn|, c) && !At(fn, c) && At(symbol, c) == At(Masked(drawn, fn, m), c)
    ensures At(Masked(symbol, fn, m), c) == At(drawn, c)
  {
  }

  /**
   What a reader gets from a symbol: it takes the mask off again and reads along the scan.  Neither
   the mask nor anything written into function modules afterwards keeps it from the bits drawn.
   */
  lemma ReaderGetsBits(g: Grid, fn: Grid, bits: Bits, m: int, symbol: Grid)
    requires IsSize(|g|) && Square(g, |g|) && Square(fn, |g|) && Square(symbol, |g|)
    requires |bits| <= Free(fn, Scan(|g|))
    requires forall c :: InGrid(|g|, c) && !At(fn, c) ==>
               At(symbol, c) == At(Masked(Drawn(g, fn, bits, Scan(|g|)), fn, m), c)
    ensures ReadAlong(Masked(symbol, fn, m), fn, Scan(|g|))[..|bits|] == bits
  {
    var path := Scan(|g|);
    var drawn := Drawn(g, fn, bits, path);
    ScanVisitsEachCellOnce(|g|);
    ReadBack(g, fn, bits, path);
    hide Inverts, Drawn, Scan, NoRepeats, Free;
    forall k | 0 <= k < |path| && !At(fn, path[k])
      ensures At(Masked(symbol, fn, m), path[k]) == At(drawn, path[k])
    {
      MaskComesOff(drawn, fn, m, symbol, path[k]);
    }
    ReadAgrees(Masked(symbol, fn, m), drawn, fn, path);
  }
}
