/**
 The format information of a symbol (drawFormatBits of deps/qrcodegen.cpp) and why trying out masks
 leaves no trace: format information is only ever written over format information.
 */
module QrFormat {
  import opened Bytes
  import opened BitStrings
  import opened ZigZag
  import opened QrGrid
  import opened QrTables

  function FormatLevel(ecl: Ecc): nat {
    match ecl
    case Low => 1
    case Medium => 0
    case Quartile => 3
    case High => 2
  }

  function FormatRemainder(rem: nat, rounds: nat): nat {
    if rounds == 0 then rem else
      var r := FormatRemainder(rem, rounds - 1);
      Xor(2 * r, (r / 512) * 0x537)
  }

  /** The 15 format bits of an error correction level and a mask. */
  function FormatBits(ecl: Ecc, mask: nat): nat {
    var data := FormatLevel(ecl) * 8 + mask;
    Xor(data * 1024 + FormatRemainder(data, 10), 0x5412)
  }

  /** The modules that carry format information, in the order they are drawn. */
  function FormatCell(n: int, k: int): Cell {
    if k <= 5 then Cell(8, k)
    else if k == 6 then Cell(8, 7)
    else if k == 7 then Cell(8, 8)
    else if k == 8 then Cell(7, 8)
    else if k < 15 then Cell(14 - k, 8)
    else if k < 23 then Cell(n - 1 - (k - 15), 8)
    else if k < 30 then Cell(8, n - 15 + (k - 15))
    else Cell(8, n - 8)
  }

  function FormatModule(bits: nat, k: nat): bool {
    if k < 30 then Bit(bits, k % 15) else true
  }

  function FormatCells(n: int): (cells: seq<Cell>)
    requires IsSize(n)
    ensures |cells| == 31 && PathIn(cells, n)
  {
    seq(31, k requires 0 <= k < 31 => FormatCell(n, k))
  }

  function FormatModules(ecl: Ecc, mask: nat): (values: Bits)
    ensures |values| == 31
  {
    seq(31, k requires 0 <= k < 31 => FormatModule(FormatBits(ecl, mask), k))
  }

  // ---- writing a list of cells ----

  function WriteCells(g: Grid, cells: seq<Cell>, values: Bits): (h: Grid)
    requires Square(g, |g|) && PathIn(cells, |g|) && |values| == |cells|
    ensures Square(h, |g|)
  {
    if cells == [] then g else
      var k := |cells| - 1;
      Put(WriteCells(g, cells[..k], values[..k]), cells[k], values[k])
  }

  lemma NothingWritten(g: Grid, cells: seq<Cell>, values: Bits)
    requires Square(g, |g|) && PathIn(cells, |g|) && |values| == |cells|
    ensures WriteCells(g, cells[..0], values[..0]) == g
  {
  }

  lemma OneMoreWritten(g: Grid, cells: seq<Cell>, values: Bits, k: nat)
    requires Square(g, |g|) && PathIn(cells, |g|) && |values| == |cells| && k < |cells|
    ensures WriteCells(g, cells[..k + 1], values[..k + 1])
         == Put(WriteCells(g, cells[..k], values[..k]), cells[k], values[k])
  {
    assert cells[..k + 1][..k] == cells[..k] && values[..k + 1][..k] == values[..k];
  }

  /** Cells of the list forget what they held; the others keep it. */
  lemma {:induction false} WriteCellsAt(g: Grid, h: Grid, cells: seq<Cell>, values: Bits, c: Cell)
    requires Square(g, |g|) && Square(h, |g|) && PathIn(cells, |g|) && |values| == |cells| && InGrid(|g|, c)
    ensures c !in cells ==> At(WriteCells(g, cells, values), c) == At(g, c)
    ensures c in cells ==> At(WriteCells(g, cells, values), c) == At(WriteCells(h, cells, values), c)
  {
    if cells != [] {
      var k := |cells| - 1;
      assert cells == cells[..k] + [cells[k]];
      WriteCellsAt(g, h, cells[..k], values[..k], c);
    }
  }

  function WithFormat(g: Grid, ecl: Ecc, mask: nat): (h: Grid)
    requires IsSize(|g|) && Square(g, |g|)
    ensures Square(h, |g|)
  {
    WriteCells(g, FormatCells(|g|), FormatModules(ecl, mask))
  }

  /** The function modules include those of the format information. */
  ghost predicate FormatReserved(fn: Grid) {
    && IsSize(|fn|) && Square(fn, |fn|)
    && forall c :: c in FormatCells(|fn|) ==> At(fn, c)
  }

  /** The finished symbol: the drawn modules masked, with the format information of that mask. */
  function Finished(g: Grid, fn: Grid, ecl: Ecc, mask: nat): (h: Grid)
    requires IsSize(|g|) && Square(g, |g|) && Square(fn, |g|)
    ensures Square(h, |g|)
  {
    WithFormat(Masked(g, fn, mask), ecl, mask)
  }

  // ---- trials leave no trace ----

  ghost predicate AgreeOffFormat(g: Grid, h: Grid) {
    && IsSize(|g|) && Square(g, |g|) && Square(h, |g|)
    && forall c :: InGrid(|g|, c) && c !in FormatCells(|g|) ==> At(g, c) == At(h, c)
  }

  lemma FinishedForgetsFormat(g: Grid, h: Grid, fn: Grid, ecl: Ecc, mask: nat)
    requires AgreeOffFormat(g, h) && Square(fn, |g|)
    ensures Finished(h, fn, ecl, mask) == Finished(g, fn, ecl, mask)
  {
    var u, v := Masked(g, fn, mask), Masked(h, fn, mask);
    hide Inverts, FormatCells, FormatModules, WriteCells;
    forall c | InGrid(|g|, c)
      ensures At(Finished(h, fn, ecl, mask), c) == At(Finished(g, fn, ecl, mask), c)
    {
      WriteCellsAt(u, v, FormatCells(|g|), FormatModules(ecl, mask), c);
      WriteCellsAt(v, u, FormatCells(|g|), FormatModules(ecl, mask), c);
    }
    SameGrid(Finished(h, fn, ecl, mask), Finished(g, fn, ecl, mask));
  }

  /** After a trial, taking the mask off again restores all but the format information. */
  lemma TrialUndone(g: Grid, fn: Grid, ecl: Ecc, mask: nat)
    requires FormatReserved(fn) && |g| == |fn| && Square(g, |g|)
    ensures AgreeOffFormat(g, Masked(Finished(g, fn, ecl, mask), fn, mask))
  {
    var u := Masked(g, fn, mask);
    hide Inverts, FormatCells, FormatModules, WriteCells;
    forall c | InGrid(|g|, c) && c !in FormatCells(|g|)
      ensures At(Masked(Finished(g, fn, ecl, mask), fn, mask), c) == At(g, c)
    {
      WriteCellsAt(u, u, FormatCells(|g|), FormatModules(ecl, mask), c);
    }
  }

  /** The finished symbol carries the masked bits in every module that is not a function module. */
  lemma FinishedKeepsData(g: Grid, fn: Grid, ecl: Ecc, mask: nat, c: Cell)
    requires FormatReserved(fn) && |g| == |fn| && Square(g, |g|) && InGrid(|g|, c) && !At(fn, c)
    ensures At(Finished(g, fn, ecl, mask), c) == At(Masked(g, fn, mask), c)
  {
    hide Inverts, FormatCells, FormatModules, WriteCells;
    var u := Masked(g, fn, mask);
    WriteCellsAt(u, u, FormatCells(|g|), FormatModules(ecl, mask), c);
  }
}
