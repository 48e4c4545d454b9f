/**
 What the format information of a finished symbol tells: both copies that drawFormatBits of
 deps/qrcodegen.cpp draws give the error correction level and the mask back.
 */
module QrFormatReader {
  import opened Bytes
  import opened BitStrings
  import opened ZigZag
  import opened QrGrid
  import opened QrTables
  import opened QrFormat

  datatype Format = Format(ecl: Ecc, mask: nat)

  function LevelOf(code: nat): Ecc {
    match code
    case 0 => Medium
    case 1 => Low
    case 2 => High
    case _ => Quartile
  }

  /** The level and mask of 15 format bits: their five highest, under the fixed pattern. */
  function FormatOf(bits: nat): (f: Format)
    ensures f.mask < 8
  {
    hide Xor;
    var data := Xor(bits, 0x5412) / 1024;
    Format(LevelOf(data / 8), data % 8)
  }

  // ---- the format bits determine level and mask ----

  lemma {:induction false} RemainderFits(data: nat, rounds: nat)
    requires data < 1024
    ensures FormatRemainder(data, rounds) < 1024
  {
    hide Xor;
    if rounds > 0 {
      RemainderFits(data, rounds - 1);
      var r := FormatRemainder(data, rounds - 1);
      OneRound(r);
    }
  }

  lemma OneRound(r: nat)
    requires r < 1024
    ensures Xor(2 * r, (r / 512) * 0x537) < 1024
  {
    hide Xor;
    PowersOfFormat();
    if r < 512 {
      assert r / 512 == 0;
      XorSelf(2 * r);
    } else {
      assert r / 512 == 1;
      hide Pow2;
      XorTopBit(2 * r, 0x537, 10);
    }
  }

  lemma PowersOfFormat()
    ensures Pow2(10) == 1024 && Pow2(11) == 2048 && Pow2(15) == 32768
  {
  }

  /** Different levels or masks have different format bits: the bits give both back. */
  lemma FormatBitsTell(ecl: Ecc, mask: nat)
    requires mask < 8
    ensures FormatBits(ecl, mask) < Pow2(15)
    ensures FormatOf(FormatBits(ecl, mask)) == Format(ecl, mask)
  {
    hide Xor, Pow2, FormatRemainder;
    var data := FormatLevel(ecl) * 8 + mask;
    RemainderFits(data, 10);
    PowersOfFormat();
    var plain := data * 1024 + FormatRemainder(data, 10);
    XorBelow(plain, 0x5412, 15);
    XorAssociates(plain, 0x5412, 0x5412);
    XorSelf(0x5412);
    XorSelf(plain);
    assert plain / 1024 == data;
  }

  // ---- the format modules hold the format bits ----

  /** The number of which bit k is k-th in the sequence. */
  function FromLow(bits: Bits): nat {
    if bits == [] then 0 else (if bits[0] then 1 else 0) + 2 * FromLow(bits[1..])
  }

  lemma {:induction false} FromLowReadBack(v: nat, bits: Bits)
    requires v < Pow2(|bits|)
    requires forall k :: 0 <= k < |bits| ==> bits[k] == Bit(v, k)
    ensures FromLow(bits) == v
  {
    if bits != [] {
      forall k | 0 <= k < |bits| - 1 ensures bits[1..][k] == Bit(v / 2, k) {
        assert bits[1..][k] == bits[k + 1];
      }
      FromLowReadBack(v / 2, bits[1..]);
      assert Bit(v, 0) == (v % 2 == 1);
    }
  }

  /** The place of a cell in the order in which format modules are drawn. */
  function FormatIndex(n: int, c: Cell): int {
    if c.x == 8 && c.y <= 5 then c.y
    else if c.x == 8 && c.y <= 8 then c.y - 1
    else if c.x == 7 then 8
    else if c.x <= 5 then 14 - c.x
    else if c.y == 8 then n + 14 - c.x
    else if c.y == n - 8 then 30
    else c.y - n + 30
  }

  lemma FormatCellsDiffer(n: int)
    requires IsSize(n)
    ensures NoRepeats(FormatCells(n))
  {
    forall k | 0 <= k < 31 ensures FormatIndex(n, FormatCells(n)[k]) == k {
      IndexOfCell(n, k);
    }
  }

  lemma IndexOfCell(n: int, k: int)
    requires IsSize(n) && 0 <= k < 31
    ensures FormatIndex(n, FormatCell(n, k)) == k
  {
  }

  lemma {:induction false} WrittenStands(g: Grid, cells: seq<Cell>, values: Bits, k: nat)
    requires Square(g, |g|) && PathIn(cells, |g|) && |values| == |cells| && NoRepeats(cells) && k < |cells|
    ensures At(WriteCells(g, cells, values), cells[k]) == values[k]
  {
    var last := |cells| - 1;
    if k < last {
      WrittenStands(g, cells[..last], values[..last], k);
    }
  }

  /** What one copy of the format information in a symbol says; the copies start at 0 and 15. */
  function ReadFormat(symbol: Grid, copy: nat): Format
    requires IsSize(|symbol|) && Square(symbol, |symbol|) && copy <= 1
  {
    hide FormatCells;
    FormatOf(FromLow(seq(15, k requires 0 <= k < 15 => At(symbol, FormatCells(|symbol|)[15 * copy + k]))))
  }

  /** Either copy of the format information gives level and mask back. */
  lemma FormatReadBack(g: Grid, ecl: Ecc, mask: nat, copy: nat)
    requires IsSize(|g|) && Square(g, |g|) && mask < 8 && copy <= 1
    ensures |WithFormat(g, ecl, mask)| == |g|
    ensures ReadFormat(WithFormat(g, ecl, mask), copy) == Format(ecl, mask)
  {
    hide FormatBits, FormatOf, FromLow, FormatCells, WriteCells, Bit, Pow2, NoRepeats;
    var symbol := WithFormat(g, ecl, mask);
    var cells, values := FormatCells(|g|), FormatModules(ecl, mask);
    var bits := seq(15, k requires 0 <= k < 15 => At(symbol, cells[15 * copy + k]));
    FormatBitsTell(ecl, mask);
    FormatCellsDiffer(|g|);
    forall k | 0 <= k < 15 ensures bits[k] == Bit(FormatBits(ecl, mask), k) {
      WrittenStands(g, cells, values, 15 * copy + k);
    }
    FromLowReadBack(FormatBits(ecl, mask), bits);
  }

  /** The module above the lower copy is always dark. */
  lemma DarkModule(g: Grid, ecl: Ecc, mask: nat)
    requires IsSize(|g|) && Square(g, |g|)
    ensures |WithFormat(g, ecl, mask)| == |g|
    ensures At(WithFormat(g, ecl, mask), Cell(8, |g| - 8))
  {
    hide FormatBits, WriteCells, NoRepeats;
    FormatCellsDiffer(|g|);
    WrittenStands(g, FormatCells(|g|), FormatModules(ecl, mask), 30);
  }
}
