/**
 The order in which drawCodewords of deps/qrcodegen.cpp visits the modules of a symbol: pairs of
 columns from the right edge to the left, leaving out column 6, upwards and downwards in turn.
 */
module ZigZag {

  /** The sizes of a symbol: 4 * version + 17. */
  predicate IsSize(n: int) {
    n >= 21 && n % 4 == 1
  }

  datatype Cell = Cell(x: int, y: int)

  predicate InGrid(n: int, c: Cell) {
    0 <= c.x < n && 0 <= c.y < n
  }

  predicate PathIn(path: seq<Cell>, n: int) {
    forall k :: 0 <= k < |path| ==> InGrid(n, path[k])
  }

  function NumPairs(n: int): int {
    (n - 1) / 2
  }

  /** The right column of pair p. */
  function Right(n: int, p: int): int {
    if n - 1 - 2 * p > 6 then n - 1 - 2 * p else n - 2 - 2 * p
  }

  /** The loop variable before pair p, when column 6 has not been stepped over yet. */
  function RightAtHead(n: int, p: int): int {
    if n - 1 - 2 * p >= 6 then n - 1 - 2 * p else n - 2 - 2 * p
  }

  lemma RightAdvances(n: int, p: int)
    requires IsSize(n) && 0 <= p <= NumPairs(n)
    ensures RightAtHead(n, 0) == n - 1
    ensures RightAtHead(n, p) >= 1 <==> p < NumPairs(n)
    ensures p < NumPairs(n) ==>
              && 1 <= Right(n, p) < n
              && Right(n, p) == (if RightAtHead(n, p) == 6 then 5 else RightAtHead(n, p))
              && RightAtHead(n, p + 1) == Right(n, p) - 2
  {
  }

  predicate Upward(right: nat) {
    ((right + 1) / 2) % 2 == 0
  }

  /** The cell visited in step vert of a pair of columns, on its right (j = 0) or left side. */
  function CellAt(n: int, right: nat, vert: int, j: int): Cell {
    Cell(right - j, if Upward(right) then n - 1 - vert else vert)
  }

  /** The cells visited in the first v steps of a pair of columns. */
  function PairPath(n: int, right: nat, v: nat): (path: seq<Cell>)
    ensures |path| == 2 * v
  {
    if v == 0 then [] else PairPath(n, right, v - 1) + [CellAt(n, right, v - 1, 0), CellAt(n, right, v - 1, 1)]
  }

  /** The cells visited in the first p pairs of columns. */
  function ScanPath(n: int, p: nat): seq<Cell>
    requires IsSize(n) && p <= NumPairs(n)
  {
    if p == 0 then [] else
      PairRange(n, p - 1);
      ScanPath(n, p - 1) + PairPath(n, Right(n, p - 1), n)
  }

  predicate NoRepeats<T(==)>(s: seq<T>) {
    forall i, j :: 0 <= i < j < |s| ==> s[i] != s[j]
  }

  lemma PairRange(n: int, p: int)
    requires IsSize(n) && 0 <= p < NumPairs(n)
    ensures 1 <= Right(n, p) <= n - 1 && Right(n, p) != 6 && Right(n, p) != 7
  {
  }

  /** Whether the first v steps of a pair of columns visit c. */
  predicate Passed(n: int, right: nat, v: int, c: Cell) {
    right - 1 <= c.x <= right && 0 <= (if Upward(right) then n - 1 - c.y else c.y) < v
  }

  lemma {:induction false} PairVisits(n: int, right: nat, v: nat, c: Cell)
    ensures c in PairPath(n, right, v) <==> Passed(n, right, v, c)
  {
    if v > 0 {
      PairVisits(n, right, v - 1, c);
      var a, b := CellAt(n, right, v - 1, 0), CellAt(n, right, v - 1, 1);
      assert c in PairPath(n, right, v) <==> c in PairPath(n, right, v - 1) || c in [a, b];
    }
  }

  lemma {:induction false} PairVisitsOnce(n: int, right: nat, v: nat)
    ensures NoRepeats(PairPath(n, right, v))
  {
    if v > 0 {
      PairVisitsOnce(n, right, v - 1);
      PairVisits(n, right, v - 1, CellAt(n, right, v - 1, 0));
      PairVisits(n, right, v - 1, CellAt(n, right, v - 1, 1));
    }
  }

  /** The pair of columns that contains column x. */
  function PairOf(n: int, x: int): int {
    if x > 6 then (n - 1 - x) / 2 else (n - 2 - x) / 2
  }

  lemma PairOfColumn(n: int, p: int, x: int)
    requires IsSize(n) && 0 <= p < NumPairs(n)
    ensures Right(n, p) - 1 <= x <= Right(n, p) <==> 0 <= x < n && x != 6 && PairOf(n, x) == p
  {
    PairRange(n, p);
  }

  lemma PairCovers(n: int, p: nat, c: Cell)
    requires IsSize(n) && p < NumPairs(n)
    ensures Right(n, p) >= 0
    ensures c in PairPath(n, Right(n, p), n) <==> InGrid(n, c) && c.x != 6 && PairOf(n, c.x) == p
  {
    PairRange(n, p);
    PairVisits(n, Right(n, p), n, c);
    PairOfColumn(n, p, c.x);
    hide PairPath, PairOf, Right;
  }

  lemma ScanStep(n: int, p: nat, c: Cell)
    requires IsSize(n) && p < NumPairs(n) && Right(n, p) >= 0
    ensures c !in ScanPath(n, 0)
    ensures c in ScanPath(n, p + 1) <==> c in ScanPath(n, p) || c in PairPath(n, Right(n, p), n)
  {
    hide PairPath, Right;
    assert ScanPath(n, p + 1) == ScanPath(n, p) + PairPath(n, Right(n, p), n);
  }

  lemma NothingVisited(n: int, c: Cell)
    requires IsSize(n)
    ensures c !in ScanPath(n, 0)
    ensures InGrid(n, c) && c.x != 6 ==> PairOf(n, c.x) >= 0
  {
  }

  lemma {:induction false} ScanVisits(n: int, p: nat, c: Cell)
    requires IsSize(n) && p <= NumPairs(n)
    ensures c in ScanPath(n, p) <==> InGrid(n, c) && c.x != 6 && PairOf(n, c.x) < p
  {
    hide ScanPath, PairPath, PairOf, Right, NumPairs;
    if p == 0 {
      NothingVisited(n, c);
    } else {
      ScanVisits(n, p - 1, c);
      PairCovers(n, p - 1, c);
      ScanStep(n, p - 1, c);
    }
  }

  lemma AppendNoRepeats<T>(s: seq<T>, t: seq<T>)
    requires NoRepeats(s) && NoRepeats(t) && forall c :: c in t ==> c !in s
    ensures NoRepeats(s + t)
  {
    forall i, j | 0 <= i < j < |s + t| ensures (s + t)[i] != (s + t)[j] {
      if i < |s| <= j {
        assert t[j - |s|] in t;
      }
    }
  }

  /** The next pair of columns visits none of the cells visited before. */
  lemma PairIsNew(n: int, p: nat, c: Cell)
    requires IsSize(n) && p < NumPairs(n) && Right(n, p) >= 0 && c in PairPath(n, Right(n, p), n)
    ensures c !in ScanPath(n, p)
  {
    hide PairPath, ScanPath, PairOf, Right, NumPairs;
    PairCovers(n, p, c);
    ScanVisits(n, p, c);
  }

  lemma ScanNext(n: int, p: nat)
    requires IsSize(n) && p < NumPairs(n) && NoRepeats(ScanPath(n, p))
    ensures NoRepeats(ScanPath(n, p + 1))
  {
    PairRange(n, p);
    PairVisitsOnce(n, Right(n, p), n);
    hide PairPath, Right, NoRepeats, PairOf;
    var before, pair := ScanPath(n, p), PairPath(n, Right(n, p), n);
    forall c | c in pair ensures c !in before {
      PairIsNew(n, p, c);
    }
    AppendNoRepeats(before, pair);
  }

  lemma {:induction false} ScanNoRepeats(n: int, p: nat)
    requires IsSize(n) && p <= NumPairs(n)
    ensures NoRepeats(ScanPath(n, p))
  {
    if p == 0 {
      assert ScanPath(n, 0) == [];
    } else {
      hide ScanPath, NoRepeats;
      ScanNoRepeats(n, p - 1);
      ScanNext(n, p - 1);
    }
  }

  function Scan(n: int): (path: seq<Cell>)
    requires IsSize(n)
    ensures PathIn(path, n)
  {
    ScanStaysInGrid(n);
    ScanPath(n, NumPairs(n))
  }

  lemma ScanStaysInGrid(n: int)
    requires IsSize(n)
    ensures PathIn(ScanPath(n, NumPairs(n)), n)
  {
    var path := ScanPath(n, NumPairs(n));
    forall k | 0 <= k < |path| ensures InGrid(n, path[k]) {
      ScanVisits(n, NumPairs(n), path[k]);
    }
  }

  /** The scan visits every cell outside column 6 exactly once, and no other cell. */
  lemma ScanVisitsEachCellOnce(n: int)
    requires IsSize(n)
    ensures NoRepeats(Scan(n))
    ensures forall c :: c in Scan(n) <==> InGrid(n, c) && c.x != 6
  {
    ScanNoRepeats(n, NumPairs(n));
    forall c: Cell ensures c in Scan(n) <==> InGrid(n, c) && c.x != 6 {
      ScanVisits(n, NumPairs(n), c);
    }
  }

  // ---- where the scan is after how many steps ----

  /** The right column of the p-th pair, from the edge inwards; column 6 is left out. */
  function ColumnOfPair(n: int, p: int): int {
    if 2 * p <= n - 8 then n - 1 - 2 * p else n - 2 - 2 * p
  }

  lemma DirectionAlternates(n: int, p: nat)
    requires IsSize(n) && p < NumPairs(n)
    ensures Right(n, p) == ColumnOfPair(n, p) >= 1
    ensures Upward(Right(n, p)) <==> p % 2 == 0
  {
    var k := n / 4;
    assert n == 4 * k + 1;
    if n - 1 - 2 * p > 6 {
      assert (Right(n, p) + 1) / 2 == 2 * k - p;
    } else {
      assert (Right(n, p) + 1) / 2 == 2 * k - p;
    }
  }

  lemma {:induction false} PairAt(n: int, right: nat, v: nat, w: nat, j: nat)
    requires w < v && j < 2
    ensures PairPath(n, right, v)[2 * w + j] == CellAt(n, right, w, j)
  {
    hide CellAt;
    if w < v - 1 {
      PairAt(n, right, v - 1, w, j);
    }
  }

  lemma {:induction false} PathLength(n: int, p: nat)
    requires IsSize(n) && p <= NumPairs(n)
    ensures |ScanPath(n, p)| == 2 * n * p
  {
    if p > 0 {
      PathLength(n, p - 1);
      assert 2 * n * p == 2 * n * (p - 1) + 2 * n;
    }
  }

  /** A longer scan begins like a shorter one. */
  lemma {:induction false} ScanGoesOn(n: int, p: nat, q: nat)
    requires IsSize(n) && p <= q <= NumPairs(n)
    ensures |ScanPath(n, p)| <= |ScanPath(n, q)| && ScanPath(n, q)[..|ScanPath(n, p)|] == ScanPath(n, p)
  {
    if p < q {
      ScanGoesOn(n, p, q - 1);
    }
  }

  lemma PartOfPrefix<T>(s: seq<T>, t: seq<T>, u: seq<T>, i: nat)
    requires |s + t| <= |u| && u[..|s + t|] == s + t && i < |t|
    ensures u[|s| + i] == t[i]
  {
    assert u[|s| + i] == (s + t)[|s| + i];
  }

  lemma NextPairPath(n: int, p: nat)
    requires IsSize(n) && p < NumPairs(n)
    ensures Right(n, p) >= 0 && ScanPath(n, p + 1) == ScanPath(n, p) + PairPath(n, Right(n, p), n)
  {
    hide PairPath;
    PairRange(n, p);
  }

  /** Step i of the p-th pair of columns. */
  lemma PairInScan(n: int, p: nat, i: nat)
    requires IsSize(n) && p < NumPairs(n) && i < 2 * n
    ensures Right(n, p) >= 0 && |ScanPath(n, p)| + i < |Scan(n)|
    ensures Scan(n)[|ScanPath(n, p)| + i] == PairPath(n, Right(n, p), n)[i]
  {
    hide ScanPath, PairPath, Right, NumPairs;
    NextPairPath(n, p);
    ScanGoesOn(n, p + 1, NumPairs(n));
    PartOfPrefix(ScanPath(n, p), PairPath(n, Right(n, p), n), Scan(n), i);
  }

  lemma PairCells(n: int, p: nat, w: nat, j: nat)
    requires IsSize(n) && p < NumPairs(n) && w < n && j < 2
    ensures |ScanPath(n, p)| + (2 * w + j) < |Scan(n)|
    ensures Scan(n)[|ScanPath(n, p)| + (2 * w + j)]
         == Cell(ColumnOfPair(n, p) - j, if p % 2 == 0 then n - 1 - w else w)
  {
    hide ScanPath, Scan, PairPath, Right, Upward, ColumnOfPair, NumPairs;
    DirectionAlternates(n, p);
    PairInScan(n, p, 2 * w + j);
    PairAt(n, Right(n, p), n, w, j);
  }

  /**
   The scan, step by step: in the p-th pair of columns it goes upwards when p is even and downwards when
   it is odd, visiting the right column before the left one in every row.
   */
  lemma ScanAt(n: int, p: nat, w: nat, j: nat, k: nat)
    requires IsSize(n) && p < (n - 1) / 2 && w < n && j < 2 && k == 2 * n * p + 2 * w + j
    ensures k < |Scan(n)|
    ensures Scan(n)[k] == Cell(ColumnOfPair(n, p) - j, if p % 2 == 0 then n - 1 - w else w)
  {
    hide ScanPath, Scan, ColumnOfPair;
    PathLength(n, p);
    PairCells(n, p, w, j);
  }

  /** It begins in the lower right corner. */
  lemma ScanStart(n: int)
    requires IsSize(n)
    ensures Scan(n) != [] && Scan(n)[0] == Cell(n - 1, n - 1)
  {
    hide Scan;
    ScanAt(n, 0, 0, 0, 0);
  }

  lemma ScanLength(n: nat)
    requires IsSize(n)
    ensures |Scan(n)| == n * (n - 1) == 2 * n * ((n - 1) / 2)
  {
    hide ScanPath, NumPairs;
    Halved(n);
    PathLength(n, NumPairs(n));
    TwiceHalf(n, NumPairs(n));
  }

  lemma Halved(n: nat)
    requires IsSize(n)
    ensures NumPairs(n) == (n - 1) / 2 >= 0 && n == 2 * NumPairs(n) + 1
  {
    HalfOfFour(n, n / 4);
  }

  lemma HalfOfFour(n: int, k: nat)
    requires n == 4 * k + 1
    ensures NumPairs(n) == (n - 1) / 2 == 2 * k
  {
  }

  lemma TwiceHalf(n: nat, p: nat)
    requires n == 2 * p + 1
    ensures 2 * n * p == n * (n - 1)
  {
  }

  lemma ProductGrows(m: nat, a: nat, p: nat)
    ensures a <= p ==> m * a <= m * p
  {
    if a < p {
      ProductGrows(m, a, p - 1);
      assert m * p == m * (p - 1) + m;
    }
  }

  lemma Divided(k: nat, m: nat, a: nat) returns (p: nat, r: nat)
    requires k < m * a
    ensures k == m * p + r && r < m && p < a
  {
    p, r := k / m, k % m;
    ProductGrows(m, a, p);
  }

  lemma NextCell(n: nat, p: nat, w: nat, j: nat, k: nat)
    requires IsSize(n) && p < (n - 1) / 2 && w < n && j < 2 && k == 2 * n * p + 2 * w + j && k + 1 < |Scan(n)|
    ensures -1 <= Scan(n)[k + 1].y - Scan(n)[k].y <= 1
  {
    hide Scan, ColumnOfPair;
    ScanAt(n, p, w, j, k);
    if j == 0 {
      ScanAt(n, p, w, 1, k + 1);
    } else if w < n - 1 {
      ScanAt(n, p, w + 1, 0, k + 1);
    } else {
      NextPair(n, p, k);
      ScanAt(n, p + 1, 0, 0, k + 1);
    }
  }

  lemma NextPair(n: nat, p: nat, k: nat)
    requires IsSize(n) && k + 1 < |Scan(n)| && k == 2 * n * p + 2 * (n - 1) + 1
    ensures k + 1 == 2 * n * (p + 1) && p + 1 < (n - 1) / 2
  {
    hide Scan;
    ScanLength(n);
    ProductGrows(2 * n, (n - 1) / 2, p + 1);
  }

  /** From one cell to the next it never leaves out a row. */
  lemma ScanIsSteady(n: nat, k: nat)
    requires IsSize(n) && k + 1 < |Scan(n)|
    ensures -1 <= Scan(n)[k + 1].y - Scan(n)[k].y <= 1
  {
    hide Scan;
    ScanLength(n);
    var p, r := Divided(k, 2 * n, (n - 1) / 2);
    NextCell(n, p, r / 2, r % 2, k);
  }
}
