/**
 The penalty score module by module: what getPenaltyScore of deps/qrcodegen.cpp counts, said without
 runs, histories or loops, and proved to be the score of QrPenalty.
 */
module QrPenaltyLaws {
  import opened ZigZag
  import opened QrGrid
  import opened QrPatterns
  import opened QrPenalty

  // ---- rows and columns ----

  function Transposed(g: Grid): (h: Grid)
    requires Square(g, |g|)
    ensures Square(h, |g|)
    ensures forall c :: InGrid(|g|, c) ==> At(h, c) == At(g, Cell(c.y, c.x))
  {
    seq(|g|, y requires 0 <= y < |g| => seq(|g|, x requires 0 <= x < |g| => g[x][y]))
  }

  lemma TransposedTwice(g: Grid)
    requires Square(g, |g|)
    ensures Transposed(Transposed(g)) == g
  {
    SameGrid(Transposed(Transposed(g)), g);
  }

  /** A column of a symbol is the row of the transposed one. */
  lemma ColumnIsRow(g: Grid, x: nat)
    requires Square(g, |g|) && x < |g|
    ensures Column(g, x) == Transposed(g)[x]
  {
    forall y | 0 <= y < |g| ensures Column(g, x)[y] == Transposed(g)[x][y] {
      assert At(Transposed(g), Cell(y, x)) == At(g, Cell(x, y));
    }
  }

  lemma {:induction false} ColumnsAreRows(g: Grid, n: nat)
    requires Square(g, |g|) && n <= |g|
    ensures ColumnsPenalty(g, n) == RowsPenalty(Transposed(g), n)
  {
    hide LinePenalty, Column, Transposed;
    if n > 0 {
      ColumnsAreRows(g, n - 1);
      ColumnIsRow(g, n - 1);
    }
  }

  // ---- counting modules ----

  /** The cells of a block in the upper left corner that f selects. */
  function Selected(f: Cell -> bool, w: nat, h: nat): set<Cell> {
    set c | c in Block(0, 0, w, h) && f(c)
  }

  function SelectedInRow(f: Cell -> bool, y: nat, w: nat): set<Cell> {
    set c | c in Block(0, y, w, 1) && f(c)
  }

  lemma NextInRow(f: Cell -> bool, y: nat, w: nat)
    ensures |SelectedInRow(f, y, w + 1)| == |SelectedInRow(f, y, w)| + B2N(f(Cell(w, y)))
    ensures SelectedInRow(f, y, 0) == {}
  {
    hide Block;
    var row, c := SelectedInRow(f, y, w), Cell(w, y);
    if f(c) {
      assert SelectedInRow(f, y, w + 1) == row + {c};
    } else {
      assert SelectedInRow(f, y, w + 1) == row;
    }
  }

  lemma NextRowSelected(f: Cell -> bool, w: nat, h: nat)
    ensures |Selected(f, w, h + 1)| == |Selected(f, w, h)| + |SelectedInRow(f, h, w)|
    ensures Selected(f, w, 0) == {}
  {
    hide Block;
    assert Selected(f, w, h + 1) == Selected(f, w, h) + SelectedInRow(f, h, w);
    assert Selected(f, w, h) !! SelectedInRow(f, h, w);
  }

  /** The module and its neighbours to the right, below and across are there and of one colour. */
  predicate OneColour(g: Grid, c: Cell) {
    Square(g, |g|) && InGrid(|g| - 1, c) &&
    (forall d :: d in {Cell(c.x + 1, c.y), Cell(c.x, c.y + 1), Cell(c.x + 1, c.y + 1)} ==> At(g, d) == At(g, c))
  }

  predicate IsDarkModule(g: Grid, c: Cell) {
    Square(g, |g|) && InGrid(|g|, c) && At(g, c)
  }

  lemma UniformIsOneColour(g: Grid, x: nat, y: nat)
    requires Square(g, |g|) && x + 1 < |g| && y + 1 < |g|
    ensures Uniform(g, x, y) == OneColour(g, Cell(x, y))
  {
    var c := Cell(x, y);
    assert At(g, c) == g[y][x] && At(g, Cell(x + 1, y)) == g[y][x + 1];
    assert At(g, Cell(x, y + 1)) == g[y + 1][x] && At(g, Cell(x + 1, y + 1)) == g[y + 1][x + 1];
  }

  lemma {:induction false} BlocksOfRow(g: Grid, y: nat, n: nat)
    requires Square(g, |g|) && n < |g| && y + 1 < |g|
    ensures BlocksInRow(g, y, n) == |SelectedInRow(c => OneColour(g, c), y, n)|
  {
    hide Uniform, OneColour, SelectedInRow;
    var f := c => OneColour(g, c);
    NextInRow(f, y, if n == 0 then 0 else n - 1);
    if n > 0 {
      BlocksOfRow(g, y, n - 1);
      UniformIsOneColour(g, n - 1, y);
    }
  }

  /** The blocks counted are the cells that begin a block of one colour. */
  lemma {:induction false} BlocksAreCells(g: Grid, n: nat)
    requires Square(g, |g|) && n < |g|
    ensures BlocksAbove(g, n) == |Selected(c => OneColour(g, c), |g| - 1, n)|
  {
    hide BlocksInRow, OneColour, SelectedInRow, Selected;
    var f := c => OneColour(g, c);
    NextRowSelected(f, |g| - 1, if n == 0 then 0 else n - 1);
    if n > 0 {
      BlocksAreCells(g, n - 1);
      BlocksOfRow(g, n - 1, |g| - 1);
    }
  }

  lemma {:induction false} DarkOfRow(g: Grid, y: nat, n: nat)
    requires Square(g, |g|) && n <= |g| && y < |g|
    ensures DarkInLine(g[y][..n]) == |SelectedInRow(c => IsDarkModule(g, c), y, n)|
  {
    hide SelectedInRow;
    var f := c => IsDarkModule(g, c);
    NextInRow(f, y, if n == 0 then 0 else n - 1);
    if n > 0 {
      DarkOfRow(g, y, n - 1);
      assert g[y][..n][..n - 1] == g[y][..n - 1];
    }
  }

  lemma {:induction false} DarkAreCells(g: Grid, n: nat)
    requires Square(g, |g|) && n <= |g|
    ensures DarkAbove(g, n) == |Selected(c => IsDarkModule(g, c), |g|, n)|
  {
    hide DarkInLine, IsDarkModule, SelectedInRow, Selected;
    var f := c => IsDarkModule(g, c);
    NextRowSelected(f, |g|, if n == 0 then 0 else n - 1);
    if n > 0 {
      DarkAreCells(g, n - 1);
      DarkOfRow(g, n - 1, |g|);
      assert g[n - 1][..|g|] == g[n - 1];
    }
  }

  // ---- long runs, module by module ----

  /** The last m modules are there and alike. */
  predicate LastAlike(line: Line, m: nat) {
    m <= |line| && forall k :: |line| - m <= k < |line| ==> line[k] == line[|line| - 1]
  }

  /** Five modules alike in a row cost 3, and every further one costs 1. */
  function AlikePoints(line: Line): nat {
    if line == [] then 0
    else AlikePoints(line[..|line| - 1]) + (if LastAlike(line, 6) then 1 else if LastAlike(line, 5) then 3 else 0)
  }

  /** The last run is as long as modules are alike at the end. */
  lemma {:induction false} LastRun(line: Line, m: nat)
    requires line != [] && m > 0
    ensures var r := Runs(line);
            && line[|line| - 1] == IsDarkRun(|r| - 1)
            && (LastAlike(line, m) <==> r[|r| - 1] >= m)
  {
    var n := |line| - 1;
    var before := line[..n];
    if n > 0 {
      LastRun(before, if m > 1 then m - 1 else 1);
      OneMoreAlike(line, m);
    } else {
      OneAlike(line, m);
    }
    hide LastAlike;
  }

  lemma OneAlike(line: Line, m: nat)
    requires |line| == 1 && m > 0
    ensures LastAlike(line, m) <==> m == 1
  {
  }

  lemma OneMoreAlike(line: Line, m: nat)
    requires |line| > 1 && m > 0
    ensures var before := line[..|line| - 1];
            LastAlike(line, m) <==>
            m == 1 || (line[|line| - 1] == before[|before| - 1] && LastAlike(before, m - 1))
  {
    var n := |line| - 1;
    var before := line[..n];
    if m > 1 && LastAlike(line, m) {
      assert line[n - 1] == line[n];
    }
  }

  lemma {:induction false} RunPointsAreAlikePoints(line: Line)
    ensures AllRunPoints(Runs(line)) == AlikePoints(line)
  {
    hide LastAlike;
    if line == [] {
      NoRunPoints();
    } else {
      var before := line[..|line| - 1];
      RunPointsAreAlikePoints(before);
      LastRun(line, 5);
      LastRun(line, 6);
      PointsGrow(Runs(before), line[|line| - 1]);
    }
  }

  lemma NoRunPoints()
    ensures AllRunPoints([0]) == 0
  {
    var r: seq<nat> := [0];
    assert r[..0] == [];
  }

  lemma PointsGrow(r: seq<nat>, dark: bool)
    requires |r| > 0
    ensures var s := NextRuns(r, dark);
            var length := s[|s| - 1];
            AllRunPoints(s) == AllRunPoints(r) + (if length >= 6 then 1 else if length == 5 then 3 else 0)
  {
    var n := |r| - 1;
    assert r[n := r[n] + 1][..n] == r[..n];
    assert (r + [1])[..n + 1] == r;
  }

  // ---- finder-like patterns, module by module ----

  /** Light, dark, light ... in the proportions 4:1:1:3:1:1:1, or with the wide light part at the other end. */
  function Proportions(n: nat, wideFirst: bool): (r: seq<nat>)
    ensures |r| == 7
  {
    [if wideFirst then 4 * n else n, n, n, 3 * n, n, n, if wideFirst then n else 4 * n]
  }

  /** A place where such a pattern begins, and the width of its narrow parts. */
  datatype Place = Place(at: nat, unit: nat)

  predicate StandsAt(line: Line, p: Place, wideFirst: bool) {
    var pattern := Expand(Proportions(p.unit, wideFirst));
    p.unit > 0 && p.at + |pattern| <= |line| && line[p.at..p.at + |pattern|] == pattern
  }

  ghost function Patterns(line: Line, wideFirst: bool): (places: set<Place>) {
    set at: nat, unit: nat | at < |line| && unit < |line| && StandsAt(line, Place(at, unit), wideFirst)
      :: Place(at, unit)
  }

  lemma ExpandMore(r: seq<nat>, n: nat)
    ensures Expand(r + [n]) == Expand(r) + Copies(IsDarkRun(|r|), n)
  {
    assert (r + [n])[..|r|] == r;
  }

  lemma {:induction false} ExpandLength(r: seq<nat>)
    ensures |Expand(r)| == Total(r)
  {
    if r != [] {
      ExpandLength(r[..|r| - 1]);
    }
  }

  /** q is the end of p. */
  predicate EndsWith(p: Line, q: Line) {
    |q| <= |p| && p[|p| - |q|..] == q
  }

  lemma EndsWithSame(p: Line, q: Line, s: Line)
    ensures EndsWith(p + s, q + s) <==> EndsWith(p, q)
  {
    if EndsWith(p + s, q + s) {
      assert (p + s)[|p| - |q|..][..|q|] == p[|p| - |q|..];
      assert (q + s)[..|q|] == q;
    }
    if EndsWith(p, q) {
      assert (p + s)[|p| - |q|..] == p[|p| - |q|..] + s;
    }
  }

  lemma CopiesAdd(colour: bool, m: nat, n: nat)
    ensures Copies(colour, m + n) == Copies(colour, m) + Copies(colour, n)
  {
  }

  lemma LastOfExpand(r: seq<nat>)
    requires r != [] && r[|r| - 1] > 0
    ensures Expand(r) != [] && Expand(r)[|Expand(r)| - 1] == IsDarkRun(|r| - 1)
  {
    hide IsDarkRun;
  }

  predicate EndsIn(p: Line, colour: bool) {
    p != [] && p[|p| - 1] == colour
  }

  /** The k-th last module. */
  function FromEnd(p: Line, k: nat): bool
    requires k < |p|
  {
    p[|p| - 1 - k]
  }

  lemma SameFromEnd(p: Line, q: Line, k: nat)
    requires EndsWith(p, q) && k < |q|
    ensures FromEnd(p, k) == FromEnd(q, k)
  {
    assert p[|p| - |q|..][|q| - 1 - k] == q[|q| - 1 - k];
  }

  lemma TailFromEnd(p: Line, colour: bool, c: nat, k: nat)
    requires !EndsIn(p, colour) && k < |p| + c
    ensures k < c ==> FromEnd(p + Copies(colour, c), k) == colour
    ensures k == c ==> FromEnd(p + Copies(colour, c), k) != colour
  {
  }

  /** Equal ends: the last runs are equal, unless the shorter line is one run. */
  lemma TailsMatch(p: Line, c: nat, q: Line, b: nat, colour: bool)
    requires !EndsIn(p, colour) && !EndsIn(q, colour)
    requires EndsWith(p + Copies(colour, c), q + Copies(colour, b))
    ensures b <= c && (q != [] ==> b == c)
  {
    var v, w := p + Copies(colour, c), q + Copies(colour, b);
    hide EndsIn, FromEnd, Copies;
    assert |v| == |p| + c && |w| == |q| + b by { CopiesLength(colour, c); CopiesLength(colour, b); }
    var k := if b > c then c else b;
    if b > c || (q != [] && b < c) {
      SameFromEnd(v, w, k);
      TailFromEnd(p, colour, c, k);
      TailFromEnd(q, colour, b, k);
    }
  }

  lemma CopiesLength(colour: bool, n: nat)
    ensures |Copies(colour, n)| == n
  {
  }

  lemma ShortTail(p: Line, c: nat, b: nat, colour: bool)
    requires b <= c
    ensures EndsWith(p + Copies(colour, c), Copies(colour, b))
  {
    CopiesAdd(colour, c - b, b);
    assert p + Copies(colour, c) == p + Copies(colour, c - b) + Copies(colour, b);
  }

  predicate AllPositive(r: seq<nat>) {
    forall k :: 0 <= k < |r| ==> r[k] > 0
  }

  lemma EndsInOther(r: seq<nat>)
    requires AllPositive(r)
    ensures !EndsIn(Expand(r), IsDarkRun(|r|))
  {
    if r == [] {
      assert Expand(r) == [];
    } else {
      hide Expand;
      LastOfExpand(r);
    }
  }

  predicate RunsEndWith(r: seq<nat>, q: seq<nat>)
    requires q != []
  {
    && |q| <= |r| && q[0] <= r[|r| - |q|]
    && forall k :: 1 <= k < |q| ==> r[|r| - |q| + k] == q[k]
  }

  lemma FewerRuns(r: seq<nat>, q: seq<nat>)
    requires r != [] && |q| > 1
    ensures RunsEndWith(r, q) <==>
            r[|r| - 1] == q[|q| - 1] && RunsEndWith(r[..|r| - 1], q[..|q| - 1])
  {
    var m, n := |r| - 1, |q| - 1;
    if RunsEndWith(r, q) {
      assert r[|r| - |q| + n] == q[n];
    }
  }

  /** The line without its last run. */
  lemma LastOff(r: seq<nat>)
    requires r != [] && AllPositive(r)
    ensures var m := |r| - 1;
            && AllPositive(r[..m]) && Expand(r) == Expand(r[..m]) + Copies(IsDarkRun(m), r[m])
            && !EndsIn(Expand(r[..m]), IsDarkRun(m))
  {
    EndsInOther(r[..|r| - 1]);
  }

  lemma SameColour(m: nat, n: nat)
    requires (m + 1) % 2 == (n + 1) % 2
    ensures IsDarkRun(m) == IsDarkRun(n)
  {
  }

  lemma OneRunAtEnd(r: seq<nat>, q: seq<nat>)
    requires AllPositive(r) && AllPositive(q) && r != [] && |q| == 1 && |r| % 2 == 1
    ensures EndsWith(Expand(r), Expand(q)) <==> q[0] <= r[|r| - 1]
  {
    hide Copies, EndsWith, EndsIn, IsDarkRun, Expand;
    var m := |r| - 1;
    LastOff(r);
    LastOff(q);
    OneRun(q);
    SameColour(m, 0);
    if EndsWith(Expand(r), Expand(q)) {
      TailsMatch(Expand(r[..m]), r[m], Expand(q[..0]), q[0], IsDarkRun(m));
    }
    if q[0] <= r[m] {
      ShortTail(Expand(r[..m]), r[m], q[0], IsDarkRun(m));
    }
  }

  lemma RunsAtEnd(r: seq<nat>, q: seq<nat>)
    requires AllPositive(r) && AllPositive(q) && r != [] && |q| > 1 && |r| % 2 == |q| % 2
    ensures var m, n := |r| - 1, |q| - 1;
            EndsWith(Expand(r), Expand(q)) <==> r[m] == q[n] && EndsWith(Expand(r[..m]), Expand(q[..n]))
  {
    hide Copies, EndsWith, EndsIn, IsDarkRun, Expand;
    var m, n := |r| - 1, |q| - 1;
    LastOff(r);
    LastOff(q);
    LastOfExpand(q[..n]);
    SameColour(m, n);
    if EndsWith(Expand(r), Expand(q)) {
      TailsMatch(Expand(r[..m]), r[m], Expand(q[..n]), q[n], IsDarkRun(m));
    }
    EndsWithSame(Expand(r[..m]), Expand(q[..n]), Copies(IsDarkRun(n), q[n]));
  }

  /** One line ends with another exactly when the runs match from the end, the first one left unfinished. */
  lemma {:induction false} EndsWithRuns(r: seq<nat>, q: seq<nat>)
    requires AllPositive(r) && AllPositive(q) && q != [] && |r| % 2 == |q| % 2
    ensures EndsWith(Expand(r), Expand(q)) <==> RunsEndWith(r, q)
    decreases |q|
  {
    if r == [] {
      LastOfExpand(q);
    } else if |q| == 1 {
      hide Expand, EndsWith;
      OneRunAtEnd(r, q);
    } else {
      hide Expand, EndsWith;
      RunsAtEnd(r, q);
      FewerRuns(r, q);
      EndsWithRuns(r[..|r| - 1], q[..|q| - 1]);
    }
  }

  lemma OneRun(q: seq<nat>)
    requires |q| == 1
    ensures Expand(q) == Copies(IsDarkRun(0), q[0]) && Expand(q[..0]) == []
  {
    assert q[..0] == [];
  }

  // ---- patterns and runs ----

  function Length(n: nat, wideFirst: bool): nat {
    |Expand(Proportions(n, wideFirst))|
  }

  /** The pattern without its last part, and that part. */
  lemma PatternParts(n: nat, wideFirst: bool)
    requires n > 0
    ensures var q := Proportions(n, wideFirst);
            && AllPositive(q) && AllPositive(q[..6]) && Expand(q) == Expand(q[..6]) + Copies(false, q[6])
            && !EndsIn(Expand(q[..6]), false) && Expand(q[..6]) != [] && Length(n, wideFirst) == 12 * n
  {
    var q := Proportions(n, wideFirst);
    LastOff(q);
    LastOfExpand(q[..6]);
    ExpandLength(q);
    TotalOfSeven(q);
  }

  lemma TotalOfSeven(q: seq<nat>)
    requires |q| == 7
    ensures Total(q) == q[0] + q[1] + q[2] + q[3] + q[4] + q[5] + q[6]
  {
    TotalStep(q, 6);
    TotalStep(q, 5);
    TotalStep(q, 4);
    TotalStep(q, 3);
    TotalStep(q, 2);
    TotalStep(q, 1);
    TotalStep(q, 0);
    assert q[..7] == q && q[..0] == [];
  }

  lemma TotalStep(q: seq<nat>, k: nat)
    requires k < |q|
    ensures Total(q[..k + 1]) == Total(q[..k]) + q[k]
  {
    assert q[..k + 1][..k] == q[..k];
  }

  lemma PlaceInRange(line: Line, p: Place, wideFirst: bool)
    ensures p in Patterns(line, wideFirst) <==> StandsAt(line, p, wideFirst)
  {
    hide Expand, Proportions;
    if StandsAt(line, p, wideFirst) {
      PatternParts(p.unit, wideFirst);
      assert p == Place(p.at, p.unit);
    }
  }

  /** What stands in a line also stands in a longer one, and the other way round unless it ends later. */
  lemma StandsInPrefix(line: Line, more: Line, p: Place, wideFirst: bool)
    requires p.at + Length(p.unit, wideFirst) <= |line|
    ensures StandsAt(line + more, p, wideFirst) <==> StandsAt(line, p, wideFirst)
  {
    var e := p.at + Length(p.unit, wideFirst);
    assert (line + more)[p.at..e] == line[p.at..e];
    hide Expand;
  }

  lemma StandsEnds(line: Line, p: Place, wideFirst: bool)
    ensures var e := p.at + Length(p.unit, wideFirst);
            StandsAt(line, p, wideFirst) <==>
            p.unit > 0 && e <= |line| && EndsWith(line[..e], Expand(Proportions(p.unit, wideFirst)))
  {
    var e := p.at + Length(p.unit, wideFirst);
    if e <= |line| {
      assert line[..e][p.at..] == line[p.at..e];
    }
    hide Expand;
  }

  /** A pattern that ends in the last, light run ends with it: the dark part before it ends where the run begins. */
  lemma EndsInLastRun(before: Line, l: nat, p: Place, wideFirst: bool)
    requires !EndsIn(before, false) && p.unit > 0
    requires p.at + Length(p.unit, wideFirst) > |before|
    ensures var q := Proportions(p.unit, wideFirst);
            StandsAt(before + Copies(false, l), p, wideFirst) <==>
            q[6] <= l && p.at + |Expand(q[..6])| == |before| && EndsWith(before, Expand(q[..6]))
  {
    var q := Proportions(p.unit, wideFirst);
    var line, e := before + Copies(false, l), p.at + Length(p.unit, wideFirst);
    PatternParts(p.unit, wideFirst);
    StandsEnds(line, p, wideFirst);
    hide StandsAt, Expand, Proportions, EndsWith, EndsIn;
    if e <= |line| {
      assert line[..e] == before + Copies(false, e - |before|);
      if EndsWith(line[..e], Expand(q)) {
        TailsMatch(before, e - |before|, Expand(q[..6]), q[6], false);
      }
      EndsWithSame(before, Expand(q[..6]), Copies(false, q[6]));
    }
  }

  /** A pattern with its narrow parts as wide as the last dark run ends with the last, light run of r. */
  predicate EndsHere(r: seq<nat>, wideFirst: bool)
    requires |r| % 2 == 1
  {
    var m := |r| - 1;
    var q := Proportions(Back(r, 1), wideFirst);
    m > 0 && RunsEndWith(r[..m], q[..6]) && q[6] <= r[m]
  }

  lemma PatternsEndHere(r: seq<nat>)
    requires |r| % 2 == 1 && AllPositive(r)
    ensures PatternsEndingAt(r) == B2N(EndsHere(r, true)) + B2N(EndsHere(r, false))
  {
    EndsHereIs(r, true);
    EndsHereIs(r, false);
    hide EndsHere;
  }

  lemma EndsHereIs(r: seq<nat>, wideFirst: bool)
    requires |r| % 2 == 1 && AllPositive(r)
    ensures var n := Back(r, 1);
            EndsHere(r, wideFirst) <==>
            && n > 0 && Back(r, 2) == n && Back(r, 3) == 3 * n && Back(r, 4) == n && Back(r, 5) == n
            && (if wideFirst then 4 * n else n) <= Back(r, 6) && (if wideFirst then n else 4 * n) <= Back(r, 0)
  {
    if |r| >= 7 {
      var m, n := |r| - 1, Back(r, 1);
      var q := Proportions(n, wideFirst);
      assert RunsEndWith(r[..m], q[..6]) <==>
          q[0] <= r[m - 6] && r[m - 5] == n && r[m - 4] == n && r[m - 3] == 3 * n && r[m - 2] == n && r[m - 1] == n by {
        SixRuns(r[..m], q[..6]);
      }
    }
  }

  lemma SixRuns(r: seq<nat>, q: seq<nat>)
    requires |q| == 6 && |r| >= 6
    ensures var m := |r|;
            RunsEndWith(r, q) <==>
            && q[0] <= r[m - 6] && r[m - 5] == q[1] && r[m - 4] == q[2] && r[m - 3] == q[3]
            && r[m - 2] == q[4] && r[m - 1] == q[5]
  {
    var m := |r|;
    if RunsEndWith(r, q) {
      assert r[m - 6 + 1] == q[1] && r[m - 6 + 2] == q[2] && r[m - 6 + 3] == q[3];
      assert r[m - 6 + 4] == q[4] && r[m - 6 + 5] == q[5];
    }
  }

  /** The only pattern that can end in the last, light run. */
  lemma NewPlace(r: seq<nat>, p: Place, wideFirst: bool)
    requires |r| % 2 == 1 && AllPositive(r) && p.unit > 0
    requires p.at + Length(p.unit, wideFirst) > |Expand(r[..|r| - 1])|
    ensures var q := Proportions(p.unit, wideFirst);
            StandsAt(Expand(r), p, wideFirst) <==>
            && p.unit == Back(r, 1) && EndsHere(r, wideFirst)
            && p.at + |Expand(q[..6])| == |Expand(r[..|r| - 1])|
  {
    var m := |r| - 1;
    var before, q := r[..m], Proportions(p.unit, wideFirst);
    LastOff(r);
    assert IsDarkRun(m) == false;
    PatternParts(p.unit, wideFirst);
    EndsInLastRun(Expand(before), r[m], p, wideFirst);
    EndsWithRuns(before, q[..6]);
    UnitIsLastDark(r, p.unit, wideFirst);
    hide StandsAt, Expand, EndsWith, RunsEndWith, Proportions;
  }

  lemma UnitIsLastDark(r: seq<nat>, unit: nat, wideFirst: bool)
    requires |r| % 2 == 1
    ensures RunsEndWith(r[..|r| - 1], Proportions(unit, wideFirst)[..6]) ==> |r| > 1 && Back(r, 1) == unit
  {
    var b, q := r[..|r| - 1], Proportions(unit, wideFirst)[..6];
    if RunsEndWith(b, q) {
      assert b[|b| - |q| + 5] == q[5];
    }
  }

  lemma OneMorePlace(r: seq<nat>, p: Place, wideFirst: bool)
    requires |r| % 2 == 1 && AllPositive(r)
    ensures var before := Expand(r[..|r| - 1]);
            StandsAt(Expand(r), p, wideFirst) <==>
            || StandsAt(before, p, wideFirst)
            || (&& EndsHere(r, wideFirst) && p.unit == Back(r, 1) > 0
                && p.at + |Expand(Proportions(p.unit, wideFirst)[..6])| == |before|)
  {
    var before := Expand(r[..|r| - 1]);
    LastOff(r);
    hide Expand, EndsHere, Back, Proportions;
    if p.unit > 0 {
      PatternParts(p.unit, wideFirst);
      if p.at + Length(p.unit, wideFirst) <= |before| {
        LastPartCounts(p, wideFirst);
        StandsInPrefix(before, Copies(IsDarkRun(|r| - 1), r[|r| - 1]), p, wideFirst);
      } else {
        NewPlace(r, p, wideFirst);
      }
    }
  }

  lemma LastPartCounts(p: Place, wideFirst: bool)
    requires p.unit > 0
    ensures |Expand(Proportions(p.unit, wideFirst)[..6])| < Length(p.unit, wideFirst)
  {
    PatternParts(p.unit, wideFirst);
    CopiesLength(false, Proportions(p.unit, wideFirst)[6]);
    hide Expand;
  }

  lemma RoomForPlace(r: seq<nat>, wideFirst: bool)
    requires |r| % 2 == 1 && AllPositive(r) && EndsHere(r, wideFirst)
    ensures Back(r, 1) > 0
    ensures |Expand(Proportions(Back(r, 1), wideFirst)[..6])| <= |Expand(r[..|r| - 1])|
  {
    EndsHereIs(r, wideFirst);
    var before, q := r[..|r| - 1], Proportions(Back(r, 1), wideFirst);
    PatternParts(Back(r, 1), wideFirst);
    EndsWithRuns(before, q[..6]);
    hide Expand;
  }

  /** Where a pattern that ends in the last run begins. */
  function LastPlace(r: seq<nat>, wideFirst: bool): (p: Place)
    requires |r| % 2 == 1 && AllPositive(r) && EndsHere(r, wideFirst)
  {
    RoomForPlace(r, wideFirst);
    Place(|Expand(r[..|r| - 1])| - |Expand(Proportions(Back(r, 1), wideFirst)[..6])|, Back(r, 1))
  }

  lemma MorePlaces(r: seq<nat>, p: Place, wideFirst: bool)
    requires |r| % 2 == 1 && AllPositive(r)
    ensures p in Patterns(Expand(r), wideFirst) <==>
            || p in Patterns(Expand(r[..|r| - 1]), wideFirst)
            || (EndsHere(r, wideFirst) && p == LastPlace(r, wideFirst))
  {
    hide Expand, EndsHere, StandsAt, Patterns, Proportions, Back;
    PlaceInRange(Expand(r), p, wideFirst);
    PlaceInRange(Expand(r[..|r| - 1]), p, wideFirst);
    OneMorePlace(r, p, wideFirst);
    if EndsHere(r, wideFirst) {
      RoomForPlace(r, wideFirst);
    }
  }

  lemma LastIsNewPlace(r: seq<nat>, wideFirst: bool)
    requires |r| % 2 == 1 && AllPositive(r) && EndsHere(r, wideFirst)
    ensures LastPlace(r, wideFirst) !in Patterns(Expand(r[..|r| - 1]), wideFirst)
  {
    hide Expand, EndsHere, StandsAt, Patterns, Proportions, Back;
    RoomForPlace(r, wideFirst);
    var p := LastPlace(r, wideFirst);
    LastPartCounts(p, wideFirst);
    TooLate(Expand(r[..|r| - 1]), p, wideFirst);
    PlaceInRange(Expand(r[..|r| - 1]), p, wideFirst);
  }

  /** With each light run at most one pattern of either kind is new. */
  lemma PatternsGrow(r: seq<nat>, wideFirst: bool)
    requires |r| % 2 == 1 && AllPositive(r)
    ensures |Patterns(Expand(r), wideFirst)|
         == |Patterns(Expand(r[..|r| - 1]), wideFirst)| + B2N(EndsHere(r, wideFirst))
  {
    hide Expand, EndsHere, StandsAt, Patterns, LastPlace;
    var now, past := Patterns(Expand(r), wideFirst), Patterns(Expand(r[..|r| - 1]), wideFirst);
    forall p ensures p in now <==> p in past || (EndsHere(r, wideFirst) && p == LastPlace(r, wideFirst)) {
      MorePlaces(r, p, wideFirst);
    }
    if EndsHere(r, wideFirst) {
      LastIsNewPlace(r, wideFirst);
      assert now == past + {LastPlace(r, wideFirst)};
    } else {
      assert now == past;
    }
  }

  lemma TooLate(line: Line, p: Place, wideFirst: bool)
    ensures p.at + Length(p.unit, wideFirst) > |line| ==> !StandsAt(line, p, wideFirst)
  {
  }

  /** A dark run ends no pattern. */
  lemma DarkEndsNone(r: seq<nat>, p: Place, wideFirst: bool)
    requires |r| % 2 == 0 && r != [] && AllPositive(r)
    ensures StandsAt(Expand(r), p, wideFirst) <==> StandsAt(Expand(r[..|r| - 1]), p, wideFirst)
  {
    var m := |r| - 1;
    var line, before, e := Expand(r), Expand(r[..m]), p.at + Length(p.unit, wideFirst);
    LastOff(r);
    assert IsDarkRun(m);
    CopiesLength(true, r[m]);
    TooLate(before, p, wideFirst);
    TooLate(line, p, wideFirst);
    if p.unit > 0 {
      if e <= |before| {
        StandsInPrefix(before, Copies(true, r[m]), p, wideFirst);
      } else if e <= |line| {
        PatternParts(p.unit, wideFirst);
        StandsEnds(line, p, wideFirst);
        EndsLight(p.unit, wideFirst);
        EndsDark(before, r[m], e);
        OtherEnd(line[..e], Expand(Proportions(p.unit, wideFirst)));
      }
    }
  }

  lemma OtherEnd(p: Line, q: Line)
    requires p != [] && q != [] && FromEnd(p, 0) != FromEnd(q, 0)
    ensures !EndsWith(p, q)
  {
    if EndsWith(p, q) {
      SameFromEnd(p, q, 0);
    }
  }

  lemma EndsLight(n: nat, wideFirst: bool)
    requires n > 0
    ensures Length(n, wideFirst) > 0 && !FromEnd(Expand(Proportions(n, wideFirst)), 0)
  {
    PatternParts(n, wideFirst);
    LastOfExpand(Proportions(n, wideFirst));
  }

  lemma EndsDark(before: Line, n: nat, e: nat)
    requires |before| < e <= |before| + n
    ensures |before + Copies(true, n)| >= e && FromEnd((before + Copies(true, n))[..e], 0)
  {
  }

  lemma NoneInNothing(wideFirst: bool)
    ensures Patterns([], wideFirst) == {}
  {
  }

  /** The patterns that the runs end are the patterns that stand in the line. */
  lemma {:induction false} PatternsAreCounted(r: seq<nat>)
    requires AllPositive(r)
    ensures AllPatterns(r) == |Patterns(Expand(r), true)| + |Patterns(Expand(r), false)|
  {
    hide Patterns, StandsAt, PatternsEndingAt, EndsHere;
    if r == [] {
      NoneInNothing(true);
      NoneInNothing(false);
    } else {
      var before := r[..|r| - 1];
      PatternsAreCounted(before);
      if |r| % 2 == 1 {
        PatternsEndHere(r);
        PatternsGrow(r, true);
        PatternsGrow(r, false);
      } else {
        SamePatterns(r, true);
        SamePatterns(r, false);
      }
    }
  }

  lemma SamePatterns(r: seq<nat>, wideFirst: bool)
    requires |r| % 2 == 0 && r != [] && AllPositive(r)
    ensures Patterns(Expand(r), wideFirst) == Patterns(Expand(r[..|r| - 1]), wideFirst)
  {
    hide Patterns, StandsAt, Expand;
    forall p ensures p in Patterns(Expand(r), wideFirst) <==> p in Patterns(Expand(r[..|r| - 1]), wideFirst) {
      PlaceInRange(Expand(r), p, wideFirst);
      PlaceInRange(Expand(r[..|r| - 1]), p, wideFirst);
      DarkEndsNone(r, p, wideFirst);
    }
  }

  // ---- the border ----

  function WithBorder(line: Line, size: nat): Line {
    Copies(false, size) + line + Copies(false, size)
  }

  lemma {:induction false} LongerFirstRun(r: seq<nat>, size: nat)
    requires r != []
    ensures Expand(r[0 := r[0] + size]) == Copies(false, size) + Expand(r)
  {
    hide Expand, Copies;
    var m := |r| - 1;
    if m == 0 {
      OneRun(r);
      OneRun(r[0 := r[0] + size]);
      CopiesAdd(false, size, r[0]);
    } else {
      var first: nat := r[0] + size;
      var before: seq<nat> := r[..m];
      var longer: seq<nat> := before[0 := first];
      LongerFirstRun(before, size);
      ExpandMore(before, r[m]);
      ExpandMore(longer, r[m]);
      assert r == before + [r[m]] && r[0 := first] == longer + [r[m]];
    }
  }

  lemma LongerLastRun(r: seq<nat>, size: nat)
    requires r != []
    ensures var m := |r| - 1;
            Expand(r[m := r[m] + size]) == Expand(r) + Copies(IsDarkRun(m), size)
  {
    var m := |r| - 1;
    assert r[m := r[m] + size][..m] == r[..m];
    CopiesAdd(IsDarkRun(m), r[m], size);
  }

  lemma BorderedIsPositive(r: seq<nat>, size: nat)
    requires r != [] && size > 0 && forall k :: 1 <= k < |r| ==> r[k] >= 1
    ensures AllPositive(Bordered(r, size))
  {
  }

  lemma BorderedParts(r: seq<nat>, size: nat)
    requires r != []
    ensures var s, m := BorderBefore(r, size), |r| - 1;
            && s == r[0 := r[0] + size]
            && Bordered(r, size) == (if IsDarkRun(m) then s + [size] else s[m := s[m] + size])
            && (IsDarkRun(m) ==> !IsDarkRun(|s|))
  {
  }

  lemma BorderedExpands(r: seq<nat>, size: nat)
    requires r != []
    ensures Expand(Bordered(r, size)) == Copies(false, size) + Expand(r) + Copies(false, size)
  {
    hide Expand, Copies, IsDarkRun, Bordered, BorderBefore;
    var s := BorderBefore(r, size);
    BorderedParts(r, size);
    LongerFirstRun(r, size);
    LongerLastRun(s, size);
    ExpandMore(s, size);
  }

  /** The runs with their light borders make up the line with its light borders. */
  lemma BorderedMakesTheLine(line: Line, size: nat)
    requires size > 0
    ensures AllPositive(Bordered(Runs(line), size))
    ensures Expand(Bordered(Runs(line), size)) == WithBorder(line, size)
  {
    hide Runs, Expand, Bordered;
    RunsMakeTheLine(line);
    BorderedIsPositive(Runs(line), size);
    BorderedExpands(Runs(line), size);
  }

  // ---- the whole score ----

  /** A line costs its long runs and 40 for every finder-like pattern in it and its border. */
  ghost function LineScore(line: Line, size: nat): nat {
    var bordered := WithBorder(line, size);
    AlikePoints(line) + 40 * (|Patterns(bordered, true)| + |Patterns(bordered, false)|)
  }

  lemma LinePenaltyIsScore(line: Line, size: nat)
    requires size > 0
    ensures LinePenalty(line, size) == LineScore(line, size)
  {
    hide AllRunPoints, AllPatterns, AlikePoints, Patterns, Runs, Bordered, Expand, WithBorder;
    RunPointsAreAlikePoints(line);
    BorderedMakesTheLine(line, size);
    PatternsAreCounted(Bordered(Runs(line), size));
  }

  /** The first n rows. */
  ghost function RowScores(g: Grid, n: nat): nat
    requires n <= |g|
  {
    if n == 0 then 0 else RowScores(g, n - 1) + LineScore(g[n - 1], |g|)
  }

  lemma {:induction false} RowsPenaltyIsScore(g: Grid, n: nat)
    requires n <= |g|
    ensures RowsPenalty(g, n) == RowScores(g, n)
  {
    hide LinePenalty, LineScore;
    if n > 0 {
      RowsPenaltyIsScore(g, n - 1);
      LinePenaltyIsScore(g[n - 1], |g|);
    }
  }

  /**
   The score of a symbol: its rows, the rows of the transposed symbol, 3 for every block of two by two
   modules of one colour, and 10 for every step of five percent that the dark modules are out of balance.
   */
  lemma PenaltyIsScore(g: Grid)
    requires |g| > 0 && Square(g, |g|)
    ensures var n := |g|;
            var dark := |Selected(c => IsDarkModule(g, c), n, n)|;
            Penalty(g) == RowScores(g, n) + RowScores(Transposed(g), n)
                          + 3 * |Selected(c => OneColour(g, c), n - 1, n - 1)| + 10 * Imbalance(dark, n * n)
  {
    hide RowsPenalty, ColumnsPenalty, BlocksAbove, DarkAbove, Imbalance, Selected, RowScores, Transposed;
    RowsPenaltyIsScore(g, |g|);
    ColumnsAreRows(g, |g|);
    RowsPenaltyIsScore(Transposed(g), |g|);
    BlocksAreCells(g, |g| - 1);
    DarkAreCells(g, |g|);
  }

  // ---- rows and columns count alike ----

  function Mirrored(s: set<Cell>): set<Cell> {
    set c | c in s :: Cell(c.y, c.x)
  }

  lemma {:induction false} MirroredSize(s: set<Cell>)
    ensures |Mirrored(s)| == |s|
  {
    if s != {} {
      var c :| c in s;
      MirroredSize(s - {c});
      assert Mirrored(s) == Mirrored(s - {c}) + {Cell(c.y, c.x)};
    }
  }

  lemma SelectedMirrored(f: Cell -> bool, g: Cell -> bool, n: nat)
    requires forall c :: g(c) == f(Cell(c.y, c.x))
    ensures |Selected(f, n, n)| == |Selected(g, n, n)|
  {
    hide Block;
    MirroredSize(Selected(f, n, n));
    forall c ensures c in Selected(g, n, n) <==> c in Mirrored(Selected(f, n, n)) {
      var d := Cell(c.y, c.x);
      assert c == Cell(d.y, d.x);
    }
    assert Selected(g, n, n) == Mirrored(Selected(f, n, n));
  }

  lemma OneColourMirrored(g: Grid, c: Cell)
    requires Square(g, |g|)
    ensures OneColour(Transposed(g), c) == OneColour(g, Cell(c.y, c.x))
  {
    if InGrid(|g| - 1, c) {
      UniformIsOneColour(g, c.y, c.x);
      UniformIsOneColour(Transposed(g), c.x, c.y);
    }
  }

  /** Turning a symbol over its diagonal leaves its score alone: columns are scored like rows. */
  lemma PenaltyOfTransposed(g: Grid)
    requires |g| > 0 && Square(g, |g|)
    ensures Penalty(Transposed(g)) == Penalty(g)
  {
    hide Penalty, Imbalance, Selected, RowScores, Transposed, OneColour, IsDarkModule;
    var h, n := Transposed(g), |g|;
    PenaltyIsScore(g);
    PenaltyIsScore(h);
    TransposedTwice(g);
    forall c ensures OneColour(h, c) == OneColour(g, Cell(c.y, c.x)) {
      OneColourMirrored(g, c);
    }
    forall c ensures IsDarkModule(h, c) == IsDarkModule(g, Cell(c.y, c.x)) {
      DarkMirrored(g, c);
    }
    SelectedMirrored(c => OneColour(g, c), c => OneColour(h, c), n - 1);
    SelectedMirrored(c => IsDarkModule(g, c), c => IsDarkModule(h, c), n);
  }

  lemma DarkMirrored(g: Grid, c: Cell)
    requires Square(g, |g|)
    ensures IsDarkModule(Transposed(g), c) == IsDarkModule(g, Cell(c.y, c.x))
  {
  }
}
