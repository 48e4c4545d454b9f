/**
 The penalty score of a symbol (getPenaltyScore of deps/qrcodegen.cpp), specified through the runs
 of equal modules of each row and column and proved for the program's running counters.
 */
module QrPenalty {
  import opened ZigZag
  import opened QrGrid

  const PENALTY_N1 := 3
  const PENALTY_N2 := 3
  const PENALTY_N3 := 40
  const PENALTY_N4 := 10

  type Line = seq<bool>

  // ---- runs ----

  /**
   The lengths of the runs of a line, light and dark in turn and light first: only the first
   length can be zero.
   */
  function Runs(line: Line): (r: seq<nat>)
    ensures |r| > 0
  {
    if line == [] then [0] else NextRuns(Runs(line[..|line| - 1]), line[|line| - 1])
  }

  function NextRuns(r: seq<nat>, dark: bool): (s: seq<nat>)
    requires |r| > 0
    ensures |s| > 0
  {
    if dark == IsDarkRun(|r| - 1) then r[|r| - 1 := r[|r| - 1] + 1] else r + [1]
  }

  predicate IsDarkRun(k: nat) {
    k % 2 == 1
  }

  function Copies(colour: bool, n: nat): Line {
    seq(n, _ => colour)
  }

  function Expand(r: seq<nat>): Line {
    if r == [] then [] else Expand(r[..|r| - 1]) + Copies(IsDarkRun(|r| - 1), r[|r| - 1])
  }

  lemma GrowLastRun(r: seq<nat>)
    requires |r| > 0
    ensures var n := |r| - 1; Expand(r[n := r[n] + 1]) == Expand(r) + [IsDarkRun(n)]
  {
    var n := |r| - 1;
    var colour := IsDarkRun(n);
    assert r[n := r[n] + 1][..n] == r[..n];
    assert Copies(colour, r[n] + 1) == Copies(colour, r[n]) + [colour];
  }

  lemma PushRun(r: seq<nat>)
    ensures Expand(r + [1]) == Expand(r) + [IsDarkRun(|r|)]
  {
    assert (r + [1])[..|r|] == r;
    assert Copies(IsDarkRun(|r|), 1) == [IsDarkRun(|r|)];
  }

  lemma StepRuns(r: seq<nat>, dark: bool)
    requires |r| > 0 && forall k :: 1 <= k < |r| ==> r[k] >= 1
    ensures Expand(NextRuns(r, dark)) == Expand(r) + [dark]
    ensures forall k :: 1 <= k < |NextRuns(r, dark)| ==> NextRuns(r, dark)[k] >= 1
  {
    hide Expand;
    GrowLastRun(r);
    PushRun(r);
  }

  lemma ExpandNothing()
    ensures Expand([0]) == []
  {
    var r: seq<nat> := [0];
    assert r[..0] == [];
  }

  /** The runs make up the line, and no two neighbouring runs could be joined. */
  lemma {:induction false} RunsMakeTheLine(line: Line)
    ensures Expand(Runs(line)) == line
    ensures forall k :: 1 <= k < |Runs(line)| ==> Runs(line)[k] >= 1
  {
    hide Expand;
    if line == [] {
      ExpandNothing();
    } else {
      var before := line[..|line| - 1];
      RunsMakeTheLine(before);
      StepRuns(Runs(before), line[|line| - 1]);
      assert line == before + [line[|line| - 1]];
      hide NextRuns;
    }
  }

  // ---- the points of a line ----

  /** A run of length L >= 5 costs L - 2. */
  function RunPoints(length: nat): nat {
    if length >= 5 then length - 2 else 0
  }

  function AllRunPoints(r: seq<nat>): nat {
    if r == [] then 0 else AllRunPoints(r[..|r| - 1]) + RunPoints(r[|r| - 1])
  }

  /** Run i of the runs so far, counted from the last one; missing runs have length zero. */
  function Back(r: seq<nat>, i: nat): nat {
    if i < |r| then r[|r| - 1 - i] else 0
  }

  function B2N(b: bool): nat {
    if b then 1 else 0
  }

  /**
   How many finder-like patterns end with the last of the runs r: the dark runs n, 3n and n with
   light runs n between them, and beside them light runs of n at one end and 4n at the other.
   */
  function PatternsEndingAt(r: seq<nat>): nat {
    var n := Back(r, 1);
    var core := n > 0 && Back(r, 2) == n && Back(r, 3) == 3 * n && Back(r, 4) == n && Back(r, 5) == n;
    B2N(core && Back(r, 0) >= 4 * n && Back(r, 6) >= n) + B2N(core && Back(r, 6) >= 4 * n && Back(r, 0) >= n)
  }

  /** The patterns that end with one of the light runs of r. */
  function AllPatterns(r: seq<nat>): nat {
    if r == [] then 0
    else AllPatterns(r[..|r| - 1]) + (if IsDarkRun(|r| - 1) then 0 else PatternsEndingAt(r))
  }

  /** The first run with the light border before it. */
  function BorderBefore(r: seq<nat>, size: nat): (s: seq<nat>)
    ensures |s| == |r|
  {
    if r == [] then [] else r[0 := r[0] + size]
  }

  /** All runs of a line, with a light border of the given size at both ends. */
  function Bordered(r: seq<nat>, size: nat): (s: seq<nat>)
    requires |r| > 0
    ensures |s| > 0 && !IsDarkRun(|s| - 1)
  {
    var s := BorderBefore(r, size);
    if IsDarkRun(|s| - 1) then s + [size] else s[|s| - 1 := s[|s| - 1] + size]
  }

  function LinePenalty(line: Line, size: nat): nat {
    AllRunPoints(Runs(line)) + AllPatterns(Bordered(Runs(line), size)) * PENALTY_N3
  }

  // ---- the program's run history ----

  /** The last seven runs, the latest first. */
  function History(r: seq<nat>): (h: seq<nat>)
    ensures |h| == 7
  {
    [Back(r, 0), Back(r, 1), Back(r, 2), Back(r, 3), Back(r, 4), Back(r, 5), Back(r, 6)]
  }

  method FinderPenaltyAddHistory(currentRunLength: nat, runHistory: seq<nat>, size: nat, ghost done: seq<nat>)
    returns (newHistory: seq<nat>)
    requires size > 0 && runHistory == History(BorderBefore(done, size))
    requires forall k :: 1 <= k < |done| ==> done[k] >= 1
    ensures newHistory == History(BorderBefore(done + [currentRunLength], size))
  {
    var length := currentRunLength;
    if runHistory[0] == 0 {
      length := length + size;
    }
    newHistory := [length] + runHistory[..6];
    ghost var s := BorderBefore(done, size);
    assert BorderBefore(done + [currentRunLength], size) == s + [length];
  }

  /** No run is longer than a line of the given size with its two borders. */
  predicate RunsFit(r: seq<nat>, bound: nat) {
    forall k :: 0 <= k < |r| ==> r[k] <= bound
  }

  method FinderPenaltyCountPatterns(runHistory: seq<nat>, size: nat, ghost r: seq<nat>) returns (count: nat)
    requires runHistory == History(r) && RunsFit(r, 3 * size)
    ensures count == PatternsEndingAt(r)
    ensures runHistory[1] <= size * 3
  {
    var n := runHistory[1];
    assert n <= size * 3;
    var core := n > 0 && runHistory[2] == n && runHistory[3] == n * 3 && runHistory[4] == n && runHistory[5] == n;
    count := (if core && runHistory[0] >= n * 4 && runHistory[6] >= n then 1 else 0)
           + (if core && runHistory[6] >= n * 4 && runHistory[0] >= n then 1 else 0);
  }

  lemma LastBorder(r: seq<nat>, size: nat)
    requires |r| > 0
    ensures var n := |r| - 1;
            Bordered(r, size) == BorderBefore(if IsDarkRun(n) then r + [size] else r[..n] + [r[n] + size], size)
  {
  }

  method FinderPenaltyTerminateAndCount(currentRunColor: bool, currentRunLength: nat, runHistory: seq<nat>,
                                        size: nat, ghost r: seq<nat>)
    returns (count: nat)
    requires size > 0 && |r| > 0 && currentRunColor == IsDarkRun(|r| - 1) && currentRunLength == r[|r| - 1]
    requires RunsFit(r, size) && forall k :: 1 <= k < |r| ==> r[k] >= 1
    requires runHistory == History(BorderBefore(r[..|r| - 1], size))
    ensures count == PatternsEndingAt(Bordered(r, size))
  {
    hide History, PatternsEndingAt, RunsFit, BorderBefore, Bordered, IsDarkRun;
    var history, length := runHistory, currentRunLength;
    ghost var done := r[..|r| - 1];
    assert r == done + [r[|r| - 1]];
    if currentRunColor {
      history := FinderPenaltyAddHistory(length, history, size, done);
      done := r;
      length := 0;
    }
    length := length + size;
    history := FinderPenaltyAddHistory(length, history, size, done);
    LastBorder(r, size);
    WithBorders(r, size, size);
    count := FinderPenaltyCountPatterns(history, size, Bordered(r, size));
  }

  /** What the runs before the current one, and the current one so far, have cost. */
  function ScoreSoFar(r: seq<nat>, size: nat): nat
    requires |r| > 0
  {
    AllRunPoints(r) + AllPatterns(BorderBefore(r[..|r| - 1], size)) * PENALTY_N3
  }

  /** One more module of the colour at hand. */
  lemma SameRun(r: seq<nat>, runColor: bool, run: nat, runHistory: seq<nat>, size: nat)
    requires Tracks(r, runColor, run, runHistory, size)
    ensures Tracks(NextRuns(r, runColor), runColor, run + 1, runHistory, size)
    ensures ScoreSoFar(NextRuns(r, runColor), size)
         == ScoreSoFar(r, size) + (if run + 1 == 5 then PENALTY_N1 else if run + 1 > 5 then 1 else 0)
  {
    hide History, BorderBefore;
    var n := |r| - 1;
    assert r[n := run + 1][..n] == r[..n];
  }

  /** A module of the other colour. */
  lemma NextRun(r: seq<nat>, runColor: bool, run: nat, runHistory: seq<nat>, size: nat)
    requires Tracks(r, runColor, run, runHistory, size)
    ensures r[..|r| - 1] + [run] == r
    ensures Tracks(NextRuns(r, !runColor), !runColor, 1, History(BorderBefore(r, size)), size)
    ensures ScoreSoFar(NextRuns(r, !runColor), size) == ScoreSoFar(r + [1], size)
  {
    hide History, BorderBefore, ScoreSoFar;
    assert (r + [1])[..|r|] == r;
  }

  lemma NextScore(r: seq<nat>, size: nat)
    requires |r| > 0
    ensures ScoreSoFar(r + [1], size) ==
            ScoreSoFar(r, size)
            + (if IsDarkRun(|r| - 1) then 0 else PatternsEndingAt(BorderBefore(r, size)) * PENALTY_N3)
  {
    var n := |r| - 1;
    assert (r + [1])[..n + 1] == r;
    if n > 0 {
      assert BorderBefore(r, size)[..n] == BorderBefore(r[..n], size);
    } else {
      assert BorderBefore(r, size)[..0] == [];
    }
    hide PatternsEndingAt;
  }

  lemma PatternsOfBordered(r: seq<nat>, size: nat)
    requires |r| > 0
    ensures AllPatterns(Bordered(r, size)) ==
            AllPatterns(BorderBefore(r[..|r| - 1], size)) + PatternsEndingAt(Bordered(r, size))
  {
    var n := |r| - 1;
    var s, b := BorderBefore(r, size), Bordered(r, size);
    if n > 0 {
      assert s[..n] == BorderBefore(r[..n], size);
    } else {
      assert s[..0] == [];
    }
    if IsDarkRun(n) {
      assert b[..n + 1] == s;
    } else {
      assert b[..n] == s[..n];
    }
  }

  ghost predicate Tracks(r: seq<nat>, runColor: bool, run: nat, runHistory: seq<nat>, size: nat) {
    && |r| > 0 && runColor == IsDarkRun(|r| - 1) && run == r[|r| - 1]
    && runHistory == History(BorderBefore(r[..|r| - 1], size))
  }

  lemma NothingSeen(size: nat)
    ensures Tracks(Runs([]), false, 0, [0, 0, 0, 0, 0, 0, 0], size) && ScoreSoFar(Runs([]), size) == 0
  {
    var r: seq<nat> := [0];
    assert r[..0] == [];
    assert AllRunPoints(r) == 0;
  }

  lemma OneMoreModule(line: Line, x: nat)
    requires x < |line|
    ensures var r := Runs(line[..x]);
            Runs(line[..x + 1]) == NextRuns(r, line[x])
    ensures forall k :: 1 <= k < |Runs(line[..x])| ==> Runs(line[..x])[k] >= 1
    ensures RunsFit(Runs(line[..x]), x)
  {
    assert line[..x + 1][..x] == line[..x];
    RunsMakeTheLine(line[..x]);
    RunsAreShort(line[..x]);
  }

  lemma {:induction false} RunsAreShort(line: Line)
    ensures RunsFit(Runs(line), |line|)
  {
    if line != [] {
      RunsAreShort(line[..|line| - 1]);
    }
  }

  lemma WithBorders(r: seq<nat>, length: nat, size: nat)
    requires |r| > 0 && RunsFit(r, length) && length <= size
    ensures RunsFit(r, size) && RunsFit(BorderBefore(r, size), 3 * size) && RunsFit(Bordered(r, size), 3 * size)
  {
  }

  lemma LineTotal(line: Line, size: nat)
    ensures var r := Runs(line);
            && (forall k :: 1 <= k < |r| ==> r[k] >= 1)
            && LinePenalty(line, size) == ScoreSoFar(r, size) + PatternsEndingAt(Bordered(r, size)) * PENALTY_N3
  {
    RunsMakeTheLine(line);
    PatternsOfBordered(Runs(line), size);
    hide PatternsEndingAt, Bordered, Runs, AllPatterns;
  }

  /** One row or column: the running counters of the program. */
  method ScoreLine(line: Line, size: nat) returns (result: nat)
    requires size == |line| > 0
    ensures result == LinePenalty(line, size)
  {
    hide Runs, ScoreSoFar, PatternsEndingAt, Expand, History, BorderBefore, Bordered, AllPatterns, LinePenalty, RunsFit;
    hide NextRuns;
    result := 0;
    var runColor, run, runHistory := false, 0, [0, 0, 0, 0, 0, 0, 0];
    NothingSeen(size);
    assert line[..0] == [];
    for x := 0 to |line|
      invariant Tracks(Runs(line[..x]), runColor, run, runHistory, size)
      invariant result == ScoreSoFar(Runs(line[..x]), size)
    {
      ghost var r := Runs(line[..x]);
      OneMoreModule(line, x);
      if line[x] == runColor {
        SameRun(r, runColor, run, runHistory, size);
        run := run + 1;
        if run == 5 {
          result := result + PENALTY_N1;
        } else if run > 5 {
          result := result + 1;
        }
      } else {
        NextRun(r, runColor, run, runHistory, size);
        NextScore(r, size);
        runHistory := FinderPenaltyAddHistory(run, runHistory, size, r[..|r| - 1]);
        if !runColor {
          WithBorders(r, x, size);
          var count := FinderPenaltyCountPatterns(runHistory, size, BorderBefore(r, size));
          result := result + count * PENALTY_N3;
        }
        runColor := line[x];
        run := 1;
      }
    }
    assert line[..|line|] == line;
    LineTotal(line, size);
    RunsAreShort(line);
    WithBorders(Runs(line), size, size);
    var count := FinderPenaltyTerminateAndCount(runColor, run, runHistory, size, Runs(line));
    result := result + count * PENALTY_N3;
  }

  // ---- the whole symbol ----

  function Column(g: Grid, x: nat): (line: Line)
    requires Square(g, |g|) && x < |g|
    ensures |line| == |g|
  {
    seq(|g|, y requires 0 <= y < |g| => g[y][x])
  }

  function RowsPenalty(g: Grid, n: nat): nat
    requires n <= |g|
  {
    if n == 0 then 0 else RowsPenalty(g, n - 1) + LinePenalty(g[n - 1], |g|)
  }

  function ColumnsPenalty(g: Grid, n: nat): nat
    requires Square(g, |g|) && n <= |g|
  {
    if n == 0 then 0 else ColumnsPenalty(g, n - 1) + LinePenalty(Column(g, n - 1), |g|)
  }

  /** A block of two by two modules of one colour, by its top left corner. */
  predicate Uniform(g: Grid, x: nat, y: nat)
    requires Square(g, |g|) && x + 1 < |g| && y + 1 < |g|
  {
    g[y][x] == g[y][x + 1] == g[y + 1][x] == g[y + 1][x + 1]
  }

  function BlocksInRow(g: Grid, y: nat, n: nat): (k: nat)
    requires Square(g, |g|) && n < |g| && y + 1 < |g|
    ensures k <= n
  {
    if n == 0 then 0 else BlocksInRow(g, y, n - 1) + B2N(Uniform(g, n - 1, y))
  }

  function BlocksAbove(g: Grid, n: nat): (k: nat)
    requires Square(g, |g|) && n < |g|
  {
    if n == 0 then 0 else BlocksAbove(g, n - 1) + BlocksInRow(g, n - 1, |g| - 1)
  }

  function DarkInLine(line: Line): (k: nat)
    ensures k <= |line|
  {
    if line == [] then 0 else DarkInLine(line[..|line| - 1]) + B2N(line[|line| - 1])
  }

  function DarkAbove(g: Grid, n: nat): nat
    requires n <= |g|
  {
    if n == 0 then 0 else DarkAbove(g, n - 1) + DarkInLine(g[n - 1])
  }

  function Abs(a: int): nat {
    if a < 0 then -a else a
  }

  /** The program's measure of the balance of dark and light modules. */
  function Imbalance(dark: nat, total: nat): int
    requires total > 0
  {
    (Abs(dark * 20 - total * 10) + total - 1) / total - 1
  }

  predicate WithinBalance(k: int, dark: nat, total: nat) {
    (45 - 5 * k) * total <= 100 * dark <= (55 + 5 * k) * total
  }

  lemma MultiplesOrdered(p: int, q: int, t: nat)
    requires p <= q
    ensures p * t <= q * t
  {
    assert (q - p) * t >= 0;
    assert (q - p) * t == q * t - p * t;
  }

  lemma CeilingDivision(d: nat, t: nat, k: int)
    requires t > 0
    ensures d <= k * t <==> (d + t - 1) / t <= k
  {
    var q := (d + t - 1) / t;
    assert q * t <= d + t - 1 < q * t + t;
    if q <= k {
      MultiplesOrdered(q, k, t);
    } else {
      MultiplesOrdered(k, q - 1, t);
      assert (q - 1) * t == q * t - t;
    }
  }

  lemma BalanceAsDistance(k: int, dark: nat, total: nat)
    ensures WithinBalance(k, dark, total) <==> Abs(dark * 20 - total * 10) <= (k + 1) * total
  {
    assert (45 - 5 * k) * total == 50 * total - 5 * ((k + 1) * total);
    assert (55 + 5 * k) * total == 50 * total + 5 * ((k + 1) * total);
  }

  /** It is the least k >= 0 for which (45-5k)% <= dark/total <= (55+5k)%, and never above 9. */
  lemma ImbalanceIsLeast(dark: nat, total: nat)
    requires dark <= total && total % 2 == 1
    ensures 0 <= Imbalance(dark, total) <= 9
    ensures forall k: nat :: WithinBalance(k, dark, total) <==> k >= Imbalance(dark, total)
  {
    var d := Abs(dark * 20 - total * 10);
    forall k: int ensures WithinBalance(k, dark, total) <==> k >= Imbalance(dark, total) {
      BalanceAsDistance(k, dark, total);
      CeilingDivision(d, total, k + 1);
    }
    CeilingDivision(d, total, 0);
    CeilingDivision(d, total, 10);
  }

  function Penalty(g: Grid): int
    requires |g| > 0 && Square(g, |g|)
  {
    RowsPenalty(g, |g|) + ColumnsPenalty(g, |g|)
    + BlocksAbove(g, |g| - 1) * PENALTY_N2
    + Imbalance(DarkAbove(g, |g|), |g| * |g|) * PENALTY_N4
  }

  method CountBlocks(g: Grid) returns (blocks: nat)
    requires |g| > 0 && Square(g, |g|)
    ensures blocks == BlocksAbove(g, |g| - 1)
  {
    blocks := 0;
    for y := 0 to |g| - 1
      invariant blocks == BlocksAbove(g, y)
    {
      for x := 0 to |g| - 1
        invariant blocks == BlocksAbove(g, y) + BlocksInRow(g, y, x)
      {
        var color := g[y][x];
        if color == g[y][x + 1] && color == g[y + 1][x] && color == g[y + 1][x + 1] {
          blocks := blocks + 1;
        }
      }
    }
  }

  method CountDark(g: Grid) returns (dark: nat)
    ensures dark == DarkAbove(g, |g|)
  {
    dark := 0;
    for y := 0 to |g|
      invariant dark == DarkAbove(g, y)
    {
      var row := g[y];
      for x := 0 to |row|
        invariant dark == DarkAbove(g, y) + DarkInLine(row[..x])
      {
        assert row[..x + 1][..x] == row[..x];
        if row[x] {
          dark := dark + 1;
        }
      }
      assert row[..|row|] == row;
    }
  }

  method GetPenaltyScore(g: Grid) returns (result: int)
    requires |g| > 0 && Square(g, |g|)
    ensures result == Penalty(g)
  {
    hide LinePenalty, BlocksAbove, DarkAbove, Imbalance;
    result := 0;
    for y := 0 to |g|
      invariant result == RowsPenalty(g, y)
    {
      var score := ScoreLine(g[y], |g|);
      result := result + score;
    }
    for x := 0 to |g|
      invariant result == RowsPenalty(g, |g|) + ColumnsPenalty(g, x)
    {
      var score := ScoreLine(Column(g, x), |g|);
      result := result + score;
    }
    var blocks := CountBlocks(g);
    var dark := CountDark(g);
    var k := ImbalanceOf(dark, |g| * |g|);
    result := result + blocks * PENALTY_N2 + k * PENALTY_N4;
  }

  method ImbalanceOf(dark: nat, total: nat) returns (k: int)
    requires total > 0
    ensures k == Imbalance(dark, total)
  {
    var distance := dark * 20 - total * 10;
    if distance < 0 {
      distance := -distance;
    }
    k := (distance + total - 1) / total - 1;
  }

  // ---- the score fits the program's integers ----

  lemma {:induction false} RunPointsBound(line: Line)
    ensures AllRunPoints(Runs(line)) <= |line| && |Runs(line)| <= |line| + 1
    ensures AllRunPoints(Runs(line)[..|Runs(line)| - 1]) + Runs(line)[|Runs(line)| - 1] <= |line|
  {
    if line == [] {
      var r: seq<nat> := [0];
      assert r[..0] == [];
    } else {
      var before := line[..|line| - 1];
      RunPointsBound(before);
      var r := Runs(before);
      assert r[|r| - 1 := r[|r| - 1] + 1][..|r| - 1] == r[..|r| - 1];
      assert (r + [1])[..|r|] == r;
    }
  }

  function Total(r: seq<nat>): nat {
    if r == [] then 0 else Total(r[..|r| - 1]) + r[|r| - 1]
  }

  /** How many runs could be the middle of a finder-like pattern. */
  function Middles(r: seq<nat>): (k: nat)
    ensures 3 * k <= Total(r)
  {
    if r == [] then 0 else Middles(r[..|r| - 1]) + (if r[|r| - 1] >= 3 then 1 else 0)
  }

  /** Each pattern has its middle three runs before its end, and is counted at most twice. */
  lemma {:induction false} PatternsBound(r: seq<nat>)
    ensures AllPatterns(r) <= 2 * Middles(r[..if |r| >= 3 then |r| - 3 else 0])
  {
    if r != [] {
      var n := |r|;
      PatternsBound(r[..n - 1]);
      if n >= 4 {
        assert r[..n - 1][..n - 4] == r[..n - 4];
        assert r[..n - 3][..n - 4] == r[..n - 4];
      } else {
        assert r[..n - 1][..0] == r[..0];
      }
    }
  }

  lemma {:induction false} OneLongerRun(r: seq<nat>, s: seq<nat>)
    requires |r| == |s| && forall k :: 1 <= k < |r| ==> s[k] == r[k]
    ensures Middles(s) <= Middles(r) + 1
  {
    if |r| > 1 {
      OneLongerRun(r[..|r| - 1], s[..|s| - 1]);
    } else if |r| == 1 {
      assert r[..0] == [] && s[..0] == [];
    }
  }

  lemma {:induction false} TotalOfPrefix(r: seq<nat>, n: nat)
    requires n <= |r|
    ensures Total(r[..n]) <= Total(r)
  {
    if n < |r| {
      TotalOfPrefix(r[..|r| - 1], n);
      assert r[..|r| - 1][..n] == r[..n];
    } else {
      assert r[..n] == r;
    }
  }

  lemma {:induction false} TotalOfRuns(line: Line)
    ensures Total(Runs(line)) == |line|
  {
    if line == [] {
      var r: seq<nat> := [0];
      assert r[..0] == [];
    } else {
      var r := Runs(line[..|line| - 1]);
      TotalOfRuns(line[..|line| - 1]);
      assert r[|r| - 1 := r[|r| - 1] + 1][..|r| - 1] == r[..|r| - 1];
      assert (r + [1])[..|r|] == r;
    }
  }

  const LINE_BOUND := 4977

  lemma LineBound(line: Line, size: nat)
    requires |line| <= 177
    ensures LinePenalty(line, size) <= LINE_BOUND
  {
    hide Runs, AllPatterns, AllRunPoints, Middles, Total;
    RunPointsBound(line);
    var r, s := Runs(line), Bordered(Runs(line), size);
    PatternsBound(s);
    TotalOfRuns(line);
    var n := if |s| >= 3 then |s| - 3 else 0;
    OneLongerRun(r[..n], s[..n]);
    TotalOfPrefix(r, n);
  }

  lemma {:induction false} LinesBound(g: Grid, n: nat)
    requires Square(g, |g|) && n <= |g| <= 177
    ensures RowsPenalty(g, n) <= n * LINE_BOUND && ColumnsPenalty(g, n) <= n * LINE_BOUND
  {
    hide LinePenalty, Column;
    if n > 0 {
      LinesBound(g, n - 1);
      LineBound(g[n - 1], |g|);
      LineBound(Column(g, n - 1), |g|);
    }
  }

  lemma {:induction false} BlocksBound(g: Grid, n: nat)
    requires Square(g, |g|) && n < |g| <= 177
    ensures BlocksAbove(g, n) <= 177 * n
  {
    if n > 0 { BlocksBound(g, n - 1); }
  }

  lemma {:induction false} DarkBound(g: Grid, n: nat)
    requires Square(g, |g|) && n <= |g|
    ensures DarkAbove(g, n) <= |g| * n
  {
    if n > 0 {
      DarkBound(g, n - 1);
      assert |g| * n == |g| * (n - 1) + |g|;
    }
  }

  const LONG_MAX := 0x7FFF_FFFF

  /** The bound that getPenaltyScore asserts. */
  const SCORE_BOUND := 2568888

  lemma OddSquare(n: nat)
    requires n % 2 == 1
    ensures (n * n) % 2 == 1
  {
    var h := n / 2;
    assert n * n == 2 * (2 * h * h + 2 * h) + 1;
  }

  /** The assertion at the end of getPenaltyScore holds for every symbol, so the first mask tried beats LONG_MAX. */
  lemma PenaltyAssertionHolds(g: Grid)
    requires IsSize(|g|) && |g| <= 177 && Square(g, |g|)
    ensures 0 <= Penalty(g) <= SCORE_BOUND < LONG_MAX
  {
    hide RowsPenalty, ColumnsPenalty, BlocksAbove, DarkAbove, Imbalance, Square;
    LinesBound(g, |g|);
    BlocksBound(g, |g| - 1);
    DarkBound(g, |g|);
    OddSquare(|g|);
    ImbalanceIsLeast(DarkAbove(g, |g|), |g| * |g|);
  }
}
