/**
 Searching, splitting and replacing in strings (Split and Replace of
 common/src/utils/StringUtils.cpp).
 */
module StringSearch {

  predicate MatchAt(s: string, p: string, i: int) {
    0 <= i && i + |p| <= |s| && s[i..i + |p|] == p
  }

  predicate Contains(s: string, p: string) {
    exists i :: 0 <= i <= |s| && MatchAt(s, p, i)
  }

  /** The first match of p in s that starts at from or later; -1 when there is none. */
  function Find(s: string, p: string, from: nat): (k: int)
    requires from <= |s|
    ensures k == -1 || (from <= k && MatchAt(s, p, k))
    ensures forall i :: from <= i && MatchAt(s, p, i) ==> 0 <= k <= i
    decreases |s| - from
  {
    if MatchAt(s, p, from) then from
    else if from < |s| then Find(s, p, from + 1)
    else -1
  }

  /** The pieces between the matches, taken from left to right. */
  function Split(s: string, delim: string): (pieces: seq<string>)
    requires delim != ""
    ensures pieces != []
    decreases |s|
  {
    var k := Find(s, delim, 0);
    if k == -1 then [s] else [s[..k]] + Split(s[k + |delim|..], delim)
  }

  function Join(pieces: seq<string>, sep: string): string {
    if pieces == [] then ""
    else if |pieces| == 1 then pieces[0]
    else pieces[0] + sep + Join(pieces[1..], sep)
  }

  /** A match in a suffix is a match in the string. */
  lemma MatchInSuffix(s: string, p: string, from: nat, i: nat)
    requires from <= |s|
    ensures MatchAt(s[from..], p, i) <==> MatchAt(s, p, from + i)
  {
    if i + |p| <= |s| - from {
      assert s[from..][i..i + |p|] == s[from + i..from + i + |p|];
    }
  }

  lemma FindInSuffix(s: string, p: string, from: nat)
    requires from <= |s|
    ensures Find(s, p, from) == if Find(s[from..], p, 0) == -1 then -1 else from + Find(s[from..], p, 0)
  {
    hide Find, MatchAt;
    var k, j := Find(s, p, from), Find(s[from..], p, 0);
    if k != -1 {
      MatchInSuffix(s, p, from, k - from);
    }
    if j != -1 {
      MatchInSuffix(s, p, from, j);
    }
  }

  lemma FromTheStart(s: string)
    ensures s[0..] == s
  {
  }

  method SplitString(s: string, delim: string) returns (res: seq<string>)
    requires delim != ""
    ensures res == Split(s, delim)
  {
    hide Find, MatchAt;
    var pos := 0;
    res := [];
    FromTheStart(s);
    while true
      invariant 0 <= pos <= |s|
      invariant res + Split(s[pos..], delim) == Split(s, delim)
      decreases |s| - pos
    {
      FindInSuffix(s, delim, pos);
      var end := Find(s, delim, pos);
      if end == -1 {
        break;
      }
      Matched(s, delim, end);
      assert s[pos..][end - pos + |delim|..] == s[end + |delim|..];
      assert s[pos..][..end - pos] == s[pos..end];
      res := res + [s[pos..end]];
      pos := end + |delim|;
    }
    res := res + [s[pos..]];
  }

  lemma Matched(s: string, p: string, k: int)
    requires MatchAt(s, p, k)
    ensures 0 <= k <= k + |p| <= |s| && s == s[..k] + p + s[k + |p|..]
  {
  }

  // ---- what splitting means ----

  /** Joining the pieces with the delimiter gives back the string. */
  lemma {:induction false} JoinSplit(s: string, delim: string)
    requires delim != ""
    ensures Join(Split(s, delim), delim) == s
    decreases |s|
  {
    hide MatchAt;
    var k := Find(s, delim, 0);
    if k != -1 {
      Matched(s, delim, k);
      var rest := Split(s[k + |delim|..], delim);
      JoinSplit(s[k + |delim|..], delim);
      assert ([s[..k]] + rest)[1..] == rest;
    }
  }

  /** No piece contains the delimiter. */
  lemma {:induction false} PiecesAreFree(s: string, delim: string)
    requires delim != ""
    ensures forall j :: 0 <= j < |Split(s, delim)| ==> !Contains(Split(s, delim)[j], delim)
    decreases |s|
  {
    var k := Find(s, delim, 0);
    if k != -1 {
      PiecesAreFree(s[k + |delim|..], delim);
      forall i ensures !MatchAt(s[..k], delim, i) {
        if MatchAt(s[..k], delim, i) {
          assert s[..k][i..i + |delim|] == s[i..i + |delim|];
          assert MatchAt(s, delim, i);
        }
      }
    }
  }

  /** Splitting the joined pieces of a one-character delimiter gives them back. */
  lemma {:induction false} SplitJoin(pieces: seq<string>, c: char)
    requires pieces != [] && forall j :: 0 <= j < |pieces| ==> c !in pieces[j]
    ensures Split(Join(pieces, [c]), [c]) == pieces
  {
    hide Find, MatchAt;
    var p := pieces[0];
    if |pieces| == 1 {
      FirstOf(p, "", c);
      assert p + "" == p;
    } else {
      var rest := Join(pieces[1..], [c]);
      SplitJoin(pieces[1..], c);
      var s := p + [c] + rest;
      FirstOf(p, [c] + rest, c);
      assert p + ([c] + rest) == s;
      assert s[..|p|] == p && s[|p| + 1..] == rest;
      assert pieces == [p] + pieces[1..];
    }
  }

  /** The first place of a character that the first part lacks and the second begins with. */
  lemma FirstOf(p: string, q: string, c: char)
    requires c !in p && (q == "" || q[0] == c)
    ensures Find(p + q, [c], 0) == if q == "" then -1 else |p|
  {
    var s := p + q;
    forall i ensures MatchAt(s, [c], i) <==> 0 <= i < |s| && s[i] == c {
      if 0 <= i < |s| {
        assert s[i..i + 1] == [s[i]];
      }
    }
    if q != "" {
      assert s[|p|] == c;
    }
  }

  // ---- replacing ----

  /** All matches replaced. */
  function Replaced(s: string, from: string, to: string): string {
    if from == "" then s else Join(Split(s, from), to)
  }

  /** What the program makes of an empty replacement: it does not look at the character after a match. */
  function Erased(s: string, from: string): string
    requires from != ""
    decreases |s|
  {
    var k := Find(s, from, 0);
    if k == -1 then s else
      var rest := s[k + |from|..];
      if rest == "" then s[..k] else s[..k] + [rest[0]] + Erased(rest[1..], from)
  }

  /** One match replaced: what is still to be searched follows. */
  lemma ReplaceStep(s: string, from: string, to: string)
    requires from != "" && Find(s, from, 0) != -1
    ensures var k := Find(s, from, 0);
            k + |from| <= |s| &&
            var rest := s[k + |from|..];
            && Replaced(s, from, to) == s[..k] + to + Replaced(rest, from, to)
            && Erased(s, from) == if rest == "" then s[..k] else s[..k] + [rest[0]] + Erased(rest[1..], from)
  {
    hide Find, MatchAt;
    var k := Find(s, from, 0);
    Matched(s, from, k);
    var rest := Split(s[k + |from|..], from);
    assert ([s[..k]] + rest)[1..] == rest;
  }

  lemma NoMatchLeft(s: string, from: string, to: string)
    requires from != "" && Find(s, from, 0) == -1
    ensures Replaced(s, from, to) == s && Erased(s, from) == s
  {
  }

  function Remaining(s: string, from: string, to: string): string
    requires from != ""
  {
    if to == "" then Erased(s, from) else Replaced(s, from, to)
  }

  /** What is done, then what becomes of the part still to be searched, is the goal. */
  ghost predicate ReplaceSoFar(result: string, start: nat, from: string, to: string, goal: string) {
    && from != ""
    && if start <= |result| then result[..start] + Remaining(result[start..], from, to) == goal else result == goal
  }

  lemma ReplaceNext(result: string, start: nat, from: string, to: string, goal: string)
    requires ReplaceSoFar(result, start, from, to, goal)
    ensures var k := if start <= |result| then Find(result, from, start) else -1;
            var toLen := if to == "" then 1 else |to|;
            if k == -1 then result == goal
            else (k + |from| <= |result|
                  && ReplaceSoFar(result[..k] + to + result[k + |from|..], k + toLen, from, to, goal))
  {
    hide Find, MatchAt, Replaced, Erased;
    if start <= |result| {
      var done, rest := result[..start], result[start..];
      FindInSuffix(result, from, start);
      var k := Find(result, from, start);
      if k == -1 {
        NoMatchLeft(rest, from, to);
        assert done + rest == result;
      } else {
        Matched(result, from, k);
        assert rest[k - start + |from|..] == result[k + |from|..] && result[..k] == done + rest[..k - start];
        ReplaceGoesOn(done, rest, k - start, result[k + |from|..], from, to, goal);
      }
    }
  }

  lemma Cut(a: string, b: string)
    ensures (a + b)[..|a|] == a && (a + b)[|a|..] == b
  {
  }

  lemma Regroup(a: string, b: string, c: string, d: string)
    ensures a + (b + c + d) == a + b + c + d
  {
  }

  lemma ReplaceGoesOn(done: string, rest: string, at: nat, after: string, from: string, to: string, goal: string)
    requires from != "" && at == Find(rest, from, 0) && at + |from| <= |rest| && after == rest[at + |from|..]
    requires done + Remaining(rest, from, to) == goal
    ensures ReplaceSoFar(done + rest[..at] + to + after, |done| + at + (if to == "" then 1 else |to|), from, to, goal)
  {
    hide Find, MatchAt, Replaced, Erased, ReplaceSoFar;
    ReplaceStep(rest, from, to);
    var before := done + rest[..at];
    if to != "" {
      Regroup(done, rest[..at], to, Replaced(after, from, to));
      ReplacedSoFar(before + to, after, from, to, goal);
    } else if after != "" {
      Regroup(done, rest[..at], [after[0]], Erased(after[1..], from));
      ReplacedSoFar(before + [after[0]], after[1..], from, to, goal);
      NothingBetween(before, after);
    } else {
      assert before + "" + "" == before;
      BehindTheEnd(before, from, to);
    }
  }

  lemma NothingBetween(before: string, after: string)
    requires after != ""
    ensures before + "" + after == before + [after[0]] + after[1..]
  {
  }

  lemma ReplacedSoFar(done: string, rest: string, from: string, to: string, goal: string)
    requires from != "" && done + Remaining(rest, from, to) == goal
    ensures ReplaceSoFar(done + rest, |done|, from, to, goal)
  {
    hide Remaining;
    Cut(done, rest);
  }

  lemma BehindTheEnd(result: string, from: string, to: string)
    requires from != ""
    ensures ReplaceSoFar(result, |result| + 1, from, to, result)
  {
    hide Remaining;
  }

  method Replace(str: string, from: string, to: string) returns (result: string)
    ensures to != "" || from == "" ==> result == Replaced(str, from, to)
    ensures to == "" && from != "" ==> result == Erased(str, from)
  {
    hide Find, MatchAt, Replaced, Erased, ReplaceSoFar, Remaining;
    ReplaceStarts(str, from, to);
    if from == "" {
      return str;
    }
    result := str;
    var startPos := 0;
    var toLen := if to == "" then 1 else |to|;
    ghost var goal := if to == "" then Erased(str, from) else Replaced(str, from, to);
    while true
      invariant startPos >= 0 && ReplaceSoFar(result, startPos, from, to, goal)
      decreases |result| - startPos
    {
      var k := if startPos <= |result| then Find(result, from, startPos) else -1;
      ReplaceNext(result, startPos, from, to, goal);
      if k == -1 {
        break;
      }
      result := result[..k] + to + result[k + |from|..];
      startPos := k + toLen;
    }
  }

  lemma ReplaceStarts(s: string, from: string, to: string)
    ensures from == "" ==> Replaced(s, from, to) == s
    ensures from != "" ==> ReplaceSoFar(s, 0, from, to, if to == "" then Erased(s, from) else Replaced(s, from, to))
  {
    hide Erased, Split, Join;
    FromTheStart(s);
    if from != "" {
      assert s[..0] + Remaining(s[0..], from, to) == Remaining(s, from, to);
    }
  }

  /** A character at which no match starts is passed over. */
  lemma PassOver(s: string, from: string, to: string)
    requires from != "" && s != "" && !MatchAt(s, from, 0)
    ensures Split(s, from)[0] != "" && Split(s[1..], from) == Split(s, from)[0 := Split(s, from)[0][1..]]
    ensures Replaced(s, from, to) == [s[0]] + Replaced(s[1..], from, to)
  {
    FindInSuffix(s, from, 1);
    var k := Find(s, from, 0);
    assert k == Find(s, from, 1);
    hide Find, MatchAt;
    var tail := Split(s[1..], from);
    var pieces := Split(s, from);
    if k != -1 {
      Matched(s, from, k);
      assert k > 0;
      assert s[1..][k - 1 + |from|..] == s[k + |from|..];
      assert s[..k][1..] == s[1..][..k - 1];
    }
    assert pieces[0] != "" && pieces[0][0] == s[0];
    assert tail == pieces[0 := pieces[0][1..]];
    FirstPiece(pieces, to);
  }

  /** The first character of what is joined is that of the first piece. */
  lemma FirstPiece(pieces: seq<string>, sep: string)
    requires pieces != [] && pieces[0] != ""
    ensures Join(pieces, sep) == [pieces[0][0]] + Join(pieces[0 := pieces[0][1..]], sep)
  {
    var rest := pieces[0 := pieces[0][1..]];
    assert rest[1..] == pieces[1..];
  }

  lemma FirstPieceEmpty(s: string, from: string)
    requires from != ""
    ensures MatchAt(s, from, 0) ==> Split(s, from)[0] == "" && |Split(s, from)| > 1
  {
  }
}
