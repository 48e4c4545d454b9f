/**
 Replacing by nothing: Replace of common/src/utils/StringUtils.cpp does not look at the character
 after a match it has erased (lines 16-21), so a match that touches the one before it can stay.
 */
module Erasing {
  import opened StringSearch

  /** No match comes right after another one. */
  ghost predicate NoneTouch(s: string, from: string)
    requires from != ""
  {
    forall j :: 0 < j < |Split(s, from)| - 1 ==> Split(s, from)[j] != ""
  }

  /** An empty replacement removes the matches, provided no two of them touch. */
  lemma {:induction false} ErasedIsReplaced(s: string, from: string)
    requires from != ""
    requires NoneTouch(s, from)
    ensures Erased(s, from) == Replaced(s, from, "")
    decreases |s|
  {
    hide MatchAt, Find, Erased, Replaced, Split;
    var k := Find(s, from, 0);
    if k == -1 {
      NoMatchLeft(s, from, "");
    } else {
      ReplaceStep(s, from, "");
      Matched(s, from, k);
      SplitStep(s, from);
      var rest := s[k + |from|..];
      if rest == "" {
        NothingSplit(from);
        assert s[..k] + "" + "" == s[..k];
      } else {
        FirstPieceEmpty(rest, from);
        assert Split(s, from)[1] == Split(rest, from)[0];
        PassOver(rest, from, "");
        TouchEarlier(s, rest, from);
        ErasedIsReplaced(rest[1..], from);
      }
    }
  }

  lemma TouchEarlier(s: string, rest: string, from: string)
    requires from != "" && rest != "" && !MatchAt(rest, from, 0)
    requires |Split(s, from)| > 0 && Split(s, from)[1..] == Split(rest, from)
    ensures NoneTouch(s, from) ==> NoneTouch(rest[1..], from)
  {
    PassOver(rest, from, "");
    var pieces, tail := Split(rest, from), Split(rest[1..], from);
    hide MatchAt, Find, Split, Replaced;
    if NoneTouch(s, from) {
      forall j | 0 < j < |tail| - 1 ensures tail[j] != "" {
        assert tail[j] == pieces[j] == Split(s, from)[j + 1];
      }
    }
  }

  /** Two matches that touch: the second one stays, whatever they match. */
  lemma TouchingMatchStays(from: string)
    requires from != ""
    ensures Erased(from + from, from) == from && Replaced(from + from, from, "") == ""
  {
    hide Find, MatchAt, Erased, Replaced;
    var s := from + from;
    FoundAtOnce(from, from);
    ReplaceStep(s, from, "");
    assert s[|from|..] == from && s[..0] == "";
    FoundAtOnce(from, "");
    assert from + "" == from;
    ReplaceStep(from, from, "");
    assert from[|from|..] == "";
    TooShort("", from);
    NoMatchLeft("", from, "");
    TooShort(from[1..], from);
    NoMatchLeft(from[1..], from, "");
    assert [from[0]] + from[1..] == from;
  }

  lemma FoundAtOnce(from: string, rest: string)
    ensures Find(from + rest, from, 0) == 0
  {
    assert MatchAt(from + rest, from, 0);
  }

  lemma TooShort(s: string, from: string)
    requires |s| < |from|
    ensures Find(s, from, 0) == -1
  {
  }

  // ---- search strings that do not overlap themselves ----

  /** No proper end of the string is also its beginning, so two matches never overlap. */
  ghost predicate Unbordered(from: string) {
    from != "" && forall n :: 0 < n < |from| ==> from[..n] != from[|from| - n..]
  }

  lemma SingleCharacterIsUnbordered(c: char)
    ensures Unbordered([c])
  {
  }

  /** Of two matches that overlap, the end of one is the beginning of the other. */
  lemma Overlap(from: string, rest: string, i: nat)
    requires 0 < i < |from|
    ensures MatchAt(from + rest, from, i) ==> from[..|from| - i] == from[i..]
  {
    var s := from + rest;
    if MatchAt(s, from, i) {
      assert s[i..i + |from|][..|from| - i] == s[i..|from|] == from[i..];
    }
  }

  lemma NoneInside(from: string, rest: string, i: nat)
    requires Unbordered(from) && 0 < i < |from|
    ensures !MatchAt(from + rest, from, i)
  {
    hide MatchAt;
    Overlap(from, rest, i);
    var n := |from| - i;
    assert from[..n] != from[|from| - n..];
  }

  /** What is left of a match without its first character is passed over. */
  lemma {:induction false} RestOfMatch(from: string, rest: string, i: nat)
    requires Unbordered(from) && 0 < i <= |from|
    ensures Replaced(from[i..] + rest, from, "") == from[i..] + Replaced(rest, from, "")
    decreases |from| - i
  {
    hide Replaced, MatchAt, Find, Unbordered;
    var s := from[i..] + rest;
    if i == |from| {
      assert s == rest && from[i..] + Replaced(rest, from, "") == Replaced(rest, from, "");
    } else {
      assert (from + rest)[i..] == s;
      NoneInside(from, rest, i);
      MatchInSuffix(from + rest, from, i, 0);
      PassOver(s, from, "");
      assert s[1..] == from[i + 1..] + rest;
      RestOfMatch(from, rest, i + 1);
      assert from[i..] == [from[i]] + from[i + 1..];
    }
  }

  /** The match that is skipped after another one costs at least its length. */
  lemma SkippedMatch(rest: string, from: string)
    requires Unbordered(from) && MatchAt(rest, from, 0)
    ensures rest != "" && |Replaced(rest[1..], from, "")| == |from| - 1 + |Replaced(rest, from, "")|
  {
    hide Replaced, Find, Unbordered;
    UnborderedIsSome(from);
    var after := rest[|from|..];
    assert rest == from + after;
    FoundAtOnce(from, after);
    ReplaceStep(rest, from, "");
    assert rest[1..] == from[1..] + after;
    RestOfMatch(from, after, 1);
  }

  lemma UnborderedIsSome(from: string)
    requires Unbordered(from)
    ensures from != ""
  {
  }

  /** The program never erases more, and erases less as soon as two matches touch. */
  lemma {:induction false} ErasesNoMore(s: string, from: string)
    requires Unbordered(from)
    ensures |Erased(s, from)| >= |Replaced(s, from, "")|
    ensures !NoneTouch(s, from) ==> |Erased(s, from)| > |Replaced(s, from, "")|
    decreases |s|
  {
    hide Replaced, Erased, Unbordered;
    UnborderedIsSome(from);
    var k := Find(s, from, 0);
    if k == -1 {
      NoMatchLeft(s, from, "");
    } else {
      ReplaceStep(s, from, "");
      Matched(s, from, k);
      var rest := s[k + |from|..];
      SplitStep(s, from);
      if rest == "" {
        NothingSplit(from);
      } else if MatchAt(rest, from, 0) {
        SkippedMatch(rest, from);
        ErasesNoMore(rest[1..], from);
      } else {
        PassOver(rest, from, "");
        ErasesNoMore(rest[1..], from);
        TouchLater(s, rest, from);
      }
    }
  }

  lemma SplitStep(s: string, from: string)
    requires from != "" && Find(s, from, 0) != -1
    ensures var k := Find(s, from, 0); k + |from| <= |s| && Split(s, from) == [s[..k]] + Split(s[k + |from|..], from)
  {
    hide Find, MatchAt;
    Matched(s, from, Find(s, from, 0));
  }

  lemma NothingSplit(from: string)
    requires from != ""
    ensures Split("", from) == [""] && Replaced("", from, "") == ""
  {
    TooShort("", from);
  }

  /** With no match at its front, the matches that touch in what follows are those of its tail. */
  lemma TouchLater(s: string, rest: string, from: string)
    requires from != "" && rest != "" && !MatchAt(rest, from, 0)
    requires |Split(s, from)| > 0 && Split(s, from)[1..] == Split(rest, from)
    ensures NoneTouch(rest[1..], from) ==> NoneTouch(s, from)
  {
    PassOver(rest, from, "");
    var pieces, tail := Split(rest, from), Split(rest[1..], from);
    hide MatchAt, Find, Split, Replaced;
    if NoneTouch(rest[1..], from) {
      forall j | 0 < j < |Split(s, from)| - 1 ensures Split(s, from)[j] != "" {
        assert Split(s, from)[j] == pieces[j - 1];
        if j > 1 {
          assert tail[j - 1] == pieces[j - 1];
        }
      }
    }
  }

  /**
   For a search string that does not overlap itself, such as a single character, an empty replacement
   removes all matches exactly when no two of them touch.
   */
  lemma ErasedExactly(s: string, from: string)
    requires Unbordered(from)
    ensures Erased(s, from) == Replaced(s, from, "") <==> NoneTouch(s, from)
  {
    hide Erased, Replaced, NoneTouch, Unbordered;
    UnborderedIsSome(from);
    ErasesNoMore(s, from);
    if NoneTouch(s, from) {
      ErasedIsReplaced(s, from);
    }
  }

  lemma TwiceInFive(c: char)
    ensures Split([c, c, c, c, c], [c, c]) == ["", "", [c]]
  {
    hide Find, MatchAt, Split;
    var f, five, three, one := [c, c], [c, c, c, c, c], [c, c, c], [c];
    assert five == f + three && three == f + one;
    FoundAtOnce(f, three);
    FoundAtOnce(f, one);
    SplitStep(five, f);
    SplitStep(three, f);
    assert five[2..] == three && three[2..] == one && five[..0] == "" && three[..0] == "";
    TooShort(one, f);
    NotSplit(one, f);
  }

  lemma NotSplit(s: string, from: string)
    requires from != "" && Find(s, from, 0) == -1
    ensures Split(s, from) == [s]
  {
  }

  lemma LastOfFiveStays(c: char)
    ensures Erased([c, c, c, c, c], [c, c]) == [c]
  {
    hide Find, MatchAt, Erased;
    var f, five, three, two := [c, c], [c, c, c, c, c], [c, c, c], [c, c];
    assert five == f + three && two == f + "";
    FoundAtOnce(f, three);
    FoundAtOnce(f, "");
    ReplaceStep(five, f, "");
    ReplaceStep(two, f, "");
    assert five[2..] == three && three[1..] == two && two[2..] == "" && five[..0] == "" && two[..0] == "";
    assert "" + [c] + "" == [c];
  }

  lemma JoinOfTwo(s: string)
    ensures Join(["", s], "") == s
  {
    var pieces: seq<string> := ["", s];
    assert pieces[1..] == [s];
    assert "" + "" + s == s;
  }

  /** For other search strings matches can touch and the result be right all the same. */
  lemma OverlapsCanMakeUp(c: char)
    ensures !Unbordered([c, c]) && !NoneTouch([c, c, c, c, c], [c, c])
    ensures Erased([c, c, c, c, c], [c, c]) == [c] == Replaced([c, c, c, c, c], [c, c], "")
  {
    hide Find, MatchAt, Erased, Split;
    var f := [c, c];
    assert f[..1] == f[1..];
    TwiceInFive(c);
    LastOfFiveStays(c);
    var pieces: seq<string> := ["", "", [c]];
    assert pieces[1] == "";
    JoinOfTwo([c]);
    assert pieces[1..] == ["", [c]];
    assert Join(pieces, "") == "" + "" + [c];
  }
}
